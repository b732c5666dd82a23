/** The byte layout an archive index is read from, written out as a serializer: the header, the
    table descriptors back to back, then each table's resource entries in table order. Reading a
    serialized index gives it back, and reading loses nothing of the bytes it consumes. */
module Layout {
  import opened Outcome
  import opened LittleEndian
  import opened Records
  import opened Directory

  /** Concatenation of byte strings, front to back. */
  function Concat(xs: seq<seq<byte>>): seq<byte>
  {
    if xs == [] then [] else xs[0] + Concat(xs[1..])
  }

  /** Concatenating 12-byte records takes 12 bytes per record. */
  lemma {:induction false} ConcatLength(xs: seq<seq<byte>>)
    requires forall i :: 0 <= i < |xs| ==> |xs[i]| == 12
    ensures |Concat(xs)| == 12 * |xs|
    decreases |xs|
  {
    if xs != [] {
      ConcatLength(xs[1..]);
    }
  }

  /** Record `k` of a concatenation of 12-byte records sits at byte `12 * k`. */
  lemma {:induction false} ConcatRecords(xs: seq<seq<byte>>, k: nat)
    requires forall i :: 0 <= i < |xs| ==> |xs[i]| == 12
    requires k < |xs|
    ensures |Concat(xs)| == 12 * |xs|
    ensures Concat(xs)[12 * k..12 * k + 12] == xs[k]
    decreases k
  {
    ConcatLength(xs);
    var rest := xs[1..];
    ConcatLength(rest);
    var c := Concat(rest);
    assert Concat(xs) == xs[0] + c;
    if k > 0 {
      ConcatRecords(rest, k - 1);
      var m := 12 * (k - 1);
      assert c[m..m + 12] == xs[k];
      assert Concat(xs)[12 * k..12 * k + 12] == c[m..m + 12];
    }
  }

  /** The descriptors of `ts`, back to back. */
  function EncodeDirectory(ts: seq<Table>): seq<byte>
  {
    Concat(seq(|ts|, k requires 0 <= k < |ts| => EncodeDescriptor(ts[k])))
  }

  /** The entries `es`, back to back. */
  function EncodeEntries(es: seq<Resource>): seq<byte>
  {
    Concat(seq(|es|, j requires 0 <= j < |es| => EncodeResource(es[j])))
  }

  /** Every table's entries, in table order. */
  function EncodeDictionary(ts: seq<Table>): seq<byte>
  {
    if ts == [] then [] else EncodeEntries(ts[0].resources) + EncodeDictionary(ts[1..])
  }

  /** The bytes an index is stored as, from the start of the archive to the end of its
      dictionary. */
  function Serialize(idx: Index): seq<byte>
  {
    EncodeHeader(idx.header) + EncodeDirectory(idx.tables) + EncodeDictionary(idx.tables)
  }

  /** Descriptor `k` of the directory. */
  lemma {:induction false} DirectoryAt(ts: seq<Table>, k: nat)
    requires k < |ts|
    ensures |EncodeDirectory(ts)| == 12 * |ts|
    ensures EncodeDirectory(ts)[12 * k..12 * k + 12] == EncodeDescriptor(ts[k])
  {
    ConcatRecords(seq(|ts|, i requires 0 <= i < |ts| => EncodeDescriptor(ts[i])), k);
  }

  /** The directory takes 12 bytes per table. */
  lemma {:induction false} DirectoryLength(ts: seq<Table>)
    ensures |EncodeDirectory(ts)| == 12 * |ts|
  {
    if ts != [] {
      DirectoryAt(ts, 0);
    }
  }

  /** Entry `j` of an entry list. */
  lemma {:induction false} EntriesLayoutAt(es: seq<Resource>, j: nat)
    requires j < |es|
    ensures |EncodeEntries(es)| == 12 * |es|
    ensures EncodeEntries(es)[12 * j..12 * j + 12] == EncodeResource(es[j])
  {
    ConcatRecords(seq(|es|, i requires 0 <= i < |es| => EncodeResource(es[i])), j);
  }

  /** An entry list takes 12 bytes per entry. */
  lemma {:induction false} EntriesLength(es: seq<Resource>)
    ensures |EncodeEntries(es)| == 12 * |es|
  {
    if es != [] {
      EntriesLayoutAt(es, 0);
    }
  }

  /** The dictionary of tables whose counts match their entry lists takes 12 bytes per declared
      entry. */
  lemma {:induction false} DictionaryLength(ts: seq<Table>)
    requires forall k :: 0 <= k < |ts| ==> |ts[k].resources| == ts[k].numResources
    ensures |EncodeDictionary(ts)| == 12 * EntryCount(ts)
    decreases |ts|
  {
    if ts != [] {
      EntriesLength(ts[0].resources);
      DictionaryLength(ts[1..]);
    }
  }

  /** Reading stored entries gives them back. */
  lemma {:induction false} EntriesRoundTrip(s: seq<byte>, q: nat, es: seq<Resource>)
    requires q + 12 * |es| <= |s| && s[q..q + 12 * |es|] == EncodeEntries(es)
    ensures Entries(s, q, |es|) == es
  {
    forall j | 0 <= j < |es|
      ensures Entries(s, q, |es|)[j] == es[j]
    {
      EntryRoundTripAt(s, q, es, j);
    }
  }

  /** Entry `j` of stored entries reads back as itself. */
  lemma {:induction false} EntryRoundTripAt(s: seq<byte>, q: nat, es: seq<Resource>, j: nat)
    requires q + 12 * |es| <= |s| && s[q..q + 12 * |es|] == EncodeEntries(es) && j < |es|
    ensures Entries(s, q, |es|)[j] == es[j]
  {
    EntriesAt(s, q, |es|, j);
    EntriesLayoutAt(es, j);
    SubSlice(s, q, q + 12 * |es|, 12 * j, 12 * j + 12);
    ResourceRoundTrip(es[j], s, q + 12 * j);
  }

  /** Reading a stored directory gives back the tables without their entries. */
  lemma {:induction false} DirectoryRoundTrip(s: seq<byte>, q: nat, ts: seq<Table>)
    requires q + 12 * |ts| <= |s| && s[q..q + 12 * |ts|] == EncodeDirectory(ts)
    ensures forall k :: 0 <= k < |ts| ==> Descriptors(s, q, |ts|)[k] == ts[k].(resources := [])
  {
    forall k | 0 <= k < |ts|
      ensures Descriptors(s, q, |ts|)[k] == ts[k].(resources := [])
    {
      DescriptorRoundTripAt(s, q, ts, k);
    }
  }

  /** Descriptor `k` of a stored directory reads back as table `k` without its entries. */
  lemma {:induction false} DescriptorRoundTripAt(s: seq<byte>, q: nat, ts: seq<Table>, k: nat)
    requires q + 12 * |ts| <= |s| && s[q..q + 12 * |ts|] == EncodeDirectory(ts) && k < |ts|
    ensures Descriptors(s, q, |ts|)[k] == ts[k].(resources := [])
  {
    DescriptorsAt(s, q, |ts|, k);
    DirectoryAt(ts, k);
    SubSlice(s, q, q + 12 * |ts|, 12 * k, 12 * k + 12);
    DescriptorRoundTrip(ts[k], s, q + 12 * k);
  }

  /** Reading a stored dictionary into the bare tables `us` gives back the tables `ts`. */
  lemma {:induction false} DictionaryRoundTrip(s: seq<byte>, p: nat, ts: seq<Table>, us: seq<Table>)
    requires |us| == |ts|
    requires forall k :: 0 <= k < |ts| ==> us[k] == ts[k].(resources := [])
    requires forall k :: 0 <= k < |ts| ==> |ts[k].resources| == ts[k].numResources
    requires p + |EncodeDictionary(ts)| <= |s| && s[p..p + |EncodeDictionary(ts)|] == EncodeDictionary(ts)
    ensures p + 12 * EntryCount(us) <= |s|
    ensures FillFrom(s, p, us) == ts
    decreases |ts|
  {
    if ts == [] {
      assert FillFrom(s, p, us) == [];
    } else {
      assert us[0].numResources == ts[0].numResources;
      var n: nat := us[0].numResources;
      var head := EncodeEntries(ts[0].resources);
      var tail := EncodeDictionary(ts[1..]);
      EntriesLength(ts[0].resources);
      SplitAt(s, p, head, tail);
      DictionaryRoundTrip(s, p + 12 * n, ts[1..], us[1..]);
      DictionaryRoundTripCons(s, p, ts, us);
    }
  }

  /** The inductive step of `DictionaryRoundTrip`: the first table's stored entries, then the
      rest already read back. */
  lemma {:induction false} DictionaryRoundTripCons(s: seq<byte>, p: nat, ts: seq<Table>, us: seq<Table>)
    requires |us| == |ts| && ts != []
    requires us[0] == ts[0].(resources := []) && |ts[0].resources| == ts[0].numResources
    requires p + 12 * |ts[0].resources| <= |s|
    requires s[p..p + 12 * |ts[0].resources|] == EncodeEntries(ts[0].resources)
    requires var m := p + 12 * us[0].numResources;
      m + 12 * EntryCount(us[1..]) <= |s| && FillFrom(s, m, us[1..]) == ts[1..]
    ensures p + 12 * EntryCount(us) <= |s|
    ensures FillFrom(s, p, us) == ts
  {
    EntriesRoundTrip(s, p, ts[0].resources);
    assert EntryCount(us) == us[0].numResources + EntryCount(us[1..]);
    FillFromCons(s, p, us);
    FilledHead(s, p, us, ts[0]);
    var f := FillFrom(s, p, us);
    assert f[0] == ts[0] && f[1..] == ts[1..];
    assert f == [f[0]] + f[1..];
    assert ts == [ts[0]] + ts[1..];
  }

  /** When the entries read for the first bare table are those of `t`, the first table read is
      `t`. */
  lemma {:induction false} FilledHead(s: seq<byte>, p: nat, us: seq<Table>, t: Table)
    requires p + 12 * EntryCount(us) <= |s| && us != [] && us[0] == t.(resources := [])
    requires FillFrom(s, p, us)[0].resources == t.resources
    ensures FillFrom(s, p, us)[0] == t
  {
    FillFromKeeps(s, p, us, 0);
  }

  /** Reading a serialized well-formed index from byte `p` gives it back, and stops right after
      it. */
  lemma {:induction false} ArchiveRoundTrip(s: seq<byte>, p: nat, idx: Index)
    requires WellFormed(idx)
    requires p + |Serialize(idx)| <= |s| && s[p..p + |Serialize(idx)|] == Serialize(idx)
    ensures ParseArchive(s, p).Ok?
    ensures ParseArchive(s, p).value.0 == idx
    ensures ParseArchive(s, p).value.1 == p + |Serialize(idx)|
  {
    StagesRoundTrip(s, p, idx);
    var us := Descriptors(s, p + 64, |idx.tables|);
    ArchiveFromStages(s, p, idx.header, us, idx.tables);
  }

  /** What each stage of construction reads back from a serialized well-formed index: its header,
      its bare tables, then its tables with their entries, ending right after it. */
  lemma {:induction false} StagesRoundTrip(s: seq<byte>, p: nat, idx: Index)
    requires WellFormed(idx)
    requires p + |Serialize(idx)| <= |s| && s[p..p + |Serialize(idx)|] == Serialize(idx)
    ensures HeaderFrom(s, p).Ok? && HeaderFrom(s, p).value.0 == idx.header
    ensures p + 64 + 12 * |idx.tables| <= |s|
    ensures var q := p + 64 + 12 * |idx.tables|;
      var us := Descriptors(s, p + 64, |idx.tables|);
      && q + 12 * EntryCount(us) == p + |Serialize(idx)|
      && FillFrom(s, q, us) == idx.tables
  {
    StoredParts(s, p, idx);
    HeaderRoundTrip(idx.header, s, p);
    TablesRoundTrip(s, p + 64, idx.tables);
    DictionaryLength(idx.tables);
  }

  /** What the directory and dictionary stages read back from a serialized directory followed by
      its dictionary, starting at byte `d`. */
  lemma {:induction false} TablesRoundTrip(s: seq<byte>, d: nat, ts: seq<Table>)
    requires forall k :: 0 <= k < |ts| ==> |ts[k].resources| == ts[k].numResources
    requires d + 12 * |ts| <= |s| && s[d..d + 12 * |ts|] == EncodeDirectory(ts)
    requires var q := d + 12 * |ts|;
      q + |EncodeDictionary(ts)| <= |s| && s[q..q + |EncodeDictionary(ts)|] == EncodeDictionary(ts)
    ensures var q := d + 12 * |ts|;
      var us := Descriptors(s, d, |ts|);
      && q + 12 * EntryCount(us) == q + |EncodeDictionary(ts)|
      && FillFrom(s, q, us) == ts
  {
    var q := d + 12 * |ts|;
    DirectoryRoundTrip(s, d, ts);
    var us := Descriptors(s, d, |ts|);
    DictionaryRoundTrip(s, q, ts, us);
    EntryCountByCounts(ts, us);
    DictionaryLength(ts);
  }

  /** Where the three parts of a serialized index sit. */
  lemma {:induction false} StoredParts(s: seq<byte>, p: nat, idx: Index)
    requires WellFormed(idx)
    requires p + |Serialize(idx)| <= |s| && s[p..p + |Serialize(idx)|] == Serialize(idx)
    ensures var ts := idx.tables;
      && |Serialize(idx)| == 64 + 12 * |ts| + 12 * EntryCount(ts)
      && s[p..p + 64] == EncodeHeader(idx.header)
      && s[p + 64..p + 64 + 12 * |ts|] == EncodeDirectory(ts)
      && s[p + 64 + 12 * |ts|..p + 64 + 12 * |ts| + |EncodeDictionary(ts)|] == EncodeDictionary(ts)
  {
    var ts := idx.tables;
    var h := EncodeHeader(idx.header);
    var dir := EncodeDirectory(ts);
    var dict := EncodeDictionary(ts);
    DirectoryLength(ts);
    DictionaryLength(ts);
    assert Serialize(idx) == h + (dir + dict);
    SplitAt(s, p, h, dir + dict);
    SplitAt(s, p + 64, dir, dict);
  }

  /** Encoding a non-empty entry list: the first entry, then the rest. */
  lemma {:induction false} EncodeEntriesCons(es: seq<Resource>)
    requires es != []
    ensures EncodeEntries(es) == EncodeResource(es[0]) + EncodeEntries(es[1..])
  {
    var xs := seq(|es|, j requires 0 <= j < |es| => EncodeResource(es[j]));
    assert xs[1..] == seq(|es| - 1, j requires 0 <= j < |es| - 1 => EncodeResource(es[1..][j]));
  }

  /** Encoding a non-empty directory: the first descriptor, then the rest. */
  lemma {:induction false} EncodeDirectoryCons(ts: seq<Table>)
    requires ts != []
    ensures EncodeDirectory(ts) == EncodeDescriptor(ts[0]) + EncodeDirectory(ts[1..])
  {
    var xs := seq(|ts|, k requires 0 <= k < |ts| => EncodeDescriptor(ts[k]));
    assert xs[1..] == seq(|ts| - 1, k requires 0 <= k < |ts| - 1 => EncodeDescriptor(ts[1..][k]));
  }

  /** Re-encoding the `n` entries read from byte `q` gives back the bytes they were read from. */
  lemma {:induction false} EntriesLossless(s: seq<byte>, q: nat, n: nat)
    requires q + 12 * n <= |s|
    ensures EncodeEntries(Entries(s, q, n)) == s[q..q + 12 * n]
    decreases n
  {
    var es := Entries(s, q, n);
    if n > 0 {
      assert es[1..] == Entries(s, q + 12, n - 1);
      EncodeEntriesCons(es);
      EntriesLossless(s, q + 12, n - 1);
      ResourceLossless(s, q);
      assert s[q..q + 12 * n] == s[q..q + 12] + s[q + 12..q + 12 * n];
    }
  }

  /** Re-encoding the `n` descriptors read from byte `q` gives back the bytes they were read
      from. */
  lemma {:induction false} DirectoryLossless(s: seq<byte>, q: nat, n: nat)
    requires q + 12 * n <= |s|
    ensures EncodeDirectory(Descriptors(s, q, n)) == s[q..q + 12 * n]
    decreases n
  {
    var ts := Descriptors(s, q, n);
    if n > 0 {
      assert ts[1..] == Descriptors(s, q + 12, n - 1);
      EncodeDirectoryCons(ts);
      DirectoryLossless(s, q + 12, n - 1);
      DescriptorLossless(s, q);
      assert s[q..q + 12 * n] == s[q..q + 12] + s[q + 12..q + 12 * n];
    }
  }

  /** Re-encoding the entries read into the bare tables `us` from byte `p` gives back the bytes
      they were read from. */
  lemma {:induction false} DictionaryLossless(s: seq<byte>, p: nat, us: seq<Table>)
    requires p + 12 * EntryCount(us) <= |s|
    requires forall k :: 0 <= k < |us| ==> us[k].resources == []
    ensures EncodeDictionary(FillFrom(s, p, us)) == s[p..p + 12 * EntryCount(us)]
    decreases |us|
  {
    if us == [] {
      assert FillFrom(s, p, us) == [];
    } else {
      var m := p + 12 * us[0].numResources;
      FillFromCons(s, p, us);
      DictionaryLossless(s, m, us[1..]);
      DictionaryLosslessCons(s, p, us);
    }
  }

  /** The inductive step of `DictionaryLossless`: the first table's entries, then the rest. */
  lemma {:induction false} DictionaryLosslessCons(s: seq<byte>, p: nat, us: seq<Table>)
    requires us != [] && us[0].resources == []
    requires p + 12 * us[0].numResources + 12 * EntryCount(us[1..]) <= |s|
    requires EntryCount(us) == us[0].numResources + EntryCount(us[1..])
    requires var m := p + 12 * us[0].numResources;
      EncodeDictionary(FillFrom(s, m, us[1..])) == s[m..m + 12 * EntryCount(us[1..])]
    ensures EncodeDictionary(FillFrom(s, p, us)) == s[p..p + 12 * EntryCount(us)]
  {
    var n: nat := us[0].numResources;
    var m := p + 12 * n;
    var e := m + 12 * EntryCount(us[1..]);
    var ts := FillFrom(s, p, us);
    FillFromCons(s, p, us);
    EntriesLossless(s, p, n);
    var head := EncodeEntries(ts[0].resources);
    var tail := EncodeDictionary(ts[1..]);
    assert head == s[p..m];
    assert tail == s[m..e];
    assert EncodeDictionary(ts) == head + tail;
    JoinSlices(s, p, m, e);
  }

  /** The first table read into, and the rest. */
  lemma {:induction false} FillFromCons(s: seq<byte>, p: nat, us: seq<Table>)
    requires p + 12 * EntryCount(us) <= |s| && us != [] && us[0].resources == []
    ensures EntryCount(us) == us[0].numResources + EntryCount(us[1..])
    ensures FillFrom(s, p, us)[0].resources == Entries(s, p, us[0].numResources)
    ensures FillFrom(s, p, us)[1..] == FillFrom(s, p + 12 * us[0].numResources, us[1..])
  {
    var ts := FillFrom(s, p, us);
    assert ts == [Filled(s, p, us[0])] + FillFrom(s, p + 12 * us[0].numResources, us[1..]);
  }

  /** Archive construction loses nothing: serializing the index it builds gives back exactly the
      bytes it consumed. */
  lemma {:induction false} ArchiveLossless(s: seq<byte>, p: nat)
    requires ParseArchive(s, p).Ok?
    ensures p <= ParseArchive(s, p).value.1 <= |s|
    ensures Serialize(ParseArchive(s, p).value.0) == s[p..ParseArchive(s, p).value.1]
  {
    ArchiveStages(s, p);
    var h := HeaderFrom(s, p).value.0;
    var n: nat := h.numResourceTypes;
    var us := Descriptors(s, p + 64, n);
    var q := p + 64 + 12 * n;
    var idx := ParseArchive(s, p).value.0;
    assert idx == Index(h, FillFrom(s, q, us));
    StagesLossless(s, p, h, us, idx.tables);
  }

  /** The bytes behind each stage of a successful construction: the header, the descriptors,
      then the entries read into them. */
  lemma {:induction false} StagesLossless(s: seq<byte>, p: nat, h: Header, us: seq<Table>, ts: seq<Table>)
    requires HeaderFrom(s, p).Ok? && HeaderFrom(s, p).value.0 == h
    requires p + 64 + 12 * h.numResourceTypes <= |s|
    requires us == Descriptors(s, p + 64, h.numResourceTypes)
    requires p + 64 + 12 * h.numResourceTypes + 12 * EntryCount(us) <= |s|
    requires ts == FillFrom(s, p + 64 + 12 * h.numResourceTypes, us)
    ensures Serialize(Index(h, ts)) == s[p..p + 64 + 12 * h.numResourceTypes + 12 * EntryCount(us)]
  {
    var n: nat := h.numResourceTypes;
    var q := p + 64 + 12 * n;
    assert ts == FillFrom(s, q, us);
    HeaderLossless(s, p);
    assert EncodeHeader(h) == s[p..p + 64];
    DirectoryLossless(s, p + 64, n);
    DirectoryOfFilled(s, q, us);
    assert EncodeDirectory(ts) == s[p + 64..q];
    DictionaryLossless(s, q, us);
    assert EncodeDictionary(ts) == s[q..q + 12 * EntryCount(us)];
    SerializedParts(s, p, q, q + 12 * EntryCount(us), Index(h, ts));
  }

  /** An index whose header, directory and dictionary encodings sit back to back from byte `p`
      is serialized as those bytes. */
  lemma {:induction false} SerializedParts(s: seq<byte>, p: nat, q: nat, e: nat, idx: Index)
    requires p + 64 <= q <= e <= |s|
    requires EncodeHeader(idx.header) == s[p..p + 64]
    requires EncodeDirectory(idx.tables) == s[p + 64..q]
    requires EncodeDictionary(idx.tables) == s[q..e]
    ensures Serialize(idx) == s[p..e]
  {
    JoinSlices(s, p, p + 64, q);
    JoinSlices(s, p, q, e);
  }

  /** Reading entries into tables leaves their descriptors' encoding alone. */
  lemma {:induction false} DirectoryOfFilled(s: seq<byte>, p: nat, us: seq<Table>)
    requires p + 12 * EntryCount(us) <= |s|
    ensures EncodeDirectory(FillFrom(s, p, us)) == EncodeDirectory(us)
  {
    var ts := FillFrom(s, p, us);
    forall k | 0 <= k < |us|
      ensures EncodeDescriptor(ts[k]) == EncodeDescriptor(us[k])
    {
      FillFromKeeps(s, p, us, k);
    }
    assert seq(|ts|, k requires 0 <= k < |ts| => EncodeDescriptor(ts[k]))
        == seq(|us|, k requires 0 <= k < |us| => EncodeDescriptor(us[k]));
  }
}
