/** What archive construction computes, as functions of the stream's bytes and of the position the
    reader starts at: the 64-byte header, then `numResourceTypes` table descriptors of 12 bytes
    back to back, then, in table order and straight after the descriptors, each table's
    `numResources` resource entries of 12 bytes. The descriptors' own `offset` fields are never
    consulted to find the entries. */
module Directory {
  import opened Outcome
  import opened LittleEndian
  import opened Records

  /** The parsed index of an archive: its header and its tables, each with its entries. */
  datatype Index = Index(header: Header, tables: seq<Table>)

  /** `n` descriptors stored back to back from byte `q`. */
  function Descriptors(s: seq<byte>, q: nat, n: nat): (ts: seq<Table>)
    requires q + 12 * n <= |s|
    ensures |ts| == n
    ensures forall k :: 0 <= k < n ==> ts[k].resources == []
  {
    seq(n, k requires 0 <= k < n => DescriptorAt(s, q + 12 * k))
  }

  lemma {:induction false} DescriptorsAt(s: seq<byte>, q: nat, n: nat, k: nat)
    requires q + 12 * n <= |s| && k < n
    ensures q + 12 * k + 12 <= |s|
    ensures Descriptors(s, q, n)[k] == DescriptorAt(s, q + 12 * k)
  {
  }

  /** `n` resource entries stored back to back from byte `q`. */
  function Entries(s: seq<byte>, q: nat, n: nat): (es: seq<Resource>)
    requires q + 12 * n <= |s|
    ensures |es| == n
  {
    seq(n, j requires 0 <= j < n => EntryAt(s, q + 12 * j))
  }

  lemma {:induction false} EntriesAt(s: seq<byte>, q: nat, n: nat, j: nat)
    requires q + 12 * n <= |s| && j < n
    ensures q + 12 * j + 12 <= |s|
    ensures Entries(s, q, n)[j] == EntryAt(s, q + 12 * j)
  {
  }

  /** The number of resource entries the tables declare. */
  function EntryCount(ts: seq<Table>): nat
  {
    if ts == [] then 0 else ts[0].numResources + EntryCount(ts[1..])
  }

  /** Counting is additive over concatenation. */
  lemma {:induction false} EntryCountAppend(a: seq<Table>, b: seq<Table>)
    ensures EntryCount(a + b) == EntryCount(a) + EntryCount(b)
    decreases |a|
  {
    if a == [] {
      assert a + b == b;
    } else {
      assert (a + b)[1..] == a[1..] + b;
      EntryCountAppend(a[1..], b);
    }
  }

  /** Extending a prefix by one table adds that table's count. */
  lemma {:induction false} EntryCountSnoc(ts: seq<Table>, k: nat)
    requires k < |ts|
    ensures EntryCount(ts[..k + 1]) == EntryCount(ts[..k]) + ts[k].numResources
  {
    assert ts[..k + 1] == ts[..k] + [ts[k]];
    EntryCountAppend(ts[..k], [ts[k]]);
  }

  /** The entries of the tables before table `k`, and those of table `k`, are among all entries. */
  lemma {:induction false} EntryCountBound(ts: seq<Table>, k: nat)
    requires k < |ts|
    ensures EntryCount(ts[..k]) + ts[k].numResources <= EntryCount(ts)
  {
    EntryCountSnoc(ts, k);
    assert ts == ts[..k + 1] + ts[k + 1..];
    EntryCountAppend(ts[..k + 1], ts[k + 1..]);
  }

  /** Tables declaring the same counts declare the same number of entries. */
  lemma {:induction false} EntryCountByCounts(ts: seq<Table>, us: seq<Table>)
    requires |ts| == |us|
    requires forall i :: 0 <= i < |ts| ==> ts[i].numResources == us[i].numResources
    ensures EntryCount(ts) == EntryCount(us)
    decreases |ts|
  {
    if ts != [] {
      EntryCountByCounts(ts[1..], us[1..]);
    }
  }

  /** Table `t` with the `t.numResources` entries stored from byte `q` appended. */
  function Filled(s: seq<byte>, q: nat, t: Table): Table
    requires q + 12 * t.numResources <= |s|
  {
    t.(resources := t.resources + Entries(s, q, t.numResources))
  }

  /** What the table reader yields from byte `p`: `n` descriptors and the position after them, or
      an I/O fault when fewer than `12 * n` bytes remain. */
  function TableDirectory(s: seq<byte>, p: nat, n: nat): (r: Result<(seq<Table>, nat)>)
    ensures r.Ok? <==> p + 12 * n <= |s|
    ensures r.Err? ==> r.error == IOFault
    ensures r.Ok? ==> |r.value.0| == n && r.value.1 == p + 12 * n
  {
    if p + 12 * n <= |s| then Ok((Descriptors(s, p, n), p + 12 * n)) else Err(IOFault)
  }

  /** What the dictionary reader yields from byte `p` for tables `ts`: every table with its
      entries appended, or an I/O fault when the stream cannot hold all of them. */
  function Dictionary(s: seq<byte>, p: nat, ts: seq<Table>): (r: Result<(seq<Table>, nat)>)
    ensures r.Ok? <==> p + 12 * EntryCount(ts) <= |s|
    ensures r.Err? ==> r.error == IOFault
    ensures r.Ok? ==> r.value.1 == p + 12 * EntryCount(ts)
  {
    if p + 12 * EntryCount(ts) <= |s| then Ok((FillFrom(s, p, ts), p + 12 * EntryCount(ts))) else Err(IOFault)
  }

  /** The tables `ts`, each with its entries appended, reading them from byte `p` onwards in table
      order. */
  function FillFrom(s: seq<byte>, p: nat, ts: seq<Table>): (us: seq<Table>)
    requires p + 12 * EntryCount(ts) <= |s|
    ensures |us| == |ts|
    decreases |ts|
  {
    if ts == [] then [] else [Filled(s, p, ts[0])] + FillFrom(s, p + 12 * ts[0].numResources, ts[1..])
  }

  /** Table `k` of the result reads its entries right after those of the tables before it. */
  lemma {:induction false} FillFromAt(s: seq<byte>, p: nat, ts: seq<Table>, k: nat)
    requires p + 12 * EntryCount(ts) <= |s| && k < |ts|
    ensures p + 12 * (EntryCount(ts[..k]) + ts[k].numResources) <= |s|
    ensures FillFrom(s, p, ts)[k] == Filled(s, p + 12 * EntryCount(ts[..k]), ts[k])
    decreases k
  {
    EntryCountBound(ts, k);
    if k > 0 {
      var rest := ts[1..];
      assert ts[..k] == [ts[0]] + rest[..k - 1];
      EntryCountAppend([ts[0]], rest[..k - 1]);
      assert EntryCount([ts[0]]) == ts[0].numResources by {
        assert [ts[0]][1..] == [];
      }
      FillFromAt(s, p + 12 * ts[0].numResources, rest, k - 1);
    }
  }

  /** Reading one more table's entries extends the result by that table, filled from where the
      previous tables' entries end. */
  lemma {:induction false} FillFromSnoc(s: seq<byte>, p: nat, ts: seq<Table>, i: nat)
    requires i < |ts| && p + 12 * (EntryCount(ts[..i]) + ts[i].numResources) <= |s|
    ensures p + 12 * EntryCount(ts[..i + 1]) <= |s|
    ensures FillFrom(s, p, ts[..i + 1]) == FillFrom(s, p, ts[..i]) + [Filled(s, p + 12 * EntryCount(ts[..i]), ts[i])]
  {
    EntryCountSnoc(ts, i);
    var longer := ts[..i + 1];
    assert longer[..i] == ts[..i];
    FillFromAt(s, p, longer, i);
    forall k | 0 <= k < i
      ensures FillFrom(s, p, longer)[k] == FillFrom(s, p, ts[..i])[k]
    {
      assert longer[..k] == ts[..k] == ts[..i][..k];
      FillFromAt(s, p, longer, k);
      FillFromAt(s, p, ts[..i], k);
    }
  }

  /** Reading one more descriptor extends the directory by it. */
  lemma {:induction false} DescriptorsSnoc(s: seq<byte>, q: nat, n: nat)
    requires q + 12 * (n + 1) <= |s|
    ensures Descriptors(s, q, n + 1) == Descriptors(s, q, n) + [DescriptorAt(s, q + 12 * n)]
  {
  }

  /** Filling keeps each table's tag, offset and count, and adds `numResources` entries. */
  lemma {:induction false} FillFromKeeps(s: seq<byte>, p: nat, ts: seq<Table>, k: nat)
    requires p + 12 * EntryCount(ts) <= |s| && k < |ts|
    ensures var u := FillFrom(s, p, ts)[k];
      && u.resourceType == ts[k].resourceType && u.offset == ts[k].offset
      && u.numResources == ts[k].numResources
      && |u.resources| == |ts[k].resources| + ts[k].numResources
  {
    FillFromAt(s, p, ts, k);
  }

  /** The well-formedness the format expects of an index: one table per declared type and, per
      table, one entry per declared resource. */
  ghost predicate WellFormed(idx: Index)
  {
    && |idx.tables| == idx.header.numResourceTypes
    && forall k :: 0 <= k < |idx.tables| ==> |idx.tables[k].resources| == idx.tables[k].numResources
  }

  /** Archive construction from byte `p`: the header, then the table directory, then the
      dictionary; the first short read aborts the whole construction with an I/O fault, and no
      index is produced. */
  function ParseArchive(s: seq<byte>, p: nat): (r: Result<(Index, nat)>)
    ensures r.Err? ==> r.error == IOFault
    ensures |s| < p + 64 ==> r.Err?
  {
    var h := HeaderFrom(s, p);
    if h.Err? then Err(h.error) else
    var d := TableDirectory(s, h.value.1, h.value.0.numResourceTypes);
    if d.Err? then Err(d.error) else
    var t := Dictionary(s, d.value.1, d.value.0);
    if t.Err? then Err(t.error) else
    Ok((Index(h.value.0, t.value.0), t.value.1))
  }

  /** A successful construction yields a well-formed index, and stops right after its last
      entry: `p + 64 + 12 * (number of tables) + 12 * (number of entries)`. */
  lemma {:induction false} ParsedWellFormed(s: seq<byte>, p: nat)
    requires ParseArchive(s, p).Ok?
    ensures WellFormed(ParseArchive(s, p).value.0)
    ensures var ts := ParseArchive(s, p).value.0.tables;
            ParseArchive(s, p).value.1 == p + 64 + 12 * |ts| + 12 * EntryCount(ts)
  {
    ArchiveStages(s, p);
    var n: nat := HeaderFrom(s, p).value.0.numResourceTypes;
    var us := Descriptors(s, p + 64, n);
    var q := p + 64 + 12 * n;
    var ts := ParseArchive(s, p).value.0.tables;
    forall k | 0 <= k < n
      ensures ts[k].numResources == us[k].numResources && |ts[k].resources| == ts[k].numResources
    {
      FillFromKeeps(s, q, us, k);
    }
    EntryCountByCounts(us, ts);
  }

  /** The three stages a successful construction went through. */
  lemma {:induction false} ArchiveStages(s: seq<byte>, p: nat)
    requires ParseArchive(s, p).Ok?
    ensures HeaderFrom(s, p).Ok?
    ensures var n := HeaderFrom(s, p).value.0.numResourceTypes;
            var us := Descriptors(s, p + 64, n);
            && p + 64 + 12 * n + 12 * EntryCount(us) <= |s|
            && ParseArchive(s, p).value.0.header == HeaderFrom(s, p).value.0
            && ParseArchive(s, p).value.0.tables == FillFrom(s, p + 64 + 12 * n, us)
            && ParseArchive(s, p).value.1 == p + 64 + 12 * n + 12 * EntryCount(us)
  {
    var n := HeaderFrom(s, p).value.0.numResourceTypes;
    assert TableDirectory(s, p + 64, n).Ok?;
    assert TableDirectory(s, p + 64, n).value.0 == Descriptors(s, p + 64, n);
  }

  /** Construction succeeds once each stage does, and yields what the last stage read. */
  lemma {:induction false} ArchiveFromStages(s: seq<byte>, p: nat, h: Header, us: seq<Table>, ts: seq<Table>)
    requires HeaderFrom(s, p).Ok? && HeaderFrom(s, p).value.0 == h
    requires p + 64 + 12 * h.numResourceTypes <= |s|
    requires us == Descriptors(s, p + 64, h.numResourceTypes)
    requires p + 64 + 12 * h.numResourceTypes + 12 * EntryCount(us) <= |s|
    requires FillFrom(s, p + 64 + 12 * h.numResourceTypes, us) == ts
    ensures ParseArchive(s, p).Ok?
    ensures ParseArchive(s, p).value.0 == Index(h, ts)
    ensures ParseArchive(s, p).value.1 == p + 64 + 12 * h.numResourceTypes + 12 * EntryCount(us)
  {
    var q := p + 64 + 12 * h.numResourceTypes;
    assert TableDirectory(s, p + 64, h.numResourceTypes) == Ok((us, q));
    assert Dictionary(s, q, us) == Ok((ts, q + 12 * EntryCount(us)));
  }

  /** After a successful construction, table `k` carries the tag, offset and count of the `k`-th
      12-byte descriptor after the header. */
  lemma {:induction false} TableLayout(s: seq<byte>, p: nat, k: nat)
    requires ParseArchive(s, p).Ok? && k < |ParseArchive(s, p).value.0.tables|
    ensures p + 64 + 12 * k + 12 <= |s|
    ensures var t := ParseArchive(s, p).value.0.tables[k];
            var d := DescriptorAt(s, p + 64 + 12 * k);
            t.resourceType == d.resourceType && t.offset == d.offset && t.numResources == d.numResources
  {
    ArchiveStages(s, p);
    var n: nat := HeaderFrom(s, p).value.0.numResourceTypes;
    var us := Descriptors(s, p + 64, n);
    var q := p + 64 + 12 * n;
    var ts := ParseArchive(s, p).value.0.tables;
    assert ts == FillFrom(s, q, us);
    DescriptorsAt(s, p + 64, n, k);
    FillFromKeeps(s, q, us, k);
  }

  /** After a successful construction, entry `j` of table `k` is the 12-byte record read right
      after the descriptors and the entries of the tables before it: the tables' own offsets play
      no part. */
  lemma {:induction false} EntryLayout(s: seq<byte>, p: nat, k: nat, j: nat)
    requires ParseArchive(s, p).Ok?
    requires k < |ParseArchive(s, p).value.0.tables|
    requires j < |ParseArchive(s, p).value.0.tables[k].resources|
    ensures var ts := ParseArchive(s, p).value.0.tables;
            var q := p + 64 + 12 * |ts| + 12 * (EntryCount(ts[..k]) + j);
            q + 12 <= |s| && ts[k].resources[j] == EntryAt(s, q)
  {
    ArchiveStages(s, p);
    var n := HeaderFrom(s, p).value.0.numResourceTypes;
    StagedEntryAt(s, p + 64, n, ParseArchive(s, p).value.0.tables, k, j);
  }

  /** Entry `j` of table `k`, once the `n` descriptors read from byte `d` are filled from right
      after them, is the record read after the descriptors and the entries of the tables before it. */
  lemma {:induction false} StagedEntryAt(s: seq<byte>, d: nat, n: nat, ts: seq<Table>, k: nat, j: nat)
    requires d + 12 * n <= |s| && d + 12 * n + 12 * EntryCount(Descriptors(s, d, n)) <= |s|
    requires ts == FillFrom(s, d + 12 * n, Descriptors(s, d, n))
    requires k < |ts| && j < |ts[k].resources|
    ensures |ts| == n
    ensures var e := d + 12 * |ts| + 12 * (EntryCount(ts[..k]) + j);
            e + 12 <= |s| && ts[k].resources[j] == EntryAt(s, e)
  {
    var us := Descriptors(s, d, n);
    var q := d + 12 * n;
    FilledEntryAt(s, q, us, ts, k, j);
    assert |ts| == n;
    assert ts[k].resources[j] == EntryAt(s, q + 12 * (EntryCount(ts[..k]) + j));
  }

  /** Entry `j` of table `k`, once bare tables are filled from byte `q`, is the record at
      `q + 12 * (entries of the tables before k + j)`. */
  lemma {:induction false} FilledEntryAt(s: seq<byte>, q: nat, us: seq<Table>, ts: seq<Table>, k: nat, j: nat)
    requires q + 12 * EntryCount(us) <= |s| && ts == FillFrom(s, q, us) && k < |us|
    requires us[k].resources == [] && j < |ts[k].resources|
    ensures |ts| == |us| && |ts[k].resources| == us[k].numResources
    ensures var e := q + 12 * (EntryCount(ts[..k]) + j);
            e + 12 <= |s| && ts[k].resources[j] == EntryAt(s, e)
  {
    FillFromKeeps(s, q, us, k);
    FillFromAt(s, q, us, k);
    var base := q + 12 * EntryCount(us[..k]);
    assert ts[k].resources == Entries(s, base, us[k].numResources);
    EntriesAt(s, base, us[k].numResources, j);
    FilledCountBefore(s, q, us, k);
    assert EntryCount(ts[..k]) == EntryCount(us[..k]);
    assert q + 12 * (EntryCount(ts[..k]) + j) == base + 12 * j;
  }

  /** Filling keeps every table's count, so the tables before `k` hold as many entries once
      filled as their counts say. */
  lemma {:induction false} FilledCountBefore(s: seq<byte>, q: nat, us: seq<Table>, k: nat)
    requires q + 12 * EntryCount(us) <= |s| && k < |us|
    ensures |FillFrom(s, q, us)| == |us|
    ensures EntryCount(FillFrom(s, q, us)[..k]) == EntryCount(us[..k])
  {
    var ts := FillFrom(s, q, us);
    forall i | 0 <= i < k
      ensures us[..k][i].numResources == ts[..k][i].numResources
    {
      FillFromKeeps(s, q, us, i);
    }
    EntryCountByCounts(us[..k], ts[..k]);
  }
}
