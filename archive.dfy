/** The archive reader itself: a seekable byte stream whose cursor every read advances, and the
    archive object built over it, whose construction fills in the header and the tables stage by
    stage and whose extraction seeks to a resource and reads its bytes. Every method is proved
    against the closed-form description of what it reads. */
module Drs {
  import opened Outcome
  import opened LittleEndian
  import opened Records
  import opened Directory
  import opened Lookup
  import opened Layout

  /** A readable and seekable byte stream: fixed content and a cursor. */
  class Stream {
    const bytes: seq<byte>
    var pos: nat

    constructor (bytes: seq<byte>, pos: nat)
      ensures this.bytes == bytes && this.pos == pos
    {
      this.bytes := bytes;
      this.pos := pos;
    }

    /** Moves the cursor to an absolute position; moving past the end is allowed, the next read
        then fails. */
    method Seek(offset: nat)
      modifies this
      ensures pos == offset
    {
      pos := offset;
    }

    /** Reads exactly `n` bytes at the cursor and moves past them. Reading nothing always
        succeeds; when fewer than `n` bytes remain, an I/O fault, with the cursor left at the end
        of the stream. */
    method ReadExact(n: nat) returns (r: Result<seq<byte>>)
      modifies this
      ensures r.Ok? <==> n == 0 || old(pos) + n <= |bytes|
      ensures r.Ok? ==> |r.value| == n && pos == old(pos) + n
      ensures r.Ok? ==> forall i :: 0 <= i < n ==> r.value[i] == bytes[old(pos) + i]
      ensures r.Err? ==> r.error == IOFault && pos == if old(pos) < |bytes| then |bytes| else old(pos)
    {
      if n == 0 {
        r := Ok([]);
      } else if pos + n <= |bytes| {
        r := Ok(bytes[pos..pos + n]);
        pos := pos + n;
      } else {
        r := Err(IOFault);
        if pos < |bytes| {
          pos := |bytes|;
        }
      }
    }

    /** Reads a little-endian unsigned 32-bit integer at the cursor. */
    method ReadU32() returns (r: Result<u32>)
      modifies this
      ensures r.Ok? <==> old(pos) + 4 <= |bytes|
      ensures r.Ok? ==> r.value == LeU32(bytes[old(pos)..old(pos) + 4]) && pos == old(pos) + 4
      ensures r.Err? ==> r.error == IOFault
    {
      var b := ReadExact(4);
      if b.Err? {
        return Err(b.error);
      }
      assert b.value == bytes[old(pos)..old(pos) + 4];
      return Ok(LeU32(b.value));
    }
  }

  /** Reads the 64-byte header at the stream's cursor. */
  method ReadHeaderRecord(source: Stream) returns (r: Result<Header>)
    modifies source
    ensures r.Ok? <==> old(source.pos) + 64 <= |source.bytes|
    ensures r.Ok? ==> source.pos == old(source.pos) + 64
    ensures var d := HeaderFrom(source.bytes, old(source.pos));
            && (r.Ok? <==> d.Ok?)
            && (r.Ok? ==> r.value == d.value.0 && source.pos == d.value.1)
            && (r.Err? ==> r.error == IOFault)
  {
    var bannerMsg := source.ReadExact(40);
    if bannerMsg.Err? {
      return Err(bannerMsg.error);
    }
    var version := source.ReadExact(4);
    if version.Err? {
      return Err(version.error);
    }
    var password := source.ReadExact(12);
    if password.Err? {
      return Err(password.error);
    }
    var numResourceTypes := source.ReadU32();
    if numResourceTypes.Err? {
      return Err(numResourceTypes.error);
    }
    var directorySize := source.ReadU32();
    if directorySize.Err? {
      return Err(directorySize.error);
    }
    return Ok(Header(bannerMsg.value, version.value, password.value, numResourceTypes.value, directorySize.value));
  }

  /** Reads a 12-byte table descriptor at the stream's cursor; the table starts with no entries. */
  method ReadDescriptor(source: Stream) returns (r: Result<Table>)
    modifies source
    ensures r.Ok? <==> old(source.pos) + 12 <= |source.bytes|
    ensures r.Ok? ==> source.pos == old(source.pos) + 12
    ensures var d := TableFrom(source.bytes, old(source.pos));
            && (r.Ok? <==> d.Ok?)
            && (r.Ok? ==> r.value == d.value.0 && source.pos == d.value.1)
            && (r.Err? ==> r.error == IOFault)
  {
    var resourceType := source.ReadExact(4);
    if resourceType.Err? {
      return Err(resourceType.error);
    }
    var offset := source.ReadU32();
    if offset.Err? {
      return Err(offset.error);
    }
    var numResources := source.ReadU32();
    if numResources.Err? {
      return Err(numResources.error);
    }
    return Ok(Table(resourceType.value, offset.value, numResources.value, []));
  }

  /** Reads a 12-byte resource entry at the stream's cursor. */
  method ReadEntry(source: Stream) returns (r: Result<Resource>)
    modifies source
    ensures r.Ok? <==> old(source.pos) + 12 <= |source.bytes|
    ensures r.Ok? ==> source.pos == old(source.pos) + 12
    ensures var d := ResourceFrom(source.bytes, old(source.pos));
            && (r.Ok? <==> d.Ok?)
            && (r.Ok? ==> r.value == d.value.0 && source.pos == d.value.1)
            && (r.Err? ==> r.error == IOFault)
  {
    var id := source.ReadU32();
    if id.Err? {
      return Err(id.error);
    }
    var offset := source.ReadU32();
    if offset.Err? {
      return Err(offset.error);
    }
    var size := source.ReadU32();
    if size.Err? {
      return Err(size.error);
    }
    return Ok(Resource(id.value, offset.value, size.value));
  }

  /** Reads table `t`'s `numResources` entries at the stream's cursor, one after the other, and
      appends them to the table; a short read aborts with an I/O fault. */
  method ReadResources(t: Table, source: Stream) returns (r: Result<Table>)
    requires source.pos <= |source.bytes|
    modifies source
    ensures r.Ok? <==> old(source.pos) + 12 * t.numResources <= |source.bytes|
    ensures r.Ok? ==> r.value == Filled(source.bytes, old(source.pos), t)
                      && source.pos == old(source.pos) + 12 * t.numResources
    ensures r.Err? ==> r.error == IOFault
  {
    var p := source.pos;
    var s := source.bytes;
    var table := t;
    for i := 0 to t.numResources
      invariant source.pos == p + 12 * i <= |s|
      invariant table == t.(resources := t.resources + Entries(s, p, i))
    {
      var e := ReadEntry(source);
      if e.Err? {
        return Err(e.error);
      }
      assert Entries(s, p, i + 1) == Entries(s, p, i) + [e.value];
      table := table.(resources := table.resources + [e.value]);
    }
    return Ok(table);
  }

  /** While the dictionary is read, the first table not yet read is still as the directory gave
      it. */
  lemma {:induction false} DictionaryFirstUnread(s: seq<byte>, p: nat, ts: seq<Table>, i: nat)
    requires i < |ts| && p + 12 * EntryCount(ts[..i]) <= |s|
    ensures (FillFrom(s, p, ts[..i]) + ts[i..])[i] == ts[i]
  {
  }

  /** One step of the dictionary reader: filling table `i` in place turns the tables with `i`
      tables read into those with `i + 1` read. */
  lemma {:induction false} DictionaryStep(s: seq<byte>, p: nat, ts: seq<Table>, i: nat)
    requires i < |ts| && p + 12 * (EntryCount(ts[..i]) + ts[i].numResources) <= |s|
    ensures EntryCount(ts[..i + 1]) == EntryCount(ts[..i]) + ts[i].numResources
    ensures (FillFrom(s, p, ts[..i]) + ts[i..])[i := Filled(s, p + 12 * EntryCount(ts[..i]), ts[i])]
            == FillFrom(s, p, ts[..i + 1]) + ts[i + 1..]
  {
    EntryCountSnoc(ts, i);
    FillFromSnoc(s, p, ts, i);
    assert ts[i..] == [ts[i]] + ts[i + 1..];
  }

  /** What extracting the resource with id `id` from the table with tag `tag` yields: `NotFound`
      when the lookup misses, otherwise the `size` bytes stored from the entry's absolute
      `offset`, or an I/O fault when they run past the end of the stream. */
  function ResourceContent(s: seq<byte>, ts: seq<Table>, tag: Tag, id: u32): (r: Result<seq<byte>>)
    ensures r == Err(NotFound) <==> GetResource(ts, tag, id).Err?
    ensures r == Err(IOFault) <==> && GetResource(ts, tag, id).Ok?
                                   && var e := GetResource(ts, tag, id).value;
                                      e.size > 0 && |s| < e.offset + e.size
    ensures r.Ok? ==> var e := GetResource(ts, tag, id).value;
                      && e.id == id && |r.value| == e.size
                      && forall i :: 0 <= i < e.size ==> r.value[i] == s[e.offset + i]
  {
    var e :- GetResource(ts, tag, id);
    if e.size == 0 then Ok([])
    else if e.offset + e.size <= |s| then Ok(s[e.offset..e.offset + e.size])
    else Err(IOFault)
  }

  /** An archive reader over a stream: the header once read, and the tables in stream order. */
  class Archive {
    const handle: Stream
    var header: Option<Header>
    var tables: seq<Table>

    /** The header has been read, and there is one table per declared type and one entry per
        declared resource. */
    ghost predicate Ready()
      reads this
    {
      header.Some? && WellFormed(Index(header.value, tables))
    }

    /** A reader that has read nothing yet. */
    constructor (handle: Stream)
      ensures this.handle == handle && header == None && tables == []
    {
      this.handle := handle;
      header := None;
      tables := [];
    }

    /** Builds the reader over `handle`: reads the header, then the table directory, then the
        dictionary, from the stream's current position. The first short read aborts with an I/O
        fault and no reader is produced. */
    static method New(handle: Stream) returns (r: Result<Archive>)
      modifies handle
      ensures var parsed := ParseArchive(handle.bytes, old(handle.pos));
              && (r.Ok? <==> parsed.Ok?)
              && (r.Err? ==> r.error == IOFault)
              && (r.Ok? ==> && fresh(r.value) && r.value.handle == handle
                            && r.value.header == Some(parsed.value.0.header)
                            && r.value.tables == parsed.value.0.tables
                            && handle.pos == parsed.value.1
                            && r.value.Ready())
    {
      ghost var s := handle.bytes;
      ghost var p := handle.pos;
      var drs := new Archive(handle);
      var h := drs.ReadHeader();
      if h.Err? {
        return Err(h.error);
      }
      ghost var hd := drs.header.value;
      var t := drs.ReadTables();
      if t.Err? {
        return Err(t.error);
      }
      ghost var us := drs.tables;
      assert us == Descriptors(s, p + 64, hd.numResourceTypes);
      var d := drs.ReadDictionary();
      if d.Err? {
        return Err(d.error);
      }
      ArchiveFromStages(s, p, hd, us, drs.tables);
      ParsedWellFormed(s, p);
      return Ok(drs);
    }

    /** Reads the header at the stream's cursor; on a short read the header stays unset. */
    method ReadHeader() returns (r: Result<()>)
      modifies this, handle
      ensures tables == old(tables)
      ensures var d := HeaderFrom(handle.bytes, old(handle.pos));
              && (r.Ok? <==> d.Ok?)
              && (r.Ok? ==> header == Some(d.value.0) && handle.pos == d.value.1)
              && (r.Err? ==> r.error == IOFault && header == old(header))
    {
      var h := ReadHeaderRecord(handle);
      if h.Err? {
        return Err(h.error);
      }
      header := Some(h.value);
      return Ok(());
    }

    /** Reads `numResourceTypes` table descriptors one after the other at the stream's cursor and
        appends them to the tables. Only ever called once the header is read. */
    method ReadTables() returns (r: Result<()>)
      requires header.Some?
      requires handle.pos <= |handle.bytes|
      modifies this, handle
      ensures header == old(header)
      ensures var n := header.value.numResourceTypes;
              && (r.Ok? <==> old(handle.pos) + 12 * n <= |handle.bytes|)
              && (r.Ok? ==> && tables == old(tables) + Descriptors(handle.bytes, old(handle.pos), n)
                            && handle.pos == old(handle.pos) + 12 * n)
              && (r.Err? ==> r.error == IOFault)
    {
      var p := handle.pos;
      var s := handle.bytes;
      var n := header.value.numResourceTypes;
      for i := 0 to n
        invariant header == old(header)
        invariant handle.pos == p + 12 * i <= |s|
        invariant tables == old(tables) + Descriptors(s, p, i)
      {
        var table := ReadDescriptor(handle);
        if table.Err? {
          return Err(table.error);
        }
        DescriptorsSnoc(s, p, i);
        tables := tables + [table.value];
      }
      return Ok(());
    }

    /** Reads every table's entries, table by table, from the stream's cursor. */
    method ReadDictionary() returns (r: Result<()>)
      requires handle.pos <= |handle.bytes|
      modifies this, handle
      ensures header == old(header)
      ensures var d := Dictionary(handle.bytes, old(handle.pos), old(tables));
              && (r.Ok? <==> d.Ok?)
              && (r.Ok? ==> tables == d.value.0 && handle.pos == d.value.1)
              && (r.Err? ==> r.error == IOFault)
    {
      var p := handle.pos;
      var s := handle.bytes;
      ghost var t0 := tables;
      for i := 0 to |tables|
        invariant header == old(header) && |tables| == |t0|
        invariant p + 12 * EntryCount(t0[..i]) <= |s|
        invariant handle.pos == p + 12 * EntryCount(t0[..i])
        invariant tables == FillFrom(s, p, t0[..i]) + t0[i..]
      {
        DictionaryFirstUnread(s, p, t0, i);
        var table := ReadResources(tables[i], handle);
        if table.Err? {
          EntryCountBound(t0, i);
          return Err(table.error);
        }
        DictionaryStep(s, p, t0, i);
        tables := tables[i := table.value];
      }
      assert t0[..|t0|] == t0;
      return Ok(());
    }

    /** Extracts a resource: looks it up by tag and id, seeks to its offset and reads its `size`
        bytes. A lookup miss leaves the stream untouched; the header and tables never change. */
    method ReadResource(tag: Tag, id: u32) returns (r: Result<seq<byte>>)
      modifies handle
      ensures header == old(header) && tables == old(tables)
      ensures r == ResourceContent(handle.bytes, tables, tag, id)
      ensures GetResource(tables, tag, id).Err? ==> handle.pos == old(handle.pos)
      ensures r.Ok? ==> handle.pos == GetResource(tables, tag, id).value.offset + GetResource(tables, tag, id).value.size
    {
      var e := GetResource(tables, tag, id);
      if e.Err? {
        return Err(e.error);
      }
      handle.Seek(e.value.offset);
      var buf := handle.ReadExact(e.value.size);
      if buf.Err? {
        return Err(buf.error);
      }
      assert e.value.size > 0 ==> buf.value == handle.bytes[e.value.offset..e.value.offset + e.value.size];
      return Ok(buf.value);
    }
  }
}
