/** A small concrete archive: one table of type "BIN\0" holding resource 100 ("hello", at byte
    200) and resource 101 ("hi!", at byte 205), and what the reader makes of it. */
module Scenario {
  import opened Outcome
  import opened LittleEndian
  import opened Records
  import opened Directory
  import opened Layout
  import opened Lookup
  import opened Drs

  const Bin: Tag := [66, 73, 78, 0]
  const Xyz: Tag := [88, 89, 90, 0]
  const Hello: seq<byte> := [104, 101, 108, 108, 111]
  const Hi: seq<byte> := [104, 105, 33]

  /** The index: a 64-byte header declaring one table and a 200-byte region before the first
      content (the reader keeps that size but never uses it), and the table's two entries. */
  function SampleIndex(): Index
  {
    Index(Header(seq(40, _ => 0), [49, 46, 48, 48], seq(12, _ => 0), 1, 200),
          [Table(Bin, 76, 2, [Resource(100, 200, 5), Resource(101, 205, 3)])])
  }

  /** The archive: the serialized index, padding up to byte 200, then the two contents. */
  function SampleArchive(): seq<byte>
  {
    Serialize(SampleIndex()) + seq(100, _ => 0) + Hello + Hi
  }

  /** The stored index is 100 bytes long. */
  lemma {:induction false} SampleIndexSize()
    ensures WellFormed(SampleIndex())
    ensures |Serialize(SampleIndex())| == 100
  {
    var ts := SampleIndex().tables;
    DirectoryLength(ts);
    DictionaryLength(ts);
    assert EntryCount(ts) == 2 by {
      assert ts[1..] == [];
    }
  }

  /** Building the reader over the archive gives back the index; extraction returns "hello" and
      "hi!" for ids 100 and 101 and `NotFound` for id 102; there is no table "XYZ\0". */
  lemma {:induction false} SampleReads()
    ensures ParseArchive(SampleArchive(), 0).Ok?
    ensures ParseArchive(SampleArchive(), 0).value.0 == SampleIndex()
    ensures ResourceContent(SampleArchive(), SampleIndex().tables, Bin, 100) == Ok(Hello)
    ensures ResourceContent(SampleArchive(), SampleIndex().tables, Bin, 101) == Ok(Hi)
    ensures ResourceContent(SampleArchive(), SampleIndex().tables, Bin, 102) == Err(NotFound)
    ensures GetTable(SampleIndex().tables, Xyz) == Err(NotFound)
  {
    var s := SampleArchive();
    var idx := SampleIndex();
    SampleIndexSize();
    assert s[0..100] == Serialize(idx);
    ArchiveRoundTrip(s, 0, idx);
    var ts := idx.tables;
    var rs := ts[0].resources;
    assert rs[1..] == [Resource(101, 205, 3)];
    assert GetTable(ts, Bin) == Ok(ts[0]);
    assert FindResource(rs, 100) == Ok(rs[0]);
    assert FindResource(rs, 101) == Ok(rs[1]);
    assert rs[1..][1..] == [];
    assert FindResource(rs, 102) == Err(NotFound);
    assert s[200..205] == Hello;
    assert s[205..208] == Hi;
    assert ts[1..] == [];
  }
}
