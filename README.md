# genie-drs archive reader, modelled in Dafny

This project models the reader for the `.drs` resource archive of the Genie Engine, the format
Age of Empires 1/2 and Star Wars: Galactic Battlegrounds use. The reader is `src/lib.rs`. An
archive is laid out as follows:

- a 64-byte header: a 40-byte banner, a 4-byte version, a 12-byte password, then the number of
  resource types and the directory size as little-endian unsigned 32-bit integers;
- one 12-byte table descriptor per resource type: a 4-byte tag, an offset and a resource count;
- per table, in table order, one 12-byte entry per resource: an id, an absolute content offset
  and a size;
- the resource contents, somewhere after that.

Constructing a reader (`DRS::new`) runs three stages over one stateful stream:

- `read_header`;
- `read_tables`, which pushes one descriptor per declared type;
- `read_dictionary`, which pushes each table's entries.

The first short read anywhere aborts construction with an I/O error. Two kinds of operation
follow:

- Lookups (`get_table`, `get_resource`, `get_resource_type`) are first-match searches in stream
  order. A miss is `NotFound` for `get_table` and `get_resource`, and `None` for
  `get_resource_type`.
- Extraction (`read_resource`) seeks to an entry's absolute offset and reads exactly `size`
  bytes.

The model is split into modules:

- `Outcome`: the two error kinds, `IOFault` and `NotFound`, a `Result` and an `Option`.
- `LittleEndian`: bytes, unsigned 32-bit values, and little-endian decoding with its inverse.
- `Records`: the header, descriptor and entry records. Each has a closed-form decoder at a cursor
  (`HeaderFrom`, `TableFrom`, `ResourceFrom`) and an encoder. Round trips hold both ways.
- `Directory`: closed-form descriptions of the stages as functions of the stream's bytes and the
  start position:
  - `Descriptors`, `Entries`, `FillFrom`, `Dictionary`;
  - `ParseArchive`, for the whole construction;
  - where each table and each entry is read from.
- `Layout`: a serializer for an index (`Serialize`). It is the partner of `ParseArchive`:
  - parsing a serialized well-formed index gives it back;
  - serializing a parsed index gives back exactly the bytes construction consumed.
- `Lookup`: the searches, as recursive functions, with their first-match and miss contracts.
- `Drs`: the imperative reader.
  - `Stream` is a byte stream with a cursor, offering `read_exact`, little-endian `read_u32` and
    `seek`.
  - `ReadHeaderRecord`, `ReadDescriptor` and `ReadEntry` read a record field by field.
  - `ReadResources` is the per-table loop.
  - The `Archive` class has the `header` and `tables` fields. Its `New`, `ReadHeader`,
    `ReadTables`, `ReadDictionary` and `ReadResource` update them in place.
  - Every method is proved against the closed-form functions above.
- `Scenario`: a concrete archive with one table `"BIN\0"` holding ids 100 (`"hello"` at byte 200)
  and 101 (`"hi!"` at byte 205), and what construction and extraction make of it.

The dictionary reader, like the code, ignores each descriptor's `offset`. Entries are read
sequentially from the cursor, straight after the descriptors, in table order.
`Directory.EntryLayout` states this position for every entry.

Tags are not required to be distinct. `Lookup.RepeatedTagHidesResource` exhibits an archive with
a repeated tag for which `get_resource_type(id)` reports a tag, yet `get_resource(tag, id)` misses.
This happens because only the first table with a given tag is ever searched. With distinct tags,
`Lookup.ResourceTypeFindsResource` shows the two agree.

## Model

| member | source | states |
|---|---|---|
| LittleEndian.LeU32 | src/lib.rs:53-54 | the value of four little-endian bytes has the first byte as its least significant byte and the last as its most significant |
| LittleEndian.DecodeEncode | src/lib.rs:53-54 | decoding the 4-byte little-endian encoding of any u32 gives the value back |
| LittleEndian.EncodeDecode | src/lib.rs:53-54 | any 4 bytes are the encoding of the value they decode to, so `read_u32::<LE>` loses nothing |
| Records.EncodeHeader | src/lib.rs:31-42 | a header is stored in exactly 64 bytes |
| Records.EncodeDescriptor | src/lib.rs:79-88 | a table descriptor is stored in exactly 12 bytes |
| Records.EncodeResource | src/lib.rs:142-149 | a resource entry is stored in exactly 12 bytes |
| Records.HeaderFrom | src/lib.rs:46-62 | reading a header (banner 40 bytes, version 4, password 12, then two little-endian u32s) succeeds iff 64 bytes remain, consumes exactly those 64 bytes, and otherwise fails with an I/O fault |
| Records.TableFrom | src/lib.rs:92-103 | reading a descriptor (4-byte tag, two little-endian u32s) succeeds iff 12 bytes remain, consumes exactly those 12 bytes, and otherwise fails with an I/O fault |
| Records.ResourceFrom | src/lib.rs:153-162 | reading an entry (three little-endian u32s) succeeds iff 12 bytes remain, consumes exactly those 12 bytes, and otherwise fails with an I/O fault |
| Records.HeaderRoundTrip | src/lib.rs:46-62 | a stored header is read back, field for field, at any position |
| Records.HeaderLossless | src/lib.rs:46-62 | re-encoding a successfully read header gives back exactly the 64 bytes it was read from (banner 40, version 4, password 12, two LE u32s), so no content is checked or lost |
| Records.DescriptorRoundTrip | src/lib.rs:92-103 | a stored descriptor reads back with its tag, offset and count, and with no resources |
| Records.DescriptorLossless | src/lib.rs:92-103 | re-encoding a decoded descriptor gives back the 12 bytes it was read from |
| Records.ResourceRoundTrip | src/lib.rs:153-162 | a stored entry reads back as id, offset and size |
| Records.ResourceLossless | src/lib.rs:153-162 | re-encoding a decoded entry gives back the 12 bytes it was read from |
| Records.DescriptorAt | src/lib.rs:92-103 | a descriptor just read has no resources |
| Directory.TableDirectory | src/lib.rs:200-211 | reading the directory for `n` types succeeds iff `12 * n` bytes remain, yields `n` descriptors and ends `12 * n` bytes further on; otherwise it fails with an I/O fault |
| Directory.Descriptors | src/lib.rs:200-211 | the directory read for `n` types holds `n` tables, none with resources yet |
| Directory.Entries | src/lib.rs:106-111 | reading `n` entries yields `n` entries |
| Directory.EntryCountBound | src/lib.rs:214-219 | the entries of the tables before table `k`, plus table `k`'s own, never exceed all entries |
| Directory.Dictionary | src/lib.rs:214-219 | the dictionary read succeeds iff 12 bytes per declared entry remain; it fails only with an I/O fault; it ends 12 bytes per declared entry further on |
| Directory.FillFrom | src/lib.rs:214-219 | reading the dictionary keeps one table per table |
| Directory.FillFromAt | src/lib.rs:106-111 | table `k` has its entries appended from the byte where the entries of the tables before it end |
| Directory.FillFromSnoc | src/lib.rs:215-217 | reading one more table's entries extends the result by that table only |
| Directory.FillFromKeeps | src/lib.rs:106-111 | reading entries keeps each table's tag, offset and count, and adds `num_resources` entries |
| Directory.ParseArchive | src/lib.rs:181-191 | construction fails only with an I/O fault, and always fails when fewer than 64 bytes remain |
| Directory.ParsedWellFormed | src/lib.rs:181-219 | after a successful construction, there is one table per declared type and each table holds `num_resources` entries; the cursor ends at `64 + 12 * tables + 12 * entries` past the start |
| Directory.ArchiveStages | src/lib.rs:181-191 | a successful construction read the header, then the descriptors straight after it, then the dictionary straight after those, and ended right after the dictionary |
| Directory.ArchiveFromStages | src/lib.rs:181-191 | construction succeeds once each of the three stages does, and yields the header and the filled tables |
| Directory.TableLayout | src/lib.rs:200-211 | after construction, table `k` carries the tag, offset and count of the `k`-th 12-byte descriptor after the header |
| Directory.EntryLayout | src/lib.rs:214-219 | after construction, entry `j` of table `k` is the record at `64 + 12 * tables + 12 * (entries before table k + j)`; the descriptors' offsets play no part |
| Directory.FilledEntryAt | src/lib.rs:106-111 | entry `j` of filled table `k` is the record just after the entries of the tables before it |
| Directory.FilledCountBefore | src/lib.rs:106-111 | reading entries keeps every table's count, so the tables before `k` hold as many entries as their counts declare |
| Directory.StagedEntryAt | src/lib.rs:214-219 | after the descriptors read from a position are filled from straight after them, entry `j` of table `k` is the record after the entries of the tables before it |
| Layout.DirectoryLength | src/lib.rs:200-211 | the stored directory takes 12 bytes per table |
| Layout.DictionaryLength | src/lib.rs:214-219 | the stored dictionary takes 12 bytes per declared entry |
| Layout.EntriesRoundTrip | src/lib.rs:106-111 | reading stored entries gives them back |
| Layout.DirectoryRoundTrip | src/lib.rs:200-211 | reading a stored directory gives back each table without its entries |
| Layout.DictionaryRoundTrip | src/lib.rs:214-219 | reading a stored dictionary into the bare tables gives back the full tables |
| Layout.ArchiveRoundTrip | src/lib.rs:181-191 | constructing a reader over a serialized well-formed index gives that index back and stops right after it |
| Layout.StagesRoundTrip | src/lib.rs:181-191 | over a serialized index, each stage reads back its part: the header, then the bare tables, then the filled tables |
| Layout.TablesRoundTrip | src/lib.rs:200-219 | over a stored directory followed by its dictionary, the descriptors read, once filled, give back the full tables and end right after the dictionary |
| Layout.EntriesLossless | src/lib.rs:106-111 | re-encoding the entries read gives back the bytes they came from |
| Layout.DirectoryLossless | src/lib.rs:200-211 | re-encoding the descriptors read gives back the bytes they came from |
| Layout.DictionaryLossless | src/lib.rs:214-219 | re-encoding every table's entries gives back the bytes of the whole dictionary |
| Layout.DirectoryOfFilled | src/lib.rs:106-111 | reading entries into tables does not change their descriptors |
| Layout.ArchiveLossless | src/lib.rs:181-191 | construction loses nothing: serializing the index built gives back exactly the bytes consumed |
| Layout.StagesLossless | src/lib.rs:181-191 | the bytes behind the three stages are the header, the descriptors and the entries, back to back |
| Lookup.FindResource | src/lib.rs:120-123 | it finds an entry iff one has the id, and that is the first such entry; otherwise `NotFound` |
| Lookup.GetTable | src/lib.rs:226-229 | it finds a table iff one has the tag, compared byte for byte, and that is the first such table in stream order; otherwise `NotFound` |
| Lookup.GetResource | src/lib.rs:231-233 | it finds an entry iff the tag's table exists and holds the id; the entry found is the first entry with that id in the first table with that tag; otherwise `NotFound`, whichever part is missing |
| Lookup.GetResourceType | src/lib.rs:235-238 | it reports a tag iff some table holds the id, and the tag is that of the first such table in stream order |
| Lookup.GetTableUnique | src/lib.rs:226-229 | with distinct tags, looking up a table's tag finds that very table |
| Lookup.ResourceTypeFindsResource | src/lib.rs:235-238 | with distinct tags, the tag reported for an id leads back to an entry with that id |
| Lookup.ResourceHasType | src/lib.rs:235-238 | an id reachable through some tag always has a tag reported |
| Lookup.NoTypeNoResource | src/lib.rs:235-238 | when no tag is reported for an id, every lookup of that id is `NotFound` |
| Lookup.RepeatedTagHidesResource | src/lib.rs:231-238 | with a repeated tag, a reported tag need not lead back to the id |
| Drs.Stream.Seek | src/lib.rs:244 | the cursor moves to the absolute offset |
| Drs.Stream.ReadExact | src/lib.rs:247 | reading `n` bytes succeeds iff `n` is 0 or `n` bytes remain; on success it returns exactly the next `n` bytes and advances the cursor by `n`; otherwise an I/O fault |
| Drs.Stream.ReadU32 | src/lib.rs:53-54 | it succeeds iff 4 bytes remain, returns their little-endian value, and advances by 4 |
| Drs.ReadHeaderRecord | src/lib.rs:46-62 | five sequential field reads succeed iff 64 bytes remain, advance the cursor by 64, and give what `HeaderFrom` describes |
| Drs.ReadDescriptor | src/lib.rs:92-103 | three sequential field reads succeed iff 12 bytes remain, advance by 12, and give what `TableFrom` describes |
| Drs.ReadEntry | src/lib.rs:153-162 | three sequential u32 reads succeed iff 12 bytes remain, advance by 12, and give what `ResourceFrom` describes |
| Drs.ReadResources | src/lib.rs:106-111 | the loop succeeds iff `12 * num_resources` bytes remain; it then appends exactly the next `num_resources` entries to the table and advances the cursor past them |
| Drs.DictionaryStep | src/lib.rs:215-217 | filling table `i` in place advances the dictionary reader's state by one table |
| Drs.ResourceContent | src/lib.rs:241-250 | `NotFound` iff the lookup misses; an I/O fault iff the entry is found and its `size > 0` bytes run past the end; otherwise exactly the `size` bytes stored from `offset` |
| Drs.Archive.constructor | src/lib.rs:182-186 | a fresh reader has no header and no tables |
| Drs.Archive.New | src/lib.rs:181-191 | construction succeeds iff `ParseArchive` does and fails only with an I/O fault; on success the reader is fresh, holds the parsed header and tables, is well formed, and the cursor is at the end of the dictionary |
| Drs.Archive.ReadHeader | src/lib.rs:194-197 | the header is set iff the 64-byte read succeeds; tables are untouched |
| Drs.Archive.ReadTables | src/lib.rs:200-211 | it succeeds iff `12 * num_resource_types` bytes remain, and then appends exactly the descriptors stored at the cursor; the header must be read first |
| Drs.Archive.ReadDictionary | src/lib.rs:214-219 | it succeeds iff the dictionary fits, and then every table holds the entries `Dictionary` describes; the cursor ends after them |
| Drs.Archive.ReadResource | src/lib.rs:241-250 | the result is `ResourceContent` of the unchanged header and tables, so repeated calls return identical bytes; a lookup miss leaves the cursor alone; success leaves it at `offset + size` |
| Scenario.SampleIndexSize | src/lib.rs:31-42 | the sample index is well formed and stored in 100 bytes |
| Scenario.SampleReads | src/lib.rs:12-18 | over the sample archive, construction gives the index back; extraction returns `"hello"` for 100, `"hi!"` for 101 and `NotFound` for 102; there is no table `"XYZ\0"` |

## Left out

- `Debug` for `DRSHeader` and `DRSTable` (src/lib.rs:65-76, 126-138): presentation only.
- The iterator accessors `tables`, `tables_mut`, `resources`, `resources_mut` (src/lib.rs:113-118,
  252-257): the model exposes the sequences directly.
- `get_table_mut` (src/lib.rs:221-224): the same search as `get_table`, modelled by
  `Lookup.GetTable`; a mutable borrow has no counterpart here.
- The `panic!` when tables are read before the header (src/lib.rs:208): `Drs.Archive.ReadTables`
  requires the header to be set, and `New` always reads it first, so the branch cannot be reached.
- The test module (src/lib.rs:260-280): it depends on an external file and asserts nothing.
- `byteorder` and the `std::io` `Read`/`Seek` traits: replaced by `Drs.Stream`, a fixed byte
  sequence with a cursor. Error kinds other than `NotFound` all become `IOFault`. Interrupted or
  partial reads of a real file are not modelled.
- Drs.Stream.Seek: seeking never fails in the model. The offset is a u32, so the `u64` seek target
  is never out of range, and seeking past the end is allowed; the read that follows fails unless it asks for 0 bytes.
- Drs.Stream.ReadExact: after a short read the cursor is placed at the end of the stream. A real
  stream may stop anywhere in between; every caller discards the reader or the result then.
- Drs.ReadResources, Drs.Archive.ReadTables, Drs.Archive.ReadDictionary: they require the cursor to
  be within the stream. This always holds in `New`, where each runs right after a successful read.
- Drs.ReadResources: `DRSTable` is updated in place in the source; the model passes the table in
  and returns the updated value, which `ReadDictionary` stores back at the same index.
- Drs.Archive.New: the cursor after a failed construction is not stated, because the reader is
  discarded.
- Construction starts at the stream's current position, which need not be 0. The closed-form
  functions take that position as a parameter `p`; entry offsets used by extraction are absolute
  positions in the stream, as in the code.
