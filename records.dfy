/** The three fixed-size records of a .drs archive and the decoders that read them from a byte
    stream at a cursor: the 64-byte header, the 12-byte table descriptor and the 12-byte resource
    entry. Every multi-byte integer is an unsigned 32-bit little-endian value. */
module Records {
  import opened Outcome
  import opened LittleEndian

  /** A resource type tag: four raw bytes, compared byte for byte. */
  type Tag = t: seq<byte> | |t| == 4 witness [0, 0, 0, 0]

  type Banner = b: seq<byte> | |b| == 40 witness seq(40, _ => 0)

  type Version = v: seq<byte> | |v| == 4 witness [0, 0, 0, 0]

  type Password = p: seq<byte> | |p| == 12 witness seq(12, _ => 0)

  /** The archive prologue. None of its text fields is validated. */
  datatype Header = Header(
    bannerMsg: Banner,
    version: Version,
    password: Password,
    numResourceTypes: u32,
    directorySize: u32)

  /** Metadata of one resource: its id and the absolute byte range of its content. */
  datatype Resource = Resource(id: u32, offset: u32, size: u32)

  /** A table of resources of one type. `offset` is stored as read; `resources` is filled in
      by the dictionary reader. */
  datatype Table = Table(resourceType: Tag, offset: u32, numResources: u32, resources: seq<Resource>)

  /** What the header reader yields at `pos`: banner, version, password, table count and
      directory size, stored one after the other in 64 bytes, with the two counts little-endian;
      an I/O fault when fewer than 64 bytes remain. Any content is accepted. */
  function HeaderFrom(s: seq<byte>, pos: nat): (r: Result<(Header, nat)>)
    ensures r.Ok? <==> pos + 64 <= |s|
    ensures r.Err? ==> r.error == IOFault
    ensures r.Ok? ==> r.value.1 == pos + 64
  {
    if pos + 64 <= |s| then
      Ok((Header(s[pos..pos + 40], s[pos + 40..pos + 44], s[pos + 44..pos + 56],
                 LeU32(s[pos + 56..pos + 60]), LeU32(s[pos + 60..pos + 64])), pos + 64))
    else Err(IOFault)
  }

  /** The table descriptor stored at byte `q`: tag, offset and resource count, with no resources
      yet. */
  function DescriptorAt(s: seq<byte>, q: nat): (t: Table)
    requires q + 12 <= |s|
    ensures t.resources == []
  {
    Table(s[q..q + 4], LeU32(s[q + 4..q + 8]), LeU32(s[q + 8..q + 12]), [])
  }

  /** The resource entry stored at byte `q`: id, offset and size. */
  function EntryAt(s: seq<byte>, q: nat): Resource
    requires q + 12 <= |s|
  {
    Resource(LeU32(s[q..q + 4]), LeU32(s[q + 4..q + 8]), LeU32(s[q + 8..q + 12]))
  }

  /** What the table descriptor reader yields at `pos`: tag, offset and resource count in 12
      bytes, the table having no resources yet; an I/O fault when fewer than 12 bytes remain. */
  function TableFrom(s: seq<byte>, pos: nat): (r: Result<(Table, nat)>)
    ensures r.Ok? <==> pos + 12 <= |s|
    ensures r.Err? ==> r.error == IOFault
    ensures r.Ok? ==> r.value.1 == pos + 12
  {
    if pos + 12 <= |s| then Ok((DescriptorAt(s, pos), pos + 12)) else Err(IOFault)
  }

  /** What the resource entry reader yields at `pos`: id, offset and size in 12 bytes; an I/O
      fault when fewer than 12 bytes remain. */
  function ResourceFrom(s: seq<byte>, pos: nat): (r: Result<(Resource, nat)>)
    ensures r.Ok? <==> pos + 12 <= |s|
    ensures r.Err? ==> r.error == IOFault
    ensures r.Ok? ==> r.value.1 == pos + 12
  {
    if pos + 12 <= |s| then Ok((EntryAt(s, pos), pos + 12)) else Err(IOFault)
  }

  /** The bytes a header is stored as. */
  function EncodeHeader(h: Header): (b: seq<byte>)
    ensures |b| == 64
  {
    h.bannerMsg + h.version + h.password + EncodeU32(h.numResourceTypes) + EncodeU32(h.directorySize)
  }

  /** The bytes a table descriptor is stored as; its resources are stored elsewhere. */
  function EncodeDescriptor(t: Table): (b: seq<byte>)
    ensures |b| == 12
  {
    t.resourceType + EncodeU32(t.offset) + EncodeU32(t.numResources)
  }

  /** The bytes a resource entry is stored as. */
  function EncodeResource(e: Resource): (b: seq<byte>)
    ensures |b| == 12
  {
    EncodeU32(e.id) + EncodeU32(e.offset) + EncodeU32(e.size)
  }

  /** Reading a stored header gives it back, wherever it sits in the stream. */
  lemma {:induction false} HeaderRoundTrip(h: Header, s: seq<byte>, pos: nat)
    requires pos + 64 <= |s| && s[pos..pos + 64] == EncodeHeader(h)
    ensures HeaderFrom(s, pos).Ok? && HeaderFrom(s, pos).value.0 == h
  {
    var n1 := EncodeU32(h.numResourceTypes);
    var n2 := EncodeU32(h.directorySize);
    SplitAt(s, pos, h.bannerMsg + h.version + h.password + n1, n2);
    SplitAt(s, pos, h.bannerMsg + h.version + h.password, n1);
    SplitAt(s, pos, h.bannerMsg + h.version, h.password);
    SplitAt(s, pos, h.bannerMsg, h.version);
    DecodeEncode(h.numResourceTypes);
    DecodeEncode(h.directorySize);
  }

  /** The header reader keeps every byte it consumes: re-encoding gives them back. */
  lemma {:induction false} HeaderLossless(s: seq<byte>, pos: nat)
    requires HeaderFrom(s, pos).Ok?
    ensures EncodeHeader(HeaderFrom(s, pos).value.0) == s[pos..pos + 64]
  {
    EncodeDecode(s[pos + 56..pos + 60]);
    EncodeDecode(s[pos + 60..pos + 64]);
    assert s[pos..pos + 64] == s[pos..pos + 40] + s[pos + 40..pos + 44] + s[pos + 44..pos + 56]
                               + s[pos + 56..pos + 60] + s[pos + 60..pos + 64];
  }

  /** Reading a stored descriptor gives it back, with no resources attached. */
  lemma {:induction false} DescriptorRoundTrip(t: Table, s: seq<byte>, pos: nat)
    requires pos + 12 <= |s| && s[pos..pos + 12] == EncodeDescriptor(t)
    ensures TableFrom(s, pos).Ok? && TableFrom(s, pos).value.0 == t.(resources := [])
  {
    var n1 := EncodeU32(t.offset);
    var n2 := EncodeU32(t.numResources);
    SplitAt(s, pos, t.resourceType + n1, n2);
    SplitAt(s, pos, t.resourceType, n1);
    DecodeEncode(t.offset);
    DecodeEncode(t.numResources);
  }

  /** Reading a stored resource entry gives it back. */
  lemma {:induction false} ResourceRoundTrip(r: Resource, s: seq<byte>, pos: nat)
    requires pos + 12 <= |s| && s[pos..pos + 12] == EncodeResource(r)
    ensures ResourceFrom(s, pos).Ok? && ResourceFrom(s, pos).value.0 == r
  {
    var n1 := EncodeU32(r.id);
    var n2 := EncodeU32(r.offset);
    var n3 := EncodeU32(r.size);
    SplitAt(s, pos, n1 + n2, n3);
    SplitAt(s, pos, n1, n2);
    DecodeEncode(r.id);
    DecodeEncode(r.offset);
    DecodeEncode(r.size);
  }

  /** The descriptor reader keeps every byte it consumes. */
  lemma {:induction false} DescriptorLossless(s: seq<byte>, pos: nat)
    requires TableFrom(s, pos).Ok?
    ensures EncodeDescriptor(TableFrom(s, pos).value.0) == s[pos..pos + 12]
  {
    EncodeDecode(s[pos + 4..pos + 8]);
    EncodeDecode(s[pos + 8..pos + 12]);
    assert s[pos..pos + 12] == s[pos..pos + 4] + s[pos + 4..pos + 8] + s[pos + 8..pos + 12];
  }

  /** The resource entry reader keeps every byte it consumes. */
  lemma {:induction false} ResourceLossless(s: seq<byte>, pos: nat)
    requires ResourceFrom(s, pos).Ok?
    ensures EncodeResource(ResourceFrom(s, pos).value.0) == s[pos..pos + 12]
  {
    EncodeDecode(s[pos..pos + 4]);
    EncodeDecode(s[pos + 4..pos + 8]);
    EncodeDecode(s[pos + 8..pos + 12]);
    assert s[pos..pos + 12] == s[pos..pos + 4] + s[pos + 4..pos + 8] + s[pos + 8..pos + 12];
  }
}
