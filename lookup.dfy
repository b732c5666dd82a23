/** The lookups over a parsed index: a table by its tag, an entry by its id within a table, an
    entry by tag and id, and the tag of the first table holding an id. All are first-match
    searches in stream order; a miss is `NotFound`. */
module Lookup {
  import opened Outcome
  import opened LittleEndian
  import opened Records

  /** Some entry of `rs` has id `id`. */
  predicate HasResource(rs: seq<Resource>, id: u32)
  {
    exists i :: 0 <= i < |rs| && rs[i].id == id
  }

  /** Some table of `ts` has tag `tag`. */
  predicate HasTable(ts: seq<Table>, tag: Tag)
  {
    exists k :: 0 <= k < |ts| && ts[k].resourceType == tag
  }

  /** No two tables share a tag. */
  predicate DistinctTags(ts: seq<Table>)
  {
    forall i, j :: 0 <= i < j < |ts| ==> ts[i].resourceType != ts[j].resourceType
  }

  /** The entry of a table with id `id`: the first one in the table's order; `NotFound` when none
      has it. */
  function FindResource(rs: seq<Resource>, id: u32): (r: Result<Resource>)
    ensures r.Ok? <==> HasResource(rs, id)
    ensures r.Err? ==> r.error == NotFound
    ensures r.Ok? ==> exists i :: 0 <= i < |rs| && rs[i] == r.value && r.value.id == id
                                  && forall j :: 0 <= j < i ==> rs[j].id != id
  {
    if rs == [] then Err(NotFound)
    else if rs[0].id == id then Ok(rs[0])
    else FindResource(rs[1..], id)
  }

  /** The table with tag `tag`, compared byte for byte: the first one in stream order;
      `NotFound` when none has it. */
  function GetTable(ts: seq<Table>, tag: Tag): (r: Result<Table>)
    ensures r.Ok? <==> HasTable(ts, tag)
    ensures r.Err? ==> r.error == NotFound
    ensures r.Ok? ==> exists k :: 0 <= k < |ts| && ts[k] == r.value && r.value.resourceType == tag
                                  && forall j :: 0 <= j < k ==> ts[j].resourceType != tag
  {
    if ts == [] then Err(NotFound)
    else if ts[0].resourceType == tag then Ok(ts[0])
    else GetTable(ts[1..], tag)
  }

  /** The entry with id `id` in the table with tag `tag`: `NotFound` when the table is missing or
      when it holds no such entry. */
  function GetResource(ts: seq<Table>, tag: Tag, id: u32): (r: Result<Resource>)
    ensures r.Ok? <==> HasTable(ts, tag) && HasResource(GetTable(ts, tag).value.resources, id)
    ensures r.Err? ==> r.error == NotFound
    ensures r.Ok? ==> var rs := GetTable(ts, tag).value.resources;
                      exists i :: 0 <= i < |rs| && rs[i] == r.value && r.value.id == id
                                  && forall j :: 0 <= j < i ==> rs[j].id != id
  {
    var t :- GetTable(ts, tag);
    FindResource(t.resources, id)
  }

  /** The tag of the first table, in stream order, holding an entry with id `id`; `None` when no
      table does. */
  function GetResourceType(ts: seq<Table>, id: u32): (r: Option<Tag>)
    ensures r.Some? <==> exists k :: 0 <= k < |ts| && HasResource(ts[k].resources, id)
    ensures r.Some? ==> exists k :: 0 <= k < |ts| && ts[k].resourceType == r.value
                                    && HasResource(ts[k].resources, id)
                                    && forall j :: 0 <= j < k ==> !HasResource(ts[j].resources, id)
  {
    if ts == [] then None
    else if FindResource(ts[0].resources, id).Ok? then Some(ts[0].resourceType)
    else GetResourceType(ts[1..], id)
  }

  /** With distinct tags, the table lookup finds a table exactly when it is the one at its
      position. */
  lemma {:induction false} GetTableUnique(ts: seq<Table>, k: nat)
    requires DistinctTags(ts) && k < |ts|
    ensures GetTable(ts, ts[k].resourceType) == Ok(ts[k])
  {
    var r := GetTable(ts, ts[k].resourceType);
    var i :| 0 <= i < |ts| && ts[i] == r.value && r.value.resourceType == ts[k].resourceType
             && forall j :: 0 <= j < i ==> ts[j].resourceType != ts[k].resourceType;
    if i < k {
      assert ts[i].resourceType != ts[k].resourceType;
    }
  }

  /** In an archive whose tags are distinct, the tag reported for an id leads back to an entry
      with that id. */
  lemma {:induction false} ResourceTypeFindsResource(ts: seq<Table>, id: u32)
    requires DistinctTags(ts)
    requires GetResourceType(ts, id).Some?
    ensures GetResource(ts, GetResourceType(ts, id).value, id).Ok?
    ensures GetResource(ts, GetResourceType(ts, id).value, id).value.id == id
  {
    var tag := GetResourceType(ts, id).value;
    var k :| 0 <= k < |ts| && ts[k].resourceType == tag && HasResource(ts[k].resources, id)
             && forall j :: 0 <= j < k ==> !HasResource(ts[j].resources, id);
    GetTableUnique(ts, k);
  }

  /** An id reachable by tag has a tag reported for it. */
  lemma {:induction false} ResourceHasType(ts: seq<Table>, tag: Tag, id: u32)
    requires GetResource(ts, tag, id).Ok?
    ensures GetResourceType(ts, id).Some?
  {
    var t := GetTable(ts, tag).value;
    var k :| 0 <= k < |ts| && ts[k] == t && t.resourceType == tag
             && forall j :: 0 <= j < k ==> ts[j].resourceType != tag;
    assert HasResource(ts[k].resources, id);
  }

  /** When no tag is reported for an id, every lookup of that id misses. */
  lemma {:induction false} NoTypeNoResource(ts: seq<Table>, id: u32)
    requires GetResourceType(ts, id).None?
    ensures forall tag :: GetResource(ts, tag, id) == Err(NotFound)
  {
    forall tag
      ensures GetResource(ts, tag, id) == Err(NotFound)
    {
      if GetResource(ts, tag, id).Ok? {
        ResourceHasType(ts, tag, id);
      }
    }
  }

  /** With a repeated tag, the tag reported for an id need not lead back to it: only the first
      table with a given tag is ever searched. */
  lemma {:induction false} RepeatedTagHidesResource()
    ensures var tag: Tag := [66, 73, 78, 0];
      var ts := [Table(tag, 0, 0, []), Table(tag, 0, 1, [Resource(7, 200, 5)])];
      && GetResourceType(ts, 7) == Some(tag)
      && GetResource(ts, tag, 7) == Err(NotFound)
  {
    var tag: Tag := [66, 73, 78, 0];
    var ts := [Table(tag, 0, 0, []), Table(tag, 0, 1, [Resource(7, 200, 5)])];
    assert ts[1..] == [ts[1]];
    assert FindResource(ts[1].resources, 7) == Ok(Resource(7, 200, 5));
  }
}
