/**
 * The in-memory primitive source. A snapshot is a finite map from (type, id)
 * keys to primitives; the store is an object whose map the `AddOrUpdate`
 * calls replace entry by entry. Lookups by exact id answer `None` for a
 * missing primitive (NotFound).
 */
module Db {
  import opened Wrappers
  import OsmGeoKeys
  import opened Osm

  type Snapshot = map<OsmGeoKeys.OsmGeoKey, OsmGeo>

  /** Every primitive is stored under its own key. */
  ghost predicate WellKeyed(db: Snapshot)
  {
    forall k :: k in db ==> KeyOf(db[k]) == k
  }

  /** The snapshot after adding the primitives in order; a later one replaces an earlier one with the same key. */
  function SnapshotOf(items: seq<OsmGeo>): Snapshot
  {
    if items == [] then map[]
    else SnapshotOf(items[..|items| - 1])[KeyOf(items[|items| - 1]) := items[|items| - 1]]
  }

  lemma {:induction false} SnapshotOfWellKeyed(items: seq<OsmGeo>)
    ensures WellKeyed(SnapshotOf(items))
  {
    if items != [] {
      SnapshotOfWellKeyed(items[..|items| - 1]);
    }
  }

  /** No primitive after position i has the key of the one at i. */
  predicate LastWithKey(items: seq<OsmGeo>, i: nat)
    requires i < |items|
  {
    forall j :: i < j < |items| ==> KeyOf(items[j]) != KeyOf(items[i])
  }

  /** The last primitive added under a key is the one stored under it. */
  lemma {:induction false} SnapshotOfLastWins(items: seq<OsmGeo>, i: nat)
    requires i < |items| && LastWithKey(items, i)
    ensures KeyOf(items[i]) in SnapshotOf(items) && SnapshotOf(items)[KeyOf(items[i])] == items[i]
  {
    if i < |items| - 1 {
      var prefix := items[..|items| - 1];
      assert prefix[i] == items[i];
      SnapshotOfLastWins(prefix, i);
    }
  }

  /** A key is stored exactly when some primitive was added under it. */
  lemma {:induction false} SnapshotOfKeys(items: seq<OsmGeo>, k: OsmGeoKeys.OsmGeoKey)
    ensures k in SnapshotOf(items) <==> exists i :: 0 <= i < |items| && KeyOf(items[i]) == k
  {
    if items != [] {
      var prefix := items[..|items| - 1];
      SnapshotOfKeys(prefix, k);
      if exists i :: 0 <= i < |prefix| && KeyOf(prefix[i]) == k {
        var i :| 0 <= i < |prefix| && KeyOf(prefix[i]) == k;
        assert items[i] == prefix[i];
      }
      if exists i :: 0 <= i < |items| && KeyOf(items[i]) == k {
        var i :| 0 <= i < |items| && KeyOf(items[i]) == k;
        if i < |prefix| {
          assert prefix[i] == items[i];
        }
      }
    }
  }

  /** `GetNode(id)` on a snapshot. */
  function LookupNode(db: Snapshot, id: NodeId): (r: Option<Node>)
    ensures r.Some? <==> OsmGeoKeys.OsmGeoKey(OsmGeoKeys.Node, id) in db && db[OsmGeoKeys.OsmGeoKey(OsmGeoKeys.Node, id)].NodeGeo?
    ensures r.Some? ==> db[OsmGeoKeys.OsmGeoKey(OsmGeoKeys.Node, id)] == NodeGeo(r.value)
    ensures WellKeyed(db) && r.Some? ==> r.value.id == id
  {
    var k := OsmGeoKeys.OsmGeoKey(OsmGeoKeys.Node, id);
    if k in db && db[k].NodeGeo? then Some(db[k].node) else None
  }

  /** `GetWay(id)` on a snapshot. */
  function LookupWay(db: Snapshot, id: int): (r: Option<Way>)
    ensures r.Some? <==> OsmGeoKeys.OsmGeoKey(OsmGeoKeys.Way, id) in db && db[OsmGeoKeys.OsmGeoKey(OsmGeoKeys.Way, id)].WayGeo?
    ensures r.Some? ==> db[OsmGeoKeys.OsmGeoKey(OsmGeoKeys.Way, id)] == WayGeo(r.value)
    ensures WellKeyed(db) && r.Some? ==> r.value.id == id
  {
    var k := OsmGeoKeys.OsmGeoKey(OsmGeoKeys.Way, id);
    if k in db && db[k].WayGeo? then Some(db[k].way) else None
  }

  /** `GetRelation(id)` on a snapshot. */
  function LookupRelation(db: Snapshot, id: int): (r: Option<Relation>)
    ensures r.Some? <==> OsmGeoKeys.OsmGeoKey(OsmGeoKeys.Relation, id) in db && db[OsmGeoKeys.OsmGeoKey(OsmGeoKeys.Relation, id)].RelationGeo?
    ensures r.Some? ==> db[OsmGeoKeys.OsmGeoKey(OsmGeoKeys.Relation, id)] == RelationGeo(r.value)
    ensures WellKeyed(db) && r.Some? ==> r.value.id == id
  {
    var k := OsmGeoKeys.OsmGeoKey(OsmGeoKeys.Relation, id);
    if k in db && db[k].RelationGeo? then Some(db[k].relation) else None
  }

  /** The store; `entries` is its current snapshot. */
  class MemorySnapshotDb {
    var entries: Snapshot

    ghost predicate Valid()
      reads this
    {
      WellKeyed(entries)
    }

    /** A store holding the given primitives, added in order. */
    constructor (items: seq<OsmGeo>)
      ensures Valid()
      ensures entries == SnapshotOf(items)
    {
      var acc: Snapshot := map[];
      var i := 0;
      while i < |items|
        invariant 0 <= i <= |items|
        invariant acc == SnapshotOf(items[..i])
      {
        assert items[..i + 1][..i] == items[..i];
        acc := acc[KeyOf(items[i]) := items[i]];
        i := i + 1;
      }
      assert items[..|items|] == items;
      entries := acc;
      SnapshotOfWellKeyed(items);
    }

    /** Stores `g` under its key, replacing what was there; every other entry is unchanged. */
    method AddOrUpdate(g: OsmGeo)
      requires Valid()
      modifies this
      ensures Valid()
      ensures entries == old(entries)[KeyOf(g) := g]
    {
      entries := entries[KeyOf(g) := g];
    }

    function GetNode(id: NodeId): (r: Option<Node>)
      reads this
      requires Valid()
      ensures r.Some? <==> OsmGeoKeys.OsmGeoKey(OsmGeoKeys.Node, id) in entries && entries[OsmGeoKeys.OsmGeoKey(OsmGeoKeys.Node, id)].NodeGeo?
      ensures r.Some? ==> entries[OsmGeoKeys.OsmGeoKey(OsmGeoKeys.Node, id)] == NodeGeo(r.value) && r.value.id == id
    {
      LookupNode(entries, id)
    }

    function GetWay(id: int): (r: Option<Way>)
      reads this
      requires Valid()
      ensures r.Some? <==> OsmGeoKeys.OsmGeoKey(OsmGeoKeys.Way, id) in entries && entries[OsmGeoKeys.OsmGeoKey(OsmGeoKeys.Way, id)].WayGeo?
      ensures r.Some? ==> entries[OsmGeoKeys.OsmGeoKey(OsmGeoKeys.Way, id)] == WayGeo(r.value) && r.value.id == id
    {
      LookupWay(entries, id)
    }

    function GetRelation(id: int): (r: Option<Relation>)
      reads this
      requires Valid()
      ensures r.Some? <==> OsmGeoKeys.OsmGeoKey(OsmGeoKeys.Relation, id) in entries && entries[OsmGeoKeys.OsmGeoKey(OsmGeoKeys.Relation, id)].RelationGeo?
      ensures r.Some? ==> entries[OsmGeoKeys.OsmGeoKey(OsmGeoKeys.Relation, id)] == RelationGeo(r.value) && r.value.id == id
    {
      LookupRelation(entries, id)
    }
  }
}
