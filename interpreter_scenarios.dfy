/**
 * The interpreter's test scenarios: each method builds the in-memory store the
 * way its test does, interprets one entity and promises what the test asserts.
 */
module InterpreterScenarios {
  import OsmGeoKeys
  import opened Wrappers
  import opened Osm
  import opened Db
  import opened Geometries
  import opened RingAssembler
  import opened FeatureInterpreter

  /** The store of the way tests: nodes 1, 2, 3 and a way over them. */
  function TriangleStore(way: Way): Snapshot
  {
    var db := Put(map[], NodeGeo(Node(1, 0.0, 0.0, [])));
    var db := Put(db, NodeGeo(Node(2, 1.0, 0.0, [])));
    var db := Put(db, NodeGeo(Node(3, 0.0, 1.0, [])));
    Put(db, WayGeo(way))
  }

  /** The closed way 1-2-3-1 carrying only area=yes or only natural=water, stored with its nodes, becomes one ring carrying that tag. */
  lemma TriangleWayYieldsRing(way: Way, db: Snapshot, tag: Tag)
    requires tag == Tag("area", "yes") || tag == Tag("natural", "water")
    requires way == Way(1, [1, 2, 3, 1], [tag]) && db == TriangleStore(way)
    ensures var fs := Interpret(WayGeo(way), db);
      |fs| == 1 && fs[0].geometry.LineairRing? && HasTag(fs[0].attributes, tag.key, tag.value)
  {
    assert NodesResolve(way.nodes, db);
    assert !HasTag(way.tags, "area", "no");
    if tag == Tag("area", "yes") {
      WayAreaIsYesArea(way, db);
    } else {
      WayNaturalIsWaterArea(way, db);
    }
  }

  /** Adds the three nodes and the way of the way tests to an empty store, in the tests' order. */
  method AddTriangle(source: MemorySnapshotDb, node1: Node, node2: Node, node3: Node, way: Way)
    requires source.Valid() && source.entries == map[]
    requires node1 == Node(1, 0.0, 0.0, []) && node2 == Node(2, 1.0, 0.0, []) && node3 == Node(3, 0.0, 1.0, [])
    modifies source
    ensures source.Valid() && source.entries == TriangleStore(way)
  {
    source.AddOrUpdate(NodeGeo(node1));
    source.AddOrUpdate(NodeGeo(node2));
    source.AddOrUpdate(NodeGeo(node3));
    source.AddOrUpdate(WayGeo(way));
  }

  /** Way 1-2-3-1 tagged area=yes: one ring feature carrying area=yes. */
  method TestWayAreaIsYesArea() returns (features: seq<Feature>)
    ensures |features| == 1
    ensures features[0].geometry.LineairRing?
    ensures HasTag(features[0].attributes, "area", "yes")
  {
    var node1 := Node(1, 0.0, 0.0, []);
    var node2 := Node(2, 1.0, 0.0, []);
    var node3 := Node(3, 0.0, 1.0, []);
    var nodes: seq<NodeId> := [];
    nodes := nodes + [1];
    nodes := nodes + [2];
    nodes := nodes + [3];
    nodes := nodes + [1];
    var tags: Tags := [];
    tags := tags + [Tag("area", "yes")];
    var way := Way(1, nodes, tags);

    assert way == Way(1, [1, 2, 3, 1], [Tag("area", "yes")]);

    var source := new MemorySnapshotDb([]);
    AddTriangle(source, node1, node2, node3, way);
    var db := source.entries;

    features := Interpret(WayGeo(way), db);
    TriangleWayYieldsRing(way, db, Tag("area", "yes"));
  }

  /** Way 1-2-3-1 tagged natural=water only: one ring feature carrying natural=water. */
  method TestWayNaturalIsWaterArea() returns (features: seq<Feature>)
    ensures |features| == 1
    ensures features[0].geometry.LineairRing?
    ensures HasTag(features[0].attributes, "natural", "water")
  {
    var node1 := Node(1, 0.0, 0.0, []);
    var node2 := Node(2, 1.0, 0.0, []);
    var node3 := Node(3, 0.0, 1.0, []);
    var nodes: seq<NodeId> := [];
    nodes := nodes + [1];
    nodes := nodes + [2];
    nodes := nodes + [3];
    nodes := nodes + [1];
    var tags: Tags := [];
    tags := tags + [Tag("natural", "water")];
    var way := Way(1, nodes, tags);

    assert way == Way(1, [1, 2, 3, 1], [Tag("natural", "water")]);

    var source := new MemorySnapshotDb([]);
    AddTriangle(source, node1, node2, node3, way);
    var db := source.entries;

    features := Interpret(WayGeo(way), db);
    TriangleWayYieldsRing(way, db, Tag("natural", "water"));
  }

  const MultipolygonTags: Tags := [Tag("type", "multipolygon")]

  const OneOuterRelation := Relation(1, MultipolygonTags, [RelationMember(OsmGeoKeys.Way, 1, "outer")])

  /** The primitives of the one-outer test, in the order they are handed to the store. */
  const OneOuterItems: seq<OsmGeo> := [
    NodeGeo(Node(1, 0.0, 0.0, [])),
    NodeGeo(Node(2, 1.0, 0.0, [])),
    NodeGeo(Node(3, 0.0, 1.0, [])),
    WayGeo(Way(1, [1, 2, 3, 1], [])),
    RelationGeo(OneOuterRelation)
  ]

  /** What a store built from the one-outer primitives holds. */
  lemma OneOuterItemsStored(db: Snapshot)
    requires db == SnapshotOf(OneOuterItems)
    ensures LookupRelation(db, 1) == Some(OneOuterRelation)
    ensures LookupWay(db, 1) == Some(Way(1, [1, 2, 3, 1], []))
    ensures NodesResolve([1, 2, 3, 1], db)
  {
    SnapshotOfLastWins(OneOuterItems, 0);
    SnapshotOfLastWins(OneOuterItems, 1);
    SnapshotOfLastWins(OneOuterItems, 2);
    SnapshotOfLastWins(OneOuterItems, 3);
    SnapshotOfLastWins(OneOuterItems, 4);
  }

  /** With its outer way and that way's nodes in the store, the one-outer multipolygon becomes one plain ring. */
  lemma OneOuterYieldsRing(db: Snapshot)
    requires LookupWay(db, 1) == Some(Way(1, [1, 2, 3, 1], []))
    requires NodesResolve([1, 2, 3, 1], db)
    ensures var fs := Interpret(RelationGeo(OneOuterRelation), db);
      |fs| == 1 && fs[0].geometry.LineairRing? && fs[0].attributes == MultipolygonTags
  {
    MultipolygonOneOuter(OneOuterRelation, db, [1, 2, 3, 1]);
  }

  /** A multipolygon with one outer way: one plain ring carrying type=multipolygon. */
  method TestRelationMultipolygonAreaOneOuter() returns (features: seq<Feature>)
    ensures |features| == 1
    ensures features[0].geometry.LineairRing?
    ensures HasTag(features[0].attributes, "type", "multipolygon")
  {
    var source := new MemorySnapshotDb(OneOuterItems);
    OneOuterItemsStored(source.entries);
    var rel := source.GetRelation(1);
    features := Interpret(RelationGeo(rel.value), source.entries);
    OneOuterYieldsRing(source.entries);
  }

  /** Stores `g` under its own key, as one AddOrUpdate call does. */
  function Put(db: Snapshot, g: OsmGeo): Snapshot
  {
    db[KeyOf(g) := g]
  }

  /** The store the remaining tests start from: the unit square 1-2-3-4-1 as way 1 and the inner nodes 5..8. */
  function SquareStore(): Snapshot
  {
    var db := map[];
    var db := Put(db, NodeGeo(Node(1, 0.0, 0.0, [])));
    var db := Put(db, NodeGeo(Node(2, 0.0, 1.0, [])));
    var db := Put(db, NodeGeo(Node(3, 1.0, 1.0, [])));
    var db := Put(db, NodeGeo(Node(4, 1.0, 0.0, [])));
    var db := Put(db, NodeGeo(Node(5, 0.25, 0.25, [])));
    var db := Put(db, NodeGeo(Node(6, 0.25, 0.40, [])));
    var db := Put(db, NodeGeo(Node(7, 0.40, 0.40, [])));
    var db := Put(db, NodeGeo(Node(8, 0.40, 0.25, [])));
    Put(db, WayGeo(Way(1, [1, 2, 3, 4, 1], [])))
  }

  /** Storing a primitive never removes a node: a node key is only ever overwritten by a node. */
  lemma PutKeepsNodes(db: Snapshot, g: OsmGeo, ids: seq<NodeId>)
    requires NodesResolve(ids, db)
    ensures NodesResolve(ids, Put(db, g))
  {
    forall k | 0 <= k < |ids|
      ensures LookupNode(Put(db, g), ids[k]).Some?
    {
      assert LookupNode(db, ids[k]).Some?;
    }
  }

  /** Every ring of the square tests resolves in the square store. */
  lemma SquareStoreNodes(ring: seq<NodeId>)
    requires ring in [[1, 2, 3, 4, 1], [5, 6, 7, 8, 5], [5, 6, 7], [7, 8, 5]]
    ensures NodesResolve(ring, SquareStore())
  {
  }

  /** Fills `source` with the contents of SquareStore, one AddOrUpdate per primitive. */
  method AddSquare(source: MemorySnapshotDb)
    requires source.Valid() && source.entries == map[]
    modifies source
    ensures source.Valid() && source.entries == SquareStore()
  {
    source.AddOrUpdate(NodeGeo(Node(1, 0.0, 0.0, [])));
    source.AddOrUpdate(NodeGeo(Node(2, 0.0, 1.0, [])));
    source.AddOrUpdate(NodeGeo(Node(3, 1.0, 1.0, [])));
    source.AddOrUpdate(NodeGeo(Node(4, 1.0, 0.0, [])));
    source.AddOrUpdate(NodeGeo(Node(5, 0.25, 0.25, [])));
    source.AddOrUpdate(NodeGeo(Node(6, 0.25, 0.40, [])));
    source.AddOrUpdate(NodeGeo(Node(7, 0.40, 0.40, [])));
    source.AddOrUpdate(NodeGeo(Node(8, 0.40, 0.25, [])));
    source.AddOrUpdate(WayGeo(Way(1, [1, 2, 3, 4, 1], [])));
  }

  const OneInnerRelation := Relation(1, MultipolygonTags, [
    RelationMember(OsmGeoKeys.Way, 1, "outer"),
    RelationMember(OsmGeoKeys.Way, 2, "inner")])

  /** The store of the one-inner test: the square and the inner way 5-6-7-8-5. */
  function OneInnerStore(): Snapshot
  {
    Put(Put(SquareStore(), WayGeo(Way(2, [5, 6, 7, 8, 5], []))), RelationGeo(OneInnerRelation))
  }

  lemma OneInnerStoreWays(db: Snapshot)
    requires db == OneInnerStore()
    ensures LookupWay(db, 1) == Some(Way(1, [1, 2, 3, 4, 1], []))
    ensures LookupWay(db, 2) == Some(Way(2, [5, 6, 7, 8, 5], []))
  {
  }

  lemma OneInnerStoreNodes(db: Snapshot, ring: seq<NodeId>)
    requires db == OneInnerStore()
    requires ring in [[1, 2, 3, 4, 1], [5, 6, 7, 8, 5]]
    ensures NodesResolve(ring, db)
  {
    SquareStoreNodes(ring);
    var d := Put(SquareStore(), WayGeo(Way(2, [5, 6, 7, 8, 5], [])));
    PutKeepsNodes(SquareStore(), WayGeo(Way(2, [5, 6, 7, 8, 5], [])), ring);
    PutKeepsNodes(d, RelationGeo(OneInnerRelation), ring);
  }

  /** With the square as outer way 1 and 5-6-7-8-5 as inner way 2, the multipolygon becomes one polygon with one hole. */
  lemma OneInnerYieldsOneHole(db: Snapshot)
    requires LookupWay(db, 1) == Some(Way(1, [1, 2, 3, 4, 1], []))
    requires LookupWay(db, 2) == Some(Way(2, [5, 6, 7, 8, 5], []))
    requires NodesResolve([1, 2, 3, 4, 1], db) && NodesResolve([5, 6, 7, 8, 5], db)
    ensures var fs := Interpret(RelationGeo(OneInnerRelation), db);
      |fs| == 1 && fs[0].geometry.Polygon? && |fs[0].geometry.holes| == 1 &&
      fs[0].attributes == MultipolygonTags
  {
    MultipolygonOuterWithClosedInners(OneInnerRelation, db, [1, 2, 3, 4, 1], [[5, 6, 7, 8, 5]]);
  }

  /** A multipolygon with one outer and one inner way: one polygon with one hole. */
  method TestRelationMultipolygonAreaOneOuterOneInner() returns (features: seq<Feature>)
    ensures |features| == 1
    ensures features[0].geometry.Polygon?
    ensures |features[0].geometry.holes| == 1
    ensures HasTag(features[0].attributes, "type", "multipolygon")
  {
    var source := new MemorySnapshotDb([]);
    AddSquare(source);
    source.AddOrUpdate(WayGeo(Way(2, [5, 6, 7, 8, 5], [])));
    source.AddOrUpdate(RelationGeo(OneInnerRelation));
    var rel := source.GetRelation(1);
    features := Interpret(RelationGeo(rel.value), source.entries);
    OneInnerStoreWays(source.entries);
    OneInnerStoreNodes(source.entries, [1, 2, 3, 4, 1]);
    OneInnerStoreNodes(source.entries, [5, 6, 7, 8, 5]);
    OneInnerYieldsOneHole(source.entries);
  }

  const TwoInnersRelation := Relation(1, MultipolygonTags, [
    RelationMember(OsmGeoKeys.Way, 1, "outer"),
    RelationMember(OsmGeoKeys.Way, 2, "inner"),
    RelationMember(OsmGeoKeys.Way, 3, "inner")])

  /** With ways 1, 2 and 3 in the store, the relation's outer fragment is way 1 and its inner fragments are ways 2 and 3, in member order. */
  lemma TwoInnersRoles(db: Snapshot)
    requires LookupWay(db, 1).Some? && LookupWay(db, 2).Some? && LookupWay(db, 3).Some?
    ensures RoleFragments(TwoInnersRelation.members, db, "outer") == [LookupWay(db, 1).value.nodes]
    ensures RoleFragments(TwoInnersRelation.members, db, "inner") == [LookupWay(db, 2).value.nodes, LookupWay(db, 3).value.nodes]
  {
    var ms := TwoInnersRelation.members;
    assert RoleFragments(ms[2..], db, "outer") == [];
    assert RoleFragments(ms[2..], db, "inner") == [LookupWay(db, 3).value.nodes];
  }

  /** The store of the two-inner test: the square, inner 5-6-7-8-5 and inner 9-10-11-12-9. */
  function TwoInnersStore(): Snapshot
  {
    var db := SquareStore();
    var db := Put(db, NodeGeo(Node(9, 0.60, 0.25, [])));
    var db := Put(db, NodeGeo(Node(10, 0.60, 0.40, [])));
    var db := Put(db, NodeGeo(Node(11, 0.75, 0.40, [])));
    var db := Put(db, NodeGeo(Node(12, 0.75, 0.25, [])));
    var db := Put(db, WayGeo(Way(2, [5, 6, 7, 8, 5], [])));
    var db := Put(db, WayGeo(Way(3, [9, 10, 11, 12, 9], [])));
    Put(db, RelationGeo(TwoInnersRelation))
  }

  lemma TwoInnersStoreWays(db: Snapshot)
    requires db == TwoInnersStore()
    ensures LookupWay(db, 1) == Some(Way(1, [1, 2, 3, 4, 1], []))
    ensures LookupWay(db, 2) == Some(Way(2, [5, 6, 7, 8, 5], []))
    ensures LookupWay(db, 3) == Some(Way(3, [9, 10, 11, 12, 9], []))
  {
  }

  lemma TwoInnersStoreOuterNodes(db: Snapshot)
    requires db == TwoInnersStore()
    ensures NodesResolve([1, 2, 3, 4, 1], db)
  {
    var ring := [1, 2, 3, 4, 1];
    var d := SquareStore();
    SquareStoreNodes(ring);
    PutKeepsNodes(d, NodeGeo(Node(9, 0.60, 0.25, [])), ring);
    d := Put(d, NodeGeo(Node(9, 0.60, 0.25, [])));
    PutKeepsNodes(d, NodeGeo(Node(10, 0.60, 0.40, [])), ring);
    d := Put(d, NodeGeo(Node(10, 0.60, 0.40, [])));
    PutKeepsNodes(d, NodeGeo(Node(11, 0.75, 0.40, [])), ring);
    d := Put(d, NodeGeo(Node(11, 0.75, 0.40, [])));
    PutKeepsNodes(d, NodeGeo(Node(12, 0.75, 0.25, [])), ring);
    d := Put(d, NodeGeo(Node(12, 0.75, 0.25, [])));
    PutKeepsNodes(d, WayGeo(Way(2, [5, 6, 7, 8, 5], [])), ring);
    d := Put(d, WayGeo(Way(2, [5, 6, 7, 8, 5], [])));
    PutKeepsNodes(d, WayGeo(Way(3, [9, 10, 11, 12, 9], [])), ring);
    d := Put(d, WayGeo(Way(3, [9, 10, 11, 12, 9], [])));
    PutKeepsNodes(d, RelationGeo(TwoInnersRelation), ring);
  }

  lemma TwoInnersStoreFirstInnerNodes(db: Snapshot)
    requires db == TwoInnersStore()
    ensures NodesResolve([5, 6, 7, 8, 5], db)
  {
  }

  lemma TwoInnersStoreSecondInnerNodes(db: Snapshot)
    requires db == TwoInnersStore()
    ensures NodesResolve([9, 10, 11, 12, 9], db)
  {
  }

  /** With two closed inner ways inside the square, the multipolygon becomes one polygon with two holes. */
  lemma TwoInnersYieldTwoHoles(db: Snapshot)
    requires LookupWay(db, 1) == Some(Way(1, [1, 2, 3, 4, 1], []))
    requires LookupWay(db, 2) == Some(Way(2, [5, 6, 7, 8, 5], []))
    requires LookupWay(db, 3) == Some(Way(3, [9, 10, 11, 12, 9], []))
    requires NodesResolve([1, 2, 3, 4, 1], db) && NodesResolve([5, 6, 7, 8, 5], db) && NodesResolve([9, 10, 11, 12, 9], db)
    ensures var fs := Interpret(RelationGeo(TwoInnersRelation), db);
      |fs| == 1 && fs[0].geometry.Polygon? && |fs[0].geometry.holes| == 2 &&
      fs[0].attributes == MultipolygonTags
  {
    TwoInnersRoles(db);
    MultipolygonOuterWithClosedInners(TwoInnersRelation, db, [1, 2, 3, 4, 1], [[5, 6, 7, 8, 5], [9, 10, 11, 12, 9]]);
  }

  /** A multipolygon with one outer and two disjoint inner ways: one polygon with two holes. */
  method TestRelationMultipolygonAreaOneOuterTwoInners() returns (features: seq<Feature>)
    ensures |features| == 1
    ensures features[0].geometry.Polygon?
    ensures |features[0].geometry.holes| == 2
    ensures HasTag(features[0].attributes, "type", "multipolygon")
  {
    var source := new MemorySnapshotDb([]);
    AddSquare(source);
    source.AddOrUpdate(NodeGeo(Node(9, 0.60, 0.25, [])));
    source.AddOrUpdate(NodeGeo(Node(10, 0.60, 0.40, [])));
    source.AddOrUpdate(NodeGeo(Node(11, 0.75, 0.40, [])));
    source.AddOrUpdate(NodeGeo(Node(12, 0.75, 0.25, [])));
    source.AddOrUpdate(WayGeo(Way(2, [5, 6, 7, 8, 5], [])));
    source.AddOrUpdate(WayGeo(Way(3, [9, 10, 11, 12, 9], [])));
    source.AddOrUpdate(RelationGeo(TwoInnersRelation));
    var rel := source.GetRelation(1);
    features := Interpret(RelationGeo(rel.value), source.entries);
    TwoInnersStoreWays(source.entries);
    TwoInnersStoreOuterNodes(source.entries);
    TwoInnersStoreFirstInnerNodes(source.entries);
    TwoInnersStoreSecondInnerNodes(source.entries);
    TwoInnersYieldTwoHoles(source.entries);
  }

  /** The store of the split-inner test: the square and the inner ways 5-6-7 and 7-8-5. */
  function PartialInnersStore(): Snapshot
  {
    Put(Put(Put(SquareStore(), WayGeo(Way(2, [5, 6, 7], []))), WayGeo(Way(3, [7, 8, 5], []))), RelationGeo(TwoInnersRelation))
  }

  lemma PartialInnersStoreWays(db: Snapshot)
    requires db == PartialInnersStore()
    ensures LookupWay(db, 1) == Some(Way(1, [1, 2, 3, 4, 1], []))
    ensures LookupWay(db, 2) == Some(Way(2, [5, 6, 7], []))
    ensures LookupWay(db, 3) == Some(Way(3, [7, 8, 5], []))
  {
  }

  lemma PartialInnersStoreNodes(db: Snapshot, ring: seq<NodeId>)
    requires db == PartialInnersStore()
    requires ring in [[1, 2, 3, 4, 1], [5, 6, 7], [7, 8, 5]]
    ensures NodesResolve(ring, db)
  {
    SquareStoreNodes(ring);
    var d := SquareStore();
    PutKeepsNodes(d, WayGeo(Way(2, [5, 6, 7], [])), ring);
    d := Put(d, WayGeo(Way(2, [5, 6, 7], [])));
    PutKeepsNodes(d, WayGeo(Way(3, [7, 8, 5], [])), ring);
    d := Put(d, WayGeo(Way(3, [7, 8, 5], [])));
    PutKeepsNodes(d, RelationGeo(TwoInnersRelation), ring);
  }

  /** With the inner ring split over ways 5-6-7 and 7-8-5, the multipolygon becomes one polygon with one hole, not two. */
  lemma PartialInnersYieldOneHole(db: Snapshot)
    requires LookupWay(db, 1) == Some(Way(1, [1, 2, 3, 4, 1], []))
    requires LookupWay(db, 2) == Some(Way(2, [5, 6, 7], []))
    requires LookupWay(db, 3) == Some(Way(3, [7, 8, 5], []))
    requires NodesResolve([1, 2, 3, 4, 1], db) && NodesResolve([5, 6, 7], db) && NodesResolve([7, 8, 5], db)
    ensures var fs := Interpret(RelationGeo(TwoInnersRelation), db);
      |fs| == 1 && fs[0].geometry.Polygon? && |fs[0].geometry.holes| == 1 &&
      fs[0].attributes == MultipolygonTags
  {
    TwoInnersRoles(db);
    assert Oriented([7, 8, 5], 7) == [7, 8, 5];
    MultipolygonSplitInner(TwoInnersRelation, db, [1, 2, 3, 4, 1], [5, 6, 7], [7, 8, 5]);
  }

  /** A multipolygon whose inner ring is split over ways 5-6-7 and 7-8-5: one polygon with one hole, not two. */
  method TestRelationMultipolygonAreaOneOuterTwoPartialInners() returns (features: seq<Feature>)
    ensures |features| == 1
    ensures features[0].geometry.Polygon?
    ensures |features[0].geometry.holes| == 1
    ensures HasTag(features[0].attributes, "type", "multipolygon")
  {
    var source := new MemorySnapshotDb([]);
    AddSquare(source);
    source.AddOrUpdate(WayGeo(Way(2, [5, 6, 7], [])));
    source.AddOrUpdate(WayGeo(Way(3, [7, 8, 5], [])));
    source.AddOrUpdate(RelationGeo(TwoInnersRelation));
    var rel := source.GetRelation(1);
    features := Interpret(RelationGeo(rel.value), source.entries);
    PartialInnersStoreWays(source.entries);
    PartialInnersStoreNodes(source.entries, [1, 2, 3, 4, 1]);
    PartialInnersStoreNodes(source.entries, [5, 6, 7]);
    PartialInnersStoreNodes(source.entries, [7, 8, 5]);
    PartialInnersYieldOneHole(source.entries);
  }

  /** The two partial inner ways 5-6-7 and 7-8-5 are stitched into the one ring 5-6-7-8-5. */
  method TestAssembleTwoPartialInners() returns (result: Assembly)
    ensures result.rings == [AssembledRing([5, 6, 7, 8, 5], [[5, 6, 7], [7, 8, 5]])]
    ensures result.failed == []
  {
    result := AssembleRings([[5, 6, 7], [7, 8, 5]]);
    AssembleTwoHalves([5, 6, 7], [7, 8, 5]);
    assert Oriented([7, 8, 5], 7) == [7, 8, 5];
    assert [5, 6, 7] + [7, 8, 5][1..] == [5, 6, 7, 8, 5];
  }
}
