/**
 * The feature interpreter: `Interpret(entity, source)` turns one OSM primitive
 * into a list of features, reading the member ways and nodes it needs from the
 * source. A tagged node gives a point; a way gives a line string or, when its
 * tags make it an area and it is closed, a ring; a multipolygon relation gives
 * one feature per outer ring, a plain ring when nothing is nested in it and a
 * polygon with holes otherwise. Features always carry the tags of the entity
 * that was interpreted, never those of member ways. Anything that cannot be
 * interpreted yields fewer features, down to the empty list; the result is a
 * list in every case.
 */
module FeatureInterpreter {
  import opened Wrappers
  import OsmGeoKeys
  import opened Osm
  import opened Db
  import opened Geometries
  import opened TagClassifier
  import opened RingAssembler
  import opened PolygonNester

  function CoordOf(n: Node): Coord
  {
    Coord(n.latitude, n.longitude)
  }

  /** Every node id resolves to a node in the source. */
  predicate NodesResolve(ids: seq<NodeId>, db: Snapshot)
  {
    forall k :: 0 <= k < |ids| ==> LookupNode(db, ids[k]).Some?
  }

  /** The coordinates of the node ids, in order; None when one of them is missing. */
  function ResolveCoords(ids: seq<NodeId>, db: Snapshot): (r: Option<seq<Coord>>)
    ensures r.Some? <==> NodesResolve(ids, db)
    ensures r.Some? ==> |r.value| == |ids|
    ensures r.Some? ==> forall k :: 0 <= k < |ids| ==> r.value[k] == CoordOf(LookupNode(db, ids[k]).value)
  {
    if ids == [] then Some([])
    else
      var head := LookupNode(db, ids[0]);
      var tail := ResolveCoords(ids[1..], db);
      assert forall k :: 1 <= k < |ids| ==> ids[k] == ids[1..][k - 1];
      if head.Some? && tail.Some? then Some([CoordOf(head.value)] + tail.value) else None
  }

  /** Resolving a ring of node ids gives a closed ring of coordinates. */
  lemma {:induction false} ResolvedRingIsClosed(ids: seq<NodeId>, db: Snapshot, cs: seq<Coord>)
    requires IsRing(ids) && ResolveCoords(ids, db) == Some(cs)
    ensures IsClosedRing(cs)
  {
    assert cs[0] == CoordOf(LookupNode(db, ids[0]).value) == cs[|ids| - 1];
    ClosedAtIdsEnd(ids, cs);
  }

  /** A coordinate list as long as a ring of ids, closed at the ids' last index, is a closed ring. */
  lemma ClosedAtIdsEnd(ids: seq<NodeId>, cs: seq<Coord>)
    requires |cs| == |ids| >= 4 && cs[0] == cs[|ids| - 1]
    ensures IsClosedRing(cs)
  {
  }

  /** The coordinate rings of the assembled rings whose nodes all resolve, in order. */
  function ResolveRings(rings: seq<AssembledRing>, db: Snapshot): (r: seq<Ring>)
    requires forall i :: 0 <= i < |rings| ==> IsRing(rings[i].nodes)
    ensures |r| <= |rings|
    ensures forall h :: h in r ==> IsClosedRing(h)
  {
    if rings == [] then []
    else
      var rest := ResolveRings(rings[1..], db);
      assert forall i :: 1 <= i < |rings| ==> rings[i] == rings[1..][i - 1];
      match ResolveCoords(rings[0].nodes, db)
      case None => rest
      case Some(cs) =>
        ResolvedRingIsClosed(rings[0].nodes, db, cs);
        [cs] + rest
  }

  /** When every ring's nodes resolve, no ring is dropped and each keeps its place. */
  lemma {:induction false} ResolveRingsAllResolve(rings: seq<AssembledRing>, db: Snapshot)
    requires forall i :: 0 <= i < |rings| ==> IsRing(rings[i].nodes)
    requires forall i :: 0 <= i < |rings| ==> NodesResolve(rings[i].nodes, db)
    ensures |ResolveRings(rings, db)| == |rings|
    ensures forall i :: 0 <= i < |rings| ==> ResolveRings(rings, db)[i] == ResolveCoords(rings[i].nodes, db).value
  {
    if rings != [] {
      var r, r' := ResolveRings(rings, db), ResolveRings(rings[1..], db);
      assert forall i :: 1 <= i < |rings| ==> rings[i] == rings[1..][i - 1];
      ResolveRingsAllResolve(rings[1..], db);
      ResolveRingsTake(rings, db);
      forall i | 1 <= i < |rings|
        ensures r[i] == ResolveCoords(rings[i].nodes, db).value
      {
        ConsIndex(r, ResolveCoords(rings[0].nodes, db).value, r', i);
      }
    }
  }

  /**
   * The positions, from `lo` on, of the rings whose nodes all resolve: strictly
   * increasing and each such a ring (`ResolvedIndicesComplete`: none left out).
   */
  function ResolvedIndices(rings: seq<AssembledRing>, db: Snapshot, lo: nat): (r: seq<nat>)
    requires lo <= |rings|
    ensures forall k :: 0 <= k < |r| ==> lo <= r[k] < |rings| && NodesResolve(rings[r[k]].nodes, db)
    ensures forall k, l :: 0 <= k < l < |r| ==> r[k] < r[l]
    decreases |rings| - lo
  {
    if lo == |rings| then []
    else if NodesResolve(rings[lo].nodes, db) then [lo] + ResolvedIndices(rings, db, lo + 1)
    else ResolvedIndices(rings, db, lo + 1)
  }

  /** Every ring from `lo` on whose nodes all resolve has its position listed. */
  lemma {:induction false} ResolvedIndicesComplete(rings: seq<AssembledRing>, db: Snapshot, lo: nat, i: nat)
    requires lo <= i < |rings| && NodesResolve(rings[i].nodes, db)
    ensures i in ResolvedIndices(rings, db, lo)
    decreases i - lo
  {
    if lo < i {
      ResolvedIndicesComplete(rings, db, lo + 1, i);
    }
  }

  /** The rings resolved from `lo` on are, one for one and in order, the coordinates of the rings at `ResolvedIndices`. */
  predicate ResolvedFollow(rings: seq<AssembledRing>, db: Snapshot, lo: nat)
    requires forall i :: 0 <= i < |rings| ==> IsRing(rings[i].nodes)
    requires lo <= |rings|
  {
    var ix := ResolvedIndices(rings, db, lo);
    var r := ResolveRings(rings[lo..], db);
    |r| == |ix| && forall k :: 0 <= k < |r| ==> r[k] == ResolveCoords(rings[ix[k]].nodes, db).value
  }

  /**
   * The resolved rings are, one for one and in order, the coordinates of the
   * rings at `ResolvedIndices`: a ring with a missing node is skipped and the
   * others are kept.
   */
  lemma {:induction false} ResolveRingsFollowRings(rings: seq<AssembledRing>, db: Snapshot, lo: nat)
    requires forall i :: 0 <= i < |rings| ==> IsRing(rings[i].nodes)
    requires lo <= |rings|
    ensures var ix := ResolvedIndices(rings, db, lo);
      var r := ResolveRings(rings[lo..], db);
      |r| == |ix| && forall k :: 0 <= k < |r| ==> r[k] == ResolveCoords(rings[ix[k]].nodes, db).value
    decreases |rings| - lo
  {
    if lo < |rings| {
      ResolveRingsFollowRings(rings, db, lo + 1);
      if NodesResolve(rings[lo].nodes, db) {
        ResolvedFollowTake(rings, db, lo);
      } else {
        ResolvedFollowSkip(rings, db, lo);
      }
    }
  }

  /**
   * Every resolved ring is the coordinates of an input ring, and every input ring
   * whose nodes all resolve contributes its coordinates.
   */
  lemma ResolveRingsMembers(rings: seq<AssembledRing>, db: Snapshot)
    requires forall i :: 0 <= i < |rings| ==> IsRing(rings[i].nodes)
    ensures forall h :: h in ResolveRings(rings, db) ==>
              exists i :: 0 <= i < |rings| && ResolveCoords(rings[i].nodes, db) == Some(h)
    ensures forall i :: 0 <= i < |rings| && NodesResolve(rings[i].nodes, db) ==>
              ResolveCoords(rings[i].nodes, db).value in ResolveRings(rings, db)
  {
    var ix, r := ResolvedIndices(rings, db, 0), ResolveRings(rings, db);
    assert rings[0..] == rings;
    ResolveRingsFollowRings(rings, db, 0);
    forall h | h in r
      ensures exists i :: 0 <= i < |rings| && ResolveCoords(rings[i].nodes, db) == Some(h)
    {
      var k :| 0 <= k < |r| && r[k] == h;
      assert ResolveCoords(rings[ix[k]].nodes, db) == Some(h);
    }
    forall i | 0 <= i < |rings| && NodesResolve(rings[i].nodes, db)
      ensures ResolveCoords(rings[i].nodes, db).value in r
    {
      ResolvedIndicesComplete(rings, db, 0, i);
      var k :| 0 <= k < |ix| && ix[k] == i;
      assert r[k] == ResolveCoords(rings[i].nodes, db).value;
    }
  }

  lemma ResolvedFollowTake(rings: seq<AssembledRing>, db: Snapshot, lo: nat)
    requires forall i :: 0 <= i < |rings| ==> IsRing(rings[i].nodes)
    requires lo < |rings| && NodesResolve(rings[lo].nodes, db) && ResolvedFollow(rings, db, lo + 1)
    ensures ResolvedFollow(rings, db, lo)
  {
    var ix, rest := ResolvedIndices(rings, db, lo), ResolvedIndices(rings, db, lo + 1);
    var r, r' := ResolveRings(rings[lo..], db), ResolveRings(rings[lo + 1..], db);
    assert rings[lo..][1..] == rings[lo + 1..];
    ResolvedIndicesTake(rings, db, lo);
    ResolveRingsTake(rings[lo..], db);
    forall k | 1 <= k < |r|
      ensures r[k] == ResolveCoords(rings[ix[k]].nodes, db).value
    {
      ConsIndex(r, ResolveCoords(rings[lo].nodes, db).value, r', k);
      ConsIndex(ix, lo, rest, k);
    }
    assert r[0] == ResolveCoords(rings[ix[0]].nodes, db).value;
  }

  lemma ResolvedFollowSkip(rings: seq<AssembledRing>, db: Snapshot, lo: nat)
    requires forall i :: 0 <= i < |rings| ==> IsRing(rings[i].nodes)
    requires lo < |rings| && !NodesResolve(rings[lo].nodes, db) && ResolvedFollow(rings, db, lo + 1)
    ensures ResolvedFollow(rings, db, lo)
  {
    assert rings[lo..][1..] == rings[lo + 1..];
    ResolvedIndicesSkip(rings, db, lo);
    ResolveRingsSkip(rings[lo..], db);
  }

  /** Past the head, a consed sequence is indexed one place back in its tail. */
  lemma ConsIndex<T>(s: seq<T>, x: T, tail: seq<T>, k: nat)
    requires s == [x] + tail && 1 <= k < |s|
    ensures s[k] == tail[k - 1]
  {
  }

  lemma ResolvedIndicesTake(rings: seq<AssembledRing>, db: Snapshot, lo: nat)
    requires lo < |rings| && NodesResolve(rings[lo].nodes, db)
    ensures ResolvedIndices(rings, db, lo) == [lo] + ResolvedIndices(rings, db, lo + 1)
  {
  }

  lemma ResolveRingsTake(rings: seq<AssembledRing>, db: Snapshot)
    requires forall i :: 0 <= i < |rings| ==> IsRing(rings[i].nodes)
    requires rings != [] && NodesResolve(rings[0].nodes, db)
    ensures ResolveRings(rings, db) == [ResolveCoords(rings[0].nodes, db).value] + ResolveRings(rings[1..], db)
  {
  }

  lemma ResolvedIndicesSkip(rings: seq<AssembledRing>, db: Snapshot, lo: nat)
    requires lo < |rings| && !NodesResolve(rings[lo].nodes, db)
    ensures ResolvedIndices(rings, db, lo) == ResolvedIndices(rings, db, lo + 1)
  {
  }

  lemma ResolveRingsSkip(rings: seq<AssembledRing>, db: Snapshot)
    requires forall i :: 0 <= i < |rings| ==> IsRing(rings[i].nodes)
    requires rings != [] && !NodesResolve(rings[0].nodes, db)
    ensures ResolveRings(rings, db) == ResolveRings(rings[1..], db)
  {
  }

  /** A member that contributes to the rings of `role`: a way, with that role, present in the source. */
  predicate IsRoleWay(m: RelationMember, db: Snapshot, role: string)
  {
    m.memberType == OsmGeoKeys.Way && m.role == role && LookupWay(db, m.memberId).Some?
  }

  /** The node lists of the member ways with the given role, in member order; missing ways and non-way members are skipped. */
  function RoleFragments(members: seq<RelationMember>, db: Snapshot, role: string): (r: seq<Fragment>)
    ensures |r| <= |members|
  {
    if members == [] then []
    else
      var m := members[0];
      var rest := RoleFragments(members[1..], db, role);
      if IsRoleWay(m, db, role) then [LookupWay(db, m.memberId).value.nodes] + rest
      else rest
  }

  /**
   * The positions, from `lo` on, of the members that contribute to `role`:
   * strictly increasing and each one such a member (`RoleIndicesComplete`: none left out).
   */
  function RoleIndices(members: seq<RelationMember>, db: Snapshot, role: string, lo: nat): (r: seq<nat>)
    requires lo <= |members|
    ensures forall k :: 0 <= k < |r| ==> lo <= r[k] < |members| && IsRoleWay(members[r[k]], db, role)
    ensures forall k, l :: 0 <= k < l < |r| ==> r[k] < r[l]
    decreases |members| - lo
  {
    if lo == |members| then []
    else if IsRoleWay(members[lo], db, role) then [lo] + RoleIndices(members, db, role, lo + 1)
    else RoleIndices(members, db, role, lo + 1)
  }

  /** Every contributing member from `lo` on has its position listed. */
  lemma {:induction false} RoleIndicesComplete(members: seq<RelationMember>, db: Snapshot, role: string, lo: nat, i: nat)
    requires lo <= i < |members| && IsRoleWay(members[i], db, role)
    ensures i in RoleIndices(members, db, role, lo)
    decreases i - lo
  {
    if lo < i {
      RoleIndicesComplete(members, db, role, lo + 1, i);
    }
  }

  /** The fragments of the members from `lo` on are, one for one and in order, the node lists of the ways at `RoleIndices`. */
  predicate RoleFollow(members: seq<RelationMember>, db: Snapshot, role: string, lo: nat)
    requires lo <= |members|
  {
    var ix := RoleIndices(members, db, role, lo);
    var r := RoleFragments(members[lo..], db, role);
    |r| == |ix| && forall k :: 0 <= k < |r| ==> r[k] == LookupWay(db, members[ix[k]].memberId).value.nodes
  }

  /**
   * The fragments of a role are the node lists of exactly the contributing
   * members, one each, in member order.
   */
  lemma {:induction false} RoleFragmentsFollowMembers(members: seq<RelationMember>, db: Snapshot, role: string, lo: nat)
    requires lo <= |members|
    ensures var ix := RoleIndices(members, db, role, lo);
      var r := RoleFragments(members[lo..], db, role);
      |r| == |ix| && forall k :: 0 <= k < |r| ==> r[k] == LookupWay(db, members[ix[k]].memberId).value.nodes
    decreases |members| - lo
  {
    if lo < |members| {
      RoleFragmentsFollowMembers(members, db, role, lo + 1);
      if IsRoleWay(members[lo], db, role) {
        RoleFollowTake(members, db, role, lo);
      } else {
        RoleFollowSkip(members, db, role, lo);
      }
    }
  }

  lemma RoleFollowTake(members: seq<RelationMember>, db: Snapshot, role: string, lo: nat)
    requires lo < |members| && IsRoleWay(members[lo], db, role) && RoleFollow(members, db, role, lo + 1)
    ensures RoleFollow(members, db, role, lo)
  {
    var ix, rest := RoleIndices(members, db, role, lo), RoleIndices(members, db, role, lo + 1);
    var r, r' := RoleFragments(members[lo..], db, role), RoleFragments(members[lo + 1..], db, role);
    assert members[lo..][1..] == members[lo + 1..];
    RoleIndicesTake(members, db, role, lo);
    RoleFragmentsTake(members[lo..], db, role);
    forall k | 1 <= k < |r|
      ensures r[k] == LookupWay(db, members[ix[k]].memberId).value.nodes
    {
      ConsIndex(r, LookupWay(db, members[lo].memberId).value.nodes, r', k);
      ConsIndex(ix, lo, rest, k);
    }
    assert r[0] == LookupWay(db, members[ix[0]].memberId).value.nodes;
  }

  lemma RoleFollowSkip(members: seq<RelationMember>, db: Snapshot, role: string, lo: nat)
    requires lo < |members| && !IsRoleWay(members[lo], db, role) && RoleFollow(members, db, role, lo + 1)
    ensures RoleFollow(members, db, role, lo)
  {
    assert members[lo..][1..] == members[lo + 1..];
    RoleIndicesSkip(members, db, role, lo);
    RoleFragmentsSkip(members[lo..], db, role);
  }

  lemma RoleIndicesTake(members: seq<RelationMember>, db: Snapshot, role: string, lo: nat)
    requires lo < |members| && IsRoleWay(members[lo], db, role)
    ensures RoleIndices(members, db, role, lo) == [lo] + RoleIndices(members, db, role, lo + 1)
  {
  }

  lemma RoleFragmentsTake(members: seq<RelationMember>, db: Snapshot, role: string)
    requires members != [] && IsRoleWay(members[0], db, role)
    ensures RoleFragments(members, db, role)
              == [LookupWay(db, members[0].memberId).value.nodes] + RoleFragments(members[1..], db, role)
  {
  }

  lemma RoleIndicesSkip(members: seq<RelationMember>, db: Snapshot, role: string, lo: nat)
    requires lo < |members| && !IsRoleWay(members[lo], db, role)
    ensures RoleIndices(members, db, role, lo) == RoleIndices(members, db, role, lo + 1)
  {
  }

  lemma RoleFragmentsSkip(members: seq<RelationMember>, db: Snapshot, role: string)
    requires members != [] && !IsRoleWay(members[0], db, role)
    ensures RoleFragments(members, db, role) == RoleFragments(members[1..], db, role)
  {
  }

  /** A polygon without holes is emitted as its ring; one with holes as a polygon. */
  function Shape(p: PolygonShape): (r: Geometry)
    ensures r.LineairRing? <==> p.holes == []
    ensures r.LineairRing? || r.Polygon?
    ensures ShellOf(r) == p.shell && HolesOf(r) == p.holes
  {
    if p.holes == [] then LineairRing(p.shell) else Polygon(p.shell, p.holes)
  }

  /** One feature per nested polygon, in outer-ring order, each carrying `tags`. */
  function NestedFeatures(outers: seq<Ring>, inners: seq<Ring>, tags: Tags): (r: seq<Feature>)
    ensures |r| == |outers|
  {
    var n := Nest(outers, inners);
    seq(|outers|, i requires 0 <= i < |outers| => Feature(Shape(n.polygons[i]), tags))
  }

  /** Feature i is outlined by outer ring i and carries the tags; every hole is one of the inner rings. */
  lemma NestedFeaturesFollowOuters(outers: seq<Ring>, inners: seq<Ring>, tags: Tags)
    ensures var r := NestedFeatures(outers, inners, tags);
      && (forall i :: 0 <= i < |r| ==> ShellOf(r[i].geometry) == outers[i] && r[i].attributes == tags)
      && (forall i, h :: 0 <= i < |r| && h in HolesOf(r[i].geometry) ==> h in inners)
  {
  }

  /** Closed rings in give well-formed geometries out. */
  lemma NestedFeaturesWellFormed(outers: seq<Ring>, inners: seq<Ring>, tags: Tags)
    requires forall h :: h in outers ==> IsClosedRing(h)
    requires forall h :: h in inners ==> IsClosedRing(h)
    ensures forall f :: f in NestedFeatures(outers, inners, tags) ==> f.attributes == tags && WellFormed(f.geometry)
  {
    var r := NestedFeatures(outers, inners, tags);
    forall f | f in r
      ensures f.attributes == tags && WellFormed(f.geometry)
    {
      var i :| 0 <= i < |r| && r[i] == f;
      assert f.geometry == Shape(Nest(outers, inners).polygons[i]);
    }
  }

  /** A single outer ring gives one feature: the ring itself when there are no inner rings, otherwise a polygon holding them all. */
  lemma NestedFeaturesSingleOuter(outers: seq<Ring>, inners: seq<Ring>, tags: Tags)
    requires |outers| == 1
    ensures NestedFeatures(outers, inners, tags)
              == [Feature(if inners == [] then LineairRing(outers[0]) else Polygon(outers[0], inners), tags)]
  {
    assert outers == [outers[0]];
    NestSingleOuter(outers[0], inners);
  }

  /** The rings of a multipolygon relation, nested, one feature per outer ring. */
  function InterpretMultipolygon(rel: Relation, db: Snapshot): (r: seq<Feature>)
    ensures forall f :: f in r ==> f.attributes == rel.tags && WellFormed(f.geometry)
  {
    var outerRings := ResolveRings(Assemble(RoleFragments(rel.members, db, "outer")).rings, db);
    var innerRings := ResolveRings(Assemble(RoleFragments(rel.members, db, "inner")).rings, db);
    NestedFeaturesWellFormed(outerRings, innerRings, rel.tags);
    NestedFeatures(outerRings, innerRings, rel.tags)
  }

  /** A way: a line string, a ring when classified as an area and closed, nothing otherwise. */
  function InterpretWay(w: Way, db: Snapshot): (r: seq<Feature>)
    ensures |r| <= 1
    ensures forall f :: f in r ==> f.attributes == w.tags && WellFormed(f.geometry)
  {
    match ResolveCoords(w.nodes, db)
    case None => []
    case Some(cs) =>
      if Classify(w.tags) == Line then [Feature(LineString(cs), w.tags)]
      else if IsRing(w.nodes) then
        ResolvedRingIsClosed(w.nodes, db, cs);
        [Feature(LineairRing(cs), w.tags)]
      else []
  }

  /** `Interpret(entity, source)`. */
  function Interpret(e: OsmGeo, db: Snapshot): (r: seq<Feature>)
    ensures forall f :: f in r ==> f.attributes == TagsOf(e)
    ensures forall f :: f in r ==> WellFormed(f.geometry)
    ensures !e.RelationGeo? ==> |r| <= 1
  {
    match e
    case NodeGeo(n) => if n.tags == [] then [] else [Feature(Point(CoordOf(n)), n.tags)]
    case WayGeo(w) => InterpretWay(w, db)
    case RelationGeo(rel) =>
      if HasTag(rel.tags, "type", "multipolygon") then InterpretMultipolygon(rel, db) else []
  }

  /** A closed way classified as an area yields exactly one ring: the way's own nodes, with the way's tags. */
  lemma ClosedAreaWayIsRing(w: Way, db: Snapshot)
    requires Classify(w.tags) == Area && IsRing(w.nodes) && NodesResolve(w.nodes, db)
    ensures Interpret(WayGeo(w), db) == [Feature(LineairRing(ResolveCoords(w.nodes, db).value), w.tags)]
  {
  }

  /** A closed way tagged area=yes (and not area=no) yields one ring feature carrying area=yes. */
  lemma WayAreaIsYesArea(w: Way, db: Snapshot)
    requires HasTag(w.tags, "area", "yes") && !HasTag(w.tags, "area", "no")
    requires IsRing(w.nodes) && NodesResolve(w.nodes, db)
    ensures |Interpret(WayGeo(w), db)| == 1
    ensures Interpret(WayGeo(w), db)[0].geometry.LineairRing?
    ensures HasTag(Interpret(WayGeo(w), db)[0].attributes, "area", "yes")
  {
    AreaYesIsArea(w.tags);
  }

  /** A closed way tagged natural=water, without area=no, yields one ring feature carrying natural=water. */
  lemma WayNaturalIsWaterArea(w: Way, db: Snapshot)
    requires HasTag(w.tags, "natural", "water") && !HasTag(w.tags, "area", "no")
    requires IsRing(w.nodes) && NodesResolve(w.nodes, db)
    ensures |Interpret(WayGeo(w), db)| == 1
    ensures Interpret(WayGeo(w), db)[0].geometry.LineairRing?
    ensures HasTag(Interpret(WayGeo(w), db)[0].attributes, "natural", "water")
  {
    NaturalWaterIsArea(w.tags);
  }

  /** A way classified as an area that is not closed is a mismatch: no feature. */
  lemma OpenAreaWayYieldsNothing(w: Way, db: Snapshot)
    requires Classify(w.tags) == Area && !IsRing(w.nodes)
    ensures Interpret(WayGeo(w), db) == []
  {
  }

  /** A way classified as a line yields one line string through all its nodes. */
  lemma LineWayIsLineString(w: Way, db: Snapshot)
    requires Classify(w.tags) == Line && NodesResolve(w.nodes, db)
    ensures |Interpret(WayGeo(w), db)| == 1
    ensures Interpret(WayGeo(w), db)[0].geometry == LineString(ResolveCoords(w.nodes, db).value)
  {
  }

  /** A relation that is not a multipolygon is not interpreted. */
  lemma NonMultipolygonRelationYieldsNothing(rel: Relation, db: Snapshot)
    requires !HasTag(rel.tags, "type", "multipolygon")
    ensures Interpret(RelationGeo(rel), db) == []
  {
  }

  /** A multipolygon relation is interpreted as the features of its nested outer and inner rings. */
  lemma MultipolygonFeatures(rel: Relation, db: Snapshot)
    requires HasTag(rel.tags, "type", "multipolygon")
    ensures Interpret(RelationGeo(rel), db)
              == NestedFeatures(ResolveRings(Assemble(RoleFragments(rel.members, db, "outer")).rings, db),
                                ResolveRings(Assemble(RoleFragments(rel.members, db, "inner")).rings, db), rel.tags)
  {
  }

  /**
   * A multipolygon relation yields one feature per resolved outer ring, in order:
   * feature i is outlined by outer ring i, carries the relation's tags, and its
   * holes are resolved inner rings.
   */
  lemma MultipolygonOnePerOuter(rel: Relation, db: Snapshot)
    requires HasTag(rel.tags, "type", "multipolygon")
    ensures var outerRings := ResolveRings(Assemble(RoleFragments(rel.members, db, "outer")).rings, db);
      var innerRings := ResolveRings(Assemble(RoleFragments(rel.members, db, "inner")).rings, db);
      var r := Interpret(RelationGeo(rel), db);
      && |r| == |outerRings|
      && (forall i :: 0 <= i < |r| ==> ShellOf(r[i].geometry) == outerRings[i] && r[i].attributes == rel.tags)
      && (forall i, h :: 0 <= i < |r| && h in HolesOf(r[i].geometry) ==> h in innerRings)
  {
    MultipolygonFeatures(rel, db);
    NestedFeaturesFollowOuters(ResolveRings(Assemble(RoleFragments(rel.members, db, "outer")).rings, db),
                               ResolveRings(Assemble(RoleFragments(rel.members, db, "inner")).rings, db), rel.tags);
  }

  /** One assembled outer ring and inner rings whose nodes all resolve nest into one feature: the outer ring alone, or a polygon with one hole per inner ring. */
  lemma ResolvedSingleOuter(outers: seq<AssembledRing>, inners: seq<AssembledRing>, db: Snapshot, tags: Tags)
    requires |outers| == 1 && IsRing(outers[0].nodes) && NodesResolve(outers[0].nodes, db)
    requires forall i :: 0 <= i < |inners| ==> IsRing(inners[i].nodes)
    requires forall i :: 0 <= i < |inners| ==> NodesResolve(inners[i].nodes, db)
    ensures var fs := NestedFeatures(ResolveRings(outers, db), ResolveRings(inners, db), tags);
      |fs| == 1 && fs[0].attributes == tags
      && (inners == [] ==> fs[0].geometry == LineairRing(ResolveCoords(outers[0].nodes, db).value))
      && (inners != [] ==> fs[0].geometry.Polygon? && |fs[0].geometry.holes| == |inners|)
  {
    ResolveRingsAllResolve(outers, db);
    ResolveRingsAllResolve(inners, db);
    NestedFeaturesSingleOuter(ResolveRings(outers, db), ResolveRings(inners, db), tags);
  }

  /**
   * A multipolygon relation whose outer ways assemble into exactly one ring yields
   * exactly one feature with the relation's tags: that ring alone when no inner
   * ring was assembled, otherwise a polygon with one hole per inner ring.
   */
  lemma MultipolygonSingleOuterRing(rel: Relation, db: Snapshot)
    requires HasTag(rel.tags, "type", "multipolygon")
    requires |Assemble(RoleFragments(rel.members, db, "outer")).rings| == 1
    requires NodesResolve(Assemble(RoleFragments(rel.members, db, "outer")).rings[0].nodes, db)
    requires forall i :: 0 <= i < |Assemble(RoleFragments(rel.members, db, "inner")).rings| ==>
               NodesResolve(Assemble(RoleFragments(rel.members, db, "inner")).rings[i].nodes, db)
    ensures |Interpret(RelationGeo(rel), db)| == 1
    ensures Interpret(RelationGeo(rel), db)[0].attributes == rel.tags
    ensures Assemble(RoleFragments(rel.members, db, "inner")).rings == [] ==>
              Interpret(RelationGeo(rel), db)[0].geometry
                == LineairRing(ResolveCoords(Assemble(RoleFragments(rel.members, db, "outer")).rings[0].nodes, db).value)
    ensures Assemble(RoleFragments(rel.members, db, "inner")).rings != [] ==>
              Interpret(RelationGeo(rel), db)[0].geometry.Polygon?
              && |Interpret(RelationGeo(rel), db)[0].geometry.holes| == |Assemble(RoleFragments(rel.members, db, "inner")).rings|
  {
    MultipolygonFeatures(rel, db);
    ResolvedSingleOuter(Assemble(RoleFragments(rel.members, db, "outer")).rings,
                        Assemble(RoleFragments(rel.members, db, "inner")).rings, db, rel.tags);
  }

  /** A multipolygon relation with one closed outer way and no inner ways yields one plain ring carrying the relation's tags. */
  lemma MultipolygonOneOuter(rel: Relation, db: Snapshot, outer: Fragment)
    requires HasTag(rel.tags, "type", "multipolygon")
    requires RoleFragments(rel.members, db, "outer") == [outer]
    requires RoleFragments(rel.members, db, "inner") == []
    requires IsRing(outer) && NodesResolve(outer, db)
    ensures |Interpret(RelationGeo(rel), db)| == 1
    ensures Interpret(RelationGeo(rel), db)[0].geometry == LineairRing(ResolveCoords(outer, db).value)
    ensures Interpret(RelationGeo(rel), db)[0].attributes == rel.tags
  {
    AssembleClosedFragments([outer]);
    MultipolygonSingleOuterRing(rel, db);
  }

  /**
   * A multipolygon relation with one closed outer way and k >= 1 closed inner
   * ways yields one polygon with exactly k holes.
   */
  lemma MultipolygonOuterWithClosedInners(rel: Relation, db: Snapshot, outer: Fragment, inners: seq<Fragment>)
    requires HasTag(rel.tags, "type", "multipolygon")
    requires RoleFragments(rel.members, db, "outer") == [outer]
    requires RoleFragments(rel.members, db, "inner") == inners
    requires IsRing(outer) && NodesResolve(outer, db)
    requires |inners| >= 1
    requires forall i :: 0 <= i < |inners| ==> IsRing(inners[i]) && NodesResolve(inners[i], db)
    ensures |Interpret(RelationGeo(rel), db)| == 1
    ensures Interpret(RelationGeo(rel), db)[0].geometry.Polygon?
    ensures |Interpret(RelationGeo(rel), db)[0].geometry.holes| == |inners|
    ensures Interpret(RelationGeo(rel), db)[0].attributes == rel.tags
  {
    AssembleClosedFragments([outer]);
    AssembleClosedFragments(inners);
    MultipolygonSingleOuterRing(rel, db);
  }

  /** Stitching two fragments whose nodes all resolve gives a chain whose nodes all resolve. */
  lemma StitchedNodesResolve(f: Fragment, g: Fragment, x: NodeId, db: Snapshot)
    requires Touches(g, x) && NodesResolve(f, db) && NodesResolve(g, db)
    ensures NodesResolve(f + Oriented(g, x)[1..], db)
  {
    var o := Oriented(g, x);
    assert forall k :: 0 <= k < |o| ==> LookupNode(db, o[k]).Some? by {
      forall k | 0 <= k < |o| ensures LookupNode(db, o[k]).Some? {
        if o != g {
          assert o[k] == g[|g| - 1 - k];
        }
      }
    }
  }

  /**
   * A multipolygon relation whose single inner ring is split over two ways that
   * meet end to end yields one polygon with one hole, not two.
   */
  lemma MultipolygonSplitInner(rel: Relation, db: Snapshot, outer: Fragment, f: Fragment, g: Fragment)
    requires HasTag(rel.tags, "type", "multipolygon")
    requires RoleFragments(rel.members, db, "outer") == [outer]
    requires RoleFragments(rel.members, db, "inner") == [f, g]
    requires IsRing(outer) && NodesResolve(outer, db)
    requires |f| >= 2 && |g| >= 2 && |f| + |g| >= 5 && !IsClosed(f)
    requires Touches(g, f[|f| - 1]) && Oriented(g, f[|f| - 1])[|g| - 1] == f[0]
    requires NodesResolve(f, db) && NodesResolve(g, db)
    ensures |Interpret(RelationGeo(rel), db)| == 1
    ensures Interpret(RelationGeo(rel), db)[0].geometry.Polygon?
    ensures |Interpret(RelationGeo(rel), db)[0].geometry.holes| == 1
    ensures Interpret(RelationGeo(rel), db)[0].attributes == rel.tags
  {
    AssembleClosedFragments([outer]);
    assert Assemble([outer]).rings == [AssembledRing(outer, [outer])];
    var ring := f + Oriented(g, f[|f| - 1])[1..];
    AssembleTwoHalves(f, g);
    assert Assemble([f, g]).rings == [AssembledRing(ring, [f, g])];
    StitchedNodesResolve(f, g, f[|f| - 1], db);
    assert NodesResolve(ring, db);
    MultipolygonSingleOuterRing(rel, db);
  }
}
