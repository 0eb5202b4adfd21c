# OsmSharp geometry interpretation and OSM keys, in Dafny

This project models two parts of OsmSharp.

**1. `SimpleFeatureInterpreter.Interpret(entity, source)`.** It turns one OSM primitive into a list of features: geometries paired with attributes. It reads member ways and nodes from an in-memory primitive source. The model covers these stages:

- **Tag classification** (`TagClassifier`). An ordered rule table is evaluated first-match-wins:
  - `area=no` gives a line;
  - `area=yes` gives an area;
  - `natural=water`, `landuse=*`, `building=*` and `leisure=*` give an area;
  - `type=multipolygon` gives an area;
  - anything else is a line.
- **Ring assembly** (`RingAssembler`). Way fragments are node-id lists. A seed fragment is taken from the front of the pool and grown at its open end. Each step uses the first unconsumed open fragment touching that end, reversed when needed. A fragment that is already closed is never joined to another: as a seed it stops at once, forming a ring of its own when it has at least four node ids. A chain that closes into a ring of at least four node ids is emitted, together with the fragments it consumed. Otherwise its fragments are reported as failed. This is how the split inner ways `[5,6,7]` and `[7,8,5]` become the ring `5-6-7-8-5`. Assembly is modelled twice:
  - as the function `Assemble`;
  - as the loop method `AssembleRings`, proved to compute it.
- **Polygon nesting** (`PolygonNester`).
  - With exactly one outer ring, every inner ring is one of its holes.
  - Otherwise each inner ring goes to the smallest outer ring containing its first vertex, using even-odd ray casting; among equally small ones, the earliest outer ring wins.
  - An inner ring that no outer ring contains is reported as unassigned.
- **Feature assembly** (`FeatureInterpreter.Interpret`).
  - A tagged node gives a point.
  - A way gives a line string or, when classified as an area and closed, a ring.
  - A `type=multipolygon` relation gives one feature per outer ring. Features always carry the interpreted entity's own tags.
- **The primitive source** (`Db`). `MemorySnapshotDb` is a class whose `entries` map, keyed by (type, id), is replaced entry by entry by `AddOrUpdate`. The lookups `GetNode`, `GetWay` and `GetRelation` answer `None` for a missing primitive. `Interpret` reads the store's current map, so it is a pure function.

**2. `OsmGeoKey` ordering** (`OsmGeoKeys`). Keys are (type, id) pairs. They are ordered by type first (Node < Way < Relation), then by id. `CompareTo` and the operators `<`, `<=`, `>` and `>=` agree with this order, and `<=` is a total order.

The tests of the interpreter are modelled one by one in `InterpreterScenarios`. Each test method builds the store the way its test does, interprets the entity and promises what the test asserts.

**Polygons without holes.** A polygon without holes is emitted as its ring, as the test at `SimpleFeatureInterpreterTests.cs:159` asserts for a multipolygon with one outer way and no inner way (`FeatureInterpreter.Shape`).

**A note on the key tests.** Two lines in the key tests repeat an operator where the other one was evidently meant:
- lines 92-94 check `>` a second time where `>=` was evidently meant;
- line 127 checks `<=` where `>=` was evidently meant.

These assertions hold as written. `OsmGeoKeys.OperatorsAcrossTypes` and `OsmGeoKeys.OperatorsOnEqualKeys` also prove the intended `>=` facts.

## Model

Source paths are relative to the repository root.

| member | source | states |
|---|---|---|
| OsmGeoKeys.CompareTo | test/OsmSharp.Test/Db/OsmGeoKeyTests.cs:10-55 | The result is -1, 0 or 1. It is negative exactly when the first key precedes the second in the (type, id) order, zero exactly when the keys are equal, and positive exactly when the second precedes the first. |
| OsmGeoKeys.CompareSameTypeById | test/OsmSharp.Test/Db/OsmGeoKeyTests.cs:10-31 | For two keys of one type, the sign of `CompareTo` is the sign of the id difference, in all three directions. |
| OsmGeoKeys.CompareReflexive | test/OsmSharp.Test/Db/OsmGeoKeyTests.cs:14 | A key compares equal to itself. |
| OsmGeoKeys.CompareAntisymmetric | test/OsmSharp.Test/Db/OsmGeoKeyTests.cs:12-13 | Swapping the arguments negates the comparison. |
| OsmGeoKeys.CompareTransitive | test/OsmSharp.Test/Db/OsmGeoKeyTests.cs:34-55 | Both `< 0` and `<= 0` chain through a middle key. |
| OsmGeoKeys.TypeDominatesId | test/OsmSharp.Test/Db/OsmGeoKeyTests.cs:34-39 | A key of a lower-ranked type is smaller whatever the ids, and the reverse comparison is positive. |
| OsmGeoKeys.TypeOrderNodeWayRelation | test/OsmSharp.Test/Db/OsmGeoKeyTests.cs:42-55 | For all ids: Node < Way, Node < Relation and Way < Relation. |
| OsmGeoKeys.OperatorsAgreeWithOrder | test/OsmSharp.Test/Db/OsmGeoKeyTests.cs:58-115 | Each operator holds exactly when the reference order says so: `<` is strict precedence and `<=` is precedence or equality. `a < b` iff `b > a`, and `a <= b` iff `b >= a`. |
| OsmGeoKeys.OperatorsAcrossTypes | test/OsmSharp.Test/Db/OsmGeoKeyTests.cs:58-115 | Across types, the lower-typed key is `<` and `<=` the other, and neither `>` nor `>=` it. |
| OsmGeoKeys.OperatorsOnEqualKeys | test/OsmSharp.Test/Db/OsmGeoKeyTests.cs:118-128 | Equal keys satisfy `<=` and `>=`, and neither `<` nor `>`. |
| OsmGeoKeys.LessOrEqualIsTotalOrder | test/OsmSharp.Test/Db/OsmGeoKeyTests.cs:58-128 | `<=` is reflexive, antisymmetric, transitive and total. |
| TagClassifier.FirstMatch | OsmSharp.Test/Osm/Geo/Interpreter/SimpleFeatureInterpreterTests.cs:74-76 | No result exactly when no rule passes. Otherwise the result is the kind of a passing rule that no earlier rule precedes. |
| TagClassifier.RulesPrecedence | OsmSharp.Test/Osm/Geo/Interpreter/SimpleFeatureInterpreterTests.cs:36-43 | The first rule to match is an Area rule exactly when `area=no` is absent and one of these holds: `area=yes`, an area-implying tag, or `type=multipolygon`. The rule table is stated here without the table. |
| TagClassifier.Classify | OsmSharp.Test/Osm/Geo/Interpreter/SimpleFeatureInterpreterTests.cs:36-43 | A tag collection is classified as an area exactly when `area=no` is absent and `area=yes`, an area-implying tag or `type=multipolygon` is present; otherwise it is a line. |
| TagClassifier.AreaNoIsLine | OsmSharp.Test/Osm/Geo/Interpreter/SimpleFeatureInterpreterTests.cs:36-40 | `area=no` makes a line, whatever else is tagged. |
| TagClassifier.AreaYesIsArea | OsmSharp.Test/Osm/Geo/Interpreter/SimpleFeatureInterpreterTests.cs:66 | `area=yes`, without `area=no`, makes an area. |
| TagClassifier.NaturalWaterIsArea | OsmSharp.Test/Osm/Geo/Interpreter/SimpleFeatureInterpreterTests.cs:115 | `natural=water` makes an area with no `area` tag at all. |
| Db.SnapshotOfWellKeyed | OsmSharp.Test/Osm/Geo/Interpreter/SimpleFeatureInterpreterTests.cs:144-152 | A store built from primitives holds each one under its own (type, id) key. |
| Db.SnapshotOfLastWins | OsmSharp.Test/Osm/Geo/Interpreter/SimpleFeatureInterpreterTests.cs:144-152 | A primitive that no later primitive replaces is stored under its key. |
| Db.SnapshotOfKeys | OsmSharp.Test/Osm/Geo/Interpreter/SimpleFeatureInterpreterTests.cs:144-152 | A key is stored exactly when some primitive with that key was added. |
| Db.LookupNode | OsmSharp.Test/Osm/Geo/Interpreter/SimpleFeatureInterpreterTests.cs:76 | A node is found exactly when a node is stored under (Node, id), and it is that node. In a well-keyed store its id is the one asked for. |
| Db.LookupWay | OsmSharp.Test/Osm/Geo/Interpreter/SimpleFeatureInterpreterTests.cs:76 | A way is found exactly when a way is stored under (Way, id), and it is that way. In a well-keyed store its id is the one asked for. |
| Db.LookupRelation | OsmSharp.Test/Osm/Geo/Interpreter/SimpleFeatureInterpreterTests.cs:155 | A relation is found exactly when a relation is stored under (Relation, id), and it is that relation. In a well-keyed store its id is the one asked for. |
| Db.MemorySnapshotDb.constructor | OsmSharp.Test/Osm/Geo/Interpreter/SimpleFeatureInterpreterTests.cs:144-152 | The store built from a list of primitives holds exactly the snapshot of adding them in order. |
| Db.MemorySnapshotDb.AddOrUpdate | OsmSharp.Test/Osm/Geo/Interpreter/SimpleFeatureInterpreterTests.cs:68-72 | The primitive is stored under its key and every other entry is unchanged. The store stays well keyed. |
| Db.MemorySnapshotDb.GetNode | OsmSharp.Test/Osm/Geo/Interpreter/SimpleFeatureInterpreterTests.cs:76 | A node is found exactly when a node is stored under (Node, id). The node found is the stored one and has the id asked for. |
| Db.MemorySnapshotDb.GetWay | OsmSharp.Test/Osm/Geo/Interpreter/SimpleFeatureInterpreterTests.cs:76 | A way is found exactly when a way is stored under (Way, id). The way found is the stored one and has the id asked for. |
| Db.MemorySnapshotDb.GetRelation | OsmSharp.Test/Osm/Geo/Interpreter/SimpleFeatureInterpreterTests.cs:155 | A relation is found exactly when a relation is stored under (Relation, id). The relation found is the stored one and has the id asked for. |
| Geometries.OutsideLatitudeSpan | OsmSharp.Test/Osm/Geo/Interpreter/SimpleFeatureInterpreterTests.cs:173-180 | The containment test never places a point north or south of every vertex inside a ring. |
| Geometries.RayCrosses | OsmSharp.Test/Osm/Geo/Interpreter/SimpleFeatureInterpreterTests.cs:173-180 | An edge counts as crossed when it straddles the point's latitude, half-open, and crosses that latitude east of the point. Its behaviour on the tests' square is stated by `UnitSquareContains`. |
| Geometries.Crossings | OsmSharp.Test/Osm/Geo/Interpreter/SimpleFeatureInterpreterTests.cs:173-180 | The number of ring edges the eastward ray from the point crosses. Stated on the tests' square by `UnitSquareContains`. |
| Geometries.Contains | OsmSharp.Test/Osm/Geo/Interpreter/SimpleFeatureInterpreterTests.cs:173-180 | Even-odd containment: an odd number of crossings. Stated on the tests' square by `UnitSquareContains`. |
| Geometries.UnitSquareContains | OsmSharp.Test/Osm/Geo/Interpreter/SimpleFeatureInterpreterTests.cs:173-180 | For the square of nodes 1-4 and a point strictly between its southern and northern edges, containment holds exactly when the longitude is in [0, 1). So the inner nodes 5-8, at 0.25 and 0.40, lie inside. |
| Geometries.Size | OsmSharp.Test/Osm/Geo/Interpreter/SimpleFeatureInterpreterTests.cs:223-225 | The size ranking outer rings is never negative, and it is zero exactly when the signed shoelace area is zero. |
| Geometries.UnitSquareSize | OsmSharp.Test/Osm/Geo/Interpreter/SimpleFeatureInterpreterTests.cs:173-176 | The square of nodes 1-4, of area 1, has size 2: the ranking measures twice the enclosed area. |
| RingAssembler.Reverse | OsmSharp.Test/Osm/Geo/Interpreter/SimpleFeatureInterpreterTests.cs:264-265 | The reversed fragment has the same length, and position i holds the node from position `n-1-i`. |
| RingAssembler.Oriented | OsmSharp.Test/Osm/Geo/Interpreter/SimpleFeatureInterpreterTests.cs:264-265 | A fragment touching x is read from x: same length, first node x, and either the fragment itself or its reverse. |
| RingAssembler.FindMatch | OsmSharp.Test/Osm/Geo/Interpreter/SimpleFeatureInterpreterTests.cs:264-265 | The result is the first index whose fragment is open and touches x, or nothing exactly when no open fragment does. |
| RingAssembler.RemoveAtConserves | OsmSharp.Test/Osm/Geo/Interpreter/SimpleFeatureInterpreterTests.cs:264-265 | Taking a fragment out of the pool loses that fragment and nothing else, as multisets. |
| RingAssembler.GrowConserves | OsmSharp.Test/Osm/Geo/Interpreter/SimpleFeatureInterpreterTests.cs:264-265 | Growing a chain moves fragments from the pool to its parts without losing or duplicating any. The chain keeps its start and never shrinks. |
| RingAssembler.GrowStopsAtDeadEnd | OsmSharp.Test/Osm/Geo/Interpreter/SimpleFeatureInterpreterTests.cs:264-265 | Growing stops only when the chain is closed or no open fragment left touches its open end. |
| RingAssembler.Grow | OsmSharp.Test/Osm/Geo/Interpreter/SimpleFeatureInterpreterTests.cs:264-265 | Growing never enlarges the pool. What the chain is, and when growth stops, are stated by `GrowConserves`, `GrowStitches` and `GrowStopsAtDeadEnd`. |
| RingAssembler.StitchAppend | OsmSharp.Test/Osm/Geo/Interpreter/SimpleFeatureInterpreterTests.cs:264-265 | Laying one more fragment that touches the chain's end extends the stitched chain by that fragment, oriented from the end, minus its first node. |
| RingAssembler.GrowStitches | OsmSharp.Test/Osm/Geo/Interpreter/SimpleFeatureInterpreterTests.cs:264-265 | Growing keeps the chain equal to its parts laid end to end: each added part touches the previous end and continues from it. |
| RingAssembler.Assemble | OsmSharp.Test/Osm/Geo/Interpreter/SimpleFeatureInterpreterTests.cs:264-281 | Every assembled ring is closed with at least four node ids. Its node list is stated by `AssembleStitches`. |
| RingAssembler.AssembleStitches | OsmSharp.Test/Osm/Geo/Interpreter/SimpleFeatureInterpreterTests.cs:264-281 | Every assembled ring's node list is its parts laid end to end, in the order consumed: each part touches the previous end and is read from it, sharing that one node. |
| RingAssembler.AssembleConserves | OsmSharp.Test/Osm/Geo/Interpreter/SimpleFeatureInterpreterTests.cs:264-281 | Every input fragment is consumed exactly once, by one ring or as failed: the ring parts plus the failed fragments equal the input, as multisets. |
| RingAssembler.Singletons | OsmSharp.Test/Osm/Geo/Interpreter/SimpleFeatureInterpreterTests.cs:181-182 | Gives one ring per fragment, in order, each consuming only itself. |
| RingAssembler.AssembleClosedFragments | OsmSharp.Test/Osm/Geo/Interpreter/SimpleFeatureInterpreterTests.cs:181-182 | Fragments that are already rings each form a ring of their own, in order, and nothing fails. |
| RingAssembler.AssembleDanglingFragment | OsmSharp.Test/Osm/Geo/Interpreter/SimpleFeatureInterpreterTests.cs:264 | A single fragment that is not a ring is reported as failed and forms no ring. |
| RingAssembler.AssembleTwoHalves | OsmSharp.Test/Osm/Geo/Interpreter/SimpleFeatureInterpreterTests.cs:264-265 | Two open fragments that meet end to end are stitched into one ring consuming both, even when the second is stored reversed. Nothing fails. |
| RingAssembler.GrowKeepsClosed | OsmSharp.Test/Osm/Geo/Interpreter/SimpleFeatureInterpreterTests.cs:181-182 | A closed fragment in the pool is still in the pool after growing: no chain absorbs it. |
| RingAssembler.AssembleKeepsClosedRing | OsmSharp.Test/Osm/Geo/Interpreter/SimpleFeatureInterpreterTests.cs:181-182 | A fragment that is already a ring comes out as a ring consuming only itself, wherever it sits among the fragments. |
| RingAssembler.AssembleClosedBesideSplit | OsmSharp.Test/Osm/Geo/Interpreter/SimpleFeatureInterpreterTests.cs:264-281 | The split inner ways `[5,6,7]` and `[7,8,5]` still close into `5-6-7-8-5` when a closed way `7-9-10-7` sharing node 7 lies between them, and that way forms its own ring. |
| RingAssembler.FindFirstTouching | OsmSharp.Test/Osm/Geo/Interpreter/SimpleFeatureInterpreterTests.cs:264-265 | The scan returns the first index of an open touching fragment, the one `FindMatch` names, or the pool length when there is none. |
| RingAssembler.GrowChain | OsmSharp.Test/Osm/Geo/Interpreter/SimpleFeatureInterpreterTests.cs:264-265 | The chain-growing loop computes exactly `Grow`. |
| RingAssembler.AssembleStep | OsmSharp.Test/Osm/Geo/Interpreter/SimpleFeatureInterpreterTests.cs:264-265 | Setting the first seed's chain aside, as a ring or as failed parts, leaves the final assembly unchanged. This is the assembly loop's invariant step. |
| RingAssembler.AssembleRings | OsmSharp.Test/Osm/Geo/Interpreter/SimpleFeatureInterpreterTests.cs:264-281 | The assembly loop, consuming the pool seed by seed, computes exactly `Assemble`. |
| PolygonNester.BestOuter | OsmSharp.Test/Osm/Geo/Interpreter/SimpleFeatureInterpreterTests.cs:223-225 | The result is an outer ring that contains the point and is no larger than any other outer ring that does. Any earlier outer ring containing the point is strictly larger, so ties go to the earliest ring. There is no result exactly when no outer ring contains the point. |
| PolygonNester.HostOf | OsmSharp.Test/Osm/Geo/Interpreter/SimpleFeatureInterpreterTests.cs:223-225 | An inner ring's host: the best outer ring for its first vertex. Stated by `HostOfSmallestContainer`. |
| PolygonNester.HostOfSmallestContainer | OsmSharp.Test/Osm/Geo/Interpreter/SimpleFeatureInterpreterTests.cs:223-225 | An inner ring has no host exactly when it is empty or no outer ring contains its first vertex. Otherwise the host contains that vertex and is no larger than any outer ring that does. |
| PolygonNester.HolesFor | OsmSharp.Test/Osm/Geo/Interpreter/SimpleFeatureInterpreterTests.cs:223-225 | The holes of outer ring i are exactly the inner rings whose host is i. |
| PolygonNester.Unhosted | OsmSharp.Test/Osm/Geo/Interpreter/SimpleFeatureInterpreterTests.cs:223-225 | The unassigned rings are exactly the inner rings with no host. |
| PolygonNester.Nest | OsmSharp.Test/Osm/Geo/Interpreter/SimpleFeatureInterpreterTests.cs:181-187 | There is one polygon per outer ring, in order, with that ring as shell. Every hole and every unassigned ring is an input inner ring. |
| PolygonNester.NestSingleOuter | OsmSharp.Test/Osm/Geo/Interpreter/SimpleFeatureInterpreterTests.cs:223-231 | With a single outer ring, every inner ring is one of its holes, in order, and none is left over. |
| PolygonNester.NestAssignsSmallestContainer | OsmSharp.Test/Osm/Geo/Interpreter/SimpleFeatureInterpreterTests.cs:223-231 | With several outer rings, a hole's first vertex lies inside its shell, and that shell is the smallest one containing it. An inner ring is left unassigned exactly when no outer ring contains it. |
| PolygonNester.AssignedCountTotal | OsmSharp.Test/Osm/Geo/Interpreter/SimpleFeatureInterpreterTests.cs:223-231 | Inner rings assigned to some outer ring plus unassigned inner rings number exactly the inner rings. |
| PolygonNester.NestConservesInners | OsmSharp.Test/Osm/Geo/Interpreter/SimpleFeatureInterpreterTests.cs:241 | Over all polygons, the holes plus the unassigned rings number exactly the inner rings: each inner ring is accounted for once. |
| FeatureInterpreter.ResolveCoords | OsmSharp.Test/Osm/Geo/Interpreter/SimpleFeatureInterpreterTests.cs:145-148 | There is a result exactly when every node id resolves. It then has one coordinate per id, each the coordinate of that id's node. |
| FeatureInterpreter.ResolvedRingIsClosed | OsmSharp.Test/Osm/Geo/Interpreter/SimpleFeatureInterpreterTests.cs:148 | Resolving a ring of node ids gives a closed ring of at least four coordinates. |
| FeatureInterpreter.ResolveRings | OsmSharp.Test/Osm/Geo/Interpreter/SimpleFeatureInterpreterTests.cs:181-182 | No more rings come out than went in, and every coordinate ring is closed. Which rings come out, and in what order, is stated by `ResolveRingsFollowRings` and `ResolveRingsMembers`. |
| FeatureInterpreter.ResolvedIndices | OsmSharp.Test/Osm/Geo/Interpreter/SimpleFeatureInterpreterTests.cs:181-182 | The positions of the rings whose nodes all resolve: strictly increasing, and each such a ring. |
| FeatureInterpreter.ResolvedIndicesComplete | OsmSharp.Test/Osm/Geo/Interpreter/SimpleFeatureInterpreterTests.cs:181-182 | No ring whose nodes all resolve is left out of `ResolvedIndices`. |
| FeatureInterpreter.ResolveRingsFollowRings | OsmSharp.Test/Osm/Geo/Interpreter/SimpleFeatureInterpreterTests.cs:181-182 | The resolved rings are, one for one and in order, the coordinates of the rings at `ResolvedIndices`. A ring with a missing node is skipped, and the others are kept. |
| FeatureInterpreter.ResolveRingsMembers | OsmSharp.Test/Osm/Geo/Interpreter/SimpleFeatureInterpreterTests.cs:181-182 | Every resolved ring is the coordinates of some input ring, and every input ring whose nodes all resolve contributes its coordinates. |
| FeatureInterpreter.ResolveRingsAllResolve | OsmSharp.Test/Osm/Geo/Interpreter/SimpleFeatureInterpreterTests.cs:181-182 | When every ring's nodes resolve, no ring is dropped and each keeps its place. |
| FeatureInterpreter.RoleFragments | OsmSharp.Test/Osm/Geo/Interpreter/SimpleFeatureInterpreterTests.cs:186-187 | Gives at most one fragment per member. Which fragments, and in what order, is stated by `RoleFragmentsFollowMembers`. |
| FeatureInterpreter.RoleIndices | OsmSharp.Test/Osm/Geo/Interpreter/SimpleFeatureInterpreterTests.cs:229-231 | The positions of the members that are ways with the given role present in the source: strictly increasing, and each such a member. |
| FeatureInterpreter.RoleIndicesComplete | OsmSharp.Test/Osm/Geo/Interpreter/SimpleFeatureInterpreterTests.cs:229-231 | No contributing member is left out of `RoleIndices`. |
| FeatureInterpreter.RoleFragmentsFollowMembers | OsmSharp.Test/Osm/Geo/Interpreter/SimpleFeatureInterpreterTests.cs:229-231 | The fragments of a role are, one for one and in member order, the node lists of the ways at `RoleIndices`. Members of another role, non-way members and missing ways contribute nothing. |
| FeatureInterpreter.Shape | OsmSharp.Test/Osm/Geo/Interpreter/SimpleFeatureInterpreterTests.cs:159 | The geometry is a plain ring exactly when there are no holes, and a polygon otherwise. Its outline is the shell and its holes are the polygon's holes. |
| FeatureInterpreter.NestedFeaturesFollowOuters | OsmSharp.Test/Osm/Geo/Interpreter/SimpleFeatureInterpreterTests.cs:189-198 | Feature i of a nesting is outlined by outer ring i and carries the given tags. Every hole is one of the inner rings. |
| FeatureInterpreter.NestedFeaturesWellFormed | OsmSharp.Test/Osm/Geo/Interpreter/SimpleFeatureInterpreterTests.cs:189-198 | Closed input rings give well-formed geometries, each feature carrying the given tags. |
| FeatureInterpreter.NestedFeaturesSingleOuter | OsmSharp.Test/Osm/Geo/Interpreter/SimpleFeatureInterpreterTests.cs:159 | A single outer ring gives one feature: the ring itself when there are no inner rings, otherwise a polygon holding them all as holes. |
| FeatureInterpreter.InterpretMultipolygon | OsmSharp.Test/Osm/Geo/Interpreter/SimpleFeatureInterpreterTests.cs:190-198 | Every feature carries the relation's own tags and a well-formed geometry. |
| FeatureInterpreter.InterpretWay | OsmSharp.Test/Osm/Geo/Interpreter/SimpleFeatureInterpreterTests.cs:76-82 | A way gives at most one feature, carrying the way's own tags and a well-formed geometry. |
| FeatureInterpreter.Interpret | OsmSharp.Test/Osm/Geo/Interpreter/SimpleFeatureInterpreterTests.cs:76-78 | Every feature carries the entity's own tags and a well-formed geometry: rings closed, at least four coordinates. A node or way gives at most one feature. |
| FeatureInterpreter.ClosedAreaWayIsRing | OsmSharp.Test/Osm/Geo/Interpreter/SimpleFeatureInterpreterTests.cs:76-81 | A closed way classified as an area whose nodes resolve gives exactly one ring feature: its own resolved nodes, with its own tags. |
| FeatureInterpreter.WayAreaIsYesArea | OsmSharp.Test/Osm/Geo/Interpreter/SimpleFeatureInterpreterTests.cs:76-82 | A closed way tagged `area=yes` gives one feature, a ring, carrying `area=yes`. |
| FeatureInterpreter.WayNaturalIsWaterArea | OsmSharp.Test/Osm/Geo/Interpreter/SimpleFeatureInterpreterTests.cs:125-131 | A closed way tagged `natural=water` gives one feature, a ring, carrying `natural=water`. |
| FeatureInterpreter.OpenAreaWayYieldsNothing | OsmSharp.Test/Osm/Geo/Interpreter/SimpleFeatureInterpreterTests.cs:74-76 | A way classified as an area that is not a closed ring gives no feature; it is never forced closed. |
| FeatureInterpreter.LineWayIsLineString | OsmSharp.Test/Osm/Geo/Interpreter/SimpleFeatureInterpreterTests.cs:74-76 | A way classified as a line gives one line string through all its nodes, in order. |
| FeatureInterpreter.NonMultipolygonRelationYieldsNothing | OsmSharp.Test/Osm/Geo/Interpreter/SimpleFeatureInterpreterTests.cs:149-152 | A relation without `type=multipolygon` gives no feature. |
| FeatureInterpreter.MultipolygonOnePerOuter | OsmSharp.Test/Osm/Geo/Interpreter/SimpleFeatureInterpreterTests.cs:154-160 | A multipolygon gives one feature per resolved outer ring, in order. Feature i is outlined by outer ring i and carries the relation's tags. Every hole is a resolved inner ring. |
| FeatureInterpreter.MultipolygonSingleOuterRing | OsmSharp.Test/Osm/Geo/Interpreter/SimpleFeatureInterpreterTests.cs:189-198 | With exactly one assembled outer ring, the result is one feature with the relation's tags. It is that ring when no inner ring was assembled. Otherwise it is a polygon with one hole per assembled inner ring. |
| FeatureInterpreter.ResolvedSingleOuter | OsmSharp.Test/Osm/Geo/Interpreter/SimpleFeatureInterpreterTests.cs:189-198 | One outer ring and inner rings whose nodes all resolve nest into one feature with the given tags: the outer ring alone when there is no inner ring, otherwise a polygon with one hole per inner ring. |
| FeatureInterpreter.MultipolygonOneOuter | OsmSharp.Test/Osm/Geo/Interpreter/SimpleFeatureInterpreterTests.cs:154-160 | One closed outer way and no inner way give one feature: that way's ring, with the relation's tags. |
| FeatureInterpreter.MultipolygonOuterWithClosedInners | OsmSharp.Test/Osm/Geo/Interpreter/SimpleFeatureInterpreterTests.cs:233-242 | One closed outer way and k ≥ 1 closed inner ways give one polygon with exactly k holes and the relation's tags. |
| FeatureInterpreter.StitchedNodesResolve | OsmSharp.Test/Osm/Geo/Interpreter/SimpleFeatureInterpreterTests.cs:264-265 | Stitching two fragments whose nodes resolve gives a chain whose nodes resolve. |
| FeatureInterpreter.MultipolygonSplitInner | OsmSharp.Test/Osm/Geo/Interpreter/SimpleFeatureInterpreterTests.cs:273-282 | An inner ring split over two ways meeting end to end gives one polygon with one hole, not two. |
| InterpreterScenarios.TriangleWayYieldsRing | OsmSharp.Test/Osm/Geo/Interpreter/SimpleFeatureInterpreterTests.cs:58-82 | Way 1-2-3-1, tagged only `area=yes` or only `natural=water` and stored with its nodes, gives one ring carrying that tag. |
| InterpreterScenarios.AddTriangle | OsmSharp.Test/Osm/Geo/Interpreter/SimpleFeatureInterpreterTests.cs:68-72 | Four `AddOrUpdate` calls on an empty store leave exactly the triangle store. |
| InterpreterScenarios.TestWayAreaIsYesArea | OsmSharp.Test/Osm/Geo/Interpreter/SimpleFeatureInterpreterTests.cs:43-83 | The test's way gives one feature, a ring, carrying `area=yes`. |
| InterpreterScenarios.TestWayNaturalIsWaterArea | OsmSharp.Test/Osm/Geo/Interpreter/SimpleFeatureInterpreterTests.cs:92-132 | The test's way gives one feature, a ring, carrying `natural=water`. |
| InterpreterScenarios.OneOuterItemsStored | OsmSharp.Test/Osm/Geo/Interpreter/SimpleFeatureInterpreterTests.cs:144-152 | The store built from the test's primitives holds its relation and its way, and every node of the way. |
| InterpreterScenarios.OneOuterYieldsRing | OsmSharp.Test/Osm/Geo/Interpreter/SimpleFeatureInterpreterTests.cs:154-160 | The one-outer relation gives one ring carrying `type=multipolygon`. |
| InterpreterScenarios.TestRelationMultipolygonAreaOneOuter | OsmSharp.Test/Osm/Geo/Interpreter/SimpleFeatureInterpreterTests.cs:141-161 | The test's relation gives one feature, a ring, carrying `type=multipolygon`. |
| InterpreterScenarios.PutKeepsNodes | OsmSharp.Test/Osm/Geo/Interpreter/SimpleFeatureInterpreterTests.cs:68-72 | Storing a primitive never makes a resolving node id stop resolving. |
| InterpreterScenarios.AddSquare | OsmSharp.Test/Osm/Geo/Interpreter/SimpleFeatureInterpreterTests.cs:172-181 | The `AddOrUpdate` calls leave exactly the square store: nodes 1-8 and outer way 1. |
| InterpreterScenarios.OneInnerYieldsOneHole | OsmSharp.Test/Osm/Geo/Interpreter/SimpleFeatureInterpreterTests.cs:189-198 | The one-inner relation gives one polygon with one hole, carrying `type=multipolygon`. |
| InterpreterScenarios.TestRelationMultipolygonAreaOneOuterOneInner | OsmSharp.Test/Osm/Geo/Interpreter/SimpleFeatureInterpreterTests.cs:170-199 | The test's relation gives one polygon with one hole, carrying `type=multipolygon`. |
| InterpreterScenarios.TwoInnersRoles | OsmSharp.Test/Osm/Geo/Interpreter/SimpleFeatureInterpreterTests.cs:229-231 | The outer fragments are way 1 alone; the inner fragments are ways 2 and 3, in member order. |
| InterpreterScenarios.TwoInnersYieldTwoHoles | OsmSharp.Test/Osm/Geo/Interpreter/SimpleFeatureInterpreterTests.cs:233-242 | The two-inner relation gives one polygon with two holes, carrying `type=multipolygon`. |
| InterpreterScenarios.TestRelationMultipolygonAreaOneOuterTwoInners | OsmSharp.Test/Osm/Geo/Interpreter/SimpleFeatureInterpreterTests.cs:208-243 | The test's relation gives one polygon with two holes, carrying `type=multipolygon`. |
| InterpreterScenarios.PartialInnersYieldOneHole | OsmSharp.Test/Osm/Geo/Interpreter/SimpleFeatureInterpreterTests.cs:273-282 | With the inner ring split over ways 5-6-7 and 7-8-5, the relation gives one polygon with one hole, carrying `type=multipolygon`. |
| InterpreterScenarios.TestRelationMultipolygonAreaOneOuterTwoPartialInners | OsmSharp.Test/Osm/Geo/Interpreter/SimpleFeatureInterpreterTests.cs:252-283 | The test's relation gives one polygon with one hole, not two. |
| InterpreterScenarios.TestAssembleTwoPartialInners | OsmSharp.Test/Osm/Geo/Interpreter/SimpleFeatureInterpreterTests.cs:264-265 | The assembly loop stitches `[5,6,7]` and `[7,8,5]` into exactly the ring `5-6-7-8-5`, consuming both, and nothing fails. |

## Left out

- Reading and writing OSM XML (`OsmSharp/IO/Xml/API/Osm.Xml.cs` and its tests) is not part of this model. It is serializer plumbing over XML readers and writers whose bodies are not available.
- The history database interface (`OsmSharp/Db/IHistoryDb.cs`) is not part of this model. It declares operations without bodies, for changesets and bounding-box queries over floats.
- Floating point: the tests give coordinates as single-precision floats, while the model uses exact reals. Rounding is not modelled.
- The internal storage of `MemorySnapshotDb` is not modelled. It is abstracted as a finite map keyed by (type, id).
- Ids are 64-bit in the source and unbounded integers here. No arithmetic is done on them, so no overflow can arise.
- Point-in-ring boundary cases: containment is even-odd ray casting, half-open on latitude. A vertex lying exactly on an outer ring's boundary is inside or outside depending on which edge it lies on. No test fixes this case.
- Containment is tested with an inner ring's first vertex only.
- `RingAssembler.Assemble`: order independence of assembly is not claimed.
  - The assembler is greedy. It takes the first open touching fragment, so when three or more open fragments meet at one node, the rings formed depend on fragment order.
  - What is proved: every fragment is used once, each ring is its parts laid end to end (`AssembleStitches`), stitching two halves gives one ring, and a fragment that is already a ring forms a ring of its own wherever it sits among the fragments (`AssembleKeepsClosedRing`). There is no lemma that k fragments forming one simple cycle close into one ring in any order.
- `RingAssembler.Assemble`: the rings formed are not the most that could be formed. A seed whose chain dead-ends takes the fragments it consumed into `failed`, even when they could have closed without it. For example, `[[0,1],[1,2],[2,3],[3,1]]` gives no ring and four failed fragments, while `[[1,2],[2,3],[3,1]]` alone closes into `1-2-3-1`.
- `RingAssembler.Assemble`: the only failure report is the `failed` list. Fragments of a chain that never closes go there and are never dropped (`AssembleConserves`).
- `RingAssembler.Grow` states only a size bound in its own contract. Its conservation, chain and stopping properties are the lemmas `GrowConserves`, `GrowStitches` and `GrowStopsAtDeadEnd`.
- `PolygonNester.Nest`: holes nested inside holes are not detected or reported as a structural failure. Such rings are treated like any other inner ring.
- `FeatureInterpreter.Interpret`: a multipolygon gives one feature per outer ring, never one multi-polygon feature.
- `FeatureInterpreter.Interpret`: failures are not reported. Missing members, unresolved nodes, unclosed chains and unassigned inner rings drop out of the result without a failure log. The failure lists are still kept by the assembler and the nester.
- `FeatureInterpreter.Interpret`: an untagged node gives no feature. This is the policy that excludes untagged points.
- `FeatureInterpreter.InterpretWay`: a way whose first and last nodes are equal but which has fewer than four node ids is treated as not closed. It gives no area feature, because a ring needs at least four coordinates.
- `Assert.IsNotNull(features)` in every interpreter test holds by construction. `Interpret` returns a sequence and has no null value.
- Idempotence of `Interpret` on an unchanged source is not stated as a lemma. `Interpret` is a function of the entity and the store's contents, so two calls give equal results.
- `InterpreterScenarios.TestRelationMultipolygonAreaOneOuterOneInner`, `TestRelationMultipolygonAreaOneOuterTwoInners` and `TestRelationMultipolygonAreaOneOuterTwoPartialInners` fill the store with `AddOrUpdate` calls, not with the constructor taking all primitives at once. The constructor computes the same snapshot (`Db.MemorySnapshotDb.constructor`), and the one-outer test does use it.
  - The one-inner and split-inner scenarios add the primitives in their tests' order.
  - The two-inner scenario adds outer way 1 before nodes 9-12, which its test passes earlier. The resulting map is the same, because no two of the primitives share a key.
