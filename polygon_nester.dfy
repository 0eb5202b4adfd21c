/**
 * Polygon nesting: closed outer and inner rings become polygons with holes.
 * With exactly one outer ring every inner ring is a hole of it, without any
 * containment test. Otherwise each inner ring is tested by its first vertex
 * against every outer ring and becomes a hole of the smallest containing one
 * (the earliest on a tie); an inner ring no outer contains is reported as
 * unassigned, never turned into a shell of its own.
 */
module PolygonNester {
  import opened Wrappers
  import opened Geometries

  type Ring = seq<Coord>

  datatype PolygonShape = PolygonShape(shell: Ring, holes: seq<Ring>)

  datatype Nesting = Nesting(polygons: seq<PolygonShape>, unassigned: seq<Ring>)

  /** Index of the smallest outer ring containing p. */
  function BestOuter(outers: seq<Ring>, p: Coord): (r: Option<nat>)
    ensures r.Some? ==> r.value < |outers| && Contains(outers[r.value], p)
    ensures r.Some? ==> forall j :: 0 <= j < |outers| && Contains(outers[j], p) ==> Size(outers[r.value]) <= Size(outers[j])
    ensures r.Some? ==> forall j :: 0 <= j < r.value && Contains(outers[j], p) ==> Size(outers[r.value]) < Size(outers[j])
    ensures r.None? <==> forall j :: 0 <= j < |outers| ==> !Contains(outers[j], p)
    decreases |outers|
  {
    if outers == [] then None
    else
      var rest := BestOuter(outers[1..], p);
      var shifted := if rest.Some? then Some(rest.value + 1) else None;
      assert forall j :: 1 <= j < |outers| ==> outers[j] == outers[1..][j - 1];
      if !Contains(outers[0], p) then shifted
      else if rest.Some? && Size(outers[rest.value + 1]) < Size(outers[0]) then shifted
      else Some(0)
  }

  /** The outer ring an inner ring is assigned to; an empty ring has no vertex to test. */
  function HostOf(outers: seq<Ring>, inner: Ring): Option<nat>
  {
    if inner == [] then None else BestOuter(outers, inner[0])
  }

  /**
   * An inner ring's host contains its first vertex and is no larger than any
   * other outer ring that does; there is none exactly when the ring is empty or
   * no outer ring contains that vertex.
   */
  lemma HostOfSmallestContainer(outers: seq<Ring>, inner: Ring)
    ensures var r := HostOf(outers, inner);
      && (r.None? <==> inner == [] || forall j :: 0 <= j < |outers| ==> !Contains(outers[j], inner[0]))
      && (r.Some? ==> r.value < |outers| && Contains(outers[r.value], inner[0]))
      && (r.Some? ==> forall j :: 0 <= j < |outers| && Contains(outers[j], inner[0]) ==> Size(outers[r.value]) <= Size(outers[j]))
  {
  }

  /** The inner rings assigned to outer ring i, in input order. */
  function HolesFor(outers: seq<Ring>, inners: seq<Ring>, i: nat): (r: seq<Ring>)
    ensures forall h :: h in r ==> h in inners && HostOf(outers, h) == Some(i)
    ensures forall k :: 0 <= k < |inners| && HostOf(outers, inners[k]) == Some(i) ==> inners[k] in r
  {
    if inners == [] then []
    else
      var rest := HolesFor(outers, inners[1..], i);
      assert forall k :: 1 <= k < |inners| ==> inners[k] == inners[1..][k - 1];
      if HostOf(outers, inners[0]) == Some(i) then [inners[0]] + rest else rest
  }

  /** The inner rings no outer ring contains, in input order. */
  function Unhosted(outers: seq<Ring>, inners: seq<Ring>): (r: seq<Ring>)
    ensures forall h :: h in r ==> h in inners && HostOf(outers, h).None?
    ensures forall k :: 0 <= k < |inners| && HostOf(outers, inners[k]).None? ==> inners[k] in r
  {
    if inners == [] then []
    else
      var rest := Unhosted(outers, inners[1..]);
      assert forall k :: 1 <= k < |inners| ==> inners[k] == inners[1..][k - 1];
      if HostOf(outers, inners[0]).None? then [inners[0]] + rest else rest
  }

  /** Nests the inner rings into the outer rings: one polygon per outer ring, in order. */
  function Nest(outers: seq<Ring>, inners: seq<Ring>): (r: Nesting)
    ensures |r.polygons| == |outers|
    ensures forall i :: 0 <= i < |outers| ==> r.polygons[i].shell == outers[i]
    ensures forall i, h :: 0 <= i < |r.polygons| && h in r.polygons[i].holes ==> h in inners
    ensures forall h :: h in r.unassigned ==> h in inners
  {
    if |outers| == 1 then Nesting([PolygonShape(outers[0], inners)], [])
    else Nesting(Assigned(outers, inners), Unhosted(outers, inners))
  }

  /** One polygon per outer ring, holding the inner rings assigned to it. */
  function Assigned(outers: seq<Ring>, inners: seq<Ring>): (r: seq<PolygonShape>)
    ensures |r| == |outers|
    ensures forall i :: 0 <= i < |outers| ==> r[i] == PolygonShape(outers[i], HolesFor(outers, inners, i))
  {
    seq(|outers|, i requires 0 <= i < |outers| => PolygonShape(outers[i], HolesFor(outers, inners, i)))
  }

  /** With a single outer ring, every inner ring is one of its holes, in order, and none is left over. */
  lemma NestSingleOuter(outer: Ring, inners: seq<Ring>)
    ensures Nest([outer], inners) == Nesting([PolygonShape(outer, inners)], [])
  {
  }

  /**
   * With several outer rings (or none), a hole belongs to the smallest outer ring
   * containing its first vertex, and an inner ring is left unassigned exactly when
   * no outer ring contains it.
   */
  lemma NestAssignsSmallestContainer(outers: seq<Ring>, inners: seq<Ring>)
    requires |outers| != 1
    ensures forall i, h :: 0 <= i < |outers| && h in Nest(outers, inners).polygons[i].holes ==>
              h != [] && Contains(outers[i], h[0])
              && forall j :: 0 <= j < |outers| && Contains(outers[j], h[0]) ==> Size(outers[i]) <= Size(outers[j])
    ensures forall k :: 0 <= k < |inners| && inners[k] != [] ==>
              (inners[k] in Nest(outers, inners).unassigned <==> forall j :: 0 <= j < |outers| ==> !Contains(outers[j], inners[k][0]))
  {
    var r := Nest(outers, inners);
    assert r.polygons == Assigned(outers, inners) && r.unassigned == Unhosted(outers, inners);
    forall i, h | 0 <= i < |outers| && h in r.polygons[i].holes
      ensures h != [] && Contains(outers[i], h[0])
      ensures forall j :: 0 <= j < |outers| && Contains(outers[j], h[0]) ==> Size(outers[i]) <= Size(outers[j])
    {
      assert h in HolesFor(outers, inners, i);
      assert HostOf(outers, h) == Some(i);
    }
  }

  /** Total number of holes over a sequence of polygons. */
  function HoleCount(ps: seq<PolygonShape>): nat
  {
    if ps == [] then 0 else HoleCount(ps[..|ps| - 1]) + |ps[|ps| - 1].holes|
  }

  /** Number of inner rings assigned to the first n outer rings. */
  function AssignedCount(outers: seq<Ring>, inners: seq<Ring>, n: nat): nat
  {
    if n == 0 then 0 else AssignedCount(outers, inners, n - 1) + |HolesFor(outers, inners, n - 1)|
  }

  /** 1 when the inner ring is assigned to one of the first n outer rings, else 0. */
  function HostedBefore(outers: seq<Ring>, inner: Ring, n: nat): nat
  {
    var host := HostOf(outers, inner);
    if host.Some? && host.value < n then 1 else 0
  }

  lemma HostedBeforeStep(outers: seq<Ring>, inner: Ring, n: nat)
    requires n > 0
    ensures HostedBefore(outers, inner, n) == HostedBefore(outers, inner, n - 1) + (if HostOf(outers, inner) == Some(n - 1) then 1 else 0)
  {
  }

  lemma {:induction false} AssignedCountStep(outers: seq<Ring>, inners: seq<Ring>, n: nat)
    requires inners != []
    ensures AssignedCount(outers, inners, n) == AssignedCount(outers, inners[1..], n) + HostedBefore(outers, inners[0], n)
  {
    if n > 0 {
      AssignedCountStep(outers, inners, n - 1);
      HolesForStep(outers, inners, n - 1);
      HostedBeforeStep(outers, inners[0], n);
    }
  }

  /** The first inner ring adds one hole to outer ring i exactly when i is its host. */
  lemma HolesForStep(outers: seq<Ring>, inners: seq<Ring>, i: nat)
    requires inners != []
    ensures |HolesFor(outers, inners, i)| == |HolesFor(outers, inners[1..], i)| + (if HostOf(outers, inners[0]) == Some(i) then 1 else 0)
  {
  }

  lemma {:induction false} AssignedCountNone(outers: seq<Ring>, n: nat)
    ensures AssignedCount(outers, [], n) == 0
  {
    if n > 0 {
      AssignedCountNone(outers, n - 1);
    }
  }

  lemma {:induction false} AssignedCountTotal(outers: seq<Ring>, inners: seq<Ring>)
    ensures AssignedCount(outers, inners, |outers|) + |Unhosted(outers, inners)| == |inners|
    decreases |inners|
  {
    if inners == [] {
      AssignedCountNone(outers, |outers|);
    } else {
      AssignedCountStep(outers, inners, |outers|);
      AssignedCountTotal(outers, inners[1..]);
      var host := HostOf(outers, inners[0]);
      if inners[0] != [] {
        assert host == BestOuter(outers, inners[0][0]);
      }
      assert host.Some? ==> host.value < |outers|;
      assert |Unhosted(outers, inners)| == |Unhosted(outers, inners[1..])| + (if host.None? then 1 else 0);

    }
  }

  lemma {:induction false} HoleCountAssigned(outers: seq<Ring>, inners: seq<Ring>, n: nat)
    requires n <= |outers|
    ensures HoleCount(Assigned(outers, inners)[..n]) == AssignedCount(outers, inners, n)
  {
    if n > 0 {
      var ps := Assigned(outers, inners);
      assert ps[..n][..n - 1] == ps[..n - 1];
      HoleCountAssigned(outers, inners, n - 1);
    }
  }

  /** Every inner ring is accounted for exactly once: as a hole of one polygon or as unassigned. */
  lemma NestConservesInners(outers: seq<Ring>, inners: seq<Ring>)
    ensures HoleCount(Nest(outers, inners).polygons) + |Nest(outers, inners).unassigned| == |inners|
  {
    if |outers| == 1 {
      assert Nest(outers, inners).polygons[..0] == [];
    } else {
      var ps := Assigned(outers, inners);
      assert ps[..|outers|] == ps;
      HoleCountAssigned(outers, inners, |outers|);
      AssignedCountTotal(outers, inners);
    }
  }
}
