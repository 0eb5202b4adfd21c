/**
 * Ring assembly: way fragments (node-id lists) are stitched end to end into
 * closed rings. A seed fragment is taken from the front of the pool; while its
 * chain is open, the first unconsumed open fragment touching the chain's open
 * end is turned to start there and its remaining nodes are appended. A fragment
 * that is already closed is never joined to another: it forms its ring on its
 * own. A chain that closes into a ring is emitted with the fragments it
 * consumed; one that cannot close hands its fragments to the failure report.
 */
module RingAssembler {
  import opened Wrappers
  import opened Osm

  type Fragment = seq<NodeId>

  /** The fragment starts or ends at node x. */
  predicate Touches(f: Fragment, x: NodeId)
  {
    |f| > 0 && (f[0] == x || f[|f| - 1] == x)
  }

  function Reverse(s: seq<NodeId>): (r: seq<NodeId>)
    ensures |r| == |s|
    ensures forall i :: 0 <= i < |s| ==> r[i] == s[|s| - 1 - i]
  {
    if s == [] then [] else Reverse(s[1..]) + [s[0]]
  }

  /** The fragment is still open and can continue a chain ending at x. */
  predicate Joins(f: Fragment, x: NodeId)
  {
    Touches(f, x) && !IsClosed(f)
  }

  /** The fragment read in the direction that starts at x. */
  function Oriented(f: Fragment, x: NodeId): (r: Fragment)
    requires Touches(f, x)
    ensures |r| == |f| && r[0] == x
    ensures r == f || r == Reverse(f)
  {
    if f[0] == x then f else Reverse(f)
  }

  /** Index of the first open fragment in the pool touching x. */
  function FindMatch(pool: seq<Fragment>, x: NodeId): (r: Option<nat>)
    ensures r.Some? ==> r.value < |pool| && Joins(pool[r.value], x)
    ensures r.Some? ==> forall k :: 0 <= k < r.value ==> !Joins(pool[k], x)
    ensures r.None? <==> forall k :: 0 <= k < |pool| ==> !Joins(pool[k], x)
  {
    if pool == [] then None
    else if Joins(pool[0], x) then Some(0)
    else match FindMatch(pool[1..], x)
      case None => None
      case Some(j) => Some(j + 1)
  }

  function RemoveAt(pool: seq<Fragment>, j: nat): (r: seq<Fragment>)
    requires j < |pool|
    ensures |r| == |pool| - 1
  {
    pool[..j] + pool[j + 1..]
  }

  /** Removing the fragment at j loses that fragment and nothing else. */
  lemma RemoveAtConserves(pool: seq<Fragment>, j: nat)
    requires j < |pool|
    ensures multiset(RemoveAt(pool, j)) + multiset{pool[j]} == multiset(pool)
  {
    assert pool == pool[..j] + [pool[j]] + pool[j + 1..];
  }

  /** The state of one chain being grown: its nodes, the fragments it consumed, the fragments left. */
  datatype Growth = Growth(chain: seq<NodeId>, parts: seq<Fragment>, pool: seq<Fragment>)

  /** Extends the chain at its open end until it closes or no open fragment touches that end. */
  function Grow(chain: seq<NodeId>, parts: seq<Fragment>, pool: seq<Fragment>): (r: Growth)
    ensures |r.pool| <= |pool|
    decreases |pool|
  {
    if |chain| == 0 || IsClosed(chain) then Growth(chain, parts, pool)
    else
      var x := chain[|chain| - 1];
      match FindMatch(pool, x)
      case None => Growth(chain, parts, pool)
      case Some(j) => Grow(chain + Oriented(pool[j], x)[1..], parts + [pool[j]], RemoveAt(pool, j))
  }

  /** Growing moves fragments from the pool to the chain's parts without losing or duplicating any, and keeps the chain's start. */
  lemma {:induction false} GrowConserves(chain: seq<NodeId>, parts: seq<Fragment>, pool: seq<Fragment>)
    ensures multiset(Grow(chain, parts, pool).parts) + multiset(Grow(chain, parts, pool).pool) == multiset(parts) + multiset(pool)
    ensures |chain| > 0 ==> |Grow(chain, parts, pool).chain| >= |chain| && Grow(chain, parts, pool).chain[0] == chain[0]
    decreases |pool|
  {
    if |chain| > 0 && !IsClosed(chain) {
      var x := chain[|chain| - 1];
      var m := FindMatch(pool, x);
      if m.Some? {
        var j := m.value;
        var chain' := chain + Oriented(pool[j], x)[1..];
        var parts' := parts + [pool[j]];
        var pool' := RemoveAt(pool, j);
        GrowConserves(chain', parts', pool');
        RemoveAtConserves(pool, j);
        assert Grow(chain, parts, pool) == Grow(chain', parts', pool');
        assert multiset(parts') == multiset(parts) + multiset{pool[j]};
      }
    }
  }

  /** Growing stops only when the chain is closed (or empty) or no open fragment left in the pool touches its open end. */
  lemma {:induction false} GrowStopsAtDeadEnd(chain: seq<NodeId>, parts: seq<Fragment>, pool: seq<Fragment>)
    ensures var r := Grow(chain, parts, pool);
      |r.chain| == 0 || IsClosed(r.chain) || FindMatch(r.pool, r.chain[|r.chain| - 1]).None?
    decreases |pool|
  {
    if |chain| > 0 && !IsClosed(chain) {
      var x := chain[|chain| - 1];
      var m := FindMatch(pool, x);
      if m.Some? {
        var j := m.value;
        var chain' := chain + Oriented(pool[j], x)[1..];
        var parts' := parts + [pool[j]];
        var pool' := RemoveAt(pool, j);
        assert Grow(chain, parts, pool) == Grow(chain', parts', pool');
        GrowStopsAtDeadEnd(chain', parts', pool');
      }
    }
  }

  /**
   * The chain obtained by laying the parts end to end: the first part as it is,
   * then each later part read from the chain's current end, with that shared
   * node dropped. None when a part does not touch the end it should continue.
   */
  function Stitch(parts: seq<Fragment>): Option<seq<NodeId>>
  {
    if parts == [] then None
    else if |parts| == 1 then Some(parts[0])
    else
      match Stitch(parts[..|parts| - 1])
      case None => None
      case Some(c) =>
        var f := parts[|parts| - 1];
        if |c| > 0 && Touches(f, c[|c| - 1]) then Some(c + Oriented(f, c[|c| - 1])[1..]) else None
  }

  /** Appending a part that touches the end of a stitched chain stitches it on. */
  lemma StitchAppend(parts: seq<Fragment>, chain: seq<NodeId>, f: Fragment)
    requires Stitch(parts) == Some(chain) && |chain| > 0 && Touches(f, chain[|chain| - 1])
    ensures Stitch(parts + [f]) == Some(chain + Oriented(f, chain[|chain| - 1])[1..])
  {
    assert (parts + [f])[..|parts|] == parts;
  }

  /** Growing keeps the chain equal to the stitch of its parts: every fragment added continues the chain from its end. */
  lemma {:induction false} GrowStitches(chain: seq<NodeId>, parts: seq<Fragment>, pool: seq<Fragment>)
    requires Stitch(parts) == Some(chain)
    ensures Stitch(Grow(chain, parts, pool).parts) == Some(Grow(chain, parts, pool).chain)
    decreases |pool|
  {
    if |chain| > 0 && !IsClosed(chain) {
      var x := chain[|chain| - 1];
      var m := FindMatch(pool, x);
      if m.Some? {
        var j := m.value;
        var chain' := chain + Oriented(pool[j], x)[1..];
        var parts' := parts + [pool[j]];
        var pool' := RemoveAt(pool, j);
        StitchAppend(parts, chain, pool[j]);
        assert Grow(chain, parts, pool) == Grow(chain', parts', pool');
        GrowStitches(chain', parts', pool');
      }
    }
  }

  /** A closed ring together with the fragments it was stitched from. */
  datatype AssembledRing = AssembledRing(nodes: seq<NodeId>, parts: seq<Fragment>)

  /** The rings assembled and the fragments that could not be closed. */
  datatype Assembly = Assembly(rings: seq<AssembledRing>, failed: seq<Fragment>)

  /** Assembles all fragments, seed by seed in pool order. */
  function Assemble(fragments: seq<Fragment>): (r: Assembly)
    ensures forall i :: 0 <= i < |r.rings| ==> IsRing(r.rings[i].nodes)
    decreases |fragments|
  {
    if fragments == [] then Assembly([], [])
    else
      var g := Grow(fragments[0], [fragments[0]], fragments[1..]);
      var rest := Assemble(g.pool);
      if IsRing(g.chain) then Assembly([AssembledRing(g.chain, g.parts)] + rest.rings, rest.failed)
      else Assembly(rest.rings, g.parts + rest.failed)
  }

  /** All fragments consumed by the given rings, ring by ring. */
  function AllParts(rings: seq<AssembledRing>): seq<Fragment>
  {
    if rings == [] then [] else rings[0].parts + AllParts(rings[1..])
  }

  /** One round of `Assemble`: the first seed's chain is a ring or failed parts, ahead of the assembly of what it left in the pool. */
  lemma AssembleUnfold(fragments: seq<Fragment>, g: Growth)
    requires fragments != [] && g == Grow(fragments[0], [fragments[0]], fragments[1..])
    ensures IsRing(g.chain) ==>
      Assemble(fragments) == Assembly([AssembledRing(g.chain, g.parts)] + Assemble(g.pool).rings, Assemble(g.pool).failed)
    ensures !IsRing(g.chain) ==>
      Assemble(fragments) == Assembly(Assemble(g.pool).rings, g.parts + Assemble(g.pool).failed)
  {
  }

  lemma AllPartsCons(ring: AssembledRing, rings: seq<AssembledRing>)
    ensures AllParts([ring] + rings) == ring.parts + AllParts(rings)
  {
    assert ([ring] + rings)[1..] == rings;
  }

  /** Every input fragment is consumed exactly once: by one ring, or reported as failed. */
  lemma {:induction false} AssembleConserves(fragments: seq<Fragment>)
    ensures multiset(AllParts(Assemble(fragments).rings)) + multiset(Assemble(fragments).failed) == multiset(fragments)
    decreases |fragments|
  {
    if fragments != [] {
      var g := Grow(fragments[0], [fragments[0]], fragments[1..]);
      GrowConserves(fragments[0], [fragments[0]], fragments[1..]);
      assert fragments == [fragments[0]] + fragments[1..];
      AssembleConserves(g.pool);
      AssembleUnfold(fragments, g);
      if IsRing(g.chain) {
        AllPartsCons(AssembledRing(g.chain, g.parts), Assemble(g.pool).rings);
      }
    }
  }

  /** Every assembled ring's node list is exactly its parts stitched end to end, in the order they were consumed. */
  lemma {:induction false} AssembleStitches(fragments: seq<Fragment>)
    ensures forall i :: 0 <= i < |Assemble(fragments).rings| ==>
              Stitch(Assemble(fragments).rings[i].parts) == Some(Assemble(fragments).rings[i].nodes)
    decreases |fragments|
  {
    if fragments != [] {
      var g := Grow(fragments[0], [fragments[0]], fragments[1..]);
      GrowStitches(fragments[0], [fragments[0]], fragments[1..]);
      AssembleStitches(g.pool);
      AssembleUnfold(fragments, g);
    }
  }

  /** One ring per fragment, each consuming only itself. */
  function Singletons(fragments: seq<Fragment>): (r: seq<AssembledRing>)
    ensures |r| == |fragments|
    ensures forall i :: 0 <= i < |fragments| ==> r[i] == AssembledRing(fragments[i], [fragments[i]])
  {
    if fragments == [] then [] else [AssembledRing(fragments[0], [fragments[0]])] + Singletons(fragments[1..])
  }

  /** Fragments that are already closed rings become rings on their own, in order, and nothing fails. */
  lemma {:induction false} AssembleClosedFragments(fragments: seq<Fragment>)
    requires forall i :: 0 <= i < |fragments| ==> IsRing(fragments[i])
    ensures Assemble(fragments) == Assembly(Singletons(fragments), [])
    decreases |fragments|
  {
    if fragments != [] {
      AssembleClosedFragments(fragments[1..]);
    }
  }

  /** A closed fragment left in the pool stays there however the chain grows: growth only takes open fragments. */
  lemma {:induction false} GrowKeepsClosed(chain: seq<NodeId>, parts: seq<Fragment>, pool: seq<Fragment>, f: Fragment)
    requires f in pool && IsClosed(f)
    ensures f in Grow(chain, parts, pool).pool
    decreases |pool|
  {
    if |chain| > 0 && !IsClosed(chain) {
      var x := chain[|chain| - 1];
      var m := FindMatch(pool, x);
      if m.Some? {
        var j := m.value;
        var chain' := chain + Oriented(pool[j], x)[1..];
        var parts' := parts + [pool[j]];
        var pool' := RemoveAt(pool, j);
        RemoveAtConserves(pool, j);
        assert f != pool[j];
        assert f in multiset(pool');
        assert Grow(chain, parts, pool) == Grow(chain', parts', pool');
        GrowKeepsClosed(chain', parts', pool', f);
      }
    }
  }

  /**
   * Wherever it sits among the fragments, a fragment that is already a closed
   * ring comes out as a ring of its own, consuming only itself.
   */
  lemma {:induction false} AssembleKeepsClosedRing(fragments: seq<Fragment>, f: Fragment)
    requires f in fragments && IsRing(f)
    ensures AssembledRing(f, [f]) in Assemble(fragments).rings
    decreases |fragments|
  {
    var g := Grow(fragments[0], [fragments[0]], fragments[1..]);
    AssembleUnfold(fragments, g);
    if fragments[0] == f {
      assert g == Growth(f, [f], fragments[1..]);
      assert Assemble(fragments).rings[0] == AssembledRing(f, [f]);
    } else {
      assert f in fragments[1..] by {
        assert fragments == [fragments[0]] + fragments[1..];
      }
      GrowKeepsClosed(fragments[0], [fragments[0]], fragments[1..], f);
      AssembleKeepsClosedRing(g.pool, f);
      if IsRing(g.chain) {
        assert Assemble(fragments).rings == [AssembledRing(g.chain, g.parts)] + Assemble(g.pool).rings;
      }
    }
  }

  /**
   * A closed fragment touching an open chain's end is not merged into it: an
   * inner ring 7-9-10-7 sharing node 7 with a ring split over two ways stays a
   * ring of its own.
   */
  lemma AssembleClosedBesideSplit()
    ensures Assemble([[5, 6, 7], [7, 9, 10, 7], [7, 8, 5]]) ==
      Assembly([AssembledRing([5, 6, 7, 8, 5], [[5, 6, 7], [7, 8, 5]]), AssembledRing([7, 9, 10, 7], [[7, 9, 10, 7]])], [])
  {
    var fs: seq<Fragment> := [[5, 6, 7], [7, 9, 10, 7], [7, 8, 5]];
    assert FindMatch(fs[1..], 7) == Some(1);
    assert RemoveAt(fs[1..], 1) == [[7, 9, 10, 7]];
    assert Oriented([7, 8, 5], 7)[1..] == [8, 5];
    var ring: seq<NodeId> := [5, 6, 7, 8, 5];
    assert Grow(ring, [[5, 6, 7], [7, 8, 5]], [[7, 9, 10, 7]]) == Growth(ring, [[5, 6, 7], [7, 8, 5]], [[7, 9, 10, 7]]);
    assert Grow(fs[0], [fs[0]], fs[1..]) == Growth(ring, [[5, 6, 7], [7, 8, 5]], [[7, 9, 10, 7]]);
    AssembleClosedFragments([[7, 9, 10, 7]]);
  }

  /** An open fragment on its own cannot close: it is reported as failed. */
  lemma AssembleDanglingFragment(f: Fragment)
    requires !IsRing(f)
    ensures Assemble([f]) == Assembly([], [f])
  {
    var g := Grow(f, [f], []);
    assert g == Growth(f, [f], []);
  }

  /**
   * Two open fragments whose ends meet, the second running from the first's last
   * node back to its first node (possibly stored reversed), are stitched into
   * one ring consuming both, and nothing fails.
   */
  lemma AssembleTwoHalves(f: Fragment, g: Fragment)
    requires |f| >= 2 && |g| >= 2 && |f| + |g| >= 5
    requires !IsClosed(f)
    requires Touches(g, f[|f| - 1])
    requires Oriented(g, f[|f| - 1])[|g| - 1] == f[0]
    ensures Assemble([f, g]) == Assembly([AssembledRing(f + Oriented(g, f[|f| - 1])[1..], [f, g])], [])
  {
    var x := f[|f| - 1];
    var chain := f + Oriented(g, x)[1..];
    assert [f, g][1..] == [g];
    assert FindMatch([g], x) == Some(0);
    assert RemoveAt([g], 0) == [];
    assert IsClosed(chain);
    assert Grow(chain, [f, g], []) == Growth(chain, [f, g], []);
    assert Grow(f, [f], [g]) == Growth(chain, [f, g], []);
  }

  /** Scans the pool for the first open fragment touching x; |pool| when there is none. */
  method FindFirstTouching(pool: seq<Fragment>, x: NodeId) returns (j: nat)
    ensures j <= |pool|
    ensures j < |pool| ==> FindMatch(pool, x) == Some(j)
    ensures j == |pool| ==> FindMatch(pool, x).None?
  {
    j := 0;
    while j < |pool| && !Joins(pool[j], x)
      invariant 0 <= j <= |pool|
      invariant forall k :: 0 <= k < j ==> !Joins(pool[k], x)
    {
      j := j + 1;
    }
  }

  /** The loop that grows one chain; it computes exactly `Grow`. */
  method GrowChain(seed: seq<NodeId>, seedParts: seq<Fragment>, pool: seq<Fragment>) returns (g: Growth)
    ensures g == Grow(seed, seedParts, pool)
  {
    var chain, parts, rest := seed, seedParts, pool;
    while |chain| > 0 && !IsClosed(chain)
      invariant Grow(chain, parts, rest) == Grow(seed, seedParts, pool)
      decreases |rest|
    {
      var x := chain[|chain| - 1];
      var j := FindFirstTouching(rest, x);
      if j == |rest| {
        break;
      }
      var f := rest[j];
      chain := chain + Oriented(f, x)[1..];
      parts := parts + [f];
      rest := RemoveAt(rest, j);
    }
    g := Growth(chain, parts, rest);
  }

  /** What the assembly loop will have produced once the pool is used up, given what it has set aside so far. */
  function AssembleAfter(rings: seq<AssembledRing>, failed: seq<Fragment>, pool: seq<Fragment>): Assembly
  {
    Assembly(rings + Assemble(pool).rings, failed + Assemble(pool).failed)
  }

  /** One round of the assembly loop changes nothing in the final outcome: the first seed's chain is set aside as a ring or as failed parts, ahead of what the rest of the pool assembles into. */
  lemma AssembleStep(rings: seq<AssembledRing>, failed: seq<Fragment>, pool: seq<Fragment>, g: Growth)
    requires pool != [] && g == Grow(pool[0], [pool[0]], pool[1..])
    ensures IsRing(g.chain) ==>
      AssembleAfter(rings, failed, pool) == AssembleAfter(rings + [AssembledRing(g.chain, g.parts)], failed, g.pool)
    ensures !IsRing(g.chain) ==>
      AssembleAfter(rings, failed, pool) == AssembleAfter(rings, failed + g.parts, g.pool)
  {
    var rest := Assemble(g.pool);
    if IsRing(g.chain) {
      assert Assemble(pool).rings == [AssembledRing(g.chain, g.parts)] + rest.rings;
      assert rings + ([AssembledRing(g.chain, g.parts)] + rest.rings) == (rings + [AssembledRing(g.chain, g.parts)]) + rest.rings;
    } else {
      assert Assemble(pool).failed == g.parts + rest.failed;
      assert failed + (g.parts + rest.failed) == (failed + g.parts) + rest.failed;
    }
  }

  /** The loop that consumes the fragments seed by seed; it computes exactly `Assemble`. */
  method AssembleRings(fragments: seq<Fragment>) returns (result: Assembly)
    ensures result == Assemble(fragments)
  {
    var pool := fragments;
    var rings: seq<AssembledRing> := [];
    var failed: seq<Fragment> := [];
    while pool != []
      invariant AssembleAfter(rings, failed, pool) == AssembleAfter([], [], fragments)
      decreases |pool|
    {
      var g := GrowChain(pool[0], [pool[0]], pool[1..]);
      AssembleStep(rings, failed, pool, g);
      if IsRing(g.chain) {
        rings := rings + [AssembledRing(g.chain, g.parts)];
      } else {
        failed := failed + g.parts;
      }
      pool := g.pool;
    }
    assert rings + [] == rings && failed + [] == failed;
    assert [] + Assemble(fragments).rings == Assemble(fragments).rings;
    assert [] + Assemble(fragments).failed == Assemble(fragments).failed;
    result := Assembly(rings, failed);
  }
}
