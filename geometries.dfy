/**
 * Output geometries and features. Coordinates are exact reals; x is the
 * longitude and y the latitude. Containment is the even-odd ray-casting rule
 * with a half-open test on latitudes, so a point on a ring's boundary is
 * inside or outside depending on which edge it lies on.
 */
module Geometries {
  import opened Osm

  datatype Coord = Coord(latitude: real, longitude: real)

  /** The geometry kinds, spelled as the library spells them. */
  datatype Geometry =
    | Point(coord: Coord)
    | LineString(coords: seq<Coord>)
    | LineairRing(coords: seq<Coord>)
    | Polygon(shell: seq<Coord>, holes: seq<seq<Coord>>)

  /** A feature is a geometry with the tags of the entity it came from. */
  datatype Feature = Feature(geometry: Geometry, attributes: Tags)

  /** The outline of a geometry: a ring's or line's coordinates, a polygon's shell. */
  function ShellOf(g: Geometry): seq<Coord>
  {
    match g
    case Point(c) => [c]
    case LineString(cs) => cs
    case LineairRing(cs) => cs
    case Polygon(shell, _) => shell
  }

  /** The holes of a geometry: a polygon's holes, none for anything else. */
  function HolesOf(g: Geometry): seq<seq<Coord>>
  {
    if g.Polygon? then g.holes else []
  }

  /** First coordinate repeated last, at least a triangle. */
  predicate IsClosedRing(cs: seq<Coord>)
  {
    |cs| >= 4 && cs[0] == cs[|cs| - 1]
  }

  /** The invariants a geometry promises at construction. */
  predicate WellFormed(g: Geometry)
  {
    match g
    case Point(_) => true
    case LineString(_) => true
    case LineairRing(cs) => IsClosedRing(cs)
    case Polygon(shell, holes) => IsClosedRing(shell) && forall h :: h in holes ==> IsClosedRing(h)
  }

  /** Does the eastward ray from p cross the edge from a to b? */
  predicate RayCrosses(a: Coord, b: Coord, p: Coord)
  {
    (a.latitude > p.latitude) != (b.latitude > p.latitude)
    && p.longitude < a.longitude + (p.latitude - a.latitude) * (b.longitude - a.longitude) / (b.latitude - a.latitude)
  }

  /** Number of ring edges the eastward ray from p crosses. */
  function Crossings(ring: seq<Coord>, p: Coord): nat
  {
    if |ring| < 2 then 0
    else (if RayCrosses(ring[0], ring[1], p) then 1 else 0) + Crossings(ring[1..], p)
  }

  /** Even-odd containment. */
  predicate Contains(ring: seq<Coord>, p: Coord)
  {
    Crossings(ring, p) % 2 == 1
  }

  /** Twice the signed area enclosed by the ring (shoelace sum over its edges). */
  function TwiceSignedArea(ring: seq<Coord>): real
  {
    if |ring| < 2 then 0.0
    else ring[0].longitude * ring[1].latitude - ring[1].longitude * ring[0].latitude + TwiceSignedArea(ring[1..])
  }

  /** The size used to rank containing rings: the absolute enclosed area, doubled. */
  function Size(ring: seq<Coord>): (r: real)
    ensures r >= 0.0
    ensures r == 0.0 <==> TwiceSignedArea(ring) == 0.0
  {
    var a := TwiceSignedArea(ring);
    if a < 0.0 then -a else a
  }

  /** A point north of every vertex, or south of every vertex, is in no ring. */
  lemma {:induction false} OutsideLatitudeSpan(ring: seq<Coord>, p: Coord)
    requires (forall i :: 0 <= i < |ring| ==> ring[i].latitude <= p.latitude)
          || (forall i :: 0 <= i < |ring| ==> ring[i].latitude > p.latitude)
    ensures Crossings(ring, p) == 0
    ensures !Contains(ring, p)
  {
    if |ring| >= 2 {
      assert !RayCrosses(ring[0], ring[1], p);
      OutsideLatitudeSpan(ring[1..], p);
    }
  }

  /** The outer ring of the multipolygon tests: nodes 1-4 at (0,0), (0,1), (1,1), (1,0), closed. */
  const UnitSquare: seq<Coord> := [Coord(0.0, 0.0), Coord(0.0, 1.0), Coord(1.0, 1.0), Coord(1.0, 0.0), Coord(0.0, 0.0)]

  /**
   * Strictly between the square's southern and northern edges, a point is inside
   * exactly when its longitude lies in [0, 1): the western edge counts as inside,
   * the eastern one as outside.
   */
  lemma UnitSquareContains(p: Coord)
    requires 0.0 < p.latitude < 1.0
    ensures Contains(UnitSquare, p) <==> 0.0 <= p.longitude < 1.0
  {
    var sq := UnitSquare;
    assert !RayCrosses(sq[0], sq[1], p);
    assert RayCrosses(sq[1], sq[2], p) <==> p.longitude < 1.0;
    assert !RayCrosses(sq[2], sq[3], p);
    assert RayCrosses(sq[3], sq[4], p) <==> p.longitude < 0.0;
    assert Crossings(sq[4..], p) == 0;
    assert sq[3..][1..] == sq[4..];
    assert Crossings(sq[3..], p) == (if p.longitude < 0.0 then 1 else 0);
    assert sq[2..][1..] == sq[3..];
    assert Crossings(sq[2..], p) == Crossings(sq[3..], p);
    assert sq[1..][1..] == sq[2..];
    assert Crossings(sq[1..], p) == (if p.longitude < 1.0 then 1 else 0) + Crossings(sq[2..], p);
    assert Crossings(sq, p) == Crossings(sq[1..], p);
  }

  /** The square of nodes 1-4 encloses area 1, so its size is 2. */
  lemma UnitSquareSize()
    ensures Size(UnitSquare) == 2.0
  {
    var sq := UnitSquare;
    assert TwiceSignedArea(sq[4..]) == 0.0;
    assert sq[3..][1..] == sq[4..];
    assert TwiceSignedArea(sq[3..]) == 0.0;
    assert sq[2..][1..] == sq[3..];
    assert TwiceSignedArea(sq[2..]) == 1.0;
    assert sq[1..][1..] == sq[2..];
    assert TwiceSignedArea(sq[1..]) == 2.0;
    assert TwiceSignedArea(sq) == 2.0;
  }
}
