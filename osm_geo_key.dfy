/**
 * Keys of OSM primitives: the type of a primitive paired with its id, and the
 * order on them. Types come first, in the order Node < Way < Relation; ids
 * break ties. CompareTo returns a negative, zero or positive number, and the
 * operators <, <=, > and >= are read off its sign.
 */
module OsmGeoKeys {

  datatype OsmGeoType = Node | Way | Relation

  /** Position of a type in the order Node < Way < Relation. */
  function Rank(t: OsmGeoType): nat
  {
    match t
    case Node => 0
    case Way => 1
    case Relation => 2
  }

  /** A (type, id) pair; ids are 64-bit in the source and never combined arithmetically here. */
  datatype OsmGeoKey = OsmGeoKey(geoType: OsmGeoType, id: int)

  /** The reference order: lexicographic on (type rank, id). */
  predicate Precedes(a: OsmGeoKey, b: OsmGeoKey)
  {
    Rank(a.geoType) < Rank(b.geoType) || (a.geoType == b.geoType && a.id < b.id)
  }

  /** Three-way comparison of two keys. */
  function CompareTo(a: OsmGeoKey, b: OsmGeoKey): (r: int)
    ensures -1 <= r <= 1
    ensures r < 0 <==> Precedes(a, b)
    ensures r == 0 <==> a == b
    ensures r > 0 <==> Precedes(b, a)
  {
    if a.geoType != b.geoType then
      (if Rank(a.geoType) < Rank(b.geoType) then -1 else 1)
    else if a.id < b.id then -1
    else if a.id == b.id then 0
    else 1
  }

  /** The operator `a < b`. */
  predicate Less(a: OsmGeoKey, b: OsmGeoKey)
  {
    CompareTo(a, b) < 0
  }

  /** The operator `a <= b`. */
  predicate LessOrEqual(a: OsmGeoKey, b: OsmGeoKey)
  {
    CompareTo(a, b) <= 0
  }

  /** The operator `a > b`. */
  predicate Greater(a: OsmGeoKey, b: OsmGeoKey)
  {
    CompareTo(a, b) > 0
  }

  /** The operator `a >= b`. */
  predicate GreaterOrEqual(a: OsmGeoKey, b: OsmGeoKey)
  {
    CompareTo(a, b) >= 0
  }

  /** Keys of one type are ordered by id alone. */
  lemma CompareSameTypeById(t: OsmGeoType, i: int, j: int)
    ensures CompareTo(OsmGeoKey(t, i), OsmGeoKey(t, j)) < 0 <==> i < j
    ensures CompareTo(OsmGeoKey(t, i), OsmGeoKey(t, j)) == 0 <==> i == j
    ensures CompareTo(OsmGeoKey(t, i), OsmGeoKey(t, j)) > 0 <==> i > j
  {
  }

  /** A key compares equal to itself. */
  lemma CompareReflexive(a: OsmGeoKey)
    ensures CompareTo(a, a) == 0
  {
  }

  /** Swapping the arguments flips the sign of the comparison. */
  lemma CompareAntisymmetric(a: OsmGeoKey, b: OsmGeoKey)
    ensures CompareTo(b, a) == -CompareTo(a, b)
  {
  }

  /** Both the strict and the non-strict order are transitive. */
  lemma CompareTransitive(a: OsmGeoKey, b: OsmGeoKey, c: OsmGeoKey)
    ensures CompareTo(a, b) < 0 && CompareTo(b, c) < 0 ==> CompareTo(a, c) < 0
    ensures CompareTo(a, b) <= 0 && CompareTo(b, c) <= 0 ==> CompareTo(a, c) <= 0
  {
  }

  /** The type dominates the id: a key of a lower type is smaller whatever the ids. */
  lemma TypeDominatesId(a: OsmGeoKey, b: OsmGeoKey)
    requires Rank(a.geoType) < Rank(b.geoType)
    ensures CompareTo(a, b) < 0 && CompareTo(b, a) > 0
  {
  }

  /** Every Node key is below every Way key, and both are below every Relation key. */
  lemma TypeOrderNodeWayRelation(i: int, j: int)
    ensures CompareTo(OsmGeoKey(Node, i), OsmGeoKey(Way, j)) < 0
    ensures CompareTo(OsmGeoKey(Node, i), OsmGeoKey(Relation, j)) < 0
    ensures CompareTo(OsmGeoKey(Way, i), OsmGeoKey(Relation, j)) < 0
  {
  }

  /** The four operators agree with the reference order. */
  lemma OperatorsAgreeWithOrder(a: OsmGeoKey, b: OsmGeoKey)
    ensures Less(a, b) <==> Precedes(a, b)
    ensures LessOrEqual(a, b) <==> Precedes(a, b) || a == b
    ensures Greater(a, b) <==> Precedes(b, a)
    ensures GreaterOrEqual(a, b) <==> Precedes(b, a) || a == b
    ensures Less(a, b) <==> Greater(b, a)
    ensures LessOrEqual(a, b) <==> GreaterOrEqual(b, a)
  {
  }

  /** Across types the operators answer as the type order says. */
  lemma OperatorsAcrossTypes(a: OsmGeoKey, b: OsmGeoKey)
    requires Rank(a.geoType) < Rank(b.geoType)
    ensures Less(a, b) && LessOrEqual(a, b)
    ensures !Greater(a, b) && !GreaterOrEqual(a, b)
  {
  }

  /** Equal keys satisfy both `<=` and `>=`, and neither strict operator. */
  lemma OperatorsOnEqualKeys(a: OsmGeoKey)
    ensures LessOrEqual(a, a) && GreaterOrEqual(a, a)
    ensures !Less(a, a) && !Greater(a, a)
  {
  }

  /** `<=` is a total order: reflexive, antisymmetric, transitive and total. */
  lemma LessOrEqualIsTotalOrder(a: OsmGeoKey, b: OsmGeoKey, c: OsmGeoKey)
    ensures LessOrEqual(a, a)
    ensures LessOrEqual(a, b) && LessOrEqual(b, a) ==> a == b
    ensures LessOrEqual(a, b) && LessOrEqual(b, c) ==> LessOrEqual(a, c)
    ensures LessOrEqual(a, b) || LessOrEqual(b, a)
  {
  }
}
