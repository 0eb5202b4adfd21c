/**
 * Tag classification: an ordered table of (test, kind) rules, evaluated
 * first-match-wins, decides whether a tag collection describes a line or an
 * area. The precedence is area=no, then area=yes, then the tags that imply an
 * area by OSM convention, then type=multipolygon; anything else is a line.
 */
module TagClassifier {
  import opened Wrappers
  import opened Osm

  datatype GeometryKind = Line | Area

  /** What a rule looks for: one exact tag, or a key with any value. */
  datatype TagTest = KeyValue(key: string, value: string) | AnyValue(key: string)

  datatype Rule = Rule(test: TagTest, kind: GeometryKind)

  predicate Passes(test: TagTest, tags: Tags)
  {
    match test
    case KeyValue(k, v) => HasTag(tags, k, v)
    case AnyValue(k) => HasKey(tags, k)
  }

  /** The rule table, in precedence order. */
  const Rules: seq<Rule> := [
    Rule(KeyValue("area", "no"), Line),
    Rule(KeyValue("area", "yes"), Area),
    Rule(KeyValue("natural", "water"), Area),
    Rule(AnyValue("landuse"), Area),
    Rule(AnyValue("building"), Area),
    Rule(AnyValue("leisure"), Area),
    Rule(KeyValue("type", "multipolygon"), Area)
  ]

  /** The kind of the first rule whose test passes, if any. */
  function FirstMatch(rules: seq<Rule>, tags: Tags): (r: Option<GeometryKind>)
    ensures r.None? <==> forall i :: 0 <= i < |rules| ==> !Passes(rules[i].test, tags)
    ensures r.Some? ==> exists i :: 0 <= i < |rules| && Passes(rules[i].test, tags) && rules[i].kind == r.value
                          && forall j :: 0 <= j < i ==> !Passes(rules[j].test, tags)
  {
    if rules == [] then None
    else if Passes(rules[0].test, tags) then Some(rules[0].kind)
    else
      var r := FirstMatch(rules[1..], tags);
      assert forall i :: 1 <= i < |rules| ==> rules[i] == rules[1..][i - 1];
      r
  }

  /** The tags that make a closed way an area by convention. */
  predicate ImpliesArea(tags: Tags)
  {
    HasTag(tags, "natural", "water") || HasKey(tags, "landuse") || HasKey(tags, "building") || HasKey(tags, "leisure")
  }

  /** The table's precedence, stated without the table: an Area rule is the first to match exactly when area=no is absent and one of the area rules holds. */
  lemma RulesPrecedence(tags: Tags)
    ensures FirstMatch(Rules, tags) == Some(Area) <==>
              !HasTag(tags, "area", "no")
              && (HasTag(tags, "area", "yes") || ImpliesArea(tags) || HasTag(tags, "type", "multipolygon"))
  {
    var r := FirstMatch(Rules, tags);
    assert Passes(Rules[0].test, tags) == HasTag(tags, "area", "no");
    assert Passes(Rules[1].test, tags) == HasTag(tags, "area", "yes");
    assert Passes(Rules[2].test, tags) == HasTag(tags, "natural", "water");
    assert Passes(Rules[3].test, tags) == HasKey(tags, "landuse");
    assert Passes(Rules[4].test, tags) == HasKey(tags, "building");
    assert Passes(Rules[5].test, tags) == HasKey(tags, "leisure");
    assert Passes(Rules[6].test, tags) == HasTag(tags, "type", "multipolygon");
    if r.Some? {
      var i :| 0 <= i < |Rules| && Passes(Rules[i].test, tags) && Rules[i].kind == r.value
               && forall j :: 0 <= j < i ==> !Passes(Rules[j].test, tags);
      if HasTag(tags, "area", "no") {
        assert i == 0;
      }
    }
  }

  /** Classification: the first matching rule, Line when none matches. */
  function Classify(tags: Tags): (r: GeometryKind)
    ensures r == Area <==>
              !HasTag(tags, "area", "no")
              && (HasTag(tags, "area", "yes") || ImpliesArea(tags) || HasTag(tags, "type", "multipolygon"))
  {
    RulesPrecedence(tags);
    match FirstMatch(Rules, tags)
    case Some(k) => k
    case None => Line
  }

  /** area=no makes a line whatever else is tagged. */
  lemma AreaNoIsLine(tags: Tags)
    requires HasTag(tags, "area", "no")
    ensures Classify(tags) == Line
  {
  }

  /** area=yes makes an area unless area=no is also present. */
  lemma AreaYesIsArea(tags: Tags)
    requires HasTag(tags, "area", "yes") && !HasTag(tags, "area", "no")
    ensures Classify(tags) == Area
  {
  }

  /** natural=water implies an area with no area tag at all. */
  lemma NaturalWaterIsArea(tags: Tags)
    requires HasTag(tags, "natural", "water") && !HasTag(tags, "area", "no")
    ensures Classify(tags) == Area
  {
  }
}
