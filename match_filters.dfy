/** The match-list filters of main.py's `ccz` and `3to1` commands: the
    matches of one input APN that a test finds equivalent to it are removed,
    the others are kept in their order. The tests themselves are parameters. */
module MatchFilters {
  import opened Outcomes
  import opened ApnObject
  import opened Compare
  import opened Equivalence

  /** The positions the CCZ filter keeps: those the test does not find
      equivalent. */
  function CczKeep(matches: seq<Match>, equivalent: Candidate -> bool): int -> bool
  {
    i => !(0 <= i < |matches| && equivalent(matches[i].apn))
  }

  /** The loop of `ccz_equivalence_check`: a match whose result is true is
      counted and dropped; every other one is kept. */
  method CczFilter(matches: seq<Match>, equivalent: Candidate -> bool) returns (updated: seq<Match>, removedCount: nat)
    ensures updated == Select(matches, CczKeep(matches, equivalent))
    ensures removedCount + |updated| == |matches|
  {
    updated := [];
    removedCount := 0;
    for i := 0 to |matches|
      invariant updated == Select(matches[..i], CczKeep(matches, equivalent))
      invariant removedCount + |updated| == i
    {
      assert matches[..i + 1][..i] == matches[..i];
      if equivalent(matches[i].apn) {
        removedCount := removedCount + 1;
      } else {
        updated := updated + [matches[i]];
      }
    }
    assert matches[..|matches|] == matches;
  }

  /** `ccz_equivalence_check(input_apn_index)`: an index outside the input
      list, or one without matches, changes nothing; otherwise the index's
      match list is replaced by the filtered one. */
  method CczEquivalenceCheck(apnCount: nat, matchList: map<int, seq<Match>>, index: int, equivalent: Candidate -> bool)
    returns (r: Result<map<int, seq<Match>>>)
    ensures r.Err? <==> !(0 <= index < apnCount) || index !in matchList || matchList[index] == []
    ensures r.Ok? ==> r.value == matchList[index := Select(matchList[index], CczKeep(matchList[index], equivalent))]
  {
    if index < 0 || index >= apnCount {
      return Err("Invalid input APN index.");
    }
    if index !in matchList || matchList[index] == [] {
      return Err("No matches in match-list. Run 'compare' first.");
    }
    var matches := matchList[index];
    var updated, removedCount := CczFilter(matches, equivalent);
    return Ok(matchList[index := updated]);
  }

  /** A `properties` attribute whose "k_to_1" entry is the text "3-to-1". */
  predicate IsThreeToOne(props: Option<map<string, InvValue>>)
  {
    props.Some? && "k_to_1" in props.value && props.value["k_to_1"] == TextV("3-to-1")
  }

  /** The positions the 3-to-1 filter keeps: every match that is not
      3-to-1, and every 3-to-1 match the test does not find equivalent (an
      exception counts as not equivalent). */
  function ThreeToOneKeep(matches: seq<Match>, test: Candidate -> Result<bool>): int -> bool
  {
    i => !(0 <= i < |matches| && IsThreeToOne(matches[i].apn.properties) && test(matches[i].apn) == Ok(true))
  }

  /** The loop of `three_to1_equivalence_check`. It reads every match's
      `properties`, which the match-list loader always sets. */
  method ThreeToOneFilter(matches: seq<Match>, test: Candidate -> Result<bool>) returns (updated: seq<Match>, removedCount: nat)
    requires AllHaveProperties(matches)
    ensures updated == Select(matches, ThreeToOneKeep(matches, test))
    ensures removedCount + |updated| == |matches|
  {
    updated := [];
    removedCount := 0;
    for i := 0 to |matches|
      invariant updated == Select(matches[..i], ThreeToOneKeep(matches, test))
      invariant removedCount + |updated| == i
    {
      assert matches[..i + 1][..i] == matches[..i];
      var mApn := matches[i].apn;
      if IsThreeToOne(mApn.properties) {
        var eq := false;
        var outcome := test(mApn);
        if outcome.Ok? {
          eq := outcome.value;
        }
        if eq {
          removedCount := removedCount + 1;
        } else {
          updated := updated + [matches[i]];
        }
      } else {
        updated := updated + [matches[i]];
      }
    }
    assert matches[..|matches|] == matches;
  }

  /** `three_to1_equivalence_check(input_apn_index)`: nothing happens for
      an index outside the input list, one without matches, or an input
      that is not 3-to-1; reading `properties` of the input or of a match
      without it raises, and nothing is saved; otherwise the index's match
      list is filtered. */
  method ThreeToOneEquivalenceCheck(apnList: seq<Candidate>, matchList: map<int, seq<Match>>, index: int,
                                    test: Candidate -> Result<bool>)
    returns (r: Result<map<int, seq<Match>>>)
    ensures r.Err? <==>
      || !(0 <= index < |apnList|) || index !in matchList || matchList[index] == []
      || !IsThreeToOne(apnList[index].properties) || !AllHaveProperties(matchList[index])
    ensures (0 <= index < |apnList| && index in matchList && matchList[index] != []
             && apnList[index].properties.None?) ==> r == Err(NoProperties)
    ensures r.Ok? ==> r.value == matchList[index := Select(matchList[index], ThreeToOneKeep(matchList[index], test))]
  {
    if index < 0 || index >= |apnList| {
      return Err("Invalid input APN index.");
    }
    if index !in matchList || matchList[index] == [] {
      return Err("No matches in the match list. Run 'compare' first.");
    }
    var inApn := apnList[index];
    if inApn.properties.None? {
      return Err(NoProperties);
    }
    if GetOr(inApn.properties.value, "k_to_1", NoneV) != TextV("3-to-1") {
      return Err("Input APN does not have the required property: k_to_1 must be '3-to-1'.");
    }
    if !AllHaveProperties(matchList[index]) {
      // `m_apn.properties.get("k_to_1")` raises at the first such match.
      return Err(NoProperties);
    }
    var updated, removedCount := ThreeToOneFilter(matchList[index], test);
    return Ok(matchList[index := updated]);
  }

  // ---------------------------------------------------------------
  // What the filters promise

  /** The CCZ filter removes exactly the matches found equivalent and keeps
      the others in their order. */
  lemma CczExact(matches: seq<Match>, equivalent: Candidate -> bool)
    ensures var kept := Select(matches, CczKeep(matches, equivalent));
      var pos := Positions(|matches|, CczKeep(matches, equivalent));
      && |kept| == |pos|
      && (forall k :: 0 <= k < |pos| ==> kept[k] == matches[pos[k]] && !equivalent(matches[pos[k]].apn))
      && (forall j :: 0 <= j < |matches| ==> (j in pos <==> !equivalent(matches[j].apn)))
  {
    SelectAtPositions(matches, CczKeep(matches, equivalent));
    PositionsExact(|matches|, CczKeep(matches, equivalent));
  }

  /** The 3-to-1 filter keeps every match that is not 3-to-1 and every one
      whose test raised or said no; it removes exactly the 3-to-1 matches
      found equivalent. The kept ones stay in order. */
  lemma ThreeToOneExact(matches: seq<Match>, test: Candidate -> Result<bool>)
    ensures var kept := Select(matches, ThreeToOneKeep(matches, test));
      var pos := Positions(|matches|, ThreeToOneKeep(matches, test));
      && |kept| == |pos|
      && (forall k :: 0 <= k < |pos| ==> kept[k] == matches[pos[k]])
      && (forall j :: 0 <= j < |matches| ==>
            (j in pos <==> !IsThreeToOne(matches[j].apn.properties) || test(matches[j].apn) != Ok(true)))
  {
    SelectAtPositions(matches, ThreeToOneKeep(matches, test));
    PositionsExact(|matches|, ThreeToOneKeep(matches, test));
  }
}
