/** The `compare` command (`compare_apns` in main.py): each input APN is
    compared with every stored APN of the field on the chosen invariants,
    the matches are merged into the input's match list, keyed by (field_n,
    irr_poly, term list), and the lists are saved. The text that stands for
    a missing ODDS/ODWS entry is a parameter. */
module Compare {
  import opened Outcomes
  import opened Terms
  import opened ApnObject

  /** What the comparison reads of an APN object. `properties` is `None`
      for an object without the attribute: the stored APNs
      `load_apn_objects_for_field_pandas` rebuilds through the parser. The
      input APNs and the saved matches are loaded with it (main.py:142 and
      main.py:187). */
  datatype Candidate = Candidate(fieldN: nat, irrPoly: string, terms: seq<Term>,
                                 invariants: map<string, InvValue>, properties: Option<map<string, InvValue>>)

  /** The key a match is filed under. */
  datatype MatchKey = MatchKey(fieldN: nat, irrPoly: string, terms: seq<Term>)

  function KeyOf(a: Candidate): MatchKey
  {
    MatchKey(a.fieldN, a.irrPoly, a.terms)
  }

  /** An entry of an input's match list: the stored APN and the compare
      types under which it matched. */
  datatype Match = Match(apn: Candidate, compTypes: set<string>)

  /** The text main.py uses for a missing ODDS/ODWS entry. */
  const MainMissing: string := "Non-quadratic"

  /** `in_is_quad`: the input's is_quadratic property, False when absent. */
  predicate InputIsQuadratic(a: Candidate)
  {
    a.properties.Some? && Truthy(GetOr(a.properties.value, "is_quadratic", BoolV(false)))
  }

  /** The aspects compared for a compare type. A non-quadratic input has no
      meaningful ODDS/ODWS, so those are dropped. */
  function RelevantTypes(compareType: string, isQuad: bool): seq<string>
  {
    if !isQuad && (compareType == "odds" || compareType == "odws" || compareType == "all") then
      if compareType == "all" then ["gamma", "delta"] else []
    else if compareType == "all" then ["odds", "odws", "gamma", "delta"]
    else [compareType]
  }

  /** The value an aspect compares, with the defaults of the lookups. */
  function Aspect(inv: map<string, InvValue>, comp: string, missing: string): InvValue
  {
    if comp == "odds" then GetOr(inv, "odds", TextV(missing))
    else if comp == "odws" then GetOr(inv, "odws", TextV(missing))
    else if comp == "gamma" then GetOr(inv, "gamma_rank", NoneV)
    else GetOr(inv, "delta_rank", NoneV)
  }

  /** The aspect names the comparison loop acts on; any other name compares
      nothing. */
  predicate IsAspect(comp: string)
  {
    comp == "odds" || comp == "odws" || comp == "gamma" || comp == "delta"
  }

  /** The two APNs do not differ on the aspect. */
  predicate Agrees(a: Candidate, b: Candidate, comp: string, missing: string)
  {
    IsAspect(comp) ==> Aspect(a.invariants, comp, missing) == Aspect(b.invariants, comp, missing)
  }

  /** A stored APN matches the input: it agrees on every relevant aspect. */
  predicate IsMatching(inApn: Candidate, db: Candidate, compareType: string, missing: string)
  {
    var rel := RelevantTypes(compareType, InputIsQuadratic(inApn));
    forall i :: 0 <= i < |rel| ==> Agrees(inApn, db, rel[i], missing)
  }

  /** The inner loop: the first relevant aspect that differs stops it. */
  method IsMatch(inApn: Candidate, db: Candidate, relevant: seq<string>, missing: string) returns (isMatch: bool)
    ensures isMatch <==> forall i :: 0 <= i < |relevant| ==> Agrees(inApn, db, relevant[i], missing)
  {
    isMatch := true;
    var dbOdds := GetOr(db.invariants, "odds", TextV(missing));
    var dbOdws := GetOr(db.invariants, "odws", TextV(missing));
    var dbGamma := GetOr(db.invariants, "gamma_rank", NoneV);
    var dbDelta := GetOr(db.invariants, "delta_rank", NoneV);
    var i := 0;
    while i < |relevant|
      invariant 0 <= i <= |relevant|
      invariant isMatch && forall j :: 0 <= j < i ==> Agrees(inApn, db, relevant[j], missing)
    {
      var comp := relevant[i];
      if comp == "odds" {
        if GetOr(inApn.invariants, "odds", TextV(missing)) != dbOdds {
          isMatch := false;
          break;
        }
      } else if comp == "odws" {
        if GetOr(inApn.invariants, "odws", TextV(missing)) != dbOdws {
          isMatch := false;
          break;
        }
      } else if comp == "gamma" {
        if GetOr(inApn.invariants, "gamma_rank", NoneV) != dbGamma {
          isMatch := false;
          break;
        }
      } else if comp == "delta" {
        if GetOr(inApn.invariants, "delta_rank", NoneV) != dbDelta {
          isMatch := false;
          break;
        }
      }
      i := i + 1;
    }
  }

  // ---------------------------------------------------------------
  // The match list as an insertion-ordered dictionary

  /** No two entries share a key. */
  predicate DistinctKeys(ms: seq<Match>)
  {
    forall i, j :: 0 <= i < j < |ms| ==> KeyOf(ms[i].apn) != KeyOf(ms[j].apn)
  }

  /** Some entry has the key. */
  predicate HasKey(ms: seq<Match>, k: MatchKey)
  {
    exists i :: 0 <= i < |ms| && KeyOf(ms[i].apn) == k
  }

  /** The position of the key in the dictionary, if present. */
  function FindKey(ms: seq<Match>, k: MatchKey): (r: Option<nat>)
    ensures r.Some? ==> r.value < |ms| && KeyOf(ms[r.value].apn) == k
    ensures r.None? <==> !HasKey(ms, k)
  {
    if |ms| == 0 then None
    else if KeyOf(ms[0].apn) == k then Some(0)
    else match FindKey(ms[1..], k)
      case None =>
        assert forall i :: 1 <= i < |ms| ==> ms[1..][i - 1] == ms[i];
        None
      case Some(j) => Some(j + 1)
  }

  /** `existing_matches_map[m_key] = (m_apn, comp_types)`: a present key
      keeps its position and takes the new entry; a new key goes last. */
  function Upsert(ms: seq<Match>, m: Match): seq<Match>
  {
    match FindKey(ms, KeyOf(m.apn))
    case Some(j) => ms[j := m]
    case None => ms + [m]
  }

  /** The dictionary built from a stored match list. */
  function Indexed(existing: seq<Match>): seq<Match>
    decreases |existing|
  {
    if |existing| == 0 then []
    else Upsert(Indexed(existing[..|existing| - 1]), existing[|existing| - 1])
  }

  /** A match of a stored APN: the compare type joins the set of an entry
      with the same key, or a new entry with just that type goes last. */
  function Recorded(ms: seq<Match>, db: Candidate, compareType: string): seq<Match>
  {
    match FindKey(ms, KeyOf(db))
    case Some(j) => ms[j := Match(ms[j].apn, ms[j].compTypes + {compareType})]
    case None => ms + [Match(db, {compareType})]
  }

  /** The dictionary after visiting the stored APNs in order. */
  function Merged(ms: seq<Match>, inApn: Candidate, dbApns: seq<Candidate>, compareType: string, missing: string)
    : seq<Match>
    decreases |dbApns|
  {
    if |dbApns| == 0 then ms
    else
      var before := Merged(ms, inApn, dbApns[..|dbApns| - 1], compareType, missing);
      var db := dbApns[|dbApns| - 1];
      if IsMatching(inApn, db, compareType, missing) then Recorded(before, db, compareType) else before
  }

  /** The new match list of one input APN. */
  method MatchesFor(existing: seq<Match>, inApn: Candidate, dbApns: seq<Candidate>, compareType: string, missing: string)
    returns (r: seq<Match>)
    ensures r == Merged(Indexed(existing), inApn, dbApns, compareType, missing)
  {
    var entries: seq<Match> := [];
    var i := 0;
    while i < |existing|
      invariant 0 <= i <= |existing|
      invariant entries == Indexed(existing[..i])
    {
      assert existing[..i + 1][..i] == existing[..i];
      var m := existing[i];
      var j := FindKey(entries, KeyOf(m.apn));
      if j.Some? {
        entries := entries[j.value := m];
      } else {
        entries := entries + [m];
      }
      i := i + 1;
    }
    assert existing[..i] == existing;
    ghost var indexed := entries;
    var relevant := RelevantTypes(compareType, InputIsQuadratic(inApn));
    var d := 0;
    while d < |dbApns|
      invariant 0 <= d <= |dbApns|
      invariant entries == Merged(indexed, inApn, dbApns[..d], compareType, missing)
    {
      assert dbApns[..d + 1][..d] == dbApns[..d];
      var db := dbApns[d];
      var isMatch := IsMatch(inApn, db, relevant, missing);
      if isMatch {
        var j := FindKey(entries, KeyOf(db));
        if j.Some? {
          entries := entries[j.value := Match(entries[j.value].apn, entries[j.value].compTypes + {compareType})];
        } else {
          entries := entries + [Match(db, {compareType})];
        }
      }
      d := d + 1;
    }
    assert dbApns[..d] == dbApns;
    r := entries;
  }

  /** The stored list of an input index; a new index starts empty. */
  function Existing(matchList: map<int, seq<Match>>, i: int): seq<Match>
  {
    if i in matchList then matchList[i] else []
  }

  /** The indices 0 .. n - 1. */
  function Indices(n: int): (s: set<int>)
    ensures forall i :: i in s <==> 0 <= i < n
    decreases n
  {
    if n <= 0 then {} else Indices(n - 1) + {n - 1}
  }

  /** The lists after comparing every input: each input index gets its
      merged list, every other stored index keeps its list. */
  function Stored(matchList: map<int, seq<Match>>, apnList: seq<Candidate>, dbApns: seq<Candidate>,
                  compareType: string, missing: string): map<int, seq<Match>>
  {
    map k | k in matchList.Keys + Indices(|apnList|) ::
      if 0 <= k < |apnList| then Merged(Indexed(Existing(matchList, k)), apnList[k], dbApns, compareType, missing)
      else matchList[k]
  }

  /** A map with the keys and lists of `Stored` is `Stored`. */
  lemma StoredExactly(lists: map<int, seq<Match>>, matchList: map<int, seq<Match>>, apnList: seq<Candidate>,
                      dbApns: seq<Candidate>, compareType: string, missing: string)
    requires forall k :: k in lists <==> k in matchList || 0 <= k < |apnList|
    requires forall k :: k in matchList && !(0 <= k < |apnList|) ==> lists[k] == matchList[k]
    requires forall i :: 0 <= i < |apnList| ==>
      lists[i] == Merged(Indexed(Existing(matchList, i)), apnList[i], dbApns, compareType, missing)
    ensures lists == Stored(matchList, apnList, dbApns, compareType, missing)
  {
    var st := Stored(matchList, apnList, dbApns, compareType, missing);
    assert lists.Keys == st.Keys;
  }

  /** Every entry of a list carries `properties`. */
  predicate AllHaveProperties(ms: seq<Match>)
  {
    forall j :: 0 <= j < |ms| ==> ms[j].apn.properties.Some?
  }

  /** Every entry of every list carries `properties`. */
  predicate Savable(lists: map<int, seq<Match>>)
  {
    forall k :: k in lists ==> AllHaveProperties(lists[k])
  }

  /** `save_match_list`: each entry's `properties` is read while the JSON
      data is built, before the file is opened, so one entry without it
      raises and nothing is written; otherwise the lists are written. */
  function SaveMatchList(lists: map<int, seq<Match>>): (r: Result<map<int, seq<Match>>>)
    ensures r.Ok? <==> Savable(lists)
    ensures r.Ok? ==> r.value == lists
    ensures r.Err? ==> r.error == NoProperties
  {
    if Savable(lists) then Ok(lists) else Err(NoProperties)
  }

  /** The whole command. With no input APN or no stored APN it returns
      before saving (`Ok(None)`). Otherwise an input without `properties`
      raises at its turn, and the save raises when some entry lacks it;
      both leave the match file unwritten. Otherwise the file receives the
      lists: every input index its merged list, every other stored index
      its old list. */
  method CompareApns(apnList: seq<Candidate>, matchList: map<int, seq<Match>>, dbApns: seq<Candidate>,
                     compareType: string, missing: string)
    returns (r: Result<Option<map<int, seq<Match>>>>)
    ensures |apnList| == 0 || |dbApns| == 0 ==> r == Ok(None)
    ensures r.Err? ==> r.error == NoProperties
    ensures |apnList| > 0 && |dbApns| > 0 ==>
      (r.Err? <==> (exists i :: 0 <= i < |apnList| && apnList[i].properties.None?)
                   || !Savable(Stored(matchList, apnList, dbApns, compareType, missing)))
    ensures |apnList| > 0 && |dbApns| > 0 && r.Ok? ==>
      && r.value.Some?
      && r.value.value == Stored(matchList, apnList, dbApns, compareType, missing)
      && (forall k :: k in r.value.value <==> k in matchList || 0 <= k < |apnList|)
      && (forall k :: k in matchList && !(0 <= k < |apnList|) ==> r.value.value[k] == matchList[k])
      && (forall i :: 0 <= i < |apnList| ==>
            r.value.value[i] == Merged(Indexed(Existing(matchList, i)), apnList[i], dbApns, compareType, missing))
  {
    if |apnList| == 0 || |dbApns| == 0 {
      return Ok(None);
    }
    var lists := matchList;
    var inputIdx := 0;
    while inputIdx < |apnList|
      invariant 0 <= inputIdx <= |apnList|
      invariant forall i :: 0 <= i < inputIdx ==> apnList[i].properties.Some?
      invariant forall k :: k in lists <==> k in matchList || 0 <= k < inputIdx
      invariant forall k :: k in matchList && !(0 <= k < inputIdx) ==> lists[k] == matchList[k]
      invariant forall i :: 0 <= i < inputIdx ==>
        lists[i] == Merged(Indexed(Existing(matchList, i)), apnList[i], dbApns, compareType, missing)
    {
      if apnList[inputIdx].properties.None? {
        // `in_apn.properties.get("is_quadratic", False)` raises.
        return Err(NoProperties);
      }
      var existing := if inputIdx in lists then lists[inputIdx] else [];
      assert existing == Existing(matchList, inputIdx);
      var matches := MatchesFor(existing, apnList[inputIdx], dbApns, compareType, missing);
      StoredStep(lists, matchList, apnList, dbApns, compareType, missing, inputIdx, matches);
      lists := lists[inputIdx := matches];
      inputIdx := inputIdx + 1;
    }
    StoredExactly(lists, matchList, apnList, dbApns, compareType, missing);
    var saved := SaveMatchList(lists);
    if saved.Err? {
      return Err(saved.error);
    }
    return Ok(Some(saved.value));
  }

  /** Storing the next input's list keeps the lists already stored. */
  lemma StoredStep(r: map<int, seq<Match>>, matchList: map<int, seq<Match>>, apnList: seq<Candidate>, dbApns: seq<Candidate>,
                   compareType: string, missing: string, n: nat, matches: seq<Match>)
    requires n < |apnList|
    requires forall i :: 0 <= i < n ==>
      (i in r && r[i] == Merged(Indexed(Existing(matchList, i)), apnList[i], dbApns, compareType, missing))
    requires matches == Merged(Indexed(Existing(matchList, n)), apnList[n], dbApns, compareType, missing)
    ensures forall i :: 0 <= i < n + 1 ==>
      r[n := matches][i] == Merged(Indexed(Existing(matchList, i)), apnList[i], dbApns, compareType, missing)
  {
  }

  // ---------------------------------------------------------------
  // The relevant aspects

  /** A non-quadratic input compared by ODDS or ODWS compares nothing: every
      stored APN matches. */
  lemma NonQuadraticOddsMatchesAll(inApn: Candidate, db: Candidate, compareType: string, missing: string)
    requires !InputIsQuadratic(inApn) && (compareType == "odds" || compareType == "odws")
    ensures IsMatching(inApn, db, compareType, missing)
  {
  }

  /** A non-quadratic input compared by "all" compares the two ranks only. */
  lemma NonQuadraticAllComparesRanks(inApn: Candidate, db: Candidate, missing: string)
    requires !InputIsQuadratic(inApn)
    ensures IsMatching(inApn, db, "all", missing) <==>
      && GetOr(inApn.invariants, "gamma_rank", NoneV) == GetOr(db.invariants, "gamma_rank", NoneV)
      && GetOr(inApn.invariants, "delta_rank", NoneV) == GetOr(db.invariants, "delta_rank", NoneV)
  {
    var rel := RelevantTypes("all", false);
    assert rel == ["gamma", "delta"];
    if GetOr(inApn.invariants, "gamma_rank", NoneV) != GetOr(db.invariants, "gamma_rank", NoneV) {
      assert !Agrees(inApn, db, rel[0], missing);
    } else if GetOr(inApn.invariants, "delta_rank", NoneV) != GetOr(db.invariants, "delta_rank", NoneV) {
      assert !Agrees(inApn, db, rel[1], missing);
    }
  }

  /** Otherwise "all" compares all four invariants, and a single aspect
      compares that one. */
  lemma QuadraticAllComparesFour(inApn: Candidate, db: Candidate, missing: string)
    requires InputIsQuadratic(inApn)
    ensures IsMatching(inApn, db, "all", missing) <==>
      && GetOr(inApn.invariants, "odds", TextV(missing)) == GetOr(db.invariants, "odds", TextV(missing))
      && GetOr(inApn.invariants, "odws", TextV(missing)) == GetOr(db.invariants, "odws", TextV(missing))
      && GetOr(inApn.invariants, "gamma_rank", NoneV) == GetOr(db.invariants, "gamma_rank", NoneV)
      && GetOr(inApn.invariants, "delta_rank", NoneV) == GetOr(db.invariants, "delta_rank", NoneV)
  {
    var rel := RelevantTypes("all", true);
    assert rel == ["odds", "odws", "gamma", "delta"];
    if !IsMatching(inApn, db, "all", missing) {
      var i :| 0 <= i < |rel| && !Agrees(inApn, db, rel[i], missing);
    } else {
      assert Agrees(inApn, db, rel[0], missing) && Agrees(inApn, db, rel[1], missing);
      assert Agrees(inApn, db, rel[2], missing) && Agrees(inApn, db, rel[3], missing);
    }
  }

  /** A single rank is compared whatever the input's quadraticity. */
  lemma RankComparedAlone(inApn: Candidate, db: Candidate, compareType: string, missing: string)
    requires compareType == "gamma" || compareType == "delta"
    ensures IsMatching(inApn, db, compareType, missing) <==>
      Aspect(inApn.invariants, compareType, missing) == Aspect(db.invariants, compareType, missing)
  {
    var rel := RelevantTypes(compareType, InputIsQuadratic(inApn));
    assert rel == [compareType];
    if Aspect(inApn.invariants, compareType, missing) != Aspect(db.invariants, compareType, missing) {
      assert !Agrees(inApn, db, rel[0], missing);
    }
  }

  // ---------------------------------------------------------------
  // The merge

  /** The dictionary built from a list has distinct keys. */
  lemma {:induction false} IndexedDistinct(existing: seq<Match>)
    ensures DistinctKeys(Indexed(existing))
    decreases |existing|
  {
    if |existing| > 0 {
      IndexedDistinct(existing[..|existing| - 1]);
    }
  }

  /** A list with distinct keys is its own dictionary: a stored list the
      command wrote is read back unchanged. */
  lemma {:induction false} IndexedOfDistinct(existing: seq<Match>)
    requires DistinctKeys(existing)
    ensures Indexed(existing) == existing
    decreases |existing|
  {
    if |existing| > 0 {
      var front := existing[..|existing| - 1];
      assert DistinctKeys(front);
      IndexedOfDistinct(front);
      assert !HasKey(front, KeyOf(existing[|existing| - 1].apn));
      assert front + [existing[|existing| - 1]] == existing;
    }
  }

  /** A stored APN with this key matched. */
  predicate MatchedKey(k: MatchKey, inApn: Candidate, dbApns: seq<Candidate>, compareType: string, missing: string)
  {
    exists d :: 0 <= d < |dbApns| && KeyOf(dbApns[d]) == k && IsMatching(inApn, dbApns[d], compareType, missing)
  }

  /** Merging keeps the keys distinct. */
  lemma {:induction false} MergedDistinct(ms: seq<Match>, inApn: Candidate, dbApns: seq<Candidate>, compareType: string, missing: string)
    requires DistinctKeys(ms)
    ensures DistinctKeys(Merged(ms, inApn, dbApns, compareType, missing))
    decreases |dbApns|
  {
    if |dbApns| > 0 {
      MergedDistinct(ms, inApn, dbApns[..|dbApns| - 1], compareType, missing);
    }
  }

  /** No existing match is removed or moved: each keeps its APN, and its
      compare types gain the new type exactly when a stored APN with its
      key matched. */
  lemma {:induction false} MergedKeepsOld(ms: seq<Match>, inApn: Candidate, dbApns: seq<Candidate>, compareType: string, missing: string)
    requires DistinctKeys(ms)
    ensures var r := Merged(ms, inApn, dbApns, compareType, missing);
      && |ms| <= |r|
      && forall i :: 0 <= i < |ms| ==>
           && r[i].apn == ms[i].apn
           && r[i].compTypes == ms[i].compTypes +
                (if MatchedKey(KeyOf(ms[i].apn), inApn, dbApns, compareType, missing) then {compareType} else {})
    decreases |dbApns|
  {
    if |dbApns| > 0 {
      var front := dbApns[..|dbApns| - 1];
      var db := dbApns[|dbApns| - 1];
      MergedKeepsOld(ms, inApn, front, compareType, missing);
      MergedDistinct(ms, inApn, front, compareType, missing);
      var before := Merged(ms, inApn, front, compareType, missing);
      forall i | 0 <= i < |ms|
        ensures MatchedKey(KeyOf(ms[i].apn), inApn, dbApns, compareType, missing) <==>
          MatchedKey(KeyOf(ms[i].apn), inApn, front, compareType, missing)
          || (KeyOf(db) == KeyOf(ms[i].apn) && IsMatching(inApn, db, compareType, missing))
      {
        var k := KeyOf(ms[i].apn);
        if MatchedKey(k, inApn, dbApns, compareType, missing) {
          var d :| 0 <= d < |dbApns| && KeyOf(dbApns[d]) == k && IsMatching(inApn, dbApns[d], compareType, missing);
          if d < |front| {
            assert front[d] == dbApns[d];
          }
        }
        if MatchedKey(k, inApn, front, compareType, missing) {
          var d :| 0 <= d < |front| && KeyOf(front[d]) == k && IsMatching(inApn, front[d], compareType, missing);
          assert dbApns[d] == front[d];
        }
        if KeyOf(db) == k && IsMatching(inApn, db, compareType, missing) {
          assert dbApns[|dbApns| - 1] == db;
        }
      }
    }
  }

  /** Every entry after the old ones is a stored APN that matched, under a
      key the old list did not have, with just the new compare type. */
  lemma {:induction false} MergedNewEntries(ms: seq<Match>, inApn: Candidate, dbApns: seq<Candidate>, compareType: string, missing: string)
    ensures var r := Merged(ms, inApn, dbApns, compareType, missing);
      && |ms| <= |r|
      && forall j :: |ms| <= j < |r| ==>
           && r[j].compTypes == {compareType}
           && !HasKey(ms, KeyOf(r[j].apn))
           && exists d :: 0 <= d < |dbApns| && r[j].apn == dbApns[d] && IsMatching(inApn, dbApns[d], compareType, missing)
    decreases |dbApns|
  {
    if |dbApns| > 0 {
      var front := dbApns[..|dbApns| - 1];
      var db := dbApns[|dbApns| - 1];
      MergedNewEntries(ms, inApn, front, compareType, missing);
      var before := Merged(ms, inApn, front, compareType, missing);
      var r := Merged(ms, inApn, dbApns, compareType, missing);
      forall j | |ms| <= j < |r|
        ensures exists d :: 0 <= d < |dbApns| && r[j].apn == dbApns[d] && IsMatching(inApn, dbApns[d], compareType, missing)
      {
        if j < |before| {
          var d :| 0 <= d < |front| && before[j].apn == front[d] && IsMatching(inApn, front[d], compareType, missing);
          assert dbApns[d] == front[d];
        } else {
          assert r[j].apn == dbApns[|dbApns| - 1];
        }
      }
      if IsMatching(inApn, db, compareType, missing) && !HasKey(before, KeyOf(db)) {
        if HasKey(ms, KeyOf(db)) {
          var i :| 0 <= i < |ms| && KeyOf(ms[i].apn) == KeyOf(db);
          MergedKeepsOldKeys(ms, inApn, front, compareType, missing, i);
        }
      }
    }
  }

  /** The old entries keep their keys (the part of the merge that needs no
      distinctness). */
  lemma {:induction false} MergedKeepsOldKeys(ms: seq<Match>, inApn: Candidate, dbApns: seq<Candidate>, compareType: string,
                                              missing: string, i: nat)
    requires i < |ms|
    ensures var r := Merged(ms, inApn, dbApns, compareType, missing);
      i < |r| && KeyOf(r[i].apn) == KeyOf(ms[i].apn)
    decreases |dbApns|
  {
    if |dbApns| > 0 {
      MergedKeepsOldKeys(ms, inApn, dbApns[..|dbApns| - 1], compareType, missing, i);
    }
  }

  /** Every stored APN that matched is in the result under its key, with
      the compare type recorded. */
  lemma {:induction false} MergedRecordsEveryMatch(ms: seq<Match>, inApn: Candidate, dbApns: seq<Candidate>, compareType: string,
                                                   missing: string, d: nat)
    requires d < |dbApns| && IsMatching(inApn, dbApns[d], compareType, missing)
    ensures var r := Merged(ms, inApn, dbApns, compareType, missing);
      exists i :: 0 <= i < |r| && KeyOf(r[i].apn) == KeyOf(dbApns[d]) && compareType in r[i].compTypes
    decreases |dbApns|
  {
    var front := dbApns[..|dbApns| - 1];
    var before := Merged(ms, inApn, front, compareType, missing);
    var r := Merged(ms, inApn, dbApns, compareType, missing);
    if d < |front| {
      assert front[d] == dbApns[d];
      MergedRecordsEveryMatch(ms, inApn, front, compareType, missing, d);
      var i :| 0 <= i < |before| && KeyOf(before[i].apn) == KeyOf(dbApns[d]) && compareType in before[i].compTypes;
      MergedStepKeeps(ms, inApn, dbApns, compareType, missing, i);
      assert KeyOf(r[i].apn) == KeyOf(dbApns[d]) && compareType in r[i].compTypes;
    } else {
      assert d == |dbApns| - 1;
      assert r == Recorded(before, dbApns[d], compareType);
      match FindKey(before, KeyOf(dbApns[d]))
      case Some(j) => assert KeyOf(r[j].apn) == KeyOf(dbApns[d]) && compareType in r[j].compTypes;
      case None =>
        assert r == before + [Match(dbApns[d], {compareType})];
        assert KeyOf(r[|before|].apn) == KeyOf(dbApns[d]) && compareType in r[|before|].compTypes;
    }
  }

  /** One more stored APN keeps every entry's key and compare types. */
  lemma MergedStepKeeps(ms: seq<Match>, inApn: Candidate, dbApns: seq<Candidate>, compareType: string, missing: string, i: nat)
    requires |dbApns| > 0 && i < |Merged(ms, inApn, dbApns[..|dbApns| - 1], compareType, missing)|
    ensures var before := Merged(ms, inApn, dbApns[..|dbApns| - 1], compareType, missing);
      var r := Merged(ms, inApn, dbApns, compareType, missing);
      i < |r| && KeyOf(r[i].apn) == KeyOf(before[i].apn) && before[i].compTypes <= r[i].compTypes
  {
    var before := Merged(ms, inApn, dbApns[..|dbApns| - 1], compareType, missing);
    if IsMatching(inApn, dbApns[|dbApns| - 1], compareType, missing) {
      RecordedKeeps(before, dbApns[|dbApns| - 1], compareType, i);
    }
  }

  /** Recording a match keeps every entry's key and compare types. */
  lemma RecordedKeeps(ms: seq<Match>, db: Candidate, compareType: string, i: nat)
    requires i < |ms|
    ensures var r := Recorded(ms, db, compareType);
      i < |r| && KeyOf(r[i].apn) == KeyOf(ms[i].apn) && ms[i].compTypes <= r[i].compTypes
  {
  }

  // ---------------------------------------------------------------
  // Saving the lists

  /** Building the dictionary keeps exactly the keys of the stored list. */
  lemma {:induction false} IndexedKeys(existing: seq<Match>, k: MatchKey)
    ensures HasKey(Indexed(existing), k) <==> HasKey(existing, k)
    decreases |existing|
  {
    if |existing| > 0 {
      var front := existing[..|existing| - 1];
      var last := existing[|existing| - 1];
      IndexedKeys(front, k);
      UpsertKeys(Indexed(front), last, k);
      assert existing == front + [last];
      AppendKeys(front, last, k);
    }
  }

  /** An entry added at the end adds its key. */
  lemma AppendKeys(ms: seq<Match>, m: Match, k: MatchKey)
    ensures HasKey(ms + [m], k) <==> HasKey(ms, k) || KeyOf(m.apn) == k
  {
    if HasKey(ms, k) {
      var i :| 0 <= i < |ms| && KeyOf(ms[i].apn) == k;
      assert (ms + [m])[i] == ms[i];
    }
    if KeyOf(m.apn) == k {
      assert (ms + [m])[|ms|] == m;
    }
    if HasKey(ms + [m], k) {
      var i :| 0 <= i < |ms| + 1 && KeyOf((ms + [m])[i].apn) == k;
      if i < |ms| {
        assert (ms + [m])[i] == ms[i];
      }
    }
  }

  /** Upserting an entry adds its key and keeps the others. */
  lemma UpsertKeys(ms: seq<Match>, m: Match, k: MatchKey)
    ensures HasKey(Upsert(ms, m), k) <==> HasKey(ms, k) || KeyOf(m.apn) == k
  {
    match FindKey(ms, KeyOf(m.apn))
    case Some(j) =>
      var r := ms[j := m];
      if HasKey(ms, k) {
        var i :| 0 <= i < |ms| && KeyOf(ms[i].apn) == k;
        assert KeyOf(r[i].apn) == k;
      }
      if KeyOf(m.apn) == k {
        assert KeyOf(r[j].apn) == k;
      }
      if HasKey(r, k) {
        var i :| 0 <= i < |r| && KeyOf(r[i].apn) == k;
        assert KeyOf(ms[i].apn) == k;
      }
    case None =>
      AppendKeys(ms, m, k);
  }

  /** Every entry of the dictionary is an entry of the stored list. */
  lemma {:induction false} IndexedFrom(existing: seq<Match>)
    ensures forall j :: 0 <= j < |Indexed(existing)| ==> Indexed(existing)[j] in existing
    decreases |existing|
  {
    if |existing| > 0 {
      var front := existing[..|existing| - 1];
      IndexedFrom(front);
      assert forall m :: m in front ==> m in existing;
    }
  }

  /** When the old entries carry `properties` and the stored APNs do not,
      the merged list can be saved exactly when every stored APN that
      matches was already in the list under its key, that is, when the
      comparison found nothing new. */
  lemma MergedSavable(ms: seq<Match>, inApn: Candidate, dbApns: seq<Candidate>, compareType: string, missing: string)
    requires DistinctKeys(ms) && AllHaveProperties(ms)
    requires forall d :: 0 <= d < |dbApns| ==> dbApns[d].properties.None?
    ensures AllHaveProperties(Merged(ms, inApn, dbApns, compareType, missing)) <==>
      forall d :: 0 <= d < |dbApns| && IsMatching(inApn, dbApns[d], compareType, missing) ==> HasKey(ms, KeyOf(dbApns[d]))
  {
    var r := Merged(ms, inApn, dbApns, compareType, missing);
    MergedKeepsOld(ms, inApn, dbApns, compareType, missing);
    MergedNewEntries(ms, inApn, dbApns, compareType, missing);
    if AllHaveProperties(r) {
      forall d | 0 <= d < |dbApns| && IsMatching(inApn, dbApns[d], compareType, missing)
        ensures HasKey(ms, KeyOf(dbApns[d]))
      {
        MergedRecordsEveryMatch(ms, inApn, dbApns, compareType, missing, d);
        var i :| 0 <= i < |r| && KeyOf(r[i].apn) == KeyOf(dbApns[d]) && compareType in r[i].compTypes;
        if i < |ms| {
          assert KeyOf(ms[i].apn) == KeyOf(dbApns[d]);
        } else {
          // A new entry is a stored APN, which has no `properties`.
          assert false;
        }
      }
    } else {
      var j :| 0 <= j < |r| && r[j].apn.properties.None?;
      assert j >= |ms|;
      var d :| 0 <= d < |dbApns| && r[j].apn == dbApns[d] && IsMatching(inApn, dbApns[d], compareType, missing);
      assert !HasKey(ms, KeyOf(dbApns[d]));
    }
  }

  /** When every old entry and every stored APN carries `properties`, so
      does every entry of the merged list. */
  lemma MergedKeepsProperties(ms: seq<Match>, inApn: Candidate, dbApns: seq<Candidate>, compareType: string, missing: string)
    requires DistinctKeys(ms) && AllHaveProperties(ms)
    requires forall d :: 0 <= d < |dbApns| ==> dbApns[d].properties.Some?
    ensures AllHaveProperties(Merged(ms, inApn, dbApns, compareType, missing))
  {
    var r := Merged(ms, inApn, dbApns, compareType, missing);
    MergedKeepsOld(ms, inApn, dbApns, compareType, missing);
    MergedNewEntries(ms, inApn, dbApns, compareType, missing);
    forall j | 0 <= j < |r|
      ensures r[j].apn.properties.Some?
    {
      if j >= |ms| {
        var d :| 0 <= d < |dbApns| && r[j].apn == dbApns[d] && IsMatching(inApn, dbApns[d], compareType, missing);
      }
    }
  }

  /** The list of one input index before merging carries `properties` when
      the stored match lists do. */
  lemma IndexedHasProperties(matchList: map<int, seq<Match>>, i: int)
    requires Savable(matchList)
    ensures DistinctKeys(Indexed(Existing(matchList, i))) && AllHaveProperties(Indexed(Existing(matchList, i)))
  {
    IndexedDistinct(Existing(matchList, i));
    IndexedFrom(Existing(matchList, i));
    var ix := Indexed(Existing(matchList, i));
    forall j | 0 <= j < |ix|
      ensures ix[j].apn.properties.Some?
    {
      var e :| 0 <= e < |Existing(matchList, i)| && Existing(matchList, i)[e] == ix[j];
    }
  }

  /** As written: the inputs and the stored match lists carry `properties`
      (their loaders set it) and the APNs of the database do not (its
      loader only parses them). Then the save succeeds exactly when no
      input matched a stored APN whose key was not yet in that input's
      list; any new match makes `save_match_list` raise, so the first
      comparison that finds anything is never written. */
  lemma NewMatchNotSaved(matchList: map<int, seq<Match>>, apnList: seq<Candidate>, dbApns: seq<Candidate>,
                         compareType: string, missing: string)
    requires Savable(matchList)
    requires forall d :: 0 <= d < |dbApns| ==> dbApns[d].properties.None?
    ensures SaveMatchList(Stored(matchList, apnList, dbApns, compareType, missing)).Ok? <==>
      forall i, d :: 0 <= i < |apnList| && 0 <= d < |dbApns| && IsMatching(apnList[i], dbApns[d], compareType, missing)
        ==> HasKey(Existing(matchList, i), KeyOf(dbApns[d]))
  {
    var st := Stored(matchList, apnList, dbApns, compareType, missing);
    forall i | 0 <= i < |apnList|
      ensures AllHaveProperties(st[i]) <==>
        forall d :: 0 <= d < |dbApns| && IsMatching(apnList[i], dbApns[d], compareType, missing)
          ==> HasKey(Existing(matchList, i), KeyOf(dbApns[d]))
    {
      IndexedHasProperties(matchList, i);
      MergedSavable(Indexed(Existing(matchList, i)), apnList[i], dbApns, compareType, missing);
      forall d | 0 <= d < |dbApns|
        ensures HasKey(Indexed(Existing(matchList, i)), KeyOf(dbApns[d])) <==> HasKey(Existing(matchList, i), KeyOf(dbApns[d]))
      {
        IndexedKeys(Existing(matchList, i), KeyOf(dbApns[d]));
      }
    }
    if !Savable(st) {
      var k :| k in st && !AllHaveProperties(st[k]);
      assert 0 <= k < |apnList|;
    }
  }

  /** Corrected: when the APNs of the database are loaded with a
      `properties` attribute, as the inputs and the stored match lists are,
      the save always succeeds and writes every merged list. */
  lemma MatchesSavedWithProperties(matchList: map<int, seq<Match>>, apnList: seq<Candidate>, dbApns: seq<Candidate>,
                                   compareType: string, missing: string)
    requires Savable(matchList)
    requires forall d :: 0 <= d < |dbApns| ==> dbApns[d].properties.Some?
    ensures SaveMatchList(Stored(matchList, apnList, dbApns, compareType, missing))
            == Ok(Stored(matchList, apnList, dbApns, compareType, missing))
  {
    var st := Stored(matchList, apnList, dbApns, compareType, missing);
    forall k | k in st
      ensures AllHaveProperties(st[k])
    {
      if 0 <= k < |apnList| {
        IndexedHasProperties(matchList, k);
        MergedKeepsProperties(Indexed(Existing(matchList, k)), apnList[k], dbApns, compareType, missing);
      }
    }
  }
}
