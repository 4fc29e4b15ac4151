/** `cli_commands/equivalence_runner.py`: after the equivalence tests of
    (input, match) pairs have run, an input with an equivalent match is
    dropped from the list (and the first such match is recorded); for the
    others, the matches found inequivalent are dropped and undecided ones
    kept. The tests and their completion order are outside the model: the
    outcomes arrive as a list in completion order. */
module Equivalence {
  import opened Outcomes

  // ---------------------------------------------------------------
  // Keeping the elements at chosen positions, in order

  /** The elements of s at the positions keep accepts, in order. */
  function Select<T>(s: seq<T>, keep: int -> bool): (r: seq<T>)
    ensures |r| <= |s|
    decreases |s|
  {
    if |s| == 0 then []
    else Select(s[..|s| - 1], keep) + (if keep(|s| - 1) then [s[|s| - 1]] else [])
  }

  /** The positions below n that keep accepts, in increasing order. */
  function Positions(n: nat, keep: int -> bool): (r: seq<nat>)
    ensures forall k :: 0 <= k < |r| ==> r[k] < n && keep(r[k])
    ensures forall k, l :: 0 <= k < l < |r| ==> r[k] < r[l]
    decreases n
  {
    if n == 0 then [] else Positions(n - 1, keep) + (if keep(n - 1) then [n - 1] else [])
  }

  /** Every accepted position below n is listed. */
  lemma {:induction false} PositionsExact(n: nat, keep: int -> bool)
    ensures forall j :: 0 <= j < n && keep(j) ==> j in Positions(n, keep)
  {
    if n > 0 {
      PositionsExact(n - 1, keep);
    }
  }

  /** Select keeps the elements at those positions, in their old order:
      nothing else is removed and nothing is reordered. */
  lemma {:induction false} SelectAtPositions<T>(s: seq<T>, keep: int -> bool)
    ensures |Select(s, keep)| == |Positions(|s|, keep)|
    ensures forall k :: 0 <= k < |Select(s, keep)| ==> Select(s, keep)[k] == s[Positions(|s|, keep)[k]]
    decreases |s|
  {
    if |s| > 0 {
      var front := s[..|s| - 1];
      SelectAtPositions(front, keep);
      PositionsExact(|front|, keep);
      forall k | 0 <= k < |Select(front, keep)|
        ensures Select(front, keep)[k] == s[Positions(|front|, keep)[k]]
      {
        assert front[Positions(|front|, keep)[k]] == s[Positions(|front|, keep)[k]];
      }
    }
  }

  // ---------------------------------------------------------------
  // The worker and the outcomes

  /** `_equivalence_worker` together with reading its future: an unknown
      test name, an exception in the test, or a failed future give None;
      otherwise the test's answer. */
  function WorkerVerdict<T>(test: Option<T>, run: T -> Result<bool>, futureFailed: bool): (r: Option<bool>)
    ensures r.Some? <==> !futureFailed && test.Some? && run(test.value).Ok?
    ensures r.Some? ==> run(test.value) == Ok(r.value)
  {
    if futureFailed || test.None? then None
    else match run(test.value)
      case Ok(b) => Some(b)
      case Err(_) => None
  }

  /** `set(xs)`. */
  function AsSet(xs: seq<int>): (r: set<int>)
    ensures forall x :: x in r <==> x in xs
  {
    set x | x in xs
  }

  /** One collected outcome: (input index, match index, verdict). */
  datatype Outcome = Outcome(vbfIdx: int, matchIdx: int, verdict: Option<bool>)

  /** An input in the list: its "matches" entry (which may be missing) and
      its "no_more_matches" entry. */
  datatype Entry<M> = Entry(matches: Option<seq<M>>, noMoreMatches: Option<bool>)

  /** The inputs with an equivalent match. */
  function Removed(results: seq<Outcome>): set<int>
  {
    set j | 0 <= j < |results| && results[j].verdict == Some(true) :: results[j].vbfIdx
  }

  /** The matches of input v found inequivalent. */
  function Inequivalent(results: seq<Outcome>, v: int): set<int>
  {
    set j | 0 <= j < |results| && results[j].vbfIdx == v && results[j].verdict == Some(false) :: results[j].matchIdx
  }

  /** A surviving input: its matches without the dropped ones, and
      no_more_matches set when none is left. */
  function Refreshed<M>(e: Entry<M>, drop: set<int>): Entry<M>
  {
    var current := if e.matches.Some? then e.matches.value else [];
    var kept := Select(current, j => j !in drop);
    Entry(Some(kept), if kept == [] then Some(true) else e.noMoreMatches)
  }

  /** The filtered list: the inputs without an equivalent match, in order,
      each refreshed. */
  function Survivors<M>(input: seq<Entry<M>>, results: seq<Outcome>): seq<Entry<M>>
    decreases |input|
  {
    if |input| == 0 then []
    else
      var idx := |input| - 1;
      Survivors(input[..idx], results)
        + (if idx in Removed(results) then [] else [Refreshed(input[idx], Inequivalent(results, idx))])
  }

  // ---------------------------------------------------------------
  // The grouping by input, as the code does it

  /** `equivalence_map[v]`: input v's (match index, verdict) pairs in
      completion order. */
  function PairsOf(results: seq<Outcome>, v: int): seq<(int, Option<bool>)>
    decreases |results|
  {
    if |results| == 0 then []
    else
      var last := results[|results| - 1];
      PairsOf(results[..|results| - 1], v) + (if last.vbfIdx == v then [(last.matchIdx, last.verdict)] else [])
  }

  /** The keys of `equivalence_map` in insertion order. */
  function KeyOrder(results: seq<Outcome>): seq<int>
    decreases |results|
  {
    if |results| == 0 then []
    else
      var front := KeyOrder(results[..|results| - 1]);
      var v := results[|results| - 1].vbfIdx;
      front + (if v in front then [] else [v])
  }

  /** The match indices with the given verdict, in order. */
  function IndicesWith(pairs: seq<(int, Option<bool>)>, verdict: Option<bool>): seq<int>
    decreases |pairs|
  {
    if |pairs| == 0 then []
    else
      var last := pairs[|pairs| - 1];
      IndicesWith(pairs[..|pairs| - 1], verdict) + (if last.1 == verdict then [last.0] else [])
  }

  /** The records stored, one per input with an equivalent match, in key
      order: the input index and its first equivalent match. */
  function RecordsOf(keys: seq<int>, results: seq<Outcome>): seq<(int, int)>
    decreases |keys|
  {
    if |keys| == 0 then []
    else
      var v := keys[|keys| - 1];
      var trues := IndicesWith(PairsOf(results, v), Some(true));
      RecordsOf(keys[..|keys| - 1], results) + (if |trues| > 0 then [(v, trues[0])] else [])
  }

  /** Python indexing of a list of length n: negative indices count from
      the end; anything else raises IndexError. */
  function PyIndex(i: int, n: nat): (r: Option<nat>)
    ensures r.Some? <==> 0 <= i + n && i < n
    ensures r.Some? ==> r.value < n && (r.value == i || r.value == i + n)
  {
    if 0 <= i < n then Some(i) else if 0 <= i + n && i < 0 then Some(i + n) else None
  }

  /** `input_vbf_list[v]["matches"][m]` can be evaluated. */
  predicate RecordOk<M>(input: seq<Entry<M>>, rec: (int, int))
  {
    match PyIndex(rec.0, |input|)
    case None => false
    case Some(i) => input[i].matches.Some? && PyIndex(rec.1, |input[i].matches.value|).Some?
  }

  /** `run_equivalence_on_matches`: with no task the list comes back as it
      is. Otherwise the outcomes are grouped by input, and one record is
      stored per input with an equivalent match; a record whose indices do
      not resolve raises, after the records before it were stored. Without
      an error the result is the surviving inputs, refreshed. */
  method RunEquivalenceOnMatches<M>(input: seq<Entry<M>>, taskCount: nat, results: seq<Outcome>)
    returns (r: Result<seq<Entry<M>>>, stored: seq<(int, int)>)
    ensures taskCount == 0 ==> r == Ok(input) && stored == []
    ensures taskCount > 0 ==>
      var recs := RecordsOf(KeyOrder(results), results);
      && (r.Ok? <==> forall i :: 0 <= i < |recs| ==> RecordOk(input, recs[i]))
      && (r.Ok? ==> r.value == Survivors(input, results) && stored == recs)
      && (r.Err? ==> exists i :: 0 <= i < |recs| && stored == recs[..i] && !RecordOk(input, recs[i])
                                 && forall j :: 0 <= j < i ==> RecordOk(input, recs[j]))
  {
    if taskCount == 0 {
      return Ok(input), [];
    }
    var groups, keys := GroupOutcomes(results);
    var classified;
    classified, stored := ClassifyInputs(input, results, groups, keys);
    if classified.Err? {
      return Err(classified.error), stored;
    }
    var (removed, inequivalentMap) := classified.value;
    forall idx | 0 <= idx < |input|
      ensures idx in removed <==> idx in Removed(results)
      ensures idx !in removed ==>
        AsSet(if idx in inequivalentMap then inequivalentMap[idx] else []) == Inequivalent(results, idx)
    {
      TrueIffRemoved(results, idx);
      FalseIffInequivalent(results, idx);
      KeysCoverResults(results, idx);
      if idx !in removed && idx !in inequivalentMap {
        assert idx !in keys;
        PairsOfAbsent(results, idx);
      }
    }
    var filtered := FilterInputs(input, results, removed, inequivalentMap);
    return Ok(filtered), stored;
  }

  /** The first loop: `equivalence_map`, a list of (match index, verdict)
      per input index, in completion order. */
  method GroupOutcomes(results: seq<Outcome>) returns (groups: map<int, seq<(int, Option<bool>)>>, keys: seq<int>)
    ensures keys == KeyOrder(results)
    ensures forall v :: v in groups <==> v in keys
    ensures forall v :: v in groups ==> groups[v] == PairsOf(results, v)
  {
    groups := map[];
    keys := [];
    for k := 0 to |results|
      invariant keys == KeyOrder(results[..k])
      invariant forall v :: v in groups <==> v in keys
      invariant forall v :: v in groups ==> groups[v] == PairsOf(results[..k], v)
    {
      var o := results[k];
      var pairs := if o.vbfIdx in groups then groups[o.vbfIdx] else [];
      GroupStep(results, k, groups, keys);
      groups := groups[o.vbfIdx := pairs + [(o.matchIdx, o.verdict)]];
      keys := if o.vbfIdx in keys then keys else keys + [o.vbfIdx];
    }
    assert results[..|results|] == results;
  }

  /** The second loop: an input with an equivalent match is recorded and
      marked for removal; for the others the inequivalent matches are
      listed. A record whose indices do not resolve raises. */
  method ClassifyInputs<M>(input: seq<Entry<M>>, results: seq<Outcome>,
                           groups: map<int, seq<(int, Option<bool>)>>, keys: seq<int>)
    returns (r: Result<(set<int>, map<int, seq<int>>)>, stored: seq<(int, int)>)
    requires forall v :: v in groups <==> v in keys
    requires forall v :: v in groups ==> groups[v] == PairsOf(results, v)
    ensures var recs := RecordsOf(keys, results);
      && (r.Ok? <==> forall i :: 0 <= i < |recs| ==> RecordOk(input, recs[i]))
      && (r.Ok? ==> stored == recs)
      && (r.Err? ==> exists i :: 0 <= i < |recs| && stored == recs[..i] && !RecordOk(input, recs[i])
                                 && forall j :: 0 <= j < i ==> RecordOk(input, recs[j]))
    ensures r.Ok? ==>
      && (forall v :: v in r.value.0 <==> v in keys && |IndicesWith(PairsOf(results, v), Some(true))| > 0)
      && (forall v :: v in r.value.1 <==> v in keys && |IndicesWith(PairsOf(results, v), Some(true))| == 0)
      && (forall v :: v in r.value.1 ==> r.value.1[v] == IndicesWith(PairsOf(results, v), Some(false)))
  {
    var removed: set<int> := {};
    var inequivalentMap: map<int, seq<int>> := map[];
    stored := [];
    for i := 0 to |keys|
      invariant stored == RecordsOf(keys[..i], results)
      invariant forall j :: 0 <= j < |stored| ==> RecordOk(input, stored[j])
      invariant removed == RemovedOf(keys[..i], results)
      invariant inequivalentMap == InequivalentOf(keys[..i], results)
    {
      ClassifyStep(keys, results, i);
      var v := keys[i];
      var pairList := groups[v];
      var anyEquivalent := IndicesWith(pairList, Some(true));
      if |anyEquivalent| > 0 {
        var rec := (v, anyEquivalent[0]);
        if !RecordOk(input, rec) {
          RecordsStopAt(input, keys, results, i, rec);
          return Err("IndexError"), stored;
        }
        stored := stored + [rec];
        removed := removed + {v};
      } else {
        inequivalentMap := inequivalentMap[v := IndicesWith(pairList, Some(false))];
      }
    }
    assert keys[..|keys|] == keys;
    RecordsPrefix(keys, results, |keys|);
    ClassifiedExact(keys, results);
    return Ok((removed, inequivalentMap)), stored;
  }

  /** The inputs among the keys that have an equivalent match. */
  function RemovedOf(keys: seq<int>, results: seq<Outcome>): set<int>
    decreases |keys|
  {
    if |keys| == 0 then {}
    else
      var v := keys[|keys| - 1];
      RemovedOf(keys[..|keys| - 1], results) + (if |IndicesWith(PairsOf(results, v), Some(true))| > 0 then {v} else {})
  }

  /** The inputs among the keys without an equivalent match, each with the
      positions of its inequivalent matches. */
  function InequivalentOf(keys: seq<int>, results: seq<Outcome>): map<int, seq<int>>
    decreases |keys|
  {
    if |keys| == 0 then map[]
    else
      var v := keys[|keys| - 1];
      var m := InequivalentOf(keys[..|keys| - 1], results);
      if |IndicesWith(PairsOf(results, v), Some(true))| > 0 then m else m[v := IndicesWith(PairsOf(results, v), Some(false))]
  }

  /** What the second loop has built after the keys before i + 1. */
  lemma ClassifyStep(keys: seq<int>, results: seq<Outcome>, i: nat)
    requires i < |keys|
    ensures var v := keys[i];
      var trues := IndicesWith(PairsOf(results, v), Some(true));
      && RecordsOf(keys[..i + 1], results)
         == RecordsOf(keys[..i], results) + (if |trues| > 0 then [(v, trues[0])] else [])
      && RemovedOf(keys[..i + 1], results) == RemovedOf(keys[..i], results) + (if |trues| > 0 then {v} else {})
      && InequivalentOf(keys[..i + 1], results)
         == if |trues| > 0 then InequivalentOf(keys[..i], results)
            else InequivalentOf(keys[..i], results)[v := IndicesWith(PairsOf(results, v), Some(false))]
  {
    assert keys[..i + 1][..i] == keys[..i];
  }

  /** The classification sorts every key to exactly one side. */
  lemma {:induction false} ClassifiedExact(keys: seq<int>, results: seq<Outcome>)
    ensures forall v :: v in RemovedOf(keys, results) <==> v in keys && |IndicesWith(PairsOf(results, v), Some(true))| > 0
    ensures forall v :: v in InequivalentOf(keys, results) <==> v in keys && |IndicesWith(PairsOf(results, v), Some(true))| == 0
    ensures forall v :: v in InequivalentOf(keys, results) ==>
      InequivalentOf(keys, results)[v] == IndicesWith(PairsOf(results, v), Some(false))
    decreases |keys|
  {
    if |keys| > 0 {
      var front := keys[..|keys| - 1];
      ClassifiedExact(front, results);
      assert keys == front + [keys[|keys| - 1]];
    }
  }

  /** The third loop: the inputs not marked for removal, in order, each
      with its inequivalent matches dropped. */
  method FilterInputs<M>(input: seq<Entry<M>>, results: seq<Outcome>, removed: set<int>, inequivalentMap: map<int, seq<int>>)
    returns (filtered: seq<Entry<M>>)
    requires forall idx :: 0 <= idx < |input| ==> (idx in removed <==> idx in Removed(results))
    requires forall idx :: 0 <= idx < |input| && idx !in removed ==>
      AsSet(if idx in inequivalentMap then inequivalentMap[idx] else []) == Inequivalent(results, idx)
    ensures filtered == Survivors(input, results)
  {
    filtered := [];
    for idx := 0 to |input|
      invariant filtered == Survivors(input[..idx], results)
    {
      assert input[..idx + 1][..idx] == input[..idx];
      if idx in removed {
        continue;
      }
      var inequivalentForThis := AsSet(if idx in inequivalentMap then inequivalentMap[idx] else []);
      var oldMatches := if input[idx].matches.Some? then input[idx].matches.value else [];
      var newMatches := Select(oldMatches, j => j !in inequivalentForThis);
      var entry := Entry(Some(newMatches), if newMatches == [] then Some(true) else input[idx].noMoreMatches);
      filtered := filtered + [entry];
    }
    assert input[..|input|] == input;
  }

  // ---------------------------------------------------------------
  // Lemmas for the method

  /** One outcome more in the grouping. */
  lemma GroupStep(results: seq<Outcome>, k: nat, groups: map<int, seq<(int, Option<bool>)>>, keys: seq<int>)
    requires k < |results|
    requires keys == KeyOrder(results[..k])
    requires forall v :: v in groups <==> v in keys
    requires forall v :: v in groups ==> groups[v] == PairsOf(results[..k], v)
    ensures var o := results[k];
      var pairs := if o.vbfIdx in groups then groups[o.vbfIdx] else [];
      var groups' := groups[o.vbfIdx := pairs + [(o.matchIdx, o.verdict)]];
      && (if o.vbfIdx in keys then keys else keys + [o.vbfIdx]) == KeyOrder(results[..k + 1])
      && forall v :: v in groups' ==> groups'[v] == PairsOf(results[..k + 1], v)
  {
    assert results[..k + 1][..k] == results[..k];
    var o := results[k];
    if o.vbfIdx !in keys {
      PairsOfAbsent(results[..k], o.vbfIdx);
    }
  }

  /** An input index that never occurs has no pairs. */
  lemma {:induction false} PairsOfAbsent(results: seq<Outcome>, v: int)
    requires v !in KeyOrder(results)
    ensures PairsOf(results, v) == []
    decreases |results|
  {
    if |results| > 0 {
      PairsOfAbsent(results[..|results| - 1], v);
    }
  }

  /** The key order lists exactly the input indices that occur. */
  lemma {:induction false} KeysCoverResults(results: seq<Outcome>, v: int)
    ensures v in KeyOrder(results) <==> exists j :: 0 <= j < |results| && results[j].vbfIdx == v
    decreases |results|
  {
    if |results| > 0 {
      var front := results[..|results| - 1];
      KeysCoverResults(front, v);
      if exists j :: 0 <= j < |front| && front[j].vbfIdx == v {
        var j :| 0 <= j < |front| && front[j].vbfIdx == v;
        assert results[j] == front[j];
      }
      if exists j :: 0 <= j < |results| && results[j].vbfIdx == v {
        var j :| 0 <= j < |results| && results[j].vbfIdx == v;
        if j < |front| {
          assert front[j] == results[j];
        }
      }
    }
  }

  /** A match index is in input v's list with a verdict exactly when some
      outcome says so. */
  lemma {:induction false} IndicesWithExact(results: seq<Outcome>, v: int, verdict: Option<bool>, m: int)
    ensures m in IndicesWith(PairsOf(results, v), verdict) <==>
      exists j :: 0 <= j < |results| && results[j].vbfIdx == v && results[j].verdict == verdict && results[j].matchIdx == m
    decreases |results|
  {
    if |results| > 0 {
      var front := results[..|results| - 1];
      IndicesWithExact(front, v, verdict, m);
      IndicesWithAppend(PairsOf(front, v), if results[|results| - 1].vbfIdx == v then [(results[|results| - 1].matchIdx, results[|results| - 1].verdict)] else [], verdict);
      if exists j :: 0 <= j < |front| && front[j].vbfIdx == v && front[j].verdict == verdict && front[j].matchIdx == m {
        var j :| 0 <= j < |front| && front[j].vbfIdx == v && front[j].verdict == verdict && front[j].matchIdx == m;
        assert results[j] == front[j];
      }
      if exists j :: 0 <= j < |results| && results[j].vbfIdx == v && results[j].verdict == verdict && results[j].matchIdx == m {
        var j :| 0 <= j < |results| && results[j].vbfIdx == v && results[j].verdict == verdict && results[j].matchIdx == m;
        if j < |front| {
          assert front[j] == results[j];
        }
      }
    }
  }

  /** Filtering distributes over concatenation. */
  lemma {:induction false} IndicesWithAppend(a: seq<(int, Option<bool>)>, b: seq<(int, Option<bool>)>, verdict: Option<bool>)
    requires |b| <= 1
    ensures IndicesWith(a + b, verdict) == IndicesWith(a, verdict) + IndicesWith(b, verdict)
  {
    if |b| == 1 {
      assert (a + b)[..|a + b| - 1] == a;
      assert b[..0] == [];
    } else {
      assert a + b == a;
    }
  }

  /** An input has an equivalent match in the grouping iff it is removed. */
  lemma TrueIffRemoved(results: seq<Outcome>, v: int)
    ensures |IndicesWith(PairsOf(results, v), Some(true))| > 0 <==> v in Removed(results)
  {
    var trues := IndicesWith(PairsOf(results, v), Some(true));
    if |trues| > 0 {
      IndicesWithExact(results, v, Some(true), trues[0]);
    }
    if v in Removed(results) {
      var j :| 0 <= j < |results| && results[j].verdict == Some(true) && results[j].vbfIdx == v;
      IndicesWithExact(results, v, Some(true), results[j].matchIdx);
    }
  }

  /** The inequivalent matches of the grouping are those of the outcomes. */
  lemma FalseIffInequivalent(results: seq<Outcome>, v: int)
    ensures AsSet(IndicesWith(PairsOf(results, v), Some(false))) == Inequivalent(results, v)
  {
    forall m
      ensures m in IndicesWith(PairsOf(results, v), Some(false)) <==> m in Inequivalent(results, v)
    {
      IndicesWithExact(results, v, Some(false), m);
    }
  }

  /** The records up to a key are a prefix of all records. */
  /** When the record of key i does not resolve, the records so far are
      the resolving prefix before the first bad record. */
  lemma RecordsStopAt<M>(input: seq<Entry<M>>, keys: seq<int>, results: seq<Outcome>, i: nat, rec: (int, int))
    requires i < |keys| && RecordsOf(keys[..i + 1], results) == RecordsOf(keys[..i], results) + [rec]
    requires !RecordOk(input, rec)
    requires forall j :: 0 <= j < |RecordsOf(keys[..i], results)| ==> RecordOk(input, RecordsOf(keys[..i], results)[j])
    ensures var recs := RecordsOf(keys, results);
      exists k :: 0 <= k < |recs| && RecordsOf(keys[..i], results) == recs[..k] && !RecordOk(input, recs[k])
                  && forall j :: 0 <= j < k ==> RecordOk(input, recs[j])
  {
    RecordsPrefix(keys, results, i + 1);
    var recs := RecordsOf(keys, results);
    var k := |RecordsOf(keys[..i], results)|;
    assert recs[k] == rec && recs[..k] == RecordsOf(keys[..i], results);
  }

  lemma {:induction false} RecordsPrefix(keys: seq<int>, results: seq<Outcome>, i: nat)
    requires i <= |keys|
    ensures RecordsOf(keys[..i], results) <= RecordsOf(keys, results)
    decreases |keys|
  {
    if i < |keys| {
      var front := keys[..|keys| - 1];
      RecordsPrefix(front, results, i);
      assert front[..i] == keys[..i];
    } else {
      assert keys[..i] == keys;
    }
  }

  // ---------------------------------------------------------------
  // What the filter promises

  /** An input survives iff none of its outcomes says equivalent; the
      survivors keep their order. */
  lemma {:induction false} SurvivorsExact<M>(input: seq<Entry<M>>, results: seq<Outcome>)
    ensures var keep := (i: int) => i !in Removed(results);
      var pos := Positions(|input|, keep);
      && |Survivors(input, results)| == |pos|
      && forall k :: 0 <= k < |pos| ==>
           Survivors(input, results)[k] == Refreshed(input[pos[k]], Inequivalent(results, pos[k]))
    decreases |input|
  {
    if |input| > 0 {
      var front := input[..|input| - 1];
      SurvivorsExact(front, results);
      var keep := (i: int) => i !in Removed(results);
      forall k | 0 <= k < |Positions(|front|, keep)|
        ensures front[Positions(|front|, keep)[k]] == input[Positions(|front|, keep)[k]]
      {
        PositionsExact(|front|, keep);
      }
    }
  }

  /** In a surviving input, a match is dropped iff an outcome says it is
      inequivalent; the kept ones keep their order, and an input left with
      none gets no_more_matches. */
  lemma RefreshedExact<M>(e: Entry<M>, results: seq<Outcome>, v: int)
    requires e.matches.Some?
    ensures var keep := (j: int) => j !in Inequivalent(results, v);
      var pos := Positions(|e.matches.value|, keep);
      var r := Refreshed(e, Inequivalent(results, v));
      && r.matches.Some? && |r.matches.value| == |pos|
      && (forall k :: 0 <= k < |pos| ==> r.matches.value[k] == e.matches.value[pos[k]])
      && (forall j :: 0 <= j < |e.matches.value| ==> (j in pos <==> j !in Inequivalent(results, v)))
      && (r.matches.value == [] ==> r.noMoreMatches == Some(true))
      && (r.matches.value != [] ==> r.noMoreMatches == e.noMoreMatches)
  {
    var keep := (j: int) => j !in Inequivalent(results, v);
    SelectAtPositions(e.matches.value, keep);
    PositionsExact(|e.matches.value|, keep);
  }

  /** The filtered list does not depend on the completion order: any
      rearrangement of the outcomes gives the same list. */
  lemma OrderIrrelevant<M>(input: seq<Entry<M>>, r1: seq<Outcome>, r2: seq<Outcome>)
    requires multiset(r1) == multiset(r2)
    ensures Survivors(input, r1) == Survivors(input, r2)
  {
    SameOutcomes(r1, r2);
    SurvivorsOfSameSets(input, r1, r2);
  }

  /** Rearranged outcomes give the same removed set and inequivalent sets. */
  lemma SameOutcomes(r1: seq<Outcome>, r2: seq<Outcome>)
    requires multiset(r1) == multiset(r2)
    ensures Removed(r1) == Removed(r2)
    ensures forall v :: Inequivalent(r1, v) == Inequivalent(r2, v)
  {
    forall o ensures o in r1 <==> o in r2 {
      assert o in r1 <==> o in multiset(r1);
      assert o in r2 <==> o in multiset(r2);
    }
    forall v ensures v in Removed(r1) <==> v in Removed(r2) {
      if v in Removed(r1) {
        var j :| 0 <= j < |r1| && r1[j].verdict == Some(true) && r1[j].vbfIdx == v;
        assert r1[j] in r2;
        var j' :| 0 <= j' < |r2| && r2[j'] == r1[j];
      }
      if v in Removed(r2) {
        var j :| 0 <= j < |r2| && r2[j].verdict == Some(true) && r2[j].vbfIdx == v;
        assert r2[j] in r1;
        var j' :| 0 <= j' < |r1| && r1[j'] == r2[j];
      }
    }
    forall v, m ensures m in Inequivalent(r1, v) <==> m in Inequivalent(r2, v) {
      if m in Inequivalent(r1, v) {
        var j :| 0 <= j < |r1| && r1[j].vbfIdx == v && r1[j].verdict == Some(false) && r1[j].matchIdx == m;
        assert r1[j] in r2;
        var j' :| 0 <= j' < |r2| && r2[j'] == r1[j];
      }
      if m in Inequivalent(r2, v) {
        var j :| 0 <= j < |r2| && r2[j].vbfIdx == v && r2[j].verdict == Some(false) && r2[j].matchIdx == m;
        assert r2[j] in r1;
        var j' :| 0 <= j' < |r1| && r1[j'] == r2[j];
      }
    }
  }

  /** Survivors depends on the outcomes only through those sets. */
  lemma {:induction false} SurvivorsOfSameSets<M>(input: seq<Entry<M>>, r1: seq<Outcome>, r2: seq<Outcome>)
    requires Removed(r1) == Removed(r2)
    requires forall v :: Inequivalent(r1, v) == Inequivalent(r2, v)
    ensures Survivors(input, r1) == Survivors(input, r2)
    decreases |input|
  {
    if |input| > 0 {
      SurvivorsOfSameSets(input[..|input| - 1], r1, r2);
    }
  }

  /** The record of an input is its first equivalent match in completion
      order. */
  lemma {:induction false} FirstTrueInOrder(results: seq<Outcome>, v: int)
    requires |IndicesWith(PairsOf(results, v), Some(true))| > 0
    ensures exists j :: (0 <= j < |results| && results[j].vbfIdx == v && results[j].verdict == Some(true)
      && results[j].matchIdx == IndicesWith(PairsOf(results, v), Some(true))[0]
      && forall i :: 0 <= i < j ==> !(results[i].vbfIdx == v && results[i].verdict == Some(true)))
    decreases |results|
  {
    var front := results[..|results| - 1];
    var last := results[|results| - 1];
    IndicesWithAppend(PairsOf(front, v), if last.vbfIdx == v then [(last.matchIdx, last.verdict)] else [], Some(true));
    if |IndicesWith(PairsOf(front, v), Some(true))| > 0 {
      FirstTrueInOrder(front, v);
      var j :| 0 <= j < |front| && front[j].vbfIdx == v && front[j].verdict == Some(true)
        && front[j].matchIdx == IndicesWith(PairsOf(front, v), Some(true))[0]
        && forall i :: 0 <= i < j ==> !(front[i].vbfIdx == v && front[i].verdict == Some(true));
      assert results[j] == front[j];
      assert forall i :: 0 <= i < j ==> results[i] == front[i];
    } else {
      forall i | 0 <= i < |front|
        ensures !(results[i].vbfIdx == v && results[i].verdict == Some(true))
      {
        if results[i].vbfIdx == v && results[i].verdict == Some(true) {
          assert front[i] == results[i];
          IndicesWithExact(front, v, Some(true), front[i].matchIdx);
        }
      }
      assert IndicesWith(PairsOf(results, v), Some(true))[0] == last.matchIdx;
    }
  }
}
