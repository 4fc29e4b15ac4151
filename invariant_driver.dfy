/** `invariants.py`: computing a function's invariants through the
    registry. Each invariant is looked up under ("invariant", name) only
    when its key is missing, and the dictionary is put in display order at
    the end. What a registered computation does to the invariants is given
    by the entries it writes, in order. */
module InvariantDriver {
  import opened Outcomes
  import opened Text
  import opened Dicts
  import opened ApnObject
  import opened VbfObject
  import opened Registries

  /** A registered invariant computation: the entries it writes, given the
      invariants it finds. */
  datatype Aggregator = Aggregator(writes: Dict<InvValue> -> seq<(string, InvValue)>)

  /** The dictionary after the writes, one `d[k] = v` at a time. */
  function PutAll(d: Dict<InvValue>, ws: seq<(string, InvValue)>): (r: Dict<InvValue>)
    ensures Valid(d) ==> Valid(r)
    ensures d.keys <= r.keys
    ensures forall k :: k in r.vals <==> k in d.vals || exists i :: 0 <= i < |ws| && ws[i].0 == k
    decreases |ws|
  {
    if |ws| == 0 then d
    else
      var r := PutAll(Put(d, ws[0].0, ws[0].1), ws[1..]);
      assert forall i :: 1 <= i < |ws| ==> ws[1..][i - 1] == ws[i];
      r
  }

  /** The progress of a run over a list of names: the invariants so far,
      and the error that stopped it, if any. */
  datatype Progress = Progress(invariants: Dict<InvValue>, failed: Option<string>)

  /** One `compute_missing`: nothing when the key is there; otherwise the
      registered computation runs, or the lookup fails. */
  function ComputedOne(d: Dict<InvValue>, name: string, data: map<string, map<string, Aggregator>>): Progress
  {
    if name in d.vals then Progress(d, None)
    else match Lookup(data, "invariant", name)
      case None => Progress(d, Some("KeyError: " + Lower(name)))
      case Some(agg) => Progress(PutAll(d, agg.writes(d)), None)
  }

  /** `compute_missing` for each name in turn, stopping at the first error. */
  function ComputedAll(d: Dict<InvValue>, names: seq<string>, data: map<string, map<string, Aggregator>>): Progress
    decreases |names|
  {
    if |names| == 0 then Progress(d, None)
    else
      var before := ComputedAll(d, names[..|names| - 1], data);
      if before.failed.Some? then before else ComputedOne(before.invariants, names[|names| - 1], data)
  }

  /** `compute_missing(vbf_object, invariant_name)`. */
  method ComputeMissing(vbf: Vbf, name: string, reg: Registry<Aggregator>) returns (r: Result<()>)
    modifies vbf`invariants, reg
    ensures name in old(vbf.invariants.vals) ==> r.Ok? && vbf.invariants == old(vbf.invariants) && reg.data == old(reg.data)
    ensures name !in old(vbf.invariants.vals) ==> reg.data == Touched(old(reg.data), Lower("invariant"))
    ensures var p := ComputedOne(old(vbf.invariants), name, old(reg.data));
      && vbf.invariants == p.invariants
      && (r.Err? <==> p.failed.Some?)
  {
    if name in vbf.invariants.vals {
      return Ok(());
    }
    var aggregator := reg.Get("invariant", name);
    if aggregator.Err? {
      return Err("KeyError: " + Lower(name));
    }
    vbf.invariants := PutAll(vbf.invariants, aggregator.value.writes(vbf.invariants));
    return Ok(());
  }

  /** The loop of `compute_all_invariants` and `compute_selected`:
      `compute_missing` for each name in list order; an error propagates. */
  method ComputeEach(vbf: Vbf, names: seq<string>, reg: Registry<Aggregator>) returns (r: Result<()>)
    modifies vbf`invariants, reg
    ensures reg.data == old(reg.data) || reg.data == Touched(old(reg.data), Lower("invariant"))
    ensures var p := ComputedAll(old(vbf.invariants), names, old(reg.data));
      && vbf.invariants == p.invariants
      && (r.Err? <==> p.failed.Some?)
  {
    var i := 0;
    while i < |names|
      invariant 0 <= i <= |names|
      invariant reg.data == old(reg.data) || reg.data == Touched(old(reg.data), Lower("invariant"))
      invariant ComputedAll(old(vbf.invariants), names[..i], old(reg.data)) == Progress(vbf.invariants, None)
    {
      ComputedAllStep(old(vbf.invariants), names, i, old(reg.data));
      SameLookups(old(reg.data), reg.data, names[i]);
      var step := ComputeMissing(vbf, names[i], reg);
      if step.Err? {
        FailureSticks(old(vbf.invariants), names, i + 1, old(reg.data));
        return step;
      }
      i := i + 1;
    }
    assert names[..i] == names;
    r := Ok(());
  }

  /** One more name: the run so far, then that name's `compute_missing`
      unless the run has already failed. */
  lemma ComputedAllStep(d: Dict<InvValue>, names: seq<string>, i: nat, data: map<string, map<string, Aggregator>>)
    requires i < |names|
    ensures var before := ComputedAll(d, names[..i], data);
      ComputedAll(d, names[..i + 1], data)
      == if before.failed.Some? then before else ComputedOne(before.invariants, names[i], data)
  {
    assert names[..i + 1][..i] == names[..i];
  }

  /** The lookups the loop makes see the registry it started from. */
  lemma SameLookups(data0: map<string, map<string, Aggregator>>, data: map<string, map<string, Aggregator>>, name: string)
    requires data == data0 || data == Touched(data0, Lower("invariant"))
    ensures ComputedOne.requires(Empty(), name, data)
    ensures forall d :: ComputedOne(d, name, data) == ComputedOne(d, name, data0)
  {
    if data != data0 {
      TouchKeepsLookups(data0, Lower("invariant"), "invariant", name);
    }
  }

  /** Once a run has failed, the names after it are not looked at. */
  lemma {:induction false} FailureSticks(d: Dict<InvValue>, names: seq<string>, k: nat, data: map<string, map<string, Aggregator>>)
    requires k <= |names| && ComputedAll(d, names[..k], data).failed.Some?
    ensures ComputedAll(d, names, data) == ComputedAll(d, names[..k], data)
    decreases |names| - k
  {
    if k < |names| {
      assert names[..k + 1][..k] == names[..k];
      FailureSticks(d, names, k + 1, data);
    } else {
      assert names[..k] == names;
    }
  }

  /** The names `compute_all_invariants` visits, in order. */
  const AllInvariants: seq<string> := ["odds", "odws", "delta_rank", "gamma_rank", "algebraic_degree",
                                       "is_quadratic", "is_apn", "is_monomial", "k_to_1", "diff_uni"]

  /** The display order of `reorder_invariants`: the same ten names. */
  const DisplayOrder: seq<string> := AllInvariants

  /** `reorder_invariants(vbf_object)`: the listed keys first, in list
      order, then the others in their old order; every key keeps its value. */
  method ReorderInvariants(vbf: Vbf)
    requires Valid(vbf.invariants)
    modifies vbf`invariants
    ensures Valid(vbf.invariants) && IsReordering(vbf.invariants, old(vbf.invariants), DisplayOrder)
  {
    assert Distinct(DisplayOrder);
    var newMap := ReorderByCopied(vbf.invariants, DisplayOrder);
    vbf.invariants := newMap;
  }

  /** `compute_selected(vbf_object, invariants_list)`: the named invariants
      that are missing, in list order, then the reordering. */
  method ComputeSelected(vbf: Vbf, invariantsList: seq<string>, reg: Registry<Aggregator>) returns (r: Result<()>)
    requires Valid(vbf.invariants)
    modifies vbf`invariants, reg
    ensures var p := ComputedAll(old(vbf.invariants), invariantsList, old(reg.data));
      && (r.Err? <==> p.failed.Some?)
      && (r.Err? ==> vbf.invariants == p.invariants)
      && (r.Ok? ==> Valid(vbf.invariants) && IsReordering(vbf.invariants, p.invariants, DisplayOrder))
  {
    r := ComputeEach(vbf, invariantsList, reg);
    if r.Err? {
      return;
    }
    ComputedValid(old(vbf.invariants), invariantsList, old(reg.data));
    ReorderInvariants(vbf);
  }

  /** `compute_all_invariants(vbf_object)`: the ten invariants in list
      order, each computed only when missing, then the reordering. */
  method ComputeAllInvariants(vbf: Vbf, reg: Registry<Aggregator>) returns (r: Result<()>)
    requires Valid(vbf.invariants)
    modifies vbf`invariants, reg
    ensures var p := ComputedAll(old(vbf.invariants), AllInvariants, old(reg.data));
      && (r.Err? <==> p.failed.Some?)
      && (r.Err? ==> vbf.invariants == p.invariants)
      && (r.Ok? ==> Valid(vbf.invariants) && IsReordering(vbf.invariants, p.invariants, DisplayOrder))
  {
    r := ComputeEach(vbf, AllInvariants, reg);
    if r.Err? {
      return;
    }
    ComputedValid(old(vbf.invariants), AllInvariants, old(reg.data));
    ReorderInvariants(vbf);
  }

  // ---------------------------------------------------------------
  // What a run can and cannot do

  /** A run keeps the dictionary well formed, removes no key and moves no
      key: the old key order is a prefix of the new one. */
  lemma {:induction false} ComputedValid(d: Dict<InvValue>, names: seq<string>, data: map<string, map<string, Aggregator>>)
    requires Valid(d)
    ensures Valid(ComputedAll(d, names, data).invariants)
    ensures d.keys <= ComputedAll(d, names, data).invariants.keys
    decreases |names|
  {
    if |names| > 0 {
      ComputedValid(d, names[..|names| - 1], data);
    }
  }

  /** Memoisation: when every name is already a key, a run changes nothing
      and looks nothing up. */
  lemma {:induction false} AllPresentNoOp(d: Dict<InvValue>, names: seq<string>, data: map<string, map<string, Aggregator>>)
    requires forall i :: 0 <= i < |names| ==> names[i] in d.vals
    ensures ComputedAll(d, names, data) == Progress(d, None)
    decreases |names|
  {
    if |names| > 0 {
      AllPresentNoOp(d, names[..|names| - 1], data);
    }
  }

  /** A run fails only on a name that was missing when its turn came and
      that nothing is registered under. */
  lemma {:induction false} FailureHasCause(d: Dict<InvValue>, names: seq<string>, data: map<string, map<string, Aggregator>>)
    requires ComputedAll(d, names, data).failed.Some?
    ensures exists j :: 0 <= j < |names| && Lookup(data, "invariant", names[j]).None?
    decreases |names|
  {
    var front := names[..|names| - 1];
    if ComputedAll(d, front, data).failed.Some? {
      FailureHasCause(d, front, data);
      var j :| 0 <= j < |front| && Lookup(data, "invariant", front[j]).None?;
      assert names[j] == front[j];
    } else {
      assert Lookup(data, "invariant", names[|names| - 1]).None?;
    }
  }

  /** With every name registered, a run cannot fail. */
  lemma {:induction false} RegisteredNeverFails(d: Dict<InvValue>, names: seq<string>, data: map<string, map<string, Aggregator>>)
    requires forall i :: 0 <= i < |names| ==> Lookup(data, "invariant", names[i]).Some?
    ensures ComputedAll(d, names, data).failed.None?
  {
    if ComputedAll(d, names, data).failed.Some? {
      FailureHasCause(d, names, data);
    }
  }
}
