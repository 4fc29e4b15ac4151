/** `apn_is_quadratic.py`: the Möbius transform of a Boolean function, the
    degree of its coefficient list, and the test whether a function on
    n-bit words has algebraic degree at most 2. */
module ApnIsQuadratic {
  import opened Bits
  import opened Outcomes
  import opened Text
  import opened Anf

  /** One pass `for mask in range(2**n): if mask & (1 << i): f[mask] ^= f[mask ^ (1 << i)]`,
      updating the list in place. The partner entry has bit i clear and
      lies below mask, so it still holds its value from before the pass. */
  method PassLoop(g: seq<nat>, n: nat, i: nat) returns (h: seq<nat>)
    requires Pow2(n) <= |g| && i < n
    ensures h == Pass(g, n, i)
  {
    h := g;
    var mask := 0;
    while mask < Pow2(n)
      invariant mask <= Pow2(n) && |h| == |g|
      invariant forall m :: 0 <= m < |g| ==> h[m] == if m < mask then PassAt(g, n, i, m) else g[m]
    {
      if Bit(mask, i) == 1 {
        FlipDown(mask, i);
        FlipBits(mask, i, i);
        var partner := Flip(mask, i);
        assert h[partner] == g[partner];
        h := h[mask := Xor(h[mask], h[partner])];
      }
      mask := mask + 1;
    }
  }

  /** `mobius_transform(f)`: a copy of f transformed along its
      `len(f).bit_length() - 1` bits; the argument is left alone. */
  method MobiusTransform(f: seq<nat>) returns (g: seq<nat>)
    ensures g == Mobius(f)
  {
    var n := Dim(f);
    g := f;
    var i := 0;
    while i < n
      invariant i <= n && g == Transform(f, n, i)
    {
      g := PassLoop(g, n, i);
      i := i + 1;
    }
  }

  /** `get_degree(anf_coeffs, n)`: the largest popcount of an index holding a
      nonzero coefficient; n is not used. */
  method GetDegree(anfCoeffs: seq<nat>, n: nat) returns (maxDeg: nat)
    ensures maxDeg == Degree(anfCoeffs)
    ensures forall m :: 0 <= m < |anfCoeffs| && anfCoeffs[m] != 0 ==> Popcount(m) <= maxDeg
    ensures maxDeg > 0 ==> exists m :: 0 <= m < |anfCoeffs| && anfCoeffs[m] != 0 && Popcount(m) == maxDeg
  {
    maxDeg := 0;
    var mask := 0;
    while mask < |anfCoeffs|
      invariant mask <= |anfCoeffs| && maxDeg == MaxWeight(anfCoeffs, mask)
    {
      if anfCoeffs[mask] != 0 {
        var deg := Popcount(mask);
        if deg > maxDeg {
          maxDeg := deg;
        }
      }
      mask := mask + 1;
    }
  }

  /** A Python value held in the truth table: an int (bools are ints too),
      or a value of another type, named as `type()` prints it. */
  datatype PyValue = PyInt(i: int) | PyOther(typeName: string)

  /** The `truth_table` argument: a list or tuple, or anything else. */
  datatype TableArg = PySequence(items: seq<PyValue>) | PyNonSequence

  /** The message for the first entry below k that is not an int in
      [0, 2^n - 1], if any. */
  function FirstBadEntry(items: seq<PyValue>, n: nat, k: nat): (r: Option<string>)
    requires k <= |items|
    ensures r.None? <==> forall j :: 0 <= j < k ==> items[j].PyInt? && 0 <= items[j].i < Pow2(n)
    decreases k
  {
    if k == 0 then None
    else
      var earlier := FirstBadEntry(items, n, k - 1);
      if earlier.Some? then earlier
      else
        var v := items[k - 1];
        if v.PyOther? then
          Some("ValueError: All elements in truth_table must be integers. Found <class '"
               + v.typeName + "'> at index " + NatToString(k - 1) + ".")
        else if !(0 <= v.i <= Pow2(n) - 1) then
          Some("ValueError: Each element in truth_table must be between 0 and "
               + NatToString(Pow2(n) - 1) + ". Found " + IntToString(v.i)
               + " at index " + NatToString(k - 1) + ".")
        else None
  }

  /** Once an entry below k is bad, the message is that of the first one. */
  lemma {:induction false} FirstBadStays(items: seq<PyValue>, n: nat, k: nat, k': nat)
    requires k <= k' <= |items| && FirstBadEntry(items, n, k).Some?
    ensures FirstBadEntry(items, n, k') == FirstBadEntry(items, n, k)
    decreases k' - k
  {
    if k' > k {
      FirstBadStays(items, n, k, k' - 1);
    }
  }

  /** The loop `for idx, output in enumerate(truth_table)`: the message of
      the first entry that is not an n-bit int, if any. */
  method CheckOutputs(items: seq<PyValue>, n: nat) returns (bad: Option<string>)
    ensures bad == FirstBadEntry(items, n, |items|)
  {
    var idx := 0;
    while idx < |items|
      invariant idx <= |items| && FirstBadEntry(items, n, idx).None?
    {
      var output := items[idx];
      if output.PyOther? || !(0 <= output.i <= Pow2(n) - 1) {
        FirstBadStays(items, n, idx + 1, |items|);
        return FirstBadEntry(items, n, idx + 1);
      }
      idx := idx + 1;
    }
    return None;
  }

  /** The outputs of a validated table. */
  function Outputs(items: seq<PyValue>): (tt: seq<nat>)
    requires forall j :: 0 <= j < |items| ==> items[j].PyInt? && items[j].i >= 0
    ensures |tt| == |items| && forall j :: 0 <= j < |items| ==> tt[j] == items[j].i
  {
    seq(|items|, j requires 0 <= j < |items| => items[j].i as nat)
  }

  /** The loop over the coordinates: the largest degree so far, answering
      False as soon as it exceeds 2. */
  method DegreeAtMostTwo(tt: seq<nat>, n: nat) returns (quadratic: bool)
    ensures quadratic <==> AlgebraicDegree(tt, n) <= 2
  {
    var maxDegree := 0;
    var i := 0;
    while i < n
      invariant i <= n && maxDegree <= 2
      invariant forall j :: 0 <= j < i ==> CoordDegree(tt, j) <= 2
    {
      var componentTruthTable := Component(tt, i);
      var anfCoeffs := MobiusTransform(componentTruthTable);
      var degree := GetDegree(anfCoeffs, n);
      if degree > maxDegree {
        maxDegree := degree;
      }
      if maxDegree > 2 {
        assert CoordDegrees(tt, n)[i] == degree;
        return false;
      }
      i := i + 1;
    }
    if n > 0 {
      var ds := CoordDegrees(tt, n);
      assert |ds| > 0;
      var d := Largest(ds);
      assert d in ds;
      var j :| 0 <= j < n && ds[j] == d;
      assert CoordDegree(tt, j) <= 2;
    }
    return maxDegree <= 2;
  }

  /** `is_quadratic_apn(truth_table, n)`: TypeError unless the table is a
      list or tuple, ValueError unless it has 2^n entries or for its first
      entry that is not an n-bit int, and otherwise whether the algebraic
      degree is at most 2. */
  method IsQuadraticApn(truthTable: TableArg, n: nat) returns (r: Result<bool>)
    ensures truthTable.PyNonSequence? ==>
      r == Err("TypeError: truth_table must be a list or tuple of integers.")
    ensures truthTable.PySequence? && |truthTable.items| != Pow2(n) ==>
      r == Err("ValueError: truth_table length must be " + NatToString(Pow2(n))
               + " for n=" + NatToString(n) + ".")
    ensures truthTable.PySequence? && |truthTable.items| == Pow2(n) ==>
      var bad := FirstBadEntry(truthTable.items, n, Pow2(n));
      && (bad.Some? ==> r == Err(bad.value))
      && (bad.None? ==> r == Ok(AlgebraicDegree(Outputs(truthTable.items), n) <= 2))
  {
    if truthTable.PyNonSequence? {
      return Err("TypeError: truth_table must be a list or tuple of integers.");
    }
    var items := truthTable.items;
    var expectedLength := Pow2(n);
    if |items| != expectedLength {
      return Err("ValueError: truth_table length must be " + NatToString(expectedLength)
                 + " for n=" + NatToString(n) + ".");
    }
    var bad := CheckOutputs(items, n);
    if bad.Some? {
      return Err(bad.value);
    }
    var quadratic := DegreeAtMostTwo(Outputs(items), n);
    return Ok(quadratic);
  }
}
