/** k-to-1 counting. `compute_k_to_1` of `c_src/invariants_computations.cpp`
    counts the preimages of every output, demands that 0 has exactly one
    preimage and that every other output that is hit has the same count k.
    The "k_to_1" rule of `apn_properties.py` counts the same way but ignores
    output 0 altogether. */
module KToOne {
  import opened Bits
  import opened Outcomes
  import opened Text
  import opened Ddt
  import opened CppFunction
  import opened GammaRank

  /** The number of inputs x below k with f(x) == v. */
  function Count(f: seq<nat>, v: nat, k: nat): (c: nat)
    requires k <= |f|
    ensures c <= k
    decreases k
  {
    if k == 0 then 0 else Count(f, v, k - 1) + (if f[k - 1] == v then 1 else 0)
  }

  /** An output is counted exactly when some input below k maps to it. */
  lemma {:induction false} CountPositive(f: seq<nat>, v: nat, k: nat)
    requires k <= |f|
    ensures Count(f, v, k) > 0 <==> exists x :: 0 <= x < k && f[x] == v
    decreases k
  {
    if k > 0 {
      CountPositive(f, v, k - 1);
    }
  }

  // ---------------------------------------------------------------
  // The counts of all outputs add up to the number of inputs

  /** The counts of the outputs below s. */
  function CountSum(f: seq<nat>, s: nat, k: nat): nat
    requires k <= |f|
    decreases s
  {
    if s == 0 then 0 else CountSum(f, s - 1, k) + Count(f, s - 1, k)
  }

  /** One more input adds one to the sum when its output is below s. */
  lemma {:induction false} CountSumStep(f: seq<nat>, s: nat, k: nat)
    requires 0 < k <= |f|
    ensures CountSum(f, s, k) == CountSum(f, s, k - 1) + (if f[k - 1] < s then 1 else 0)
    decreases s
  {
    if s > 0 {
      CountSumStep(f, s - 1, k);
    }
  }

  /** When every output below k is below s, the counts add up to k. */
  lemma {:induction false} CountSumAll(f: seq<nat>, s: nat, k: nat)
    requires k <= |f| && forall x :: 0 <= x < k ==> f[x] < s
    ensures CountSum(f, s, k) == k
    decreases k
  {
    if k == 0 {
      CountSumNone(f, s);
    } else {
      CountSumAll(f, s, k - 1);
      CountSumStep(f, s, k);
    }
  }

  /** No input, no count. */
  lemma {:induction false} CountSumNone(f: seq<nat>, s: nat)
    ensures CountSum(f, s, 0) == 0
    decreases s
  {
    if s > 0 {
      CountSumNone(f, s - 1);
    }
  }

  /** The number of outputs v with 0 < v < s that are hit. */
  function HitCount(f: seq<nat>, s: nat, k: nat): nat
    requires k <= |f|
    decreases s
  {
    if s <= 1 then 0 else HitCount(f, s - 1, k) + (if Count(f, s - 1, k) > 0 then 1 else 0)
  }

  /** When each nonzero output below s has count 0 or j, the sum is the
      count of 0 plus j per output hit. */
  lemma {:induction false} CountSumOfUniform(f: seq<nat>, s: nat, k: nat, j: nat)
    requires k <= |f| && s >= 1
    requires forall v :: 0 < v < s && Count(f, v, k) > 0 ==> Count(f, v, k) == j
    ensures CountSum(f, s, k) == Count(f, 0, k) + j * HitCount(f, s, k)
    decreases s
  {
    if s > 1 {
      CountSumOfUniform(f, s - 1, k, j);
      var h := HitCount(f, s - 1, k);
      if Count(f, s - 1, k) > 0 {
        assert j * (h + 1) == j * h + j;
      }
    }
  }

  // ---------------------------------------------------------------
  // compute_k_to_1

  /** The property `compute_k_to_1` answers k for, on n >= 1: every output
      is an n-bit word, 0 has exactly one preimage, some other output is
      hit, and every other output that is hit has k preimages. */
  ghost predicate KToOneMap(f: seq<nat>, n: nat, k: nat)
    requires IsLut(f, n)
  {
    && IsMap(f, n)
    && Count(f, 0, |f|) == 1
    && (exists v :: 0 < v < Pow2(n) && Count(f, v, |f|) > 0)
    && forall v :: 0 < v < Pow2(n) && Count(f, v, |f|) > 0 ==> Count(f, v, |f|) == k
  }

  /** The counting loop: `freq[LUT[x]]++` for every input, giving up on the
      first output that is not an n-bit word. */
  method CountOutputs(f: seq<nat>, n: nat) returns (inRange: bool, freq: array<nat>)
    requires IsLut(f, n)
    ensures fresh(freq) && freq.Length == Pow2(n)
    ensures inRange <==> IsMap(f, n)
    ensures inRange ==> forall v :: 0 <= v < Pow2(n) ==> freq[v] == Count(f, v, Pow2(n))
  {
    var sz := Pow2(n);
    freq := new nat[sz](_ => 0);
    var x := 0;
    while x < sz
      invariant x <= sz
      invariant forall v :: 0 <= v < sz ==> freq[v] == Count(f, v, x)
      invariant forall y :: 0 <= y < x ==> f[y] < sz
    {
      var outv := f[x];
      if outv >= sz {
        return false, freq;
      }
      freq[outv] := freq[outv] + 1;
      x := x + 1;
    }
    return true, freq;
  }

  /** The search for k: the count of the first nonzero output that is hit,
      or -1 when there is none. */
  method FirstHit(counts: seq<nat>) returns (k: int)
    ensures k == -1 <==> forall v :: 0 < v < |counts| ==> counts[v] == 0
    ensures k != -1 ==> exists v :: 0 < v < |counts| && counts[v] == k > 0
                          && forall u :: 0 < u < v ==> counts[u] == 0
  {
    var v := 1;
    while v < |counts|
      invariant 1 <= v && (|counts| > 0 ==> v <= |counts|)
      invariant forall u :: 0 < u < v && u < |counts| ==> counts[u] == 0
    {
      if counts[v] > 0 {
        return counts[v];
      }
      v := v + 1;
    }
    return -1;
  }

  /** The final loop: every nonzero output that is hit has count k. */
  method AllCountsAre(counts: seq<nat>, k: int) returns (same: bool)
    ensures same <==> forall v :: 0 < v < |counts| && counts[v] != 0 ==> counts[v] == k
  {
    var v := 1;
    while v < |counts|
      invariant 1 <= v && (|counts| > 0 ==> v <= |counts|)
      invariant forall u :: 0 < u < v && u < |counts| && counts[u] != 0 ==> counts[u] == k
    {
      if counts[v] != 0 && counts[v] != k {
        return false;
      }
      v := v + 1;
    }
    return true;
  }

  /** `compute_k_to_1(F)`: for n == 0, 1 when the only output is 0 and -1
      otherwise; for n >= 1, the k of `KToOneMap` when there is one, else -1. */
  method ComputeKToOne(func: CFunction) returns (k: int)
    requires Pow2(func.n) <= |func.lut|
    ensures func.n == 0 ==> k == if func.lut[0] == 0 then 1 else -1
    ensures func.n > 0 && k != -1 ==> k > 0 && KToOneMap(Table(func), func.n, k)
    ensures func.n > 0 && k == -1 ==> forall j :: !KToOneMap(Table(func), func.n, j)
  {
    if func.n == 0 {
      if func.lut[0] == 0 {
        return 1;
      }
      return -1;
    }
    var f := Table(func);
    var n := func.n;
    var inRange, freq := CountOutputs(f, n);
    if !inRange {
      return -1;
    }
    var counts := freq[..];
    assert forall v :: 0 <= v < Pow2(n) ==> counts[v] == Count(f, v, |f|);
    if counts[0] != 1 {
      return -1;
    }
    k := FirstHit(counts);
    if k == -1 {
      return -1;
    }
    var same := AllCountsAre(counts, k);
    if !same {
      return -1;
    }
  }

  /** A k-to-1 map on n-bit words splits the 2^n - 1 nonzero inputs into
      blocks of k, so k divides 2^n - 1. */
  lemma KToOneDivides(f: seq<nat>, n: nat, k: nat)
    requires IsLut(f, n) && KToOneMap(f, n, k)
    ensures k > 0 && (Pow2(n) - 1) % k == 0
  {
    var s := Pow2(n);
    var v :| 0 < v < s && Count(f, v, |f|) > 0;
    assert forall x :: 0 <= x < |f| ==> f[x] < s;
    CountSumAll(f, s, |f|);
    assert forall u :: 0 < u < s && Count(f, u, |f|) > 0 ==> Count(f, u, |f|) == k;
    CountSumOfUniform(f, s, |f|, k);
    Divides(s - 1, k, HitCount(f, s, |f|));
  }

  /** A multiple of k leaves no remainder. */
  lemma Divides(x: nat, k: nat, h: nat)
    requires k > 0 && x == k * h
    ensures x % k == 0
  {
    DivUnique(x, k, h, 0);
  }

  // ---------------------------------------------------------------
  // The rule of apn_properties.py

  /** Some output is nonzero, and every nonzero output occurs k times. */
  ghost predicate UniformNonzero(tt: seq<nat>, k: nat)
  {
    && (exists x :: 0 <= x < |tt| && tt[x] != 0)
    && forall x :: 0 <= x < |tt| && tt[x] != 0 ==> Count(tt, tt[x], |tt|) == k
  }

  /** The first index from i on holding a nonzero output. */
  function NonzeroFrom(tt: seq<nat>, i: nat): (r: Option<nat>)
    requires i <= |tt|
    ensures r.None? <==> forall x :: i <= x < |tt| ==> tt[x] == 0
    ensures r.Some? ==> i <= r.value < |tt| && tt[r.value] != 0
    decreases |tt| - i
  {
    if i == |tt| then None
    else if tt[i] != 0 then Some(i)
    else NonzeroFrom(tt, i + 1)
  }

  /** Every nonzero output from index i on occurs k times. */
  function CountsFrom(tt: seq<nat>, k: nat, i: nat): (same: bool)
    requires i <= |tt|
    ensures same <==> forall x :: i <= x < |tt| && tt[x] != 0 ==> Count(tt, tt[x], |tt|) == k
    decreases |tt| - i
  {
    i == |tt| || ((tt[i] == 0 || Count(tt, tt[i], |tt|) == k) && CountsFrom(tt, k, i + 1))
  }

  /** The "k_to_1" text: "non-uniform" when no output is nonzero or two
      nonzero outputs occur a different number of times, else "<k>-to-1". */
  function KToOneLabel(tt: seq<nat>): string
  {
    match NonzeroFrom(tt, 0)
    case None => "non-uniform"
    case Some(x) =>
      var k := Count(tt, tt[x], |tt|);
      if CountsFrom(tt, k, 0) then NatToString(k) + "-to-1" else "non-uniform"
  }

  /** The label names the common count when there is one, and is
      "non-uniform" exactly when there is none. */
  lemma KToOneLabelMeans(tt: seq<nat>)
    ensures KToOneLabel(tt) == "non-uniform" <==> forall k :: !UniformNonzero(tt, k)
    ensures forall k :: UniformNonzero(tt, k) ==> KToOneLabel(tt) == NatToString(k) + "-to-1"
  {
    var r := NonzeroFrom(tt, 0);
    if r.Some? {
      var x := r.value;
      var k := Count(tt, tt[x], |tt|);
      if CountsFrom(tt, k, 0) {
        assert UniformNonzero(tt, k);
        var written := NatToString(k) + "-to-1";
        assert IsDigit(written[0]) && !IsDigit("non-uniform"[0]);
      }
    }
  }

  /** Where the C code answers k, the Python rule answers "<k>-to-1". */
  lemma CppKToOneIsUniform(f: seq<nat>, n: nat, k: nat)
    requires IsLut(f, n) && KToOneMap(f, n, k)
    ensures UniformNonzero(f, k)
    ensures KToOneLabel(f) == NatToString(k) + "-to-1"
  {
    var v :| 0 < v < Pow2(n) && Count(f, v, |f|) > 0;
    CountPositive(f, v, |f|);
    forall x | 0 <= x < |f| && f[x] != 0
      ensures Count(f, f[x], |f|) == k
    {
      CountPositive(f, f[x], |f|);
    }
    KToOneLabelMeans(f);
  }

  /** The converse fails on output 0: the map 0, 0, 1, 1 on 2-bit words is
      "2-to-1" for the Python rule and -1 for the C code, since 0 has two
      preimages. */
  lemma ZeroTwiceDisagrees()
    ensures KToOneLabel([0, 0, 1, 1]) == "2-to-1"
    ensures forall j :: !KToOneMap([0, 0, 1, 1], 2, j)
  {
    var f: seq<nat> := [0, 0, 1, 1];
    assert Count(f, 1, 4) == 2;
    assert Count(f, 0, 4) == 2;
    assert NatToString(2) == "2";
  }
}
