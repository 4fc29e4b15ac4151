/** Why `_lagrange_interpolation` is right: evaluating its coefficient list
    at every field element gives back the truth table, whenever the table
    lookups obey the field laws. `GFIsField` shows that the lookups of
    GF(2^n) do so whenever every nonzero element has an inverse. */
module LagrangeProofs {
  import opened Bits
  import opened GaloisField
  import opened Lagrange
  import opened Outcomes
  import opened FieldLaws

  // ---------------------------------------------------------------
  // Evaluation

  /** x^i through the multiplication lookup, with 0^0 == 1. */
  function Pow(o: Ops, x: nat, i: nat): nat
  {
    if i == 0 then 1 else o.mul(x, Pow(o, x, i - 1))
  }

  /** XOR over i < k of P[i] * x^i. */
  function EvalPrefix(o: Ops, P: seq<nat>, x: nat, k: nat): nat
    requires k <= |P|
  {
    if k == 0 then 0
    else Xor(EvalPrefix(o, P, x, k - 1), o.mul(P[k - 1], Pow(o, x, k - 1)))
  }

  /** The value of the coefficient list P at x. */
  function Eval(o: Ops, P: seq<nat>, x: nat): nat
  {
    EvalPrefix(o, P, x, |P|)
  }

  lemma AddScaledBound(A: seq<nat>, L: seq<nat>, c: nat, o: Ops)
    requires Closed(o) && |A| == |L| && AllBelow(A, o.Size()) && AllBelow(L, o.Size()) && c < o.Size()
    ensures AllBelow(AddScaled(A, L, c, o), o.Size())
  {
    forall i | 0 <= i < |A|
      ensures AddScaled(A, L, c, o)[i] < o.Size()
    {
      if L[i] != 0 {
        XorBound(A[i], o.mul(L[i], c), o.n);
      }
    }
  }

  /** The skip of zero coefficients does not change the sum. */
  lemma AddScaledAtXor(a: nat, l: nat, c: nat, o: FieldOps)
    ensures AddScaledAt(a, l, c, o) == Xor(a, o.mul(l, c))
  {
    Zero(o, c);
    XorZeroRight(a);
  }

  /** The algebra of one term of EvalAddScaled. */
  lemma AddScaledTerm(o: FieldOps, ea: nat, el: nat, ai: nat, li: nat, c: nat, xi: nat)
    ensures Xor(Xor(ea, o.mul(el, c)), o.mul(Xor(ai, o.mul(li, c)), xi))
         == Xor(Xor(ea, o.mul(ai, xi)), o.mul(Xor(el, o.mul(li, xi)), c))
  {
    var lc, ml := o.mul(li, c), o.mul(li, xi);
    Dist(o, ai, lc, xi);
    SwapRight(o, li, c, xi);
    Dist(o, el, ml, c);
    Xor4(ea, o.mul(el, c), o.mul(ai, xi), o.mul(ml, c));
  }

  /** Evaluation is linear: (A + L * c)(x) == A(x) + L(x) * c. */
  lemma {:induction false} EvalAddScaled(o: FieldOps, A: seq<nat>, L: seq<nat>, c: nat, x: nat, k: nat)
    requires |A| == |L| && k <= |A|
    ensures EvalPrefix(o, AddScaled(A, L, c, o), x, k) == Xor(EvalPrefix(o, A, x, k), o.mul(EvalPrefix(o, L, x, k), c))
    decreases k
  {
    if k == 0 {
      Zero(o, c);
    } else {
      var i := k - 1;
      EvalAddScaled(o, A, L, c, x, i);
      AddScaledAtXor(A[i], L[i], c, o);
      AddScaledTerm(o, EvalPrefix(o, A, x, i), EvalPrefix(o, L, x, i), A[i], L[i], c, Pow(o, x, i));
    }
  }

  lemma {:induction false} EvalZeros(o: FieldOps, P: seq<nat>, x: nat, k: nat)
    requires k <= |P| && forall i :: 0 <= i < |P| ==> P[i] == 0
    ensures EvalPrefix(o, P, x, k) == 0
    decreases k
  {
    if k > 0 {
      EvalZeros(o, P, x, k - 1);
      Zero(o, Pow(o, x, k - 1));
    }
  }

  /** (L * d)(x) == L(x) * d. */
  lemma EvalScaled(o: FieldOps, L: seq<nat>, d: nat, x: nat)
    ensures Eval(o, Scaled(L, d, o), x) == o.mul(Eval(o, L, x), d)
  {
    var z := Zeros(|L|);
    assert Scaled(L, d, o) == AddScaled(z, L, d, o);
    EvalAddScaled(o, z, L, d, x, |L|);
    EvalZeros(o, z, x, |L|);
  }

  lemma {:induction false} EvalShiftedPrefix(o: FieldOps, L: seq<nat>, x: nat, k: nat)
    requires 1 <= k <= |L|
    ensures EvalPrefix(o, Shifted(L), x, k) == o.mul(x, EvalPrefix(o, L, x, k - 1))
    decreases k
  {
    if k == 1 {
      Zero(o, 1);
      Zero(o, x);
    } else {
      EvalShiftedPrefix(o, L, x, k - 1);
      var i := k - 2;
      var xi := Pow(o, x, i);
      assert Shifted(L)[k - 1] == L[i];
      SwapLeft(o, L[i], x, xi);
      DistRight(o, x, EvalPrefix(o, L, x, i), o.mul(L[i], xi));
    }
  }

  /** Shifting multiplies by x when the top coefficient is 0. */
  lemma EvalShifted(o: FieldOps, L: seq<nat>, x: nat)
    requires |L| >= 1 && L[|L| - 1] == 0
    ensures Eval(o, Shifted(L), x) == o.mul(x, Eval(o, L, x))
  {
    EvalShiftedPrefix(o, L, x, |L|);
    Zero(o, Pow(o, x, |L| - 1));
    XorZeroRight(EvalPrefix(o, L, x, |L| - 1));
  }

  /** One beta step multiplies the value by (x + beta) and then by d. */
  lemma EvalStep(o: FieldOps, L: seq<nat>, beta: nat, d: nat, x: nat)
    requires |L| >= 1 && L[|L| - 1] == 0
    ensures Eval(o, Step(L, beta, d, o), x) == o.mul(o.mul(Xor(x, beta), Eval(o, L, x)), d)
  {
    var sh := Shifted(L);
    var e := Eval(o, L, x);
    EvalScaled(o, AddScaled(sh, L, beta, o), d, x);
    EvalAddScaled(o, sh, L, beta, x, |L|);
    EvalShifted(o, L, x);
    Dist(o, x, beta, e);
    Comm(o, beta, e);
  }

  // ---------------------------------------------------------------
  // Basis polynomials

  /** How many beta steps the first k betas perform. */
  function StepsDone(alpha: nat, k: nat): nat
  {
    if alpha < k then k - 1 else k
  }

  /** L_alpha has degree at most the number of steps done. */
  lemma {:induction false} BasisDegree(o: Ops, alpha: nat, k: nat, i: nat)
    requires StepsDone(alpha, k) < i
    ensures BasisCoef(o, alpha, k, i) == 0
    decreases k
  {
    if k > 0 {
      if k - 1 == alpha {
        assert StepsDone(alpha, k - 1) == k - 1 == StepsDone(alpha, k);
        BasisDegree(o, alpha, k - 1, i);
      } else {
        assert StepsDone(alpha, k - 1) + 1 == StepsDone(alpha, k);
        BasisDegree(o, alpha, k - 1, i);
        BasisDegree(o, alpha, k - 1, i - 1);
        var c := o.inv(Xor(alpha, k - 1));
        assert BasisCoef(o, alpha, k, i) == ScaledAt(AddScaledAt(0, 0, k - 1, o), c, o);
      }
    }
  }

  /** The product the basis polynomial evaluates to: over the betas below k
      other than alpha, (x + beta) times the inverse of (alpha + beta). */
  function BasisValue(o: Ops, alpha: nat, k: nat, x: nat): nat
  {
    if k == 0 then 1
    else if k - 1 == alpha then BasisValue(o, alpha, k - 1, x)
    else o.mul(o.mul(Xor(x, k - 1), BasisValue(o, alpha, k - 1, x)), o.inv(Xor(alpha, k - 1)))
  }

  lemma {:induction false} UnitEvalPrefix(o: FieldOps, x: nat, k: nat)
    requires 1 <= k <= o.Size()
    ensures EvalPrefix(o, UnitPoly(o.Size()), x, k) == 1
    decreases k
  {
    if k == 1 {
      One(o, 1);
    } else {
      UnitEvalPrefix(o, x, k - 1);
      Zero(o, Pow(o, x, k - 1));
      XorZeroRight(1);
    }
  }

  /** The list L_alpha evaluates to the product BasisValue. */
  lemma {:induction false} EvalBasis(o: FieldOps, alpha: nat, k: nat, x: nat)
    requires alpha < o.Size() && k <= o.Size()
    ensures Eval(o, Basis(o, alpha, k), x) == BasisValue(o, alpha, k, x)
    decreases k, 1
  {
    if k == 0 {
      EvalBasisStart(o, alpha, x);
    } else {
      EvalBasisPass(o, alpha, k - 1, x);
    }
  }

  /** Through the pass for beta, Eval and BasisValue stay equal. */
  lemma {:induction false} EvalBasisPass(o: FieldOps, alpha: nat, beta: nat, x: nat)
    requires alpha < o.Size() && beta < o.Size()
    ensures Eval(o, Basis(o, alpha, beta + 1), x) == BasisValue(o, alpha, beta + 1, x)
    decreases beta + 1, 0
  {
    EvalBasis(o, alpha, beta, x);
    if beta == alpha {
      BasisSkip(o, alpha);
    } else {
      EvalBasisStep(o, alpha, beta, x);
    }
  }

  /** Before any pass L_alpha is the constant 1. */
  lemma EvalBasisStart(o: FieldOps, alpha: nat, x: nat)
    ensures Eval(o, Basis(o, alpha, 0), x) == 1
  {
    BasisStart(o, alpha);
    UnitEvalPrefix(o, x, o.Size());
  }

  /** One beta pass multiplies the value of L_alpha by (x + beta) / (alpha + beta). */
  lemma EvalBasisStep(o: FieldOps, alpha: nat, beta: nat, x: nat)
    requires alpha < o.Size() && beta < o.Size() && beta != alpha
    ensures Eval(o, Basis(o, alpha, beta + 1), x)
         == o.mul(o.mul(Xor(x, beta), Eval(o, Basis(o, alpha, beta), x)), o.inv(Xor(alpha, beta)))
  {
    var L := Basis(o, alpha, beta);
    BasisDegree(o, alpha, beta, o.Size() - 1);
    assert L[|L| - 1] == 0;
    EvalStep(o, L, beta, o.inv(Xor(alpha, beta)), x);
    BasisNext(o, alpha, beta);
  }

  /** At its own point the basis product is 1. */
  lemma {:induction false} BasisValueAtAlpha(o: FieldOps, alpha: nat, k: nat)
    requires alpha < o.Size() && k <= o.Size()
    ensures BasisValue(o, alpha, k, alpha) == 1
    decreases k
  {
    if k > 0 {
      BasisValueAtAlpha(o, alpha, k - 1);
      if k - 1 != alpha {
        var c := Xor(alpha, k - 1);
        XorBound(alpha, k - 1, o.n);
        if c == 0 {
          XorZeroMeansEqual(alpha, k - 1);
        }
        One(o, c);
        Inverse(o, c);
      }
    }
  }

  /** At every other point already passed the basis product is 0. */
  lemma {:induction false} BasisValueElsewhere(o: FieldOps, alpha: nat, k: nat, x: nat)
    requires x != alpha && x < k
    ensures BasisValue(o, alpha, k, x) == 0
    decreases k
  {
    var b := k - 1;
    var d := o.inv(Xor(alpha, b));
    if b == x {
      XorSelf(x);
      Zero(o, BasisValue(o, alpha, b, x));
      Zero(o, d);
    } else {
      BasisValueElsewhere(o, alpha, b, x);
      if b != alpha {
        Zero(o, Xor(x, b));
        Zero(o, d);
      }
    }
  }

  /** L_alpha is 1 at alpha and 0 at every other field element. */
  lemma BasisAtPoints(o: FieldOps, alpha: nat, x: nat)
    requires alpha < o.Size() && x < o.Size()
    ensures Eval(o, Basis(o, alpha, o.Size()), x) == if x == alpha then 1 else 0
  {
    EvalBasis(o, alpha, o.Size(), x);
    if x == alpha {
      BasisValueAtAlpha(o, alpha, o.Size());
    } else {
      BasisValueElsewhere(o, alpha, o.Size(), x);
    }
  }

  /** L_alpha has a nonzero coefficient, so accumulating a nonzero sample
      always reads the multiplication table. */
  lemma BasisNonzero(o: FieldOps, alpha: nat)
    requires alpha < o.Size()
    ensures exists i :: 0 <= i < o.Size() && Basis(o, alpha, o.Size())[i] != 0
  {
    var L := Basis(o, alpha, o.Size());
    BasisAtPoints(o, alpha, alpha);
    if forall i :: 0 <= i < o.Size() ==> L[i] == 0 {
      EvalZeros(o, L, alpha, o.Size());
    }
  }

  // ---------------------------------------------------------------
  // The round trip

  /** Adding y * L_alpha changes the value at alpha by y and nowhere else. */
  lemma AddSampleValue(o: FieldOps, P: seq<nat>, alpha: nat, y: nat, x: nat)
    requires |P| == o.Size() && alpha < o.Size() && y < o.Size() && x < o.Size()
    ensures Eval(o, AddScaled(P, Basis(o, alpha, o.Size()), y, o), x)
         == if x == alpha then Xor(Eval(o, P, x), y) else Eval(o, P, x)
  {
    EvalAddScaled(o, P, Basis(o, alpha, o.Size()), y, x, o.Size());
    BasisAtPoints(o, alpha, x);
    if x == alpha {
      One(o, y);
    } else {
      Zero(o, y);
      XorZeroRight(Eval(o, P, x));
    }
  }

  /** A sample that is accumulated without IndexError is a field element. */
  lemma AddSampleInField(o: FieldOps, P: seq<nat>, alpha: nat, y: nat)
    requires |P| == o.Size() && alpha < o.Size()
    requires AddSample(o, Some(P), alpha, y).Some?
    ensures y < o.Size()
  {
    if y != 0 {
      BasisNonzero(o, alpha);
    }
  }

  /** The values of a list after the samples 0 .. k-1: tt[x] at the points
      already passed, 0 elsewhere. */
  ghost predicate ValuesAfter(o: Ops, Q: seq<nat>, tt: seq<nat>, k: nat)
    requires k <= |tt|
  {
    forall x :: 0 <= x < o.Size() ==> Eval(o, Q, x) == if x < k then tt[x] else 0
  }

  /** The list accumulated after k samples has the values ValuesAfter names. */
  lemma {:induction false} AccumulatedValues(o: FieldOps, tt: seq<nat>, k: nat)
    requires |tt| == o.Size() && k <= |tt| && Accumulated(o, tt, k).Some?
    ensures ValuesAfter(o, Accumulated(o, tt, k).value, tt, k)
    decreases k
  {
    if k == 0 {
      forall x | 0 <= x < o.Size()
        ensures Eval(o, Zeros(o.Size()), x) == 0
      {
        EvalZeros(o, Zeros(o.Size()), x, o.Size());
      }
    } else {
      var P := Accumulated(o, tt, k - 1).value;
      AccumulatedValues(o, tt, k - 1);
      AddSampleInField(o, P, k - 1, tt[k - 1]);
      SampleStep(o, tt, k, P, Accumulated(o, tt, k).value);
    }
  }

  /** Sample k - 1 sets the value at k - 1 and keeps every other value. */
  lemma SampleStep(o: FieldOps, tt: seq<nat>, k: nat, P: seq<nat>, Q: seq<nat>)
    requires |tt| == o.Size() && 1 <= k <= |tt| && |P| == o.Size() && tt[k - 1] < o.Size()
    requires Q == if tt[k - 1] == 0 then P else AddScaled(P, Basis(o, k - 1, o.Size()), tt[k - 1], o)
    requires ValuesAfter(o, P, tt, k - 1)
    ensures ValuesAfter(o, Q, tt, k)
  {
    if tt[k - 1] != 0 {
      forall x | 0 <= x < o.Size()
        ensures Eval(o, Q, x) == if x < k then tt[x] else 0
      {
        AddSampleValue(o, P, k - 1, tt[k - 1], x);
      }
    }
  }

  /** Every coefficient of the result is a field element, and so is every
      sample once interpolation has succeeded. */
  lemma {:induction false} AccumulatedBound(o: FieldOps, tt: seq<nat>, k: nat)
    requires Closed(o) && |tt| == o.Size() && k <= |tt| && Accumulated(o, tt, k).Some?
    ensures AllBelow(Accumulated(o, tt, k).value, o.Size())
    ensures forall a :: 0 <= a < k ==> tt[a] < o.Size()
    decreases k
  {
    if k > 0 {
      var alpha := k - 1;
      AccumulatedBound(o, tt, alpha);
      var P := Accumulated(o, tt, alpha).value;
      AddSampleInField(o, P, alpha, tt[alpha]);
      if tt[alpha] != 0 {
        BasisBound(o, alpha, o.Size());
        AddScaledBound(P, Basis(o, alpha, o.Size()), tt[alpha], o);
      }
    }
  }

  /** Interpolation succeeds whenever every sample is a field element. */
  lemma {:induction false} AccumulatedSucceeds(o: Ops, tt: seq<nat>, k: nat)
    requires Closed(o) && o.n >= 1 && |tt| == o.Size() && k <= |tt|
    requires forall a :: 0 <= a < |tt| ==> tt[a] < o.Size()
    ensures Accumulated(o, tt, k).Some?
    decreases k
  {
    if k > 0 {
      AccumulatedSucceeds(o, tt, k - 1);
      BasisBound(o, k - 1, o.Size());
    }
  }

  /** The interpolated polynomial takes the value tt[x] at every x. */
  lemma RoundTrip(o: FieldOps, tt: seq<nat>)
    requires |tt| == o.Size() && Interpolated(o, tt).Some?
    ensures forall x :: 0 <= x < |tt| ==> Eval(o, Interpolated(o, tt).value, x) == tt[x]
  {
    AccumulatedValues(o, tt, |tt|);
  }

  /** Over a field, interpolation fails (IndexError) exactly when some
      sample is not a field element. */
  lemma InterpolationSucceedsIff(o: FieldOps, tt: seq<nat>)
    requires Closed(o) && |tt| == o.Size()
    ensures Interpolated(o, tt).Some? <==> forall a :: 0 <= a < |tt| ==> tt[a] < o.Size()
  {
    if forall a :: 0 <= a < |tt| ==> tt[a] < o.Size() {
      AccumulatedSucceeds(o, tt, |tt|);
    }
    if Interpolated(o, tt).Some? {
      AccumulatedBound(o, tt, |tt|);
    }
  }

  /** The round trip for the tables `_build_all_tables` fills in. */
  lemma GFRoundTrip(n: nat, p: nat, tt: seq<nat>)
    requires n >= 1 && HasInverses(n, p) && |tt| == Pow2(n)
    requires forall a :: 0 <= a < |tt| ==> tt[a] < Pow2(n)
    ensures Interpolated(GF(n, p), tt).Some?
    ensures forall x :: 0 <= x < |tt| ==> Eval(GF(n, p), Interpolated(GF(n, p), tt).value, x) == tt[x]
  {
    GFIsField(n, p);
    GFClosed(n, p);
    var o: FieldOps := GF(n, p);
    InterpolationSucceedsIff(o, tt);
    RoundTrip(o, tt);
  }

  /** The all-zero table interpolates to the all-zero list. */
  lemma {:induction false} ZeroTable(o: Ops, tt: seq<nat>, k: nat)
    requires k <= |tt| && forall a :: 0 <= a < |tt| ==> tt[a] == 0
    ensures Accumulated(o, tt, k) == Some(Zeros(o.Size()))
    decreases k
  {
    if k > 0 {
      ZeroTable(o, tt, k - 1);
    }
  }

  /** For n == 0 the one-entry table interpolates only when its entry is 0:
      L = [1] indexes row 1 of the 1 x 1 multiplication table. */
  lemma DimensionZero(o: Ops, tt: seq<nat>)
    requires o.n == 0 && |tt| == 1
    ensures Interpolated(o, tt).Some? <==> tt[0] == 0
  {
    var L := Basis(o, 0, 1);
    assert o.Size() == 1;
    assert L[0] == BasisCoef(o, 0, 1, 0) == BasisCoef(o, 0, 0, 0) == 1;
    assert Accumulated(o, tt, 0) == Some(Zeros(1));
    assert Interpolated(o, tt) == AddSample(o, Some(Zeros(1)), 0, tt[0]);
    if tt[0] != 0 {
      assert L[0] != 0 && L[0] >= o.Size();
      assert OutOfTable(L, tt[0], o.Size());
    }
  }
}
