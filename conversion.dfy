/** `truth_table_to_univariate_poly`: check the table size, choose the
    reduction polynomial and generator, build the tables, interpolate, and
    turn every nonzero coefficient c of x^i into the term (log c, i). */
module Conversion {
  import opened Bits
  import opened GaloisField
  import opened FieldTables
  import opened Outcomes
  import opened Terms
  import opened Lagrange
  import opened FieldLaws
  import opened LagrangeProofs
  import opened Representations

  // ---------------------------------------------------------------
  // From coefficients to terms

  /** The terms the final loop appends for the coefficient list: one
      (log c, i) per nonzero coefficient c of x^i, in increasing i. */
  function TermsOf(coeffs: seq<nat>, g: nat, n: nat, p: nat): (terms: seq<Term>)
    ensures forall j :: 0 <= j < |terms| ==>
      && terms[j].monExp < |coeffs|
      && coeffs[terms[j].monExp] != 0
      && terms[j].coeffExp == LogEntry(g, coeffs[terms[j].monExp], n, p)
    ensures forall i, j :: 0 <= i < j < |terms| ==> terms[i].monExp < terms[j].monExp
  {
    if |coeffs| == 0 then []
    else
      var k := |coeffs| - 1;
      var front := TermsOf(coeffs[..k], g, n, p);
      if coeffs[k] == 0 then front
      else
        var r := front + [Term(LogEntry(g, coeffs[k], n, p), k)];
        assert r[|front|].monExp == k;
        r
  }

  /** Every nonzero coefficient has its term. */
  lemma {:induction false} TermsCoverNonzero(coeffs: seq<nat>, g: nat, n: nat, p: nat, i: nat)
    requires i < |coeffs| && coeffs[i] != 0
    ensures exists j :: 0 <= j < |TermsOf(coeffs, g, n, p)| && TermsOf(coeffs, g, n, p)[j].monExp == i
    decreases |coeffs|
  {
    var k := |coeffs| - 1;
    var front := TermsOf(coeffs[..k], g, n, p);
    var T := TermsOf(coeffs, g, n, p);
    var t := Term(LogEntry(g, coeffs[k], n, p), k);
    assert T == if coeffs[k] == 0 then front else front + [t];
    if i < k {
      assert coeffs[..k][i] == coeffs[i];
      TermsCoverNonzero(coeffs[..k], g, n, p, i);
      var j :| 0 <= j < |front| && front[j].monExp == i;
      assert T[j] == front[j];
    } else {
      assert T[|front|] == t;
    }
  }

  /** Under a generator, every term's coefficient exponent gives back its
      coefficient: g^(log c) == c. */
  lemma TermsRecoverCoefficients(coeffs: seq<nat>, g: nat, n: nat, p: nat)
    requires Generates(g, n, p) && AllBelow(coeffs, Pow2(n))
    ensures var terms := TermsOf(coeffs, g, n, p);
      forall j :: 0 <= j < |terms| ==> GPow(g, terms[j].coeffExp, n, p) == coeffs[terms[j].monExp]
  {
    var terms := TermsOf(coeffs, g, n, p);
    forall j | 0 <= j < |terms|
      ensures GPow(g, terms[j].coeffExp, n, p) == coeffs[terms[j].monExp]
    {
      AlogOfLog(g, coeffs[terms[j].monExp], n, p);
    }
  }

  /** The loop over `range(size)` that appends one term per nonzero
      coefficient, reading the log table. */
  method CoefficientsToTerms(f: Field, coeffs: seq<nat>) returns (terms: seq<Term>)
    requires f.LogOk() && |coeffs| == Pow2(f.n) && AllBelow(coeffs, Pow2(f.n))
    ensures terms == TermsOf(coeffs, f.generator, f.n, f.poly)
  {
    terms := [];
    var i := 0;
    while i < |coeffs|
      invariant 0 <= i <= |coeffs|
      invariant terms == TermsOf(coeffs[..i], f.generator, f.n, f.poly)
    {
      assert coeffs[..i + 1][..i] == coeffs[..i];
      var current := coeffs[i];
      if current != 0 {
        var coeffExp := f.logTable[current];
        terms := terms + [Term(coeffExp, i)];
      }
      i := i + 1;
    }
    assert coeffs[..i] == coeffs;
  }

  // ---------------------------------------------------------------
  // The terms evaluate like the coefficient list

  /** Powers through the lookups of GF(2^n) are the field's powers. */
  lemma {:induction false} PowIsPower(x: nat, i: nat, n: nat, p: nat)
    requires n >= 1 && x < Pow2(n)
    ensures Pow(GF(n, p), x, i) == Power(x, i, n, p)
    decreases i
  {
    if i > 0 {
      PowIsPower(x, i - 1, n, p);
      PowerBound(x, i - 1, n, p);
      LowOfSmall(x, n);
      LowOfSmall(Power(x, i - 1, n, p), n);
    }
  }

  /** One coefficient: its term, if any, adds what the coefficient adds. */
  lemma TermMatchesCoefficient(c: nat, i: nat, x: nat, g: nat, n: nat, p: nat)
    requires n >= 1 && Generates(g, n, p) && 0 < c < Pow2(n) && x < Pow2(n)
    ensures TermValue(Term(LogEntry(g, c, n, p), i), x, g, n, p) == GF(n, p).mul(c, Pow(GF(n, p), x, i))
  {
    AlogOfLog(g, c, n, p);
    PowIsPower(x, i, n, p);
    PowerBound(x, i, n, p);
    LowOfSmall(c, n);
    LowOfSmall(Power(x, i, n, p), n);
  }

  /** The terms and the coefficient list have the same value at every
      field element. */
  lemma {:induction false} TermsValue(coeffs: seq<nat>, x: nat, g: nat, n: nat, p: nat)
    requires n >= 1 && Generates(g, n, p) && AllBelow(coeffs, Pow2(n)) && x < Pow2(n)
    ensures PolyValue(TermsOf(coeffs, g, n, p), x, g, n, p) == Eval(GF(n, p), coeffs, x)
    decreases |coeffs|
  {
    if |coeffs| > 0 {
      var k := |coeffs| - 1;
      var front := coeffs[..k];
      var o := GF(n, p);
      TermsValue(front, x, g, n, p);
      EvalPrefixOfPrefix(o, coeffs, x, k);
      if coeffs[k] == 0 {
        LowOfSmall(0, n);
        MulZero(Low(Pow(o, x, k), n), n, p);
        XorZeroRight(Eval(o, front, x));
      } else {
        var t := Term(LogEntry(g, coeffs[k], n, p), k);
        TermMatchesCoefficient(coeffs[k], k, x, g, n, p);
        assert (TermsOf(front, g, n, p) + [t])[..|TermsOf(front, g, n, p)|] == TermsOf(front, g, n, p);
      }
    }
  }

  /** A prefix of the coefficient list evaluates like the shorter list. */
  lemma {:induction false} EvalPrefixOfPrefix(o: Ops, P: seq<nat>, x: nat, k: nat)
    requires k <= |P|
    ensures EvalPrefix(o, P[..k], x, k) == EvalPrefix(o, P, x, k)
    decreases k
  {
    if k > 0 {
      EvalPrefixOfPrefix(o, P, x, k - 1);
      assert P[..k][..k - 1] == P[..k - 1];
      EvalPrefixOfPrefix(o, P[..k], x, k - 1);
    }
  }

  // ---------------------------------------------------------------
  // Coefficients stay in the field

  /** Every coefficient of a successful interpolation indexes the log table. */
  lemma {:induction false} AccumulatedBelow(o: Ops, tt: seq<nat>, k: nat)
    requires Closed(o) && |tt| == o.Size() && k <= |tt| && Accumulated(o, tt, k).Some?
    ensures AllBelow(Accumulated(o, tt, k).value, o.Size())
    decreases k
  {
    if k > 0 {
      var P := Accumulated(o, tt, k - 1).value;
      var y := tt[k - 1];
      AccumulatedBelow(o, tt, k - 1);
      if y != 0 {
        var L := Basis(o, k - 1, o.Size());
        assert !OutOfTable(L, y, o.Size());
        forall i | 0 <= i < o.Size()
          ensures AddScaledAt(P[i], L[i], y, o) < o.Size()
        {
          if L[i] != 0 {
            XorBound(P[i], o.mul(L[i], y), o.n);
          }
        }
      }
    }
  }

  // ---------------------------------------------------------------
  // The whole conversion

  /** The polynomial the conversion uses: the given one, or the default for
      n when the given one is 0. */
  function EffectivePoly(irrPolyInt: nat, fieldN: nat, defaultPolys: map<nat, nat>): nat
    requires irrPolyInt != 0 || fieldN in defaultPolys
  {
    if irrPolyInt == 0 then defaultPolys[fieldN] else irrPolyInt
  }

  /** `truth_table_to_univariate_poly(tt_values, field_n, irr_poly_int)`,
      with the default tables as maps; Err where Python raises. */
  method TruthTableToUnivariatePoly(tt: seq<nat>, fieldN: nat, irrPolyInt: nat,
                                    defaultPolys: map<nat, nat>, defaultGens: map<nat, nat>)
    returns (r: Result<(seq<Term>, nat)>)
    ensures r.Ok? <==>
      && |tt| == Pow2(fieldN)
      && (irrPolyInt != 0 || fieldN in defaultPolys)
      && fieldN in defaultGens
      && Interpolated(GF(fieldN, EffectivePoly(irrPolyInt, fieldN, defaultPolys)), tt).Some?
    ensures r.Ok? ==>
      var p := EffectivePoly(irrPolyInt, fieldN, defaultPolys);
      && r.value.1 == p
      && r.value.0 == TermsOf(Interpolated(GF(fieldN, p), tt).value, defaultGens[fieldN], fieldN, p)
  {
    var size := Pow2(fieldN);
    if |tt| != size {
      return Err("ValueError: wrong number of truth table entries");
    }
    var p := irrPolyInt;
    if p == 0 {
      if fieldN !in defaultPolys {
        return Err("ValueError: no default irreducible polynomial");
      }
      p := defaultPolys[fieldN];
    }
    if fieldN !in defaultGens {
      return Err("ValueError: no default generator");
    }
    var g := defaultGens[fieldN];
    var f := new Field.BuildAllTables(fieldN, p, g);
    ghost var o := GF(fieldN, p);
    BuiltTablesHold(f);
    var coefficients := LagrangeInterpolation(f, o, tt);
    if coefficients.None? {
      return Err("IndexError");
    }
    AccumulatedBelow(o, tt, |tt|);
    var terms := CoefficientsToTerms(f, coefficients.value);
    return Ok((terms, p));
  }

  /** The round trip: over a field whose nonzero elements are the powers of
      g, a truth table of field elements converts successfully, and
      evaluating the terms at every x gives back tt[x]. */
  lemma ConversionRoundTrip(tt: seq<nat>, n: nat, p: nat, g: nat)
    requires n >= 1 && HasInverses(n, p) && Generates(g, n, p)
    requires |tt| == Pow2(n) && forall a :: 0 <= a < |tt| ==> tt[a] < Pow2(n)
    ensures Interpolated(GF(n, p), tt).Some?
    ensures forall x :: 0 <= x < Pow2(n) ==>
      PolyValue(TermsOf(Interpolated(GF(n, p), tt).value, g, n, p), x, g, n, p) == tt[x]
  {
    GFRoundTrip(n, p, tt);
    var coeffs := Interpolated(GF(n, p), tt).value;
    GFClosed(n, p);
    AccumulatedBelow(GF(n, p), tt, |tt|);
    forall x | 0 <= x < Pow2(n)
      ensures PolyValue(TermsOf(coeffs, g, n, p), x, g, n, p) == tt[x]
    {
      TermsValue(coeffs, x, g, n, p);
    }
  }
}
