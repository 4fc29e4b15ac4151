/** `is_monomial_impl` of `c_src/invariants_computations.cpp`: the function
    is reported a monomial when, for some exponent d below 2^n - 1, the
    coefficient a solved from the first x with x^d != 0 makes
    F(x) == a * x^d + F(0) hold at every x, with the products read off the
    tables of `GF2nCtx`. */
module CppMonomial {
  import opened Bits
  import opened Outcomes
  import opened Ddt
  import opened CppFunction
  import opened CppField

  /** Every entry equals the first. */
  predicate Constant(f: seq<nat>)
  {
    forall x :: 0 <= x < |f| ==> f[x] == f[0]
  }

  /** F(x) == a * x^d + F(0) at every x of the table. */
  predicate Fits(f: seq<nat>, n: nat, poly: nat, d: nat, a: nat)
    requires n >= 1 && IsLut(f, n)
  {
    forall x :: 0 <= x < |f| ==> f[x] == Xor(f[0], MulOf(n, poly, a, PowOf(n, poly, x, d)))
  }

  /** F(x) == a * x^d + F(0) for some a != 0 and some d below 2^n - 1. */
  ghost predicate AffineMonomial(f: seq<nat>, n: nat, poly: nat)
    requires n >= 1 && IsLut(f, n)
  {
    exists d: nat, a: nat :: d < Pow2(n) - 1 && a != 0 && Fits(f, n, poly, d, a)
  }

  /** The first input from x on whose d-th power is not 0. */
  function FirstPowHit(n: nat, poly: nat, d: nat, x: nat): (r: Option<nat>)
    requires n >= 1 && x <= Pow2(n)
    ensures r.Some? ==> x <= r.value < Pow2(n) && PowOf(n, poly, r.value, d) != 0
    ensures r.Some? ==> forall y :: x <= y < r.value ==> PowOf(n, poly, y, d) == 0
    ensures r.None? ==> forall y :: x <= y < Pow2(n) ==> PowOf(n, poly, y, d) == 0
    decreases Pow2(n) - x
  {
    if x == Pow2(n) then None
    else if PowOf(n, poly, x, d) != 0 then Some(x)
    else FirstPowHit(n, poly, d, x + 1)
  }

  /** The coefficient solved at x: 0 when F(x) == F(0), otherwise
      (F(x) ^ F(0)) * x^(2^n - 1 - d). */
  function Candidate(f: seq<nat>, n: nat, poly: nat, d: nat, x: nat): nat
    requires n >= 1 && IsLut(f, n) && x < Pow2(n) && d < Pow2(n)
  {
    var diff := Xor(f[x], f[0]);
    if diff == 0 then 0 else MulOf(n, poly, diff, PowOf(n, poly, x, Pow2(n) - 1 - d))
  }

  /** The coefficient solution at x reads `logtbl[diff]` with
      diff = F(x) ^ F(0) only when diff and x^(2^n - 1 - d) are both
      nonzero; the read stays inside the table when diff is an n-bit word. */
  predicate SolvableAt(f: seq<nat>, n: nat, poly: nat, d: nat, x: nat)
    requires n >= 1 && IsLut(f, n) && x < Pow2(n) && d < Pow2(n)
  {
    var diff := Xor(f[x], f[0]);
    diff == 0 || PowOf(n, poly, x, Pow2(n) - 1 - d) == 0 || diff < Pow2(n)
  }

  /** One round of the exponent loop: Some(false) when no x >= 1 has
      x^d != 0, None when the coefficient solution reads the log table out
      of range, and otherwise whether the coefficient solved at the first
      such x fits the whole table. */
  function ExponentOutcome(f: seq<nat>, n: nat, poly: nat, d: nat): Option<bool>
    requires n >= 1 && IsLut(f, n) && d < Pow2(n)
  {
    match FirstPowHit(n, poly, d, 1)
    case None => Some(false)
    case Some(x) =>
      if SolvableAt(f, n, poly, d, x) then Some(Fits(f, n, poly, d, Candidate(f, n, poly, d, x)))
      else None
  }

  /** The exponent loop from d on: the first round that is undefined or
      succeeds decides, and running out of exponents is Some(false). */
  function ExponentsFrom(f: seq<nat>, n: nat, poly: nat, d: nat): Option<bool>
    requires IsLut(f, n)
    decreases Pow2(n) - d
  {
    if d + 1 >= Pow2(n) then Some(false)
    else
      assert n >= 1;
      match ExponentOutcome(f, n, poly, d)
      case None => None
      case Some(true) => Some(true)
      case Some(false) => ExponentsFrom(f, n, poly, d + 1)
  }

  /** What `is_monomial_impl` returns, None where it reads or writes a table
      out of range: false without a polynomial or above 16 bits, undefined
      when the context is, false for a constant table, and otherwise the
      exponent loop. */
  ghost function MonomialVerdict(f: seq<nat>, n: nat, poly: nat): Option<bool>
    requires IsLut(f, n)
  {
    if poly == 0 || n > 16 then Some(false)
    else if !AlogFits(n, poly) then None
    else if Constant(f) then Some(false)
    else ExponentsFrom(f, n, poly, 0)
  }

  /** Exponent d succeeds: some x >= 1 has x^d != 0, and the coefficient
      solved at the first such x fits the whole table. */
  predicate ExponentFits(f: seq<nat>, n: nat, poly: nat, d: nat)
    requires n >= 1 && IsLut(f, n) && d < Pow2(n)
  {
    match FirstPowHit(n, poly, d, 1)
    case None => false
    case Some(x) => Fits(f, n, poly, d, Candidate(f, n, poly, d, x))
  }

  /** What `is_monomial_impl` decides for a table, a dimension of at least
      1 and a polynomial: the table is not constant and some exponent below
      2^n - 1 succeeds. */
  predicate MonomialTest(f: seq<nat>, n: nat, poly: nat)
    requires IsLut(f, n)
  {
    && n >= 1
    && !Constant(f)
    && exists d :: 0 <= d < Pow2(n) - 1 && ExponentFits(f, n, poly, d)
  }

  /** The `all_same` loop. */
  method AllSame(f: seq<nat>) returns (same: bool)
    requires |f| >= 1
    ensures same <==> Constant(f)
  {
    var b := f[0];
    var x := 0;
    while x < |f|
      invariant x <= |f|
      invariant forall y :: 0 <= y < x ==> f[y] == b
    {
      if f[x] != b {
        return false;
      }
      x := x + 1;
    }
    return true;
  }

  /** The inner check: with `val = b`, and `val ^= a * xx^d` when both
      factors are nonzero, every entry must equal `val`. */
  method CheckCandidate(ctx: GF2nCtx, f: seq<nat>, d: nat, a: nat) returns (ok: bool)
    requires ctx.Valid() && ctx.n >= 1 && IsLut(f, ctx.n) && AlogFits(ctx.n, ctx.poly)
    requires d < ctx.size && a < ctx.size
    ensures ok <==> Fits(f, ctx.n, ctx.poly, d, a)
  {
    var b := f[0];
    var xx := 0;
    while xx < ctx.size
      invariant xx <= ctx.size
      invariant forall y :: 0 <= y < xx ==> f[y] == Xor(b, MulOf(ctx.n, ctx.poly, a, PowOf(ctx.n, ctx.poly, y, d)))
    {
      var xxd := ctx.Pow(xx, d);
      PowOfBound(ctx.n, ctx.poly, xx, d);
      var val := b;
      if a != 0 && xxd != 0 {
        var product := ctx.Mul(a, xxd);
        val := Xor(val, product);
      } else {
        XorZeroRight(b);
      }
      if val != f[xx] {
        return false;
      }
      xx := xx + 1;
    }
    return true;
  }

  /** One round of the exponent loop: skip the x with x^d == 0, solve the
      coefficient at the first other x, check it and stop. */
  method TryExponent(ctx: GF2nCtx, f: seq<nat>, d: nat) returns (ok: Option<bool>)
    requires ctx.Valid() && ctx.n >= 1 && IsLut(f, ctx.n) && AlogFits(ctx.n, ctx.poly)
    requires d < ctx.size
    ensures ok == ExponentOutcome(f, ctx.n, ctx.poly, d)
  {
    var x := 1;
    while x < ctx.size
      invariant 1 <= x <= ctx.size
      invariant FirstPowHit(ctx.n, ctx.poly, d, x) == FirstPowHit(ctx.n, ctx.poly, d, 1)
    {
      var xd := ctx.Pow(x, d);
      if xd == 0 {
        x := x + 1;
        continue;
      }
      ok := SolveAndCheck(ctx, f, d, x);
      return;
    }
    return Some(false);
  }

  /** The body for the first x with x^d != 0: solve the coefficient,
      then check it over all inputs. */
  method SolveAndCheck(ctx: GF2nCtx, f: seq<nat>, d: nat, x: nat) returns (ok: Option<bool>)
    requires ctx.Valid() && ctx.n >= 1 && IsLut(f, ctx.n) && AlogFits(ctx.n, ctx.poly)
    requires d < ctx.size && x < ctx.size
    ensures ok.Some? <==> SolvableAt(f, ctx.n, ctx.poly, d, x)
    ensures ok.Some? ==> ok.value == Fits(f, ctx.n, ctx.poly, d, Candidate(f, ctx.n, ctx.poly, d, x))
  {
    var a := SolveCoefficient(ctx, f, d, x);
    if a.None? {
      return None;
    }
    var fits := CheckCandidate(ctx, f, d, a.value);
    return Some(fits);
  }

  /** `a = 0` when F(x) == F(0), else `a = gf_mul(diff, x^(size - 1 - d))`,
      which is 0 when the power is 0 and otherwise reads `logtbl[diff]`:
      None when that read leaves the table. */
  method SolveCoefficient(ctx: GF2nCtx, f: seq<nat>, d: nat, x: nat) returns (a: Option<nat>)
    requires ctx.Valid() && ctx.n >= 1 && IsLut(f, ctx.n) && AlogFits(ctx.n, ctx.poly)
    requires d < ctx.size && x < ctx.size
    ensures a.Some? <==> SolvableAt(f, ctx.n, ctx.poly, d, x)
    ensures a.Some? ==> a.value == Candidate(f, ctx.n, ctx.poly, d, x) && a.value < ctx.size
  {
    var diff := Xor(f[x], f[0]);
    if diff == 0 {
      return Some(0);
    }
    var e := ctx.size - 1 - d;
    var invXd := ctx.Pow(x, e);
    PowOfBound(ctx.n, ctx.poly, x, e);
    if invXd == 0 {
      return Some(0);
    }
    if diff >= ctx.size {
      return None;
    }
    var product := ctx.Mul(diff, invXd);
    MulOfBound(ctx.n, ctx.poly, diff, invXd);
    return Some(product);
  }

  /** The loop over the exponents d = 0 .. 2^n - 2, returning at the first
      that succeeds. */
  method TryExponents(ctx: GF2nCtx, f: seq<nat>) returns (found: Option<bool>)
    requires ctx.Valid() && ctx.n >= 1 && IsLut(f, ctx.n) && AlogFits(ctx.n, ctx.poly)
    ensures found == ExponentsFrom(f, ctx.n, ctx.poly, 0)
  {
    var d := 0;
    while d < ctx.size - 1
      invariant d <= ctx.size - 1
      invariant ExponentsFrom(f, ctx.n, ctx.poly, d) == ExponentsFrom(f, ctx.n, ctx.poly, 0)
    {
      var ok := TryExponent(ctx, f, d);
      if ok != Some(false) {
        return ok;
      }
      d := d + 1;
    }
    return Some(false);
  }

  /** `is_monomial_impl(F)`: false without a polynomial or above 16 bits;
      otherwise the context is built, a constant table is rejected, and the
      exponents are tried in turn. On a table of n-bit outputs and a
      polynomial that builds a defined context the verdict is the test. */
  method IsMonomialImpl(func: CFunction) returns (mono: Option<bool>)
    requires Pow2(func.n) <= |func.lut|
    ensures mono == MonomialVerdict(Table(func), func.n, func.polynomial)
    ensures IsMap(Table(func), func.n) && AlogFits(func.n, func.polynomial) ==>
              mono == Some(func.polynomial != 0 && func.n <= 16 && MonomialTest(Table(func), func.n, func.polynomial))
  {
    var f := Table(func);
    if IsMap(f, func.n) && AlogFits(func.n, func.polynomial) {
      MapVerdict(f, func.n, func.polynomial);
    }
    if func.polynomial == 0 {
      return Some(false);
    }
    if func.n > 16 {
      return Some(false);
    }
    var ctx := new GF2nCtx(func.n, func.polynomial);
    if !ctx.defined {
      return None;
    }
    var same := AllSame(f);
    if same {
      return Some(false);
    }
    mono := TryExponents(ctx, f);
  }

  /** On n-bit outputs the coefficient solution never leaves the table, so
      a round yields whether its exponent succeeds. */
  lemma MapOutcome(f: seq<nat>, n: nat, poly: nat, d: nat)
    requires n >= 1 && IsMap(f, n) && d < Pow2(n)
    ensures ExponentOutcome(f, n, poly, d) == Some(ExponentFits(f, n, poly, d))
  {
    var hit := FirstPowHit(n, poly, d, 1);
    if hit.Some? {
      XorBound(f[hit.value], f[0], n);
    }
  }

  /** On n-bit outputs the exponent loop from d on yields whether some
      exponent from d below 2^n - 1 succeeds. */
  lemma {:induction false} MapExponents(f: seq<nat>, n: nat, poly: nat, d: nat)
    requires IsMap(f, n)
    ensures ExponentsFrom(f, n, poly, d) == Some(FitsFrom(f, n, poly, d))
    decreases Pow2(n) - d
  {
    if d + 1 < Pow2(n) {
      assert n >= 1;
      MapOutcome(f, n, poly, d);
      MapExponents(f, n, poly, d + 1);
      FitsFromStep(f, n, poly, d);
    } else {
      assert !FitsFrom(f, n, poly, d);
    }
  }

  /** Some exponent from d on below 2^n - 1 succeeds. */
  ghost predicate FitsFrom(f: seq<nat>, n: nat, poly: nat, d: nat)
    requires IsLut(f, n)
  {
    n >= 1 && exists e :: d <= e < Pow2(n) - 1 && ExponentFits(f, n, poly, e)
  }

  /** Some exponent from d on succeeds when d does or one from d + 1 on
      does. */
  lemma FitsFromStep(f: seq<nat>, n: nat, poly: nat, d: nat)
    requires n >= 1 && IsLut(f, n) && d + 1 < Pow2(n)
    ensures FitsFrom(f, n, poly, d) <==> ExponentFits(f, n, poly, d) || FitsFrom(f, n, poly, d + 1)
  {
    if ExponentFits(f, n, poly, d) {
      assert d <= d < Pow2(n) - 1 && ExponentFits(f, n, poly, d);
    }
    if FitsFrom(f, n, poly, d) {
      var e :| d <= e < Pow2(n) - 1 && ExponentFits(f, n, poly, e);
      if e != d {
        assert d + 1 <= e < Pow2(n) - 1 && ExponentFits(f, n, poly, e);
      }
    }
  }

  /** On n-bit outputs and a polynomial that builds a defined context the
      verdict is the test, so undefined reads are confined to tables with
      wider outputs. */
  lemma MapVerdict(f: seq<nat>, n: nat, poly: nat)
    requires IsMap(f, n) && AlogFits(n, poly)
    ensures MonomialVerdict(f, n, poly) == Some(poly != 0 && n <= 16 && MonomialTest(f, n, poly))
  {
    MapExponents(f, n, poly, 0);
  }

  /** The out-of-range read is reachable: over x^2 + x + 1 the table
      [0, 5, 0, 0] solves its coefficient at x == 1 from diff == 5, which
      is not a 2-bit word. */
  lemma UndefinedRead()
    ensures MonomialVerdict([0, 5, 0, 0], 2, 7) == None
  {
    var f: seq<nat> := [0, 5, 0, 0];
    assert Pow2(2) == 4;
    assert Alog(2, 7, 1) == 2 && Alog(2, 7, 2) == 3;
    assert AlogFits(2, 7);
    assert f[1] != f[0];
    assert Log(2, 7, 1) == 0;
    assert PowOf(2, 7, 1, 0) == 1 && PowOf(2, 7, 1, 3) == 1;
    assert FirstPowHit(2, 7, 0, 1) == Some(1);
    assert Xor(5, 0) == 5 by {
      XorZeroRight(5);
    }
    assert !SolvableAt(f, 2, 7, 0, 1);
  }

  /** A table the test accepts is a * x^d + F(0) with a != 0 and
      d < 2^n - 1. */
  lemma MonomialSound(f: seq<nat>, n: nat, poly: nat)
    requires IsLut(f, n) && MonomialTest(f, n, poly)
    ensures n >= 1 && AffineMonomial(f, n, poly)
  {
    var d :| 0 <= d < Pow2(n) - 1 && ExponentFits(f, n, poly, d);
    var hit := FirstPowHit(n, poly, d, 1);
    var a := Candidate(f, n, poly, d, hit.value);
    XorZeroRight(f[0]);
    assert a != 0 && Fits(f, n, poly, d, a);
    assert d < Pow2(n) - 1;
  }

  /** Over a primitive polynomial every c + a * x^d with a != 0 and
      1 <= d < 2^n - 1 is accepted: x = 1 is the first input with x^d != 0
      and the coefficient solved there is a. */
  lemma MonomialComplete(f: seq<nat>, n: nat, poly: nat, c: nat, a: nat, d: nat)
    requires Primitive(n, poly) && IsLut(f, n)
    requires 0 < a < Pow2(n) && 1 <= d < Pow2(n) - 1
    requires forall x :: 0 <= x < |f| ==> f[x] == Xor(c, MulOf(n, poly, a, PowOf(n, poly, x, d)))
    ensures MonomialTest(f, n, poly)
  {
    PowOfZero(n, poly, a, d);
    XorZeroRight(c);
    assert f[0] == c;
    PowOfOne(n, poly, d);
    PowOfOne(n, poly, Pow2(n) - 1 - d);
    MulOfOne(n, poly, a);
    assert f[1] == Xor(c, a);
    XorAssoc(c, a, c);
    XorComm(a, c);
    XorAssoc(a, c, c);
    XorSelf(c);
    XorZeroRight(a);
    assert Xor(f[1], f[0]) == a;
    assert f[1] != f[0] by {
      XorSelf(c);
    }
    assert FirstPowHit(n, poly, d, 1) == Some(1);
    assert Candidate(f, n, poly, d, 1) == a;
    assert ExponentFits(f, n, poly, d);
  }
}
