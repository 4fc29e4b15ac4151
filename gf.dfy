/** Arithmetic of GF(2^n) as the interpolation helpers compute it: the
    shift-and-XOR ("Russian peasant") product reduced by the low n bits of
    a polynomial bitmask, the brute-force inverse and powers of a
    generator. The algebra lemmas hold for every reduction polynomial: the
    product is that of the ring GF(2)[x] / (x^n + (p mod x^n)). */
module GaloisField {
  import opened Bits

  /** One step of the multiplication loop: `a <<= 1; a &= mask; if carry: a ^= poly & mask`,
      where the carry is bit n-1 of a before the shift. */
  function XTime(a: nat, n: nat, p: nat): (r: nat)
    requires n >= 1
    ensures r < Pow2(n)
  {
    var shifted := Low(2 * a, n);
    if Bit(a, n - 1) == 1 then
      XorBound(shifted, Low(p, n), n);
      Xor(shifted, Low(p, n))
    else
      shifted
  }

  /** The loop of `_gf_mul_slow` with k iterations left: the current a,
      the remaining bits of b. */
  function MulLoop(a: nat, b: nat, n: nat, p: nat, k: nat): nat
    requires k == 0 || n >= 1
    decreases k
  {
    if k == 0 then 0
    else Xor(if b % 2 == 1 then a else 0, MulLoop(XTime(a, n, p), b / 2, n, p, k - 1))
  }

  /** `_gf_mul_slow(a, b, n, poly)`: n iterations of the loop. */
  function MulSlow(a: nat, b: nat, n: nat, p: nat): nat
  {
    MulLoop(a, b, n, p, n)
  }

  /** The loop itself, as the Python function runs it. */
  method GfMulSlow(a: nat, b: nat, n: nat, p: nat) returns (r: nat)
    ensures r == MulSlow(a, b, n, p)
  {
    r := 0;
    var x, y := a, b;
    var i := 0;
    while i < n
      invariant 0 <= i <= n
      invariant Xor(r, MulLoop(x, y, n, p, n - i)) == MulSlow(a, b, n, p)
    {
      ghost var r0, x0, y0 := r, x, y;
      if y % 2 == 1 {
        r := Xor(r, x);
      }
      y := y / 2;
      var carry := Bit(x, n - 1) == 1;
      x := Low(2 * x, n);
      if carry {
        x := Xor(x, Low(p, n));
      }
      assert x == XTime(x0, n, p);
      XorAssoc(r0, if y0 % 2 == 1 then x0 else 0, MulLoop(x, y, n, p, n - i - 1));
      XorZeroRight(r0);
      i := i + 1;
    }
    XorZeroRight(r);
  }

  // ---------------------------------------------------------------
  // Facts about one step

  lemma XTimeZero(n: nat, p: nat)
    requires n >= 1
    ensures XTime(0, n, p) == 0
  {
    LowOfSmall(0, n);
    BitTop(0, n - 1);
  }

  lemma Xor4(a: nat, b: nat, c: nat, d: nat)
    ensures Xor(Xor(a, b), Xor(c, d)) == Xor(Xor(a, c), Xor(b, d))
  {
    XorAssoc(a, b, Xor(c, d));
    XorAssoc(b, c, d);
    XorComm(b, c);
    XorAssoc(c, b, d);
    XorAssoc(a, c, Xor(b, d));
  }

  /** Conditionally adding the same mask on both sides of an XOR. */
  lemma XorMasked(x: nat, y: nat, cx: bool, cy: bool, m: nat)
    ensures Xor(if cx then Xor(x, m) else x, if cy then Xor(y, m) else y)
         == (if cx != cy then Xor(Xor(x, y), m) else Xor(x, y))
  {
    if cx && cy {
      Xor4(x, m, y, m);
      XorSelf(m);
      XorZeroRight(Xor(x, y));
    } else if cx {
      XorAssoc(x, m, y);
      XorComm(m, y);
      XorAssoc(x, y, m);
    } else if cy {
      XorAssoc(x, y, m);
    }
  }

  /** The step is linear over XOR. */
  lemma XTimeXor(a: nat, c: nat, n: nat, p: nat)
    requires n >= 1
    ensures XTime(Xor(a, c), n, p) == Xor(XTime(a, n, p), XTime(c, n, p))
  {
    var x := Xor(a, c);
    var sa, sc, m := Low(2 * a, n), Low(2 * c, n), Low(p, n);
    XorDouble(a, c);
    XorLow(2 * a, 2 * c, n);
    assert Low(2 * x, n) == Xor(sa, sc);
    BitOfXor(a, c, n - 1);
    assert (Bit(x, n - 1) == 1) == ((Bit(a, n - 1) == 1) != (Bit(c, n - 1) == 1));
    XorMasked(sa, sc, Bit(a, n - 1) == 1, Bit(c, n - 1) == 1, m);
    assert XTime(a, n, p) == if Bit(a, n - 1) == 1 then Xor(sa, m) else sa;
    assert XTime(c, n, p) == if Bit(c, n - 1) == 1 then Xor(sc, m) else sc;
  }

  /** Without a carry the step is a plain doubling. */
  lemma XTimeDouble(c: nat, n: nat, p: nat)
    requires n >= 1 && c < Pow2(n - 1)
    ensures XTime(c, n, p) == 2 * c
  {
    BitTop(c, n - 1);
    LowOfSmall(2 * c, n);
  }

  // ---------------------------------------------------------------
  // Facts about the loop, for any number of iterations

  lemma {:induction false} MulLoopBound(a: nat, b: nat, n: nat, p: nat, k: nat)
    requires k == 0 || n >= 1
    requires a < Pow2(n)
    ensures MulLoop(a, b, n, p, k) < Pow2(n)
    decreases k
  {
    if k > 0 {
      MulLoopBound(XTime(a, n, p), b / 2, n, p, k - 1);
      XorBound(if b % 2 == 1 then a else 0, MulLoop(XTime(a, n, p), b / 2, n, p, k - 1), n);
    }
  }

  lemma {:induction false} MulLoopZeroRight(a: nat, n: nat, p: nat, k: nat)
    requires k == 0 || n >= 1
    ensures MulLoop(a, 0, n, p, k) == 0
    decreases k
  {
    if k > 0 {
      MulLoopZeroRight(XTime(a, n, p), n, p, k - 1);
    }
  }

  lemma {:induction false} MulLoopZeroLeft(b: nat, n: nat, p: nat, k: nat)
    requires k == 0 || n >= 1
    ensures MulLoop(0, b, n, p, k) == 0
    decreases k
  {
    if k > 0 {
      XTimeZero(n, p);
      MulLoopZeroLeft(b / 2, n, p, k - 1);
    }
  }

  lemma {:induction false} MulLoopXorLeft(a: nat, c: nat, b: nat, n: nat, p: nat, k: nat)
    requires k == 0 || n >= 1
    ensures MulLoop(Xor(a, c), b, n, p, k) == Xor(MulLoop(a, b, n, p, k), MulLoop(c, b, n, p, k))
    decreases k
  {
    if k > 0 {
      XTimeXor(a, c, n, p);
      MulLoopXorLeft(XTime(a, n, p), XTime(c, n, p), b / 2, n, p, k - 1);
      var ra := MulLoop(XTime(a, n, p), b / 2, n, p, k - 1);
      var rc := MulLoop(XTime(c, n, p), b / 2, n, p, k - 1);
      if b % 2 == 1 {
        Xor4(a, c, ra, rc);
      } else {
        assert Xor(0, Xor(ra, rc)) == Xor(Xor(0, ra), Xor(0, rc));
      }
    }
  }

  lemma {:induction false} MulLoopXorRight(a: nat, b: nat, d: nat, n: nat, p: nat, k: nat)
    requires k == 0 || n >= 1
    ensures MulLoop(a, Xor(b, d), n, p, k) == Xor(MulLoop(a, b, n, p, k), MulLoop(a, d, n, p, k))
    decreases k
  {
    if k > 0 {
      var xa := XTime(a, n, p);
      XorHalf(b, d);
      MulLoopXorRight(xa, b / 2, d / 2, n, p, k - 1);
      var rb := MulLoop(xa, b / 2, n, p, k - 1);
      var rd := MulLoop(xa, d / 2, n, p, k - 1);
      var sb := if b % 2 == 1 then a else 0;
      var sd := if d % 2 == 1 then a else 0;
      var bd := Xor(b, d);
      assert MulLoop(a, bd, n, p, k) == Xor(if bd % 2 == 1 then a else 0, Xor(rb, rd));
      Xor4(sb, rb, sd, rd);
      if b % 2 == 1 && d % 2 == 1 {
        XorSelf(a);
      } else {
        XorZeroRight(sb);
      }
      assert (if bd % 2 == 1 then a else 0) == Xor(sb, sd);
    }
  }

  /** Multiplying by the stepped operand is stepping the product. */
  lemma {:induction false} MulLoopXTime(a: nat, b: nat, n: nat, p: nat, k: nat)
    requires n >= 1
    ensures MulLoop(XTime(a, n, p), b, n, p, k) == XTime(MulLoop(a, b, n, p, k), n, p)
    decreases k
  {
    if k == 0 {
      XTimeZero(n, p);
    } else {
      MulLoopXTime(XTime(a, n, p), b / 2, n, p, k - 1);
      var rest := MulLoop(XTime(a, n, p), b / 2, n, p, k - 1);
      XTimeXor(if b % 2 == 1 then a else 0, rest, n, p);
      if b % 2 == 0 {
        XTimeZero(n, p);
      }
    }
  }

  /** Iterations beyond the bit length of b add nothing. */
  lemma {:induction false} MulLoopExtend(a: nat, b: nat, n: nat, p: nat, k: nat)
    requires n >= 1 && b < Pow2(k)
    ensures MulLoop(a, b, n, p, k + 1) == MulLoop(a, b, n, p, k)
    decreases k
  {
    if k == 0 {
      MulLoopZeroRight(XTime(a, n, p), n, p, 0);
    } else {
      MulLoopExtend(XTime(a, n, p), b / 2, n, p, k - 1);
    }
  }

  // ---------------------------------------------------------------
  // Field laws of MulSlow on elements below 2^n

  /** The product of two elements is an element. */
  lemma MulBound(a: nat, b: nat, n: nat, p: nat)
    requires a < Pow2(n)
    ensures MulSlow(a, b, n, p) < Pow2(n)
  {
    MulLoopBound(a, b, n, p, n);
  }

  lemma MulZero(a: nat, n: nat, p: nat)
    ensures MulSlow(a, 0, n, p) == 0 && MulSlow(0, a, n, p) == 0
  {
    MulLoopZeroRight(a, n, p, n);
    MulLoopZeroLeft(a, n, p, n);
  }

  lemma MulXorLeft(a: nat, c: nat, b: nat, n: nat, p: nat)
    ensures MulSlow(Xor(a, c), b, n, p) == Xor(MulSlow(a, b, n, p), MulSlow(c, b, n, p))
  {
    MulLoopXorLeft(a, c, b, n, p, n);
  }

  lemma MulXorRight(a: nat, b: nat, d: nat, n: nat, p: nat)
    ensures MulSlow(a, Xor(b, d), n, p) == Xor(MulSlow(a, b, n, p), MulSlow(a, d, n, p))
  {
    MulLoopXorRight(a, b, d, n, p, n);
  }

  /** Peeling off the lowest bit of the right operand. */
  lemma MulHalf(a: nat, b: nat, n: nat, p: nat)
    requires n >= 1 && b < Pow2(n)
    ensures MulSlow(a, b, n, p)
         == Xor(if b % 2 == 1 then a else 0, XTime(MulSlow(a, b / 2, n, p), n, p))
  {
    MulLoopExtend(XTime(a, n, p), b / 2, n, p, n - 1);
    MulLoopXTime(a, b / 2, n, p, n);
  }

  lemma MulOneRight(a: nat, n: nat, p: nat)
    requires a < Pow2(n)
    ensures MulSlow(a, 1, n, p) == a
  {
    if n >= 1 {
      MulLoopZeroRight(XTime(a, n, p), n, p, n - 1);
      XorZeroRight(a);
    }
  }

  lemma {:induction false} MulOneLeft(b: nat, n: nat, p: nat)
    requires b < Pow2(n)
    ensures MulSlow(1, b, n, p) == b
  {
    if b == 0 {
      MulZero(1, n, p);
    } else {
      assert n >= 1;
      MulOneLeft(b / 2, n, p);
      MulHalf(1, b, n, p);
      XTimeDouble(b / 2, n, p);
      XorDef(b % 2, 2 * (b / 2));
    }
  }

  /** x * (y / 2) written back as a doubling, for the commutativity proof. */
  lemma SelSwap(a: nat, b: nat, n: nat, p: nat)
    requires n >= 1 && a < Pow2(n) && b < Pow2(n)
    ensures Xor(if b % 2 == 1 then a else 0, XTime(if a % 2 == 1 then b / 2 else 0, n, p))
         == Xor(if a % 2 == 1 then b else 0, XTime(if b % 2 == 1 then a / 2 else 0, n, p))
  {
    XTimeZero(n, p);
    XTimeDouble(a / 2, n, p);
    XTimeDouble(b / 2, n, p);
    XorDef(a % 2, 2 * (a / 2));
    XorDef(b % 2, 2 * (b / 2));
    if a % 2 == 1 && b % 2 == 1 {
      assert a == Xor(1, 2 * (a / 2));
      assert b == Xor(1, 2 * (b / 2));
      XorAssoc(1, 2 * (a / 2), 2 * (b / 2));
      XorAssoc(1, 2 * (b / 2), 2 * (a / 2));
      XorComm(2 * (a / 2), 2 * (b / 2));
    } else {
      XorZeroRight(a);
      XorZeroRight(b);
    }
  }

  lemma {:induction false} MulComm(a: nat, b: nat, n: nat, p: nat)
    requires a < Pow2(n) && b < Pow2(n)
    ensures MulSlow(a, b, n, p) == MulSlow(b, a, n, p)
    decreases a + b
  {
    if a == 0 || b == 0 {
      MulZero(a, n, p);
      MulZero(b, n, p);
    } else {
      assert n >= 1;
      MulComm(a, b / 2, n, p);
      MulComm(b, a / 2, n, p);
      MulComm(a / 2, b / 2, n, p);
      MulHalf(a, b, n, p);
      MulHalf(b, a, n, p);
      MulHalf(b / 2, a, n, p);
      MulHalf(a / 2, b, n, p);
      var m := MulSlow(a / 2, b / 2, n, p);
      var u := if a % 2 == 1 then b / 2 else 0;
      var v := if b % 2 == 1 then a / 2 else 0;
      // a * b == sel_b(a) ^ xt(u ^ xt(m)) and b * a == sel_a(b) ^ xt(v ^ xt(m))
      MulBound(a / 2, b / 2, n, p);
      XTimeXor(u, XTime(m, n, p), n, p);
      XTimeXor(v, XTime(m, n, p), n, p);
      var sb := if b % 2 == 1 then a else 0;
      var sa := if a % 2 == 1 then b else 0;
      var xx := XTime(XTime(m, n, p), n, p);
      XorAssoc(sb, XTime(u, n, p), xx);
      XorAssoc(sa, XTime(v, n, p), xx);
      SelSwap(a, b, n, p);
    }
  }

  lemma {:induction false} MulAssoc(a: nat, b: nat, c: nat, n: nat, p: nat)
    requires a < Pow2(n) && b < Pow2(n) && c < Pow2(n)
    ensures MulSlow(MulSlow(a, b, n, p), c, n, p) == MulSlow(a, MulSlow(b, c, n, p), n, p)
    decreases c
  {
    var ab := MulSlow(a, b, n, p);
    MulBound(a, b, n, p);
    if c == 0 {
      MulZero(ab, n, p);
      MulZero(b, n, p);
      MulZero(a, n, p);
    } else {
      assert n >= 1;
      MulAssoc(a, b, c / 2, n, p);
      var y := MulSlow(b, c / 2, n, p);
      MulBound(b, c / 2, n, p);
      MulHalf(ab, c, n, p);
      MulHalf(b, c, n, p);
      var sel := if c % 2 == 1 then b else 0;
      MulXorRight(a, sel, XTime(y, n, p), n, p);
      if c % 2 == 0 {
        MulZero(a, n, p);
      }
      // a * xt(y) == xt(a * y)
      MulComm(a, XTime(y, n, p), n, p);
      MulLoopXTime(y, a, n, p, n);
      MulComm(y, a, n, p);
    }
  }

  // ---------------------------------------------------------------
  // Inverse and powers

  /** The search of `_gf_find_inverse` over candidates x in [from, 2^n). */
  function InverseFrom(a: nat, n: nat, p: nat, from: nat): (r: nat)
    requires from >= 1
    ensures r == 0 || (from <= r < Pow2(n) && MulSlow(a, r, n, p) == 1)
    ensures r == 0 ==> forall x :: from <= x < Pow2(n) ==> MulSlow(a, x, n, p) != 1
    ensures r != 0 ==> forall x :: from <= x < r ==> MulSlow(a, x, n, p) != 1
    decreases Pow2(n) - from
  {
    if from >= Pow2(n) then 0
    else if MulSlow(a, from, n, p) == 1 then from
    else InverseFrom(a, n, p, from + 1)
  }

  /** `_gf_find_inverse(a, n, poly)`: 0 for a == 0, else the least x >= 1 with
      a * x == 1, or 0 when there is none. */
  function FindInverse(a: nat, n: nat, p: nat): nat
  {
    if a == 0 then 0 else InverseFrom(a, n, p, 1)
  }

  lemma FindInverseSpec(a: nat, n: nat, p: nat)
    ensures var r := FindInverse(a, n, p);
      && r < Pow2(n)
      && (a == 0 ==> r == 0)
      && (r != 0 ==> MulSlow(a, r, n, p) == 1 && forall x :: 1 <= x < r ==> MulSlow(a, x, n, p) != 1)
      && (r == 0 && a != 0 ==> forall x :: 1 <= x < Pow2(n) ==> MulSlow(a, x, n, p) != 1)
  {
  }

  /** The brute-force search as the Python loop runs it. */
  method GfFindInverse(a: nat, n: nat, p: nat) returns (r: nat)
    ensures r == FindInverse(a, n, p)
  {
    if a == 0 {
      return 0;
    }
    var size := Pow2(n);
    var x := 1;
    while x < size
      invariant 1 <= x <= size
      invariant InverseFrom(a, n, p, x) == InverseFrom(a, n, p, 1)
      decreases size - x
    {
      var m := GfMulSlow(a, x, n, p);
      if m == 1 {
        return x;
      }
      x := x + 1;
    }
    return 0;
  }

  /** `g` multiplied into 1 k times, the antilog table's entry k. */
  function GPow(g: nat, k: nat, n: nat, p: nat): nat
  {
    if k == 0 then 1 else MulSlow(GPow(g, k - 1, n, p), g, n, p)
  }

  lemma {:induction false} GPowBound(g: nat, k: nat, n: nat, p: nat)
    requires n >= 1
    ensures GPow(g, k, n, p) < Pow2(n)
  {
    if k > 0 {
      GPowBound(g, k - 1, n, p);
      MulBound(GPow(g, k - 1, n, p), g, n, p);
    }
  }

  /** x^i with the convention 0^0 == 1. */
  function Power(x: nat, i: nat, n: nat, p: nat): nat
  {
    if i == 0 then 1 else MulSlow(x, Power(x, i - 1, n, p), n, p)
  }

  lemma {:induction false} PowerBound(x: nat, i: nat, n: nat, p: nat)
    requires n >= 1 && x < Pow2(n)
    ensures Power(x, i, n, p) < Pow2(n)
  {
    if i > 0 {
      PowerBound(x, i - 1, n, p);
      MulBound(x, Power(x, i - 1, n, p), n, p);
    }
  }

  /** The field test the round trip needs: every nonzero element has an inverse. */
  ghost predicate HasInverses(n: nat, p: nat)
  {
    forall a :: 0 < a < Pow2(n) ==> MulSlow(a, FindInverse(a, n, p), n, p) == 1
  }
}
