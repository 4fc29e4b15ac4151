/** `c_src/invariants_computations.cpp`, last part: the field context
    `GF2nCtx`, whose antilog table lists the powers of alpha = 0x2 reduced by
    a polynomial bitmask and whose log table inverts it, and the table
    product and power. */
module CppField {
  import opened Bits
  import opened GaloisField
  import opened Ddt
  import opened GammaRank
  import opened CppFunction

  /** A reduction polynomial whose highest set bit is x^n, as the table
      construction assumes. */
  predicate HasDegree(poly: nat, n: nat)
  {
    Pow2(n) <= poly < Pow2(n + 1)
  }

  /** One antilog step: `next = prev << 1`, XORed with the polynomial when
      bit n of next is set. */
  function Step(prev: nat, n: nat, poly: nat): nat
  {
    var next := 2 * prev;
    if Bit(next, n) == 1 then Xor(next, poly) else next
  }

  /** alpha^i, one step at a time from alpha^0 == 1. */
  function Alog(n: nat, poly: nat, i: nat): nat
    decreases i
  {
    if i == 0 then 1 else Step(Alog(n, poly, i - 1), n, poly)
  }

  /** A step keeps an n-bit word an n-bit word. */
  lemma StepBound(prev: nat, n: nat, poly: nat)
    requires HasDegree(poly, n) && prev < Pow2(n)
    ensures Step(prev, n, poly) < Pow2(n)
  {
    var next := 2 * prev;
    assert Pow2(n + 1) == 2 * Pow2(n);
    BitTop(next, n);
    if Bit(next, n) == 1 {
      XorBound(next, poly, n + 1);
      BitOfXor(next, poly, n);
      BitTop(poly, n);
      BitTop(Xor(next, poly), n);
    }
  }

  /** Every power of alpha is an n-bit word. */
  lemma {:induction false} AlogBound(n: nat, poly: nat, i: nat)
    requires n >= 1 && HasDegree(poly, n)
    ensures Alog(n, poly, i) < Pow2(n)
    decreases i
  {
    if i > 0 {
      AlogBound(n, poly, i - 1);
      StepBound(Alog(n, poly, i - 1), n, poly);
    }
  }

  /** Every antilog entry below k is an n-bit word. */
  ghost predicate AlogFitsBelow(n: nat, poly: nat, k: nat)
  {
    forall i :: 0 <= i < k ==> Alog(n, poly, i) < Pow2(n)
  }

  /** Every entry the log loop reads, alpha^i for i below 2^n - 1, is an
      index of the log table: without this the write `logtbl[v] = i` leaves
      the table and the context is undefined. */
  ghost predicate AlogFits(n: nat, poly: nat)
  {
    AlogFitsBelow(n, poly, Pow2(n) - 1)
  }

  /** A polynomial whose highest bit is x^n builds a defined context. */
  lemma DegreeFits(n: nat, poly: nat)
    requires n >= 1 ==> HasDegree(poly, n)
    ensures AlogFits(n, poly)
  {
    forall i | 0 <= i < Pow2(n) - 1
      ensures Alog(n, poly, i) < Pow2(n)
    {
      AlogBound(n, poly, i);
    }
  }

  /** Without the x^2 bit the polynomial 0x1 reaches alpha^2 == 0x5, which
      is not a 2-bit word: the context for n == 2 is undefined. */
  lemma UndefinedContext()
    ensures !AlogFits(2, 1)
  {
    assert Pow2(2) == 4;
    assert Alog(2, 1, 1) == 2;
    assert Alog(2, 1, 2) == 5;
  }

  /** What `alogtbl[i]` holds: alpha^i below 2^n - 1, and the entry
      2^n - 1 that the loop never writes stays 0 (for n == 0 the one entry
      is 1). */
  function AlogEntry(n: nat, poly: nat, i: nat): nat
  {
    if i == 0 || i + 1 < Pow2(n) then Alog(n, poly, i) else 0
  }

  /** The last i below k with alpha^i == v, or 0 when there is none: what
      `logtbl[v]` holds once the entries below k are written, later
      writes winning. */
  function LastLog(n: nat, poly: nat, v: nat, k: nat): (i: nat)
    ensures i < k || i == 0
    decreases k
  {
    if k == 0 then 0
    else if Alog(n, poly, k - 1) == v then k - 1
    else LastLog(n, poly, v, k - 1)
  }

  /** `logtbl[v]` once the table is built. */
  function Log(n: nat, poly: nat, v: nat): nat
  {
    LastLog(n, poly, v, Pow2(n) - 1)
  }

  /** `gf_mul(x, y)` read off the tables: 0 when a factor is 0, else
      alpha^((log x + log y) mod (2^n - 1)). */
  function MulOf(n: nat, poly: nat, x: nat, y: nat): nat
    requires n >= 1
  {
    if x == 0 || y == 0 then 0
    else Alog(n, poly, (Log(n, poly, x) + Log(n, poly, y)) % (Pow2(n) - 1))
  }

  /** `gf_pow(x, d)` read off the tables: 0^0 == 1, 0^d == 0 for d > 0,
      else alpha^((log x * d) mod (2^n - 1)). */
  function PowOf(n: nat, poly: nat, x: nat, d: nat): nat
    requires n >= 1
  {
    if x == 0 then (if d == 0 then 1 else 0)
    else Alog(n, poly, (Log(n, poly, x) * d) % (Pow2(n) - 1))
  }

  /** In a defined context the table product is an n-bit word. */
  lemma MulOfBound(n: nat, poly: nat, x: nat, y: nat)
    requires n >= 1 && AlogFits(n, poly)
    ensures MulOf(n, poly, x, y) < Pow2(n)
  {
    if x != 0 && y != 0 {
      var e := (Log(n, poly, x) + Log(n, poly, y)) % (Pow2(n) - 1);
      assert e < Pow2(n) - 1;
    }
  }

  /** In a defined context the table power is an n-bit word. */
  lemma PowOfBound(n: nat, poly: nat, x: nat, d: nat)
    requires n >= 1 && AlogFits(n, poly)
    ensures PowOf(n, poly, x, d) < Pow2(n)
  {
    if x != 0 {
      var e := (Log(n, poly, x) * d) % (Pow2(n) - 1);
      assert e < Pow2(n) - 1;
    } else {
      assert Pow2(n) >= 2;
    }
  }

  /** `struct GF2nCtx`: n, size == 2^n, the polynomial, and the two tables
      of `size` entries that the constructor fills. */
  class GF2nCtx {
    const n: nat
    const size: nat
    const poly: nat
    const logtbl: array<nat>
    const alogtbl: array<nat>
    /** Whether every write of the log loop stayed inside `logtbl`; when it
        is false the C constructor has written out of range. */
    var defined: bool

    /** The tables hold the antilog and log entries for n and poly. */
    ghost predicate Valid()
      reads logtbl, alogtbl
    {
      && size == Pow2(n)
      && logtbl.Length == size && alogtbl.Length == size && logtbl != alogtbl
      && (forall i :: 0 <= i < size ==> alogtbl[i] == AlogEntry(n, poly, i))
      && (forall v :: 0 <= v < size ==> logtbl[v] == Log(n, poly, v))
    }

    /** `GF2nCtx(n, poly)`: two zeroed tables, then `build_tables()`. The
        construction is meant for 2^n up to 65536. The context is defined
        exactly when the antilog entries that index the log table are n-bit
        words, which a polynomial with highest bit x^n guarantees
        (`DegreeFits`). */
    constructor (n: nat, poly: nat)
      requires n <= 16
      ensures this.n == n && this.poly == poly && this.size == Pow2(n)
      ensures defined <==> AlogFits(n, poly)
      ensures defined ==> Valid()
      ensures forall i :: 0 <= i < alogtbl.Length ==> alogtbl[i] == AlogEntry(n, poly, i)
      ensures fresh(logtbl) && fresh(alogtbl)
    {
      this.n := n;
      this.size := Pow2(n);
      this.poly := poly;
      this.logtbl := new nat[Pow2(n)](_ => 0);
      this.alogtbl := new nat[Pow2(n)](_ => 0);
      new;
      FillAntilog();
      FillLog();
    }

    /** The first loop of `build_tables`: `alogtbl[0] = 1`, then each entry
        below size - 1 is one step on from the one before. */
    method FillAntilog()
      requires alogtbl.Length == size == Pow2(n)
      requires forall i :: 0 <= i < size ==> alogtbl[i] == 0
      modifies alogtbl
      ensures forall i :: 0 <= i < size ==> alogtbl[i] == AlogEntry(n, poly, i)
    {
      alogtbl[0] := 1;
      var i := 1;
      while i + 1 < size
        invariant 1 <= i && (size >= 2 ==> i < size)
        invariant AntilogBelow(i)
      {
        WriteNext(i);
        i := i + 1;
      }
    }

    /** The antilog entries below i are written, the others still 0. */
    ghost predicate AntilogBelow(i: nat)
      reads alogtbl
    {
      forall j :: 0 <= j < alogtbl.Length ==> alogtbl[j] == if j < i then Alog(n, poly, j) else 0
    }

    /** One iteration: `alogtbl[i]` is the step from `alogtbl[i - 1]`. */
    method WriteNext(i: nat)
      requires 1 <= i < alogtbl.Length && AntilogBelow(i)
      modifies alogtbl
      ensures AntilogBelow(i + 1)
    {
      var prev := alogtbl[i - 1];
      var next := 2 * prev;
      if Bit(next, n) == 1 {
        next := Xor(next, poly);
      }
      assert next == Alog(n, poly, i);
      alogtbl[i] := next;
    }

    /** The second loop of `build_tables`: `logtbl[alogtbl[i]] = i` for every
        i below size - 1; the first entry that is not an index of `logtbl`
        makes the context undefined. */
    method FillLog()
      requires logtbl.Length == size == Pow2(n) && alogtbl.Length == size && logtbl != alogtbl
      requires forall v :: 0 <= v < size ==> logtbl[v] == 0
      requires forall i :: 0 <= i < size ==> alogtbl[i] == AlogEntry(n, poly, i)
      modifies this, logtbl
      ensures defined <==> AlogFits(n, poly)
      ensures defined ==> Valid()
    {
      var i := 0;
      while i + 1 < size
        invariant i + 1 <= size
        invariant AlogFitsBelow(n, poly, i)
        invariant LoggedBelow(i)
      {
        var v := alogtbl[i];
        assert v == Alog(n, poly, i);
        if v >= size {
          defined := false;
          assert !AlogFitsBelow(n, poly, Pow2(n) - 1);
          return;
        }
        logtbl[v] := i;
        i := i + 1;
      }
      defined := true;
      assert LoggedBelow(Pow2(n) - 1);
    }

    /** `logtbl` holds what the writes for the entries below k leave. */
    ghost predicate LoggedBelow(k: nat)
      reads logtbl
    {
      forall v :: 0 <= v < logtbl.Length ==> logtbl[v] == LastLog(n, poly, v, k)
    }

    /** `gf_mul(ctx, x, y)`. */
    function Mul(x: nat, y: nat): (r: nat)
      reads logtbl, alogtbl
      requires Valid() && n >= 1 && x < size && y < size
      ensures r == MulOf(n, poly, x, y)
    {
      if x == 0 || y == 0 then 0
      else alogtbl[(logtbl[x] + logtbl[y]) % (size - 1)]
    }

    /** `gf_pow(ctx, x, d)`; d stays below 2^n, so `lx * d` fits 32 bits. */
    function Pow(x: nat, d: nat): (r: nat)
      reads logtbl, alogtbl
      requires Valid() && n >= 1 && x < size && d < size
      ensures r == PowOf(n, poly, x, d)
    {
      if x == 0 then (if d == 0 then 1 else 0)
      else alogtbl[(logtbl[x] * d) % (size - 1)]
    }
  }

  // ---------------------------------------------------------------
  // The antilog table lists the powers of the generator 0x2

  /** For a polynomial of degree n, the C step is the `xtime` step of the
      shift-and-XOR product. */
  lemma StepIsXTime(prev: nat, n: nat, poly: nat)
    requires n >= 1 && HasDegree(poly, n) && prev < Pow2(n)
    ensures Step(prev, n, poly) == XTime(prev, n, poly)
  {
    var next := 2 * prev;
    assert Bit(next, n) == Bit(prev, n - 1);
    assert Pow2(n + 1) == 2 * Pow2(n);
    BitTop(next, n);
    StepBound(prev, n, poly);
    if Bit(next, n) == 1 {
      LowOfSmall(Xor(next, poly), n);
      XorLow(next, poly, n);
    } else {
      LowOfSmall(next, n);
    }
  }

  /** Multiplying by 0x2 is one `xtime` step once the field has room for
      0x2. */
  lemma MulByTwo(a: nat, n: nat, p: nat)
    requires n >= 2
    ensures MulSlow(a, 2, n, p) == XTime(a, n, p)
  {
    var t := XTime(a, n, p);
    MulLoopZeroRight(XTime(t, n, p), n, p, n - 2);
    XorZeroRight(t);
    assert MulLoop(t, 1, n, p, n - 1) == t;
    XorComm(0, t);
    XorZeroRight(t);
  }

  /** `alogtbl[i]` is the i-th power of 0x2 computed by the shift-and-XOR
      product of the interpolation helpers. */
  lemma {:induction false} AlogIsGeneratorPower(n: nat, poly: nat, i: nat)
    requires n >= 2 && HasDegree(poly, n)
    ensures Alog(n, poly, i) == GPow(2, i, n, poly)
    decreases i
  {
    if i > 0 {
      AlogIsGeneratorPower(n, poly, i - 1);
      AlogBound(n, poly, i - 1);
      StepIsXTime(Alog(n, poly, i - 1), n, poly);
      MulByTwo(Alog(n, poly, i - 1), n, poly);
    }
  }

  // ---------------------------------------------------------------
  // Logarithms of a primitive polynomial

  /** 0x2 is primitive: its first 2^n - 1 powers are distinct nonzero
      words that cover every nonzero n-bit word. */
  ghost predicate Primitive(n: nat, poly: nat)
  {
    && n >= 1
    && (forall i :: 0 <= i < Pow2(n) - 1 ==> PowerAt(n, poly, i) != 0)
    && (forall i, j :: 0 <= i < j < Pow2(n) - 1 ==> PowerAt(n, poly, i) != PowerAt(n, poly, j))
    && (forall v :: 0 < v < Pow2(n) ==> IsPower(n, poly, v))
  }

  /** alpha^i under a name of its own, so that the quantifiers of
      `Primitive` apply only where a proof names this term. */
  ghost function PowerAt(n: nat, poly: nat, i: nat): nat
  {
    Alog(n, poly, i)
  }

  /** v is alpha^i for some i below 2^n - 1. */
  ghost predicate IsPower(n: nat, poly: nat, v: nat)
  {
    exists i :: 0 <= i < Pow2(n) - 1 && PowerAt(n, poly, i) == v
  }

  /** x^2 + x + 1 is primitive for n == 2: alpha runs through 1, 2, 3. */
  lemma PrimitiveExample()
    ensures Primitive(2, 7)
  {
    assert Pow2(2) == 4;
    assert Alog(2, 7, 1) == 2;
    assert Alog(2, 7, 2) == 3;
    assert IsPower(2, 7, 1) && PowerAt(2, 7, 0) == 1;
    assert IsPower(2, 7, 2) && PowerAt(2, 7, 1) == 2;
    assert IsPower(2, 7, 3) && PowerAt(2, 7, 2) == 3;
  }

  /** Once alpha^i is written, no later entry below k overwrites it. */
  lemma {:induction false} LastLogKeeps(n: nat, poly: nat, i: nat, k: nat)
    requires Primitive(n, poly) && i < k <= Pow2(n) - 1
    ensures LastLog(n, poly, Alog(n, poly, i), k) == i
    decreases k
  {
    if k - 1 != i {
      assert PowerAt(n, poly, i) != PowerAt(n, poly, k - 1);
      LastLogKeeps(n, poly, i, k - 1);
    }
  }

  /** The log table inverts the antilog table. */
  lemma LogOfAlog(n: nat, poly: nat, i: nat)
    requires Primitive(n, poly) && i < Pow2(n) - 1
    ensures Log(n, poly, Alog(n, poly, i)) == i
  {
    LastLogKeeps(n, poly, i, Pow2(n) - 1);
  }

  /** The antilog table inverts the log table on nonzero words. */
  lemma AlogOfLog(n: nat, poly: nat, v: nat)
    requires Primitive(n, poly) && 0 < v < Pow2(n)
    ensures Log(n, poly, v) < Pow2(n) - 1 && Alog(n, poly, Log(n, poly, v)) == v
  {
    assert IsPower(n, poly, v);
    var i :| 0 <= i < Pow2(n) - 1 && PowerAt(n, poly, i) == v;
    LogOfAlog(n, poly, i);
  }

  /** A remainder below the modulus is the number itself. */
  lemma ModSmall(x: nat, m: nat)
    requires x < m
    ensures x % m == x
  {
    DivUnique(x, m, 0, x);
  }

  /** Adding a multiple of m leaves the remainder alone. */
  lemma ModAddMultiple(x: nat, q: nat, m: nat)
    requires m > 0
    ensures (x + q * m) % m == x % m
  {
    assert x + q * m == (x / m + q) * m + x % m;
    DivUnique(x + q * m, m, x / m + q, x % m);
  }

  /** Reducing a summand first does not change the remainder of a sum. */
  lemma ModSum(a: nat, b: nat, m: nat)
    requires m > 0
    ensures (a % m + b) % m == (a + b) % m
  {
    assert a + b == (a % m + b) + (a / m) * m;
    ModAddMultiple(a % m + b, a / m, m);
  }

  /** 1 is the unit of the table product. */
  lemma MulOfOne(n: nat, poly: nat, a: nat)
    requires Primitive(n, poly) && 0 < a < Pow2(n)
    ensures MulOf(n, poly, a, 1) == a
  {
    LogOfAlog(n, poly, 0);
    AlogOfLog(n, poly, a);
    var la := Log(n, poly, a);
    ModSmall(la + Log(n, poly, 1), Pow2(n) - 1);
  }

  /** 1^d == 1. */
  lemma PowOfOne(n: nat, poly: nat, d: nat)
    requires Primitive(n, poly)
    ensures PowOf(n, poly, 1, d) == 1
  {
    LogOfAlog(n, poly, 0);
    assert Log(n, poly, 1) * d == 0;
    ModSmall(0, Pow2(n) - 1);
  }

  /** 0^d == 0 for d > 0, so a * 0^d + b == b. */
  lemma PowOfZero(n: nat, poly: nat, a: nat, d: nat)
    requires n >= 1 && d > 0
    ensures MulOf(n, poly, a, PowOf(n, poly, 0, d)) == 0
  {
  }

  /** The candidate of `is_monomial_impl`: multiplying a nonzero diff by
      x^(2^n - 1 - d) divides it by x^d, since x^(2^n - 1) == 1. */
  lemma CandidateSolves(n: nat, poly: nat, diff: nat, x: nat, d: nat)
    requires Primitive(n, poly) && HasDegree(poly, n)
    requires 0 < diff < Pow2(n) && 0 < x < Pow2(n) && d < Pow2(n)
    ensures var a := MulOf(n, poly, diff, PowOf(n, poly, x, Pow2(n) - 1 - d));
            MulOf(n, poly, a, PowOf(n, poly, x, d)) == diff
  {
    var ld, e1, e2, r1 := CandidateExponents(n, poly, diff, x, d);
    CancelAt(n, poly, diff, PowOf(n, poly, x, Pow2(n) - 1 - d), PowOf(n, poly, x, d), ld, e1, e2, r1);
  }

  /** The exponents of alpha in diff, x^(2^n - 1 - d) and x^d, which add up
      to that of diff. */
  lemma CandidateExponents(n: nat, poly: nat, diff: nat, x: nat, d: nat) returns (ld: nat, e1: nat, e2: nat, r1: nat)
    requires Primitive(n, poly)
    requires 0 < diff < Pow2(n) && 0 < x < Pow2(n) && d < Pow2(n)
    ensures ld < Pow2(n) - 1 && e1 < Pow2(n) - 1 && e2 < Pow2(n) - 1
    ensures diff == Alog(n, poly, ld)
    ensures PowOf(n, poly, x, Pow2(n) - 1 - d) == Alog(n, poly, e1) && PowOf(n, poly, x, d) == Alog(n, poly, e2)
    ensures r1 == (ld + e1) % (Pow2(n) - 1) && (r1 + e2) % (Pow2(n) - 1) == ld
  {
    var m := Pow2(n) - 1;
    var lx := Log(n, poly, x);
    ld := Log(n, poly, diff);
    AlogOfLog(n, poly, diff);
    PowOfLog(n, poly, x, m - d);
    PowOfLog(n, poly, x, d);
    e1, e2 := (lx * (m - d)) % m, (lx * d) % m;
    r1 := (ld + e1) % m;
    ExponentsCancel(ld, lx, d, m);
  }

  /** diff * p1 * p2 == diff when diff, p1 and p2 are the powers ld, e1
      and e2 of alpha and the exponents add up to ld. */
  lemma CancelAt(n: nat, poly: nat, diff: nat, p1: nat, p2: nat, ld: nat, e1: nat, e2: nat, r1: nat)
    requires Primitive(n, poly)
    requires ld < Pow2(n) - 1 && e1 < Pow2(n) - 1 && e2 < Pow2(n) - 1
    requires diff == Alog(n, poly, ld) && p1 == Alog(n, poly, e1) && p2 == Alog(n, poly, e2)
    requires r1 == (ld + e1) % (Pow2(n) - 1) && (r1 + e2) % (Pow2(n) - 1) == ld
    ensures MulOf(n, poly, MulOf(n, poly, diff, p1), p2) == diff
  {
    PowersCancel(n, poly, ld, e1, e2, r1);
  }

  /** A nonzero power is the antilog of the scaled log. */
  lemma PowOfLog(n: nat, poly: nat, x: nat, d: nat)
    requires n >= 1 && 0 < x
    ensures PowOf(n, poly, x, d) == Alog(n, poly, (Log(n, poly, x) * d) % (Pow2(n) - 1))
  {
  }

  /** alpha^ld * alpha^e1 * alpha^e2 == alpha^ld when the exponents add up
      to ld modulo 2^n - 1. */
  lemma PowersCancel(n: nat, poly: nat, ld: nat, e1: nat, e2: nat, r1: nat)
    requires Primitive(n, poly)
    requires ld < Pow2(n) - 1 && e1 < Pow2(n) - 1 && e2 < Pow2(n) - 1
    requires r1 == (ld + e1) % (Pow2(n) - 1)
    requires (r1 + e2) % (Pow2(n) - 1) == ld
    ensures MulOf(n, poly, MulOf(n, poly, Alog(n, poly, ld), Alog(n, poly, e1)), Alog(n, poly, e2)) == Alog(n, poly, ld)
  {
    MulOfPowers(n, poly, ld, e1);
    MulOfPowers(n, poly, r1, e2);
  }

  /** alpha^i * alpha^j == alpha^((i + j) mod (2^n - 1)). */
  lemma MulOfPowers(n: nat, poly: nat, i: nat, j: nat)
    requires Primitive(n, poly) && i < Pow2(n) - 1 && j < Pow2(n) - 1
    ensures MulOf(n, poly, Alog(n, poly, i), Alog(n, poly, j)) == Alog(n, poly, (i + j) % (Pow2(n) - 1))
  {
    assert PowerAt(n, poly, i) != 0 && PowerAt(n, poly, j) != 0;
    LogOfAlog(n, poly, i);
    LogOfAlog(n, poly, j);
  }

  /** ld + lx * (m - d) + lx * d == ld modulo m, whichever way the sum is
      reduced. */
  lemma ExponentsCancel(ld: nat, lx: nat, d: nat, m: nat)
    requires ld < m && d <= m
    ensures ((ld + (lx * (m - d)) % m) % m + (lx * d) % m) % m == ld
  {
    var r := m - d;
    Distributes(lx, r, d);
    assert r + d == m;
    RemaindersCancel(ld, lx * r, lx * d, lx, m);
  }

  /** Multiplication distributes over addition. */
  lemma Distributes(a: nat, b: nat, c: nat)
    ensures a * b + a * c == a * (b + c)
  {
  }

  /** Two summands that add up to a multiple of m cancel modulo m. */
  lemma RemaindersCancel(ld: nat, p: nat, q: nat, k: nat, m: nat)
    requires ld < m && p + q == k * m
    ensures ((ld + p % m) % m + q % m) % m == ld
  {
    ModSum(ld + p % m, q % m, m);
    ModSum(q, ld + p % m, m);
    ModSum(p, ld + q, m);
    ModAddMultiple(ld, k, m);
    ModSmall(ld, m);
  }

}
