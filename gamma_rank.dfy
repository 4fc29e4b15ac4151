/** `computations/rank/gamma_rank.py`: the graph set of a function, each
    pair (x, f(x)) packed as `(x << n) | f(x)`, and the 0/1 matrix whose
    row x has ones at the columns x ^ y for y in a set of words. The rank
    over GF(2) that the repository then asks Sage for is not modelled. */
module GammaRank {
  import opened Bits
  import opened Outcomes
  import opened Ddt

  /** `oplus(x, y)`: bitwise XOR, which undoes itself. */
  function Oplus(x: nat, y: nat): (r: nat)
    ensures Xor(r, y) == x
    ensures r == Xor(y, x)
  {
    XorAssoc(x, y, y);
    XorSelf(y);
    XorZeroRight(x);
    XorComm(x, y);
    Xor(x, y)
  }

  // ---------------------------------------------------------------
  // Packing two n-bit words

  /** `(hi << n) | lo`. */
  function Pack(hi: nat, lo: nat, n: nat): nat
  {
    Or(hi * Pow2(n), lo)
  }

  /** With lo below 2^n the or is an addition. */
  lemma {:induction false} PackAdds(hi: nat, lo: nat, n: nat)
    requires lo < Pow2(n)
    ensures Pack(hi, lo, n) == hi * Pow2(n) + lo
    decreases n
  {
    if n > 0 {
      var h := hi * Pow2(n - 1);
      assert hi * Pow2(n) == 2 * h;
      PackAdds(hi, lo / 2, n - 1);
    }
  }

  /** A nonzero multiple of s is at least s away from 0. */
  lemma MulAwayFromZero(d: int, s: int)
    requires s >= 0
    ensures d >= 1 ==> d * s >= s
    ensures d <= -1 ==> d * s <= -s
  {
    if d >= 1 {
      var e := d - 1;
      assert d * s == e * s + s;
    } else if d <= -1 {
      var e := -d - 1;
      assert d * s == -(e * s) - s;
    }
  }

  /** Quotient and remainder are unique. */
  lemma DivUnique(x: int, s: int, q: int, r: int)
    requires 0 <= r < s && x == q * s + r
    ensures x / s == q && x % s == r
  {
    var q', r' := x / s, x % s;
    assert x == q' * s + r';
    MulAwayFromZero(q - q', s);
    assert (q - q') * s == q * s - q' * s;
  }

  /** Packing is undone by `>> n` and `& (2^n - 1)`, so it is one to one. */
  lemma PackUnpack(hi: nat, lo: nat, n: nat)
    requires lo < Pow2(n)
    ensures Pack(hi, lo, n) / Pow2(n) == hi && Pack(hi, lo, n) % Pow2(n) == lo
  {
    PackAdds(hi, lo, n);
    DivUnique(Pack(hi, lo, n), Pow2(n), hi, lo);
  }

  /** Packing orders pairs lexicographically. */
  lemma PackLess(a1: nat, b1: nat, a2: nat, b2: nat, n: nat)
    requires b1 < Pow2(n) && b2 < Pow2(n)
    requires a1 < a2 || (a1 == a2 && b1 < b2)
    ensures Pack(a1, b1, n) < Pack(a2, b2, n)
  {
    PackAdds(a1, b1, n);
    PackAdds(a2, b2, n);
    MulAwayFromZero(a2 - a1, Pow2(n));
    assert (a2 - a1) * Pow2(n) == a2 * Pow2(n) - a1 * Pow2(n);
  }

  lemma {:induction false} Pow2Add(a: nat, b: nat)
    ensures Pow2(a + b) == Pow2(a) * Pow2(b)
    decreases a
  {
    if a > 0 {
      Pow2Add(a - 1, b);
      assert Pow2(a + b) == 2 * Pow2(a - 1 + b);
      DoubleTimes(Pow2(a - 1), Pow2(b));
    }
  }

  lemma DoubleTimes(p: nat, q: nat)
    ensures (2 * p) * q == 2 * (p * q)
  {
  }

  lemma Pow2Double(a: nat)
    ensures Pow2(2 * a) == Pow2(a) * Pow2(a)
  {
    Pow2Add(a, a);
    assert a + a == 2 * a;
  }

  lemma BelowSquare(hi: nat, lo: nat, s: nat)
    requires hi < s && lo < s
    ensures hi * s + lo < s * s
  {
    MulAwayFromZero(s - hi, s);
    assert (s - hi) * s == s * s - hi * s;
  }

  /** Two n-bit words pack into a 2n-bit word. */
  lemma PackBound(hi: nat, lo: nat, n: nat)
    requires hi < Pow2(n) && lo < Pow2(n)
    ensures Pack(hi, lo, n) < Pow2(2 * n)
  {
    PackAdds(hi, lo, n);
    BelowSquare(hi, lo, Pow2(n));
    Pow2Double(n);
  }

  // ---------------------------------------------------------------
  // The gamma set

  /** `gamma = [(x << n) | f[x] for x in range(1 << n)]`. */
  function Gamma(f: seq<nat>, n: nat): (g: seq<nat>)
    requires IsLut(f, n)
    ensures |g| == Pow2(n)
    ensures forall x :: 0 <= x < |g| ==> g[x] == Pack(x, f[x], n)
  {
    seq(Pow2(n), x requires 0 <= x < Pow2(n) => Pack(x, f[x], n))
  }

  /** For a map on n-bit words, entry x of gamma decodes to (x, f[x]), the
      entries increase strictly (so they are pairwise distinct), and each is
      a 2n-bit word. */
  lemma GammaOfMap(f: seq<nat>, n: nat)
    requires IsMap(f, n)
    ensures forall x :: 0 <= x < Pow2(n) ==>
      Gamma(f, n)[x] / Pow2(n) == x && Gamma(f, n)[x] % Pow2(n) == f[x] && Gamma(f, n)[x] < Pow2(2 * n)
    ensures forall i, j :: 0 <= i < j < Pow2(n) ==> Gamma(f, n)[i] < Gamma(f, n)[j]
  {
    var g := Gamma(f, n);
    forall x | 0 <= x < Pow2(n)
      ensures g[x] / Pow2(n) == x && g[x] % Pow2(n) == f[x] && g[x] < Pow2(2 * n)
    {
      PackUnpack(x, f[x], n);
      PackBound(x, f[x], n);
    }
    forall i, j | 0 <= i < j < Pow2(n)
      ensures g[i] < g[j]
    {
      PackLess(i, f[i], j, f[j], n);
    }
  }

  lemma MapGammaFits(f: seq<nat>, n: nat)
    requires IsLut(f, n)
    ensures IsMap(f, n) ==> forall x :: 0 <= x < Pow2(n) ==> Pack(x, f[x], n) < Pow2(2 * n)
  {
    if IsMap(f, n) {
      GammaOfMap(f, n);
    }
  }

  // ---------------------------------------------------------------
  // The matrix

  /** Some y among the first k of ys has x ^ y == c. */
  ghost predicate HitBelow(x: nat, ys: seq<nat>, k: nat, c: nat)
    requires k <= |ys|
  {
    exists j :: 0 <= j < k && Xor(x, ys[j]) == c
  }

  /** Row x: a one at column c exactly when c == x ^ y for some y in ys. */
  ghost predicate IsRow(x: nat, ys: seq<nat>, row: seq<nat>)
  {
    forall c :: 0 <= c < |row| ==> row[c] == if HitBelow(x, ys, |ys|, c) then 1 else 0
  }

  /** The columns of row x that hold a one. */
  ghost function Ones(row: seq<nat>): set<nat>
  {
    set c | 0 <= c < |row| && row[c] == 1
  }

  /** The columns x ^ y for the first k words y. */
  ghost function Shifted(x: nat, ys: seq<nat>, k: nat): set<nat>
    requires k <= |ys|
  {
    set j | 0 <= j < k :: Xor(x, ys[j])
  }

  /** XOR with x is one to one. */
  lemma XorCancel(x: nat, a: nat, b: nat)
    requires Xor(x, a) == Xor(x, b)
    ensures a == b
  {
    XorAssoc(x, x, a);
    XorAssoc(x, x, b);
    XorSelf(x);
  }

  /** Distinct words give distinct columns. */
  lemma {:induction false} ShiftedSize(x: nat, ys: seq<nat>, k: nat)
    requires k <= |ys|
    requires forall i, j :: 0 <= i < j < |ys| ==> ys[i] != ys[j]
    ensures |Shifted(x, ys, k)| == k
    decreases k
  {
    if k > 0 {
      ShiftedSize(x, ys, k - 1);
      ShiftedStep(x, ys, k);
      ShiftedFresh(x, ys, k);
    } else {
      assert Shifted(x, ys, 0) == {};
    }
  }

  /** One more word adds its column. */
  lemma ShiftedStep(x: nat, ys: seq<nat>, k: nat)
    requires 0 < k <= |ys|
    ensures Shifted(x, ys, k) == Shifted(x, ys, k - 1) + {Xor(x, ys[k - 1])}
  {
    forall c | c in Shifted(x, ys, k)
      ensures c in Shifted(x, ys, k - 1) + {Xor(x, ys[k - 1])}
    {
      var j :| 0 <= j < k && Xor(x, ys[j]) == c;
      if j < k - 1 {
        assert c in Shifted(x, ys, k - 1);
      }
    }
  }

  /** The column of a word differs from those of the words before it. */
  lemma ShiftedFresh(x: nat, ys: seq<nat>, k: nat)
    requires 0 < k <= |ys|
    requires forall i, j :: 0 <= i < j < |ys| ==> ys[i] != ys[j]
    ensures Xor(x, ys[k - 1]) !in Shifted(x, ys, k - 1)
  {
    if Xor(x, ys[k - 1]) in Shifted(x, ys, k - 1) {
      var j :| 0 <= j < k - 1 && Xor(x, ys[j]) == Xor(x, ys[k - 1]);
      XorCancel(x, ys[j], ys[k - 1]);
      assert false;
    }
  }

  /** A row over pairwise distinct words that all land inside it has one
      one per word: row x of the gamma matrix of a map on n-bit words has
      2^n ones. */
  lemma RowOnes(x: nat, ys: seq<nat>, row: seq<nat>)
    requires IsRow(x, ys, row)
    requires forall j :: 0 <= j < |ys| ==> Xor(x, ys[j]) < |row|
    requires forall i, j :: 0 <= i < j < |ys| ==> ys[i] != ys[j]
    ensures |Ones(row)| == |ys|
  {
    forall c | c in Ones(row)
      ensures c in Shifted(x, ys, |ys|)
    {
      var j :| 0 <= j < |ys| && Xor(x, ys[j]) == c;
    }
    forall c | c in Shifted(x, ys, |ys|)
      ensures c in Ones(row)
    {
      var j :| 0 <= j < |ys| && Xor(x, ys[j]) == c;
      assert HitBelow(x, ys, |ys|, c);
    }
    assert Ones(row) == Shifted(x, ys, |ys|);
    ShiftedSize(x, ys, |ys|);
  }

  /** Every row of the gamma matrix of a map on n-bit words has 2^n ones. */
  lemma GammaRowOnes(f: seq<nat>, n: nat, x: nat, row: seq<nat>)
    requires IsMap(f, n) && x < Pow2(2 * n) && |row| == Pow2(2 * n)
    requires IsRow(x, Gamma(f, n), row)
    ensures |Ones(row)| == Pow2(n)
  {
    var g := Gamma(f, n);
    GammaOfMap(f, n);
    forall j | 0 <= j < |g|
      ensures Xor(x, g[j]) < |row|
    {
      XorBound(x, g[j], 2 * n);
    }
    RowOnes(x, g, row);
  }

  /** The inner loop for row x: `row = [0]*dim`, then `row[x ^ y] = 1` for
      every y, IndexError on the first y with x ^ y >= dim. */
  method BuildRow(x: nat, ys: seq<nat>, dim: nat) returns (r: Result<seq<nat>>)
    ensures r.Err? <==> exists j :: 0 <= j < |ys| && Xor(x, ys[j]) >= dim
    ensures r.Ok? ==> |r.value| == dim && IsRow(x, ys, r.value)
  {
    var row := seq(dim, _ => 0);
    var i := 0;
    while i < |ys|
      invariant i <= |ys| && |row| == dim
      invariant forall j :: 0 <= j < i ==> Xor(x, ys[j]) < dim
      invariant forall c :: 0 <= c < dim ==> row[c] == if HitBelow(x, ys, i, c) then 1 else 0
    {
      var column := Oplus(x, ys[i]);
      if column >= dim {
        return Err("IndexError: list assignment index out of range");
      }
      row := row[column := 1];
      forall c | 0 <= c < dim
        ensures row[c] == if HitBelow(x, ys, i + 1, c) then 1 else 0
      {
        if c != column && HitBelow(x, ys, i + 1, c) {
          var j :| 0 <= j < i + 1 && Xor(x, ys[j]) == c;
          assert HitBelow(x, ys, i, c);
        }
      }
      i := i + 1;
    }
    return Ok(row);
  }

  /** The matrix loop over x in 0 .. 2^k - 1: one row each, as
      `compute_rank` builds it in both the gamma and the delta rank. It
      fails exactly when some y is not below 2^k (row 0 already fails). */
  method MatrixContent(ys: seq<nat>, k: nat) returns (r: Result<seq<seq<nat>>>)
    ensures r.Err? <==> exists j :: 0 <= j < |ys| && ys[j] >= Pow2(k)
    ensures r.Ok? ==> |r.value| == Pow2(k) && forall x :: 0 <= x < Pow2(k) ==>
      |r.value[x]| == Pow2(k) && IsRow(x, ys, r.value[x])
  {
    var dim := Pow2(k);
    var matContent: seq<seq<nat>> := [];
    var x := 0;
    while x < dim
      invariant x <= dim && |matContent| == x
      invariant x > 0 ==> forall j :: 0 <= j < |ys| ==> ys[j] < dim
      invariant forall z :: 0 <= z < x ==> |matContent[z]| == dim && IsRow(z, ys, matContent[z])
    {
      var row := BuildRow(x, ys, dim);
      if row.Err? {
        RowFailsOnlyOnLargeWord(x, ys, k);
        return Err(row.error);
      }
      if x == 0 {
        forall j | 0 <= j < |ys|
          ensures ys[j] < dim
        {
          assert Xor(0, ys[j]) == ys[j];
        }
      }
      matContent := matContent + [row.value];
      x := x + 1;
    }
    return Ok(matContent);
  }

  /** Below 2^k, x ^ y leaves the range only when y does. */
  lemma RowFailsOnlyOnLargeWord(x: nat, ys: seq<nat>, k: nat)
    requires x < Pow2(k)
    requires exists j :: 0 <= j < |ys| && Xor(x, ys[j]) >= Pow2(k)
    ensures exists j :: 0 <= j < |ys| && ys[j] >= Pow2(k)
  {
    var j :| 0 <= j < |ys| && Xor(x, ys[j]) >= Pow2(k);
    if ys[j] < Pow2(k) {
      XorBound(x, ys[j], k);
    }
  }

  /** `compute_rank` up to the rank: the gamma set of f and its matrix over
      2n-bit words, which never fails for a map on n-bit words. */
  method GammaMatrix(f: seq<nat>, n: nat) returns (r: Result<seq<seq<nat>>>)
    requires IsLut(f, n)
    ensures r.Err? <==> exists x :: 0 <= x < Pow2(n) && Pack(x, f[x], n) >= Pow2(2 * n)
    ensures IsMap(f, n) ==> r.Ok?
    ensures r.Ok? ==> |r.value| == Pow2(2 * n) && forall x :: 0 <= x < Pow2(2 * n) ==>
      |r.value[x]| == Pow2(2 * n) && IsRow(x, Gamma(f, n), r.value[x])
  {
    var gamma := Gamma(f, n);
    MapGammaFits(f, n);
    r := MatrixContent(gamma, 2 * n);
  }
}
