/** The algebraic normal form of a Boolean function through the Möbius
    transform, and the degree read off it. The transform is a sequence of
    passes, one per bit i: the entry at every index m with bit i set gets
    the entry at m ^ (1 << i) added to it. Each pass undoes itself and the
    passes commute, so the whole transform is its own inverse. */
module Anf {
  import opened Bits

  // ---------------------------------------------------------------
  // Flipping one bit of an index

  /** `m ^ (1 << i)`. */
  function Flip(m: nat, i: nat): nat
  {
    Xor(m, Pow2(i))
  }

  lemma FlipBits(m: nat, i: nat, j: nat)
    ensures Bit(Flip(m, i), j) == if j == i then 1 - Bit(m, j) else Bit(m, j)
  {
    BitOfXor(m, Pow2(i), j);
    BitOfPow2(i, j);
  }

  lemma XorCancelRight(a: nat, b: nat)
    ensures Xor(Xor(a, b), b) == a
  {
    XorAssoc(a, b, b);
    XorSelf(b);
    XorZeroRight(a);
  }

  lemma FlipFlip(m: nat, i: nat)
    ensures Flip(Flip(m, i), i) == m
  {
    XorCancelRight(m, Pow2(i));
  }

  lemma FlipCommute(m: nat, i: nat, j: nat)
    ensures Flip(Flip(m, i), j) == Flip(Flip(m, j), i)
  {
    XorAssoc(m, Pow2(i), Pow2(j));
    XorAssoc(m, Pow2(j), Pow2(i));
    XorComm(Pow2(i), Pow2(j));
  }

  lemma FlipBound(m: nat, i: nat, n: nat)
    requires m < Pow2(n) && i < n
    ensures Flip(m, i) < Pow2(n)
  {
    Pow2Monotone(i, n);
    XorBound(m, Pow2(i), n);
  }

  /** Clearing a set bit i subtracts 2^i. */
  lemma {:induction false} FlipDown(m: nat, i: nat)
    requires Bit(m, i) == 1
    ensures Flip(m, i) + Pow2(i) == m
    decreases i
  {
    XorDef(m, Pow2(i));
    if i == 0 {
      XorZeroRight(m / 2);
    } else {
      assert Pow2(i) / 2 == Pow2(i - 1) && Pow2(i) % 2 == 0;
      FlipDown(m / 2, i - 1);
    }
  }

  /** Four sums regroup freely. */
  lemma XorSwapMiddle(a: nat, b: nat, c: nat, d: nat)
    ensures Xor(Xor(a, b), Xor(c, d)) == Xor(Xor(a, c), Xor(b, d))
  {
    XorAssoc(a, b, Xor(c, d));
    XorAssoc(b, c, d);
    XorComm(b, c);
    XorAssoc(c, b, d);
    XorAssoc(a, c, Xor(b, d));
  }

  // ---------------------------------------------------------------
  // The passes

  /** Entry m after the pass along bit i over the first 2^n entries. */
  function PassAt(f: seq<nat>, n: nat, i: nat, m: nat): nat
    requires Pow2(n) <= |f| && i < n && m < |f|
  {
    if m < Pow2(n) && Bit(m, i) == 1 then
      FlipBound(m, i, n);
      Xor(f[m], f[Flip(m, i)])
    else f[m]
  }

  /** The pass along bit i; entries from 2^n on are left alone. */
  function Pass(f: seq<nat>, n: nat, i: nat): (g: seq<nat>)
    requires Pow2(n) <= |f| && i < n
    ensures |g| == |f|
    ensures forall m :: 0 <= m < |f| ==> g[m] == PassAt(f, n, i, m)
  {
    seq(|f|, m requires 0 <= m < |f| => PassAt(f, n, i, m))
  }

  /** The passes along bits 0 .. k - 1, in that order. */
  function Transform(f: seq<nat>, n: nat, k: nat): (g: seq<nat>)
    requires k <= n && (k == 0 || Pow2(n) <= |f|)
    ensures |g| == |f|
  {
    if k == 0 then f else Pass(Transform(f, n, k - 1), n, k - 1)
  }

  /** The number of bits the transform of a list works on: the largest n
      with 2^n <= |f|, as `len(f).bit_length() - 1`, and 0 for an empty list. */
  function Dim(f: seq<nat>): (n: nat)
    ensures |f| > 0 ==> Pow2(n) <= |f| < 2 * Pow2(n)
  {
    if |f| == 0 then 0 else BitLength(|f|) - 1
  }

  /** The Möbius transform of a list, over its first 2^Dim(f) entries. */
  function Mobius(f: seq<nat>): (g: seq<nat>)
    ensures |g| == |f|
  {
    Transform(f, Dim(f), Dim(f))
  }

  /** A pass undoes itself. */
  lemma PassInvolution(f: seq<nat>, n: nat, i: nat)
    requires Pow2(n) <= |f| && i < n
    ensures Pass(Pass(f, n, i), n, i) == f
  {
    var g := Pass(f, n, i);
    var h := Pass(g, n, i);
    forall m | 0 <= m < |f|
      ensures h[m] == f[m]
    {
      if m < Pow2(n) && Bit(m, i) == 1 {
        var m' := Flip(m, i);
        FlipBound(m, i, n);
        FlipBits(m, i, i);
        assert g[m'] == f[m'];
        XorCancelRight(f[m], f[m']);
      }
    }
  }

  /** Entry m after the passes along i and then j, for distinct i and j,
      is the same whichever pass comes first. */
  lemma PassCommuteAt(f: seq<nat>, n: nat, i: nat, j: nat, m: nat)
    requires Pow2(n) <= |f| && i < n && j < n && i != j && m < |f|
    ensures Pass(Pass(f, n, i), n, j)[m] == Pass(Pass(f, n, j), n, i)[m]
  {
    var gi, gj := Pass(f, n, i), Pass(f, n, j);
    if m < Pow2(n) {
      var mi, mj := Flip(m, i), Flip(m, j);
      FlipBound(m, i, n);
      FlipBound(m, j, n);
      FlipBits(m, i, j);
      FlipBits(m, j, i);
      if Bit(m, i) == 1 && Bit(m, j) == 1 {
        var mij := Flip(mi, j);
        FlipBound(mi, j, n);
        FlipCommute(m, i, j);
        XorSwapMiddle(f[m], f[mj], f[mi], f[mij]);
      }
    }
  }

  lemma PassCommute(f: seq<nat>, n: nat, i: nat, j: nat)
    requires Pow2(n) <= |f| && i < n && j < n
    ensures Pass(Pass(f, n, i), n, j) == Pass(Pass(f, n, j), n, i)
  {
    if i != j {
      forall m | 0 <= m < |f|
        ensures Pass(Pass(f, n, i), n, j)[m] == Pass(Pass(f, n, j), n, i)[m]
      {
        PassCommuteAt(f, n, i, j, m);
      }
    }
  }

  /** A later pass commutes with the first k passes. */
  lemma {:induction false} TransformPassCommute(f: seq<nat>, n: nat, k: nat, j: nat)
    requires k <= j < n && Pow2(n) <= |f|
    ensures Transform(Pass(f, n, j), n, k) == Pass(Transform(f, n, k), n, j)
    decreases k
  {
    if k > 0 {
      TransformPassCommute(f, n, k - 1, j);
      PassCommute(Transform(f, n, k - 1), n, j, k - 1);
    }
  }

  /** The first k passes, done twice, give back the list. */
  lemma {:induction false} TransformInvolution(f: seq<nat>, n: nat, k: nat)
    requires k <= n && (k == 0 || Pow2(n) <= |f|)
    ensures Transform(Transform(f, n, k), n, k) == f
    decreases k
  {
    if k > 0 {
      var t := Transform(f, n, k - 1);
      TransformPassCommute(t, n, k - 1, k - 1);
      PassInvolution(Transform(t, n, k - 1), n, k - 1);
      TransformInvolution(f, n, k - 1);
    }
  }

  /** The Möbius transform is its own inverse, for every list. */
  lemma MobiusInvolution(f: seq<nat>)
    ensures Mobius(Mobius(f)) == f
  {
    TransformInvolution(f, Dim(f), Dim(f));
  }

  /** A list of bits stays a list of bits. */
  ghost predicate IsBits(f: seq<nat>)
  {
    forall m :: 0 <= m < |f| ==> f[m] < 2
  }

  lemma {:induction false} TransformBits(f: seq<nat>, n: nat, k: nat)
    requires k <= n && (k == 0 || Pow2(n) <= |f|) && IsBits(f)
    ensures IsBits(Transform(f, n, k))
    decreases k
  {
    if k > 0 {
      var t := Transform(f, n, k - 1);
      var g := Pass(t, n, k - 1);
      TransformBits(f, n, k - 1);
      forall m | 0 <= m < |t|
        ensures g[m] < 2
      {
        if m < Pow2(n) && Bit(m, k - 1) == 1 {
          FlipBound(m, k - 1, n);
          XorBound(t[m], t[Flip(m, k - 1)], 1);
        }
      }
    }
  }

  // ---------------------------------------------------------------
  // Degrees

  /** The largest popcount of an index below k whose coefficient is not 0,
      and 0 when there is none. */
  function MaxWeight(c: seq<nat>, k: nat): (d: nat)
    requires k <= |c|
    ensures forall m :: 0 <= m < k && c[m] != 0 ==> Popcount(m) <= d
    ensures d > 0 ==> exists m :: 0 <= m < k && c[m] != 0 && Popcount(m) == d
    decreases k
  {
    if k == 0 then 0
    else
      var d := MaxWeight(c, k - 1);
      if c[k - 1] != 0 && Popcount(k - 1) > d then Popcount(k - 1) else d
  }

  /** The degree of a coefficient list: its heaviest nonzero index. */
  function Degree(c: seq<nat>): nat
  {
    MaxWeight(c, |c|)
  }

  /** The popcount of the highest index below k holding a 1, 0 if none. */
  function TopWeight(c: seq<nat>, k: nat): (d: nat)
    requires k <= |c|
    ensures d > 0 ==> exists m :: 0 <= m < k && c[m] == 1 && Popcount(m) == d
    ensures forall m :: 0 <= m < k && c[m] == 1 && (forall m' :: m < m' < k ==> c[m'] != 1) ==> d == Popcount(m)
    decreases k
  {
    if k == 0 then 0
    else if c[k - 1] == 1 then Popcount(k - 1)
    else TopWeight(c, k - 1)
  }

  /** Coordinate i of a vectorial function: bit i of every output. */
  function Component(f: seq<nat>, i: nat): (g: seq<nat>)
    ensures |g| == |f| && IsBits(g)
    ensures forall x :: 0 <= x < |f| ==> g[x] == Bit(f[x], i)
  {
    seq(|f|, x requires 0 <= x < |f| => Bit(f[x], i))
  }

  /** Every index below 2^n has popcount at most n, so every degree is. */
  lemma {:induction false} MaxWeightBound(c: seq<nat>, n: nat, k: nat)
    requires k <= |c| && k <= Pow2(n)
    ensures MaxWeight(c, k) <= n
    decreases k
  {
    if k > 0 {
      MaxWeightBound(c, n, k - 1);
      PopcountBound(k - 1, n);
    }
  }

  /** A list of 2^n entries is transformed along n bits. */
  lemma DimOfPow2(f: seq<nat>, n: nat)
    requires |f| == Pow2(n)
    ensures Dim(f) == n
  {
    BitLengthOfPow2(n);
  }

  lemma {:induction false} BitLengthOfPow2(n: nat)
    ensures BitLength(Pow2(n)) == n + 1
  {
    if n > 0 {
      BitLengthOfPow2(n - 1);
    }
  }

  /** The transform of an all-zero list is all zero. */
  lemma {:induction false} TransformZero(f: seq<nat>, n: nat, k: nat)
    requires k <= n && (k == 0 || Pow2(n) <= |f|)
    requires forall m :: 0 <= m < |f| ==> f[m] == 0
    ensures forall m :: 0 <= m < |f| ==> Transform(f, n, k)[m] == 0
    decreases k
  {
    if k > 0 {
      TransformZero(f, n, k - 1);
      var t := Transform(f, n, k - 1);
      var g := Pass(t, n, k - 1);
      forall m | 0 <= m < |f|
        ensures g[m] == 0
      {
        if m < Pow2(n) && Bit(m, k - 1) == 1 {
          FlipBound(m, k - 1, n);
          XorSelf(0);
        }
      }
    }
  }

  // ---------------------------------------------------------------
  // The degree of a vectorial function

  /** The largest of a list of degrees, the first one on a tie, 0 for none. */
  function Largest(ds: seq<nat>): (d: nat)
    ensures forall i :: 0 <= i < |ds| ==> ds[i] <= d
    ensures |ds| > 0 ==> d in ds
    ensures |ds| == 0 ==> d == 0
  {
    if |ds| == 0 then 0
    else
      var d := Largest(ds[..|ds| - 1]);
      assert forall i :: 0 <= i < |ds| - 1 ==> ds[..|ds| - 1][i] == ds[i];
      if ds[|ds| - 1] > d then ds[|ds| - 1] else d
  }

  /** The degree of coordinate i: the heaviest index of its ANF. */
  function CoordDegree(f: seq<nat>, i: nat): nat
  {
    Degree(Mobius(Component(f, i)))
  }

  /** The degrees of the coordinates below k. */
  function CoordDegrees(f: seq<nat>, k: nat): (ds: seq<nat>)
    ensures |ds| == k && forall i :: 0 <= i < k ==> ds[i] == CoordDegree(f, i)
  {
    seq(k, i requires 0 <= i < k => CoordDegree(f, i))
  }

  /** The algebraic degree of f on n-bit words: the largest coordinate degree. */
  function AlgebraicDegree(f: seq<nat>, n: nat): nat
  {
    Largest(CoordDegrees(f, n))
  }

  /** A function on n-bit words has degree at most n. */
  lemma AlgebraicDegreeBound(f: seq<nat>, n: nat)
    requires |f| == Pow2(n)
    ensures AlgebraicDegree(f, n) <= n
  {
    var ds := CoordDegrees(f, n);
    forall i | 0 <= i < n
      ensures ds[i] <= n
    {
      var c := Mobius(Component(f, i));
      MaxWeightBound(c, n, |c|);
    }
    if n > 0 {
      var d := Largest(ds);
      assert d in ds;
    }
  }

  /** The zero function has degree 0. */
  lemma ZeroDegree(f: seq<nat>, n: nat)
    requires forall x :: 0 <= x < |f| ==> f[x] == 0
    ensures AlgebraicDegree(f, n) == 0
  {
    var ds := CoordDegrees(f, n);
    forall i | 0 <= i < n
      ensures ds[i] == 0
    {
      var g := Component(f, i);
      forall x | 0 <= x < |g|
        ensures g[x] == 0
      {
        BitOfZero(i);
      }
      var k := Dim(g);
      if k > 0 {
        TransformZero(g, k, k);
      }
    }
    if n > 0 {
      var d := Largest(ds);
      assert d in ds;
    }
  }
}
