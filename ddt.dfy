/** The difference distribution table of a function on n-bit words and its
    differential uniformity: the count of solutions x of
    f(x) ^ f(x ^ a) == b, and the largest count over a != 0. This is the
    reference every DDT loop of the repository is proved against. */
module Ddt {
  import opened Bits

  /** A lookup table with one entry per n-bit input. */
  predicate IsLut(f: seq<nat>, n: nat)
  {
    |f| == Pow2(n)
  }

  /** A lookup table whose outputs are n-bit words too. */
  predicate IsMap(f: seq<nat>, n: nat)
  {
    IsLut(f, n) && forall x :: 0 <= x < |f| ==> f[x] < Pow2(n)
  }

  /** The output difference f(x) ^ f(x ^ a). */
  function OutDiff(f: seq<nat>, n: nat, x: nat, a: nat): nat
    requires IsLut(f, n) && x < Pow2(n) && a < Pow2(n)
  {
    XorBound(x, a, n);
    Xor(f[x], f[Xor(x, a)])
  }

  /** The number of x below k with f(x) ^ f(x ^ a) == b. */
  function CountBelow(f: seq<nat>, n: nat, a: nat, b: nat, k: nat): (c: nat)
    requires IsLut(f, n) && a < Pow2(n) && k <= Pow2(n)
    ensures c <= k
    decreases k
  {
    if k == 0 then 0
    else CountBelow(f, n, a, b, k - 1) + (if OutDiff(f, n, k - 1, a) == b then 1 else 0)
  }

  /** The DDT entry at (a, b). */
  function Entry(f: seq<nat>, n: nat, a: nat, b: nat): nat
    requires IsLut(f, n) && a < Pow2(n)
  {
    CountBelow(f, n, a, b, Pow2(n))
  }

  /** The larger of two counts, the first one on a tie. */
  function Greater(m: nat, r: nat): nat
  {
    if r > m then r else m
  }

  /** The largest entry of row a among the columns below k, 0 for no column. */
  function RowMax(f: seq<nat>, n: nat, a: nat, k: nat): (m: nat)
    requires IsLut(f, n) && a < Pow2(n)
    ensures m <= Pow2(n)
    ensures forall b :: 0 <= b < k ==> Entry(f, n, a, b) <= m
    ensures k > 0 ==> exists b :: 0 <= b < k && m == Entry(f, n, a, b)
    decreases k
  {
    if k == 0 then 0
    else
      var m := RowMax(f, n, a, k - 1);
      var e := Entry(f, n, a, k - 1);
      if e > m then e else m
  }

  /** The largest entry of the rows 1 .. k - 1, 0 when there is none. */
  function MaxBelow(f: seq<nat>, n: nat, k: nat): (m: nat)
    requires IsLut(f, n) && k <= Pow2(n)
    ensures m <= Pow2(n)
    ensures forall a, b :: 1 <= a < k && 0 <= b < Pow2(n) ==> Entry(f, n, a, b) <= m
    ensures k > 1 ==> exists a, b :: 1 <= a < k && 0 <= b < Pow2(n) && m == Entry(f, n, a, b)
    decreases k
  {
    if k <= 1 then 0
    else
      var m := MaxBelow(f, n, k - 1);
      var r := RowMax(f, n, k - 1, Pow2(n));
      if r > m then r else m
  }

  /** The differential uniformity: the largest DDT entry over a != 0, an
      upper bound of all of them that is one of them when n >= 1, and 0
      over a single point. */
  function Uniformity(f: seq<nat>, n: nat): (u: nat)
    requires IsLut(f, n)
    ensures u <= Pow2(n)
    ensures forall a, b :: 1 <= a < Pow2(n) && 0 <= b < Pow2(n) ==> Entry(f, n, a, b) <= u
    ensures n >= 1 ==> exists a, b :: 1 <= a < Pow2(n) && 0 <= b < Pow2(n) && u == Entry(f, n, a, b)
    ensures n == 0 ==> u == 0
  {
    MaxBelow(f, n, Pow2(n))
  }

  // ---------------------------------------------------------------
  // Row sums

  /** The sum of row a over the columns below c, counting x below k. */
  function RowSumBelow(f: seq<nat>, n: nat, a: nat, c: nat, k: nat): nat
    requires IsLut(f, n) && a < Pow2(n) && k <= Pow2(n)
  {
    if c == 0 then 0 else RowSumBelow(f, n, a, c - 1, k) + CountBelow(f, n, a, c - 1, k)
  }

  /** One more x adds one to the columns below c exactly when its
      difference lies among them. */
  lemma {:induction false} RowSumStep(f: seq<nat>, n: nat, a: nat, c: nat, k: nat)
    requires IsLut(f, n) && a < Pow2(n) && k < Pow2(n)
    ensures RowSumBelow(f, n, a, c, k + 1)
         == RowSumBelow(f, n, a, c, k) + (if OutDiff(f, n, k, a) < c then 1 else 0)
    decreases c
  {
    if c > 0 {
      RowSumStep(f, n, a, c - 1, k);
    }
  }

  /** With no x counted, every column sum is 0. */
  lemma {:induction false} RowSumEmpty(f: seq<nat>, n: nat, a: nat, c: nat)
    requires IsLut(f, n) && a < Pow2(n)
    ensures RowSumBelow(f, n, a, c, 0) == 0
    decreases c
  {
    if c > 0 {
      RowSumEmpty(f, n, a, c - 1);
    }
  }

  /** For a map on n-bit words, every x counts once in its row. */
  lemma {:induction false} RowSumCounts(f: seq<nat>, n: nat, a: nat, k: nat)
    requires IsMap(f, n) && a < Pow2(n) && k <= Pow2(n)
    ensures RowSumBelow(f, n, a, Pow2(n), k) == k
    decreases k
  {
    if k > 0 {
      RowSumCounts(f, n, a, k - 1);
      RowSumStep(f, n, a, Pow2(n), k - 1);
      XorBound(k - 1, a, n);
      var y := Xor(k - 1, a);
      assert f[k - 1] < Pow2(n) && f[y] < Pow2(n);
      XorBound(f[k - 1], f[y], n);
      assert OutDiff(f, n, k - 1, a) == Xor(f[k - 1], f[y]);
    } else {
      RowSumEmpty(f, n, a, Pow2(n));
    }
  }

  /** Every DDT row of a map on n-bit words sums to 2^n. */
  lemma RowSum(f: seq<nat>, n: nat, a: nat)
    requires IsMap(f, n) && a < Pow2(n)
    ensures RowSumBelow(f, n, a, Pow2(n), Pow2(n)) == Pow2(n)
  {
    RowSumCounts(f, n, a, Pow2(n));
  }

  /** The difference along 0 is always 0, so every x counts at (0, 0). */
  lemma {:induction false} ZeroRowBelow(f: seq<nat>, n: nat, k: nat)
    requires IsLut(f, n) && k <= Pow2(n)
    ensures CountBelow(f, n, 0, 0, k) == k
    decreases k
  {
    if k > 0 {
      ZeroRowBelow(f, n, k - 1);
      XorZeroRight(k - 1);
      XorSelf(f[k - 1]);
    }
  }

  /** ddt[0][0] == 2^n. */
  lemma EntryZeroZero(f: seq<nat>, n: nat)
    requires IsLut(f, n)
    ensures Entry(f, n, 0, 0) == Pow2(n)
  {
    ZeroRowBelow(f, n, Pow2(n));
  }

  // ---------------------------------------------------------------
  // The table as a whole

  /** The full table, row a column b holding Entry(f, n, a, b). */
  ghost predicate IsTable(f: seq<nat>, n: nat, t: seq<seq<nat>>)
    requires IsLut(f, n)
  {
    && |t| == Pow2(n)
    && forall a :: 0 <= a < Pow2(n) ==>
         |t[a]| == Pow2(n) && forall b :: 0 <= b < Pow2(n) ==> t[a][b] == Entry(f, n, a, b)
  }
}
