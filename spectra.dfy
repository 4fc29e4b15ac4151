/** `c_src/spectra_computations.c`: the dot product of bit vectors, the
    ortho-derivative of a function, and the two spectra of the
    ortho-derivative the repository stores: the differential spectrum
    (ODDS), which counts how often each multiplicity occurs among the
    derivative equations, and the extended Walsh spectrum (ODWS), which
    counts the absolute Walsh values. */
module Spectra {
  import opened Bits
  import opened Ddt
  import opened KToOne
  import opened VbfTruthTable

  // ---------------------------------------------------------------
  // dot_bits

  /** The dot product over GF(2): the parity of the bits a and b share. */
  predicate Dot(a: nat, b: nat)
  {
    Popcount(And(a, b)) % 2 == 1
  }

  /** Peeling off the lowest bit of both vectors. */
  lemma DotStep(a: nat, b: nat)
    ensures Dot(a, b) == ((a % 2 == 1 && b % 2 == 1) != Dot(a / 2, b / 2))
  {
    if a == 0 || b == 0 {
      assert And(a, b) == 0;
      assert a / 2 == 0 || b / 2 == 0;
      assert And(a / 2, b / 2) == 0;
    } else {
      var h := And(a / 2, b / 2);
      var c := if a % 2 == 1 && b % 2 == 1 then 1 else 0;
      assert And(a, b) == 2 * h + c;
      if 2 * h + c != 0 {
        assert (2 * h + c) / 2 == h && (2 * h + c) % 2 == c;
      }
      assert Popcount(And(a, b)) == c + Popcount(h);
    }
  }

  /** `dot_bits(a, b)`: XOR the products of the low bits while either
      vector has a bit left. */
  method DotBits(a0: nat, b0: nat) returns (result: bool)
    ensures result == Dot(a0, b0)
  {
    var a, b := a0, b0;
    result := false;
    while a != 0 || b != 0
      invariant Dot(a0, b0) == (result != Dot(a, b))
      decreases a + b
    {
      DotStep(a, b);
      var bitA, bitB := a % 2 == 1, b % 2 == 1;
      result := result != (bitA && bitB);
      a, b := a / 2, b / 2;
    }
    assert And(a, b) == 0;
  }

  /** The dot product is false when either vector is 0. */
  lemma DotZero(a: nat)
    ensures !Dot(0, a) && !Dot(a, 0)
  {
    assert And(0, a) == 0 && And(a, 0) == 0;
  }

  /** The dot product is symmetric. */
  lemma {:induction false} DotComm(a: nat, b: nat)
    ensures Dot(a, b) == Dot(b, a)
    decreases a
  {
    if a != 0 {
      DotStep(a, b);
      DotStep(b, a);
      DotComm(a / 2, b / 2);
    } else {
      DotZero(b);
    }
  }

  /** The dot product is linear in its second argument. */
  lemma {:induction false} DotXor(v: nat, x: nat, y: nat)
    ensures Dot(v, Xor(x, y)) == (Dot(v, x) != Dot(v, y))
    decreases v
  {
    if v == 0 {
      DotZero(x);
      DotZero(y);
      DotZero(Xor(x, y));
    } else {
      DotStep(v, Xor(x, y));
      DotStep(v, x);
      DotStep(v, y);
      XorHalf(x, y);
      DotXor(v / 2, x / 2, y / 2);
    }
  }

  // ---------------------------------------------------------------
  // compute_orthoderivative

  /** F(0) ^ F(a) ^ F(x) ^ F(x ^ a). */
  function Derivative(f: seq<nat>, n: nat, a: nat, x: nat): nat
    requires IsLut(f, n) && a < Pow2(n) && x < Pow2(n)
  {
    XorBound(x, a, n);
    Xor(Xor(Xor(f[0], f[a]), f[x]), f[Xor(x, a)])
  }

  /** v is orthogonal to every value of the second-order derivative in
      direction a. */
  predicate Orthogonal(f: seq<nat>, n: nat, a: nat, v: nat)
    requires IsLut(f, n) && a < Pow2(n)
  {
    forall x :: 0 <= x < Pow2(n) ==> !Dot(v, Derivative(f, n, a, x))
  }

  /** The least orthogonal v from v0 on below 2^n, or 0 when there is none. */
  function FirstOrthogonal(f: seq<nat>, n: nat, a: nat, v0: nat): (v: nat)
    requires IsLut(f, n) && a < Pow2(n) && 1 <= v0 <= Pow2(n)
    ensures v == 0 || (v0 <= v < Pow2(n) && Orthogonal(f, n, a, v))
    ensures forall w :: v0 <= w < Pow2(n) && (v == 0 || w < v) ==> !Orthogonal(f, n, a, w)
    decreases Pow2(n) - v0
  {
    if v0 == Pow2(n) then 0
    else if Orthogonal(f, n, a, v0) then v0
    else FirstOrthogonal(f, n, a, v0 + 1)
  }

  /** od(0) == 0; od(a) is the least orthogonal v in [1, 2^n), or 0. */
  function OdEntry(f: seq<nat>, n: nat, a: nat): (o: nat)
    requires IsLut(f, n) && a < Pow2(n)
    ensures o < Pow2(n)
  {
    if a == 0 then 0 else FirstOrthogonal(f, n, a, 1)
  }

  /** The ortho-derivative as a table. */
  function Orthoderivative(f: seq<nat>, n: nat): (od: seq<nat>)
    requires IsLut(f, n)
    ensures IsMap(od, n)
  {
    seq(Pow2(n), a requires 0 <= a < Pow2(n) => OdEntry(f, n, a))
  }

  /** What the ortho-derivative holds: 0 at 0; at a != 0 the least nonzero
      vector orthogonal to every second-order derivative in direction a,
      and 0 exactly when no nonzero vector is. */
  lemma OrthoderivativeMeans(f: seq<nat>, n: nat, a: nat)
    requires IsLut(f, n) && a < Pow2(n)
    ensures var od := Orthoderivative(f, n);
      && (a == 0 ==> od[a] == 0)
      && (a != 0 && od[a] != 0 ==> Orthogonal(f, n, a, od[a])
                                   && forall w :: 1 <= w < od[a] ==> !Orthogonal(f, n, a, w))
      && (a != 0 ==> (od[a] == 0 <==> forall w :: 1 <= w < Pow2(n) ==> !Orthogonal(f, n, a, w)))
  {
  }

  /** The innermost loop: test `dot_bits(v, derivative)` for every x and
      stop at the first that is set. */
  method IsOrthogonal(f: seq<nat>, n: nat, a: nat, v: nat) returns (ok: bool)
    requires IsLut(f, n) && a < Pow2(n)
    ensures ok <==> Orthogonal(f, n, a, v)
  {
    var x := 0;
    while x < |f|
      invariant x <= |f|
      invariant forall y :: 0 <= y < x ==> !Dot(v, Derivative(f, n, a, y))
    {
      XorBound(x, a, n);
      var derivative := Xor(Xor(Xor(f[0], f[a]), f[x]), f[Xor(x, a)]);
      assert derivative == Derivative(f, n, a, x);
      var d := DotBits(v, derivative);
      if d {
        return false;
      }
      x := x + 1;
    }
    return true;
  }

  /** The loop over `possible_value`: the first orthogonal one, else 0. */
  method FindOrthogonal(f: seq<nat>, n: nat, a: nat) returns (v: nat)
    requires IsLut(f, n) && 1 <= a < Pow2(n)
    ensures v == OdEntry(f, n, a)
  {
    var candidate := 1;
    while candidate < |f|
      invariant 1 <= candidate <= |f|
      invariant FirstOrthogonal(f, n, a, candidate) == FirstOrthogonal(f, n, a, 1)
    {
      var ok := IsOrthogonal(f, n, a, candidate);
      if ok {
        return candidate;
      }
      candidate := candidate + 1;
    }
    return 0;
  }

  /** `compute_orthoderivative(f)`: a zeroed buffer of the same length, then
      every entry from 1 on. */
  method ComputeOrthoderivative(t: VbfTt) returns (od: array<nat>)
    requires WellFormed(t)
    ensures fresh(od) && od[..] == Orthoderivative(t.values, t.dimension)
  {
    od := new nat[t.numberOfEntries](_ => 0);
    var a := 1;
    while a < t.numberOfEntries
      invariant 1 <= a <= t.numberOfEntries
      invariant forall b :: 0 <= b < od.Length ==> od[b] == if b < a then OdEntry(t.values, t.dimension, b) else 0
    {
      var v := FindOrthogonal(t.values, t.dimension, a);
      od[a] := v;
      a := a + 1;
    }
  }

  // ---------------------------------------------------------------
  // Histograms of rows of counts

  /** The sum of a list of counters. */
  function Total(s: seq<nat>): nat
  {
    if |s| == 0 then 0 else Total(s[..|s| - 1]) + s[|s| - 1]
  }

  /** How often m occurs in the first r rows. */
  function Histogram(rows: seq<seq<nat>>, m: nat, r: nat): nat
    requires r <= |rows|
  {
    if r == 0 then 0 else Histogram(rows, m, r - 1) + Count(rows[r - 1], m, |rows[r - 1]|)
  }

  /** The counters for the values 0 .. s - 1 over all rows. */
  function Spectrum(rows: seq<seq<nat>>, s: nat): (counts: seq<nat>)
    ensures |counts| == s
  {
    seq(s, m requires 0 <= m < s => Histogram(rows, m, |rows|))
  }

  /** Every row has L entries, each below s. */
  predicate RowsBelow(rows: seq<seq<nat>>, L: nat, s: nat)
  {
    forall i :: 0 <= i < |rows| ==> |rows[i]| == L && forall c :: 0 <= c < L ==> rows[i][c] < s
  }

  /** The counters for the values below s over the first r rows. */
  function HistogramSum(rows: seq<seq<nat>>, s: nat, r: nat): nat
    requires r <= |rows|
  {
    if s == 0 then 0 else HistogramSum(rows, s - 1, r) + Histogram(rows, s - 1, r)
  }

  /** The sum of the spectrum is the sum of its histogram counters. */
  lemma {:induction false} TotalOfSpectrum(rows: seq<seq<nat>>, s: nat)
    ensures Total(Spectrum(rows, s)) == HistogramSum(rows, s, |rows|)
  {
    if s > 0 {
      assert Spectrum(rows, s)[..s - 1] == Spectrum(rows, s - 1);
      TotalOfSpectrum(rows, s - 1);
    }
  }

  /** One more row adds the counts of its values below s. */
  lemma {:induction false} HistogramSumRow(rows: seq<seq<nat>>, s: nat, r: nat)
    requires r < |rows|
    ensures HistogramSum(rows, s, r + 1) == HistogramSum(rows, s, r) + CountSum(rows[r], s, |rows[r]|)
  {
    if s > 0 {
      HistogramSumRow(rows, s - 1, r);
    }
  }

  /** When every value is below s, the counters over r rows of L entries
      add up to r * L. */
  lemma {:induction false} HistogramSumAll(rows: seq<seq<nat>>, L: nat, s: nat, r: nat)
    requires r <= |rows| && RowsBelow(rows, L, s)
    ensures HistogramSum(rows, s, r) == r * L
  {
    if r == 0 {
      HistogramSumNone(rows, s);
    } else {
      HistogramSumAll(rows, L, s, r - 1);
      HistogramSumRow(rows, s, r - 1);
      var row := rows[r - 1];
      assert |row| == L && forall c :: 0 <= c < L ==> row[c] < s;
      CountSumAll(row, s, L);
      assert (r - 1) * L + L == r * L;
    }
  }

  lemma {:induction false} HistogramSumNone(rows: seq<seq<nat>>, s: nat)
    ensures HistogramSum(rows, s, 0) == 0
  {
    if s > 0 {
      HistogramSumNone(rows, s - 1);
    }
  }

  /** The spectrum of r rows of L entries, all below s, sums to r * L. */
  lemma SpectrumTotal(rows: seq<seq<nat>>, L: nat, s: nat)
    requires RowsBelow(rows, L, s)
    ensures Total(Spectrum(rows, s)) == |rows| * L
  {
    TotalOfSpectrum(rows, s);
    HistogramSumAll(rows, L, s, |rows|);
  }

  // ---------------------------------------------------------------
  // compute_differential_spectrum

  /** The number of x below k with od(x) ^ od(x ^ a) == c. */
  function Hits(od: seq<nat>, n: nat, a: nat, c: nat, k: nat): (h: nat)
    requires IsLut(od, n) && a < Pow2(n) && k <= Pow2(n)
    ensures h <= k
  {
    if k == 0 then 0
    else
      XorBound(k - 1, a, n);
      Hits(od, n, a, c, k - 1) + (if Xor(od[k - 1], od[Xor(k - 1, a)]) == c then 1 else 0)
  }

  /** The `solutions` buffer for direction a: entry c counts the x with
      od(x) ^ od(x ^ a) == c. */
  function Solutions(od: seq<nat>, n: nat, a: nat): (row: seq<nat>)
    requires IsLut(od, n) && a < Pow2(n)
    ensures |row| == Pow2(n) && forall c :: 0 <= c < |row| ==> row[c] <= Pow2(n)
  {
    seq(Pow2(n), c requires 0 <= c < Pow2(n) => Hits(od, n, a, c, Pow2(n)))
  }

  /** One `solutions` row per direction a = 1 .. 2^n - 1. */
  function SolutionRows(od: seq<nat>, n: nat): (rows: seq<seq<nat>>)
    requires IsLut(od, n)
    ensures |rows| == Pow2(n) - 1
  {
    seq(Pow2(n) - 1, i requires 0 <= i < Pow2(n) - 1 => Solutions(od, n, i + 1))
  }

  /** The ODDS counters: entry m counts the pairs (a, c), a != 0, for
      which exactly m inputs x give od(x) ^ od(x ^ a) == c. */
  function DifferentialSpectrum(od: seq<nat>, n: nat): (counts: seq<nat>)
    requires IsLut(od, n)
    ensures |counts| == Pow2(n) + 1
  {
    Spectrum(SolutionRows(od, n), Pow2(n) + 1)
  }

  /** The ODDS counters add up to 2^n * (2^n - 1), one per pair (a, c). */
  lemma DifferentialSpectrumTotal(od: seq<nat>, n: nat)
    requires IsLut(od, n)
    ensures Total(DifferentialSpectrum(od, n)) == (Pow2(n) - 1) * Pow2(n)
  {
    var rows := SolutionRows(od, n);
    assert RowsBelow(rows, Pow2(n), Pow2(n) + 1) by {
      forall i | 0 <= i < |rows|
        ensures |rows[i]| == Pow2(n) && forall c :: 0 <= c < Pow2(n) ==> rows[i][c] < Pow2(n) + 1
      {
        assert rows[i] == Solutions(od, n, i + 1);
      }
    }
    SpectrumTotal(rows, Pow2(n), Pow2(n) + 1);
  }

  /** `memset(buf, 0, k)`. */
  method ZeroPrefix(buf: array<nat>, k: nat)
    requires k <= buf.Length
    modifies buf
    ensures forall i :: 0 <= i < k ==> buf[i] == 0
    ensures forall i :: k <= i < buf.Length ==> buf[i] == old(buf[i])
  {
    var i := 0;
    while i < k
      invariant i <= k
      invariant forall j :: 0 <= j < i ==> buf[j] == 0
      invariant forall j :: k <= j < buf.Length ==> buf[j] == old(buf[j])
    {
      buf[i] := 0;
      i := i + 1;
    }
  }

  /** The `solutions` buffer for one direction a: zeroed, then one
      increment at od[x] ^ od[x ^ a] for every x. */
  method CountSolutions(od: seq<nat>, n: nat, a: nat, solutions: array<nat>)
    requires IsMap(od, n) && a < Pow2(n) && solutions.Length == Pow2(n)
    modifies solutions
    ensures solutions[..] == Solutions(od, n, a)
  {
    ZeroPrefix(solutions, solutions.Length);
    var x := 0;
    while x < solutions.Length
      invariant x <= solutions.Length
      invariant forall c :: 0 <= c < solutions.Length ==> solutions[c] == Hits(od, n, a, c, x)
    {
      XorBound(x, a, n);
      var hit := Xor(od[x], od[Xor(x, a)]);
      XorBound(od[x], od[Xor(x, a)], n);
      solutions[hit] := solutions[hit] + 1;
      x := x + 1;
    }
  }

  /** The tally loop: `spectrum_counts[freq]++` for every entry of the
      row, every entry being at most N. */
  method TallyRow(row: seq<nat>, counts: array<nat>, N: nat)
    requires N < counts.Length && forall c :: 0 <= c < |row| ==> row[c] <= N
    modifies counts
    ensures forall m :: 0 <= m <= N ==> counts[m] == old(counts[m]) + Count(row, m, |row|)
    ensures forall m :: N < m < counts.Length ==> counts[m] == old(counts[m])
  {
    var c := 0;
    while c < |row|
      invariant c <= |row|
      invariant forall m :: 0 <= m <= N ==> counts[m] == old(counts[m]) + Count(row, m, c)
      invariant forall m :: N < m < counts.Length ==> counts[m] == old(counts[m])
    {
      var freq := row[c];
      if freq <= N {
        counts[freq] := counts[freq] + 1;
      }
      c := c + 1;
    }
  }

  /** `compute_differential_spectrum(f, spectrum_counts)`: the first N + 1
      counters become the ODDS of the ortho-derivative of f. */
  method ComputeDifferentialSpectrum(t: VbfTt, counts: array<nat>)
    requires WellFormed(t) && t.numberOfEntries + 1 <= counts.Length
    modifies counts
    ensures counts[..t.numberOfEntries + 1] == DifferentialSpectrum(Orthoderivative(t.values, t.dimension), t.dimension)
    ensures counts[t.numberOfEntries + 1..] == old(counts[t.numberOfEntries + 1..])
  {
    var od := ComputeOrthoderivative(t);
    var odv := od[..];
    var size := t.numberOfEntries;
    ZeroPrefix(counts, size + 1);
    var solutions := new nat[size];
    TallyAllRows(odv, t.dimension, solutions, counts);
    assert counts[..size + 1] == Spectrum(SolutionRows(odv, t.dimension), size + 1);
  }

  /** The loop over a = 1 .. N - 1: each row of solution counts is tallied
      onto the zeroed counters. */
  method TallyAllRows(od: seq<nat>, n: nat, solutions: array<nat>, counts: array<nat>)
    requires IsMap(od, n) && solutions.Length == Pow2(n) && Pow2(n) + 1 <= counts.Length
    requires solutions != counts
    requires forall m :: 0 <= m <= Pow2(n) ==> counts[m] == 0
    modifies solutions, counts
    ensures forall m :: 0 <= m <= Pow2(n) ==> counts[m] == Histogram(SolutionRows(od, n), m, Pow2(n) - 1)
    ensures forall m :: Pow2(n) < m < counts.Length ==> counts[m] == old(counts[m])
  {
    var size := Pow2(n);
    ghost var rows := SolutionRows(od, n);
    var a := 1;
    while a < size
      invariant 1 <= a <= size
      invariant forall m :: 0 <= m <= size ==> counts[m] == Histogram(rows, m, a - 1)
      invariant forall m :: size < m < counts.Length ==> counts[m] == old(counts[m])
    {
      CountSolutions(od, n, a, solutions);
      assert solutions[..] == rows[a - 1];
      TallyRow(solutions[..], counts, size);
      a := a + 1;
    }
  }

  // ---------------------------------------------------------------
  // walsh_transform and compute_extended_walsh_spectrum

  /** The sign of x in the Walsh sum: a.x + b.F(x). */
  predicate Negative(f: seq<nat>, a: nat, b: nat, x: nat)
    requires x < |f|
  {
    Dot(a, x) != Dot(b, f[x])
  }

  /** W_F(a, b) over the first k inputs: the sum of (-1)^(a.x + b.F(x)). */
  function Walsh(f: seq<nat>, a: nat, b: nat, k: nat): (w: int)
    requires k <= |f|
    ensures -(k as int) <= w <= k
  {
    if k == 0 then 0 else Walsh(f, a, b, k - 1) + (if Negative(f, a, b, k - 1) then -1 else 1)
  }

  /** The number of x below k with a negative sign. */
  function NegativeCount(f: seq<nat>, a: nat, b: nat, k: nat): (c: nat)
    requires k <= |f|
    ensures c <= k
  {
    if k == 0 then 0 else NegativeCount(f, a, b, k - 1) + (if Negative(f, a, b, k - 1) then 1 else 0)
  }

  /** The Walsh value is the number of agreements minus the number of
      disagreements. */
  lemma {:induction false} WalshBalance(f: seq<nat>, a: nat, b: nat, k: nat)
    requires k <= |f|
    ensures Walsh(f, a, b, k) == k - 2 * NegativeCount(f, a, b, k)
  {
    if k > 0 {
      WalshBalance(f, a, b, k - 1);
    }
  }

  /** W_F(0, 0) is the number of inputs. */
  lemma {:induction false} WalshAtZero(f: seq<nat>, k: nat)
    requires k <= |f|
    ensures Walsh(f, 0, 0, k) == k
  {
    if k > 0 {
      WalshAtZero(f, k - 1);
      DotZero(k - 1);
      DotZero(f[k - 1]);
    }
  }

  /** `walsh_transform(F, a, b)`. */
  method WalshTransform(f: seq<nat>, a: nat, b: nat) returns (sum: int)
    ensures sum == Walsh(f, a, b, |f|)
  {
    sum := 0;
    var x := 0;
    while x < |f|
      invariant x <= |f|
      invariant sum == Walsh(f, a, b, x)
    {
      var dotA := DotBits(a, x);
      var dotB := DotBits(b, f[x]);
      var exponent := dotA != dotB;
      sum := sum + (if exponent then -1 else 1);
      x := x + 1;
    }
  }

  /** |W_F(a, b)|, which never exceeds the number of inputs. */
  function AbsWalsh(f: seq<nat>, a: nat, b: nat): (v: nat)
    ensures v <= |f|
  {
    var w := Walsh(f, a, b, |f|);
    if w >= 0 then w else -w
  }

  /** |W_od(a, b)| for b = 1 .. N - 1. */
  function AbsWalshRow(od: seq<nat>, a: nat): (row: seq<nat>)
    requires |od| >= 1
    ensures |row| == |od| - 1 && forall i :: 0 <= i < |row| ==> row[i] <= |od|
  {
    seq(|od| - 1, i requires 0 <= i < |od| - 1 => AbsWalsh(od, a, i + 1))
  }

  /** One row per a = 0 .. N - 1. */
  function WalshRows(od: seq<nat>): (rows: seq<seq<nat>>)
    requires |od| >= 1
    ensures |rows| == |od|
  {
    seq(|od|, a requires 0 <= a < |od| => AbsWalshRow(od, a))
  }

  /** The ODWS counters: entry m counts the pairs (a, b), b != 0, with
      |W_od(a, b)| == m. */
  function ExtendedWalshSpectrum(od: seq<nat>): (counts: seq<nat>)
    requires |od| >= 1
    ensures |counts| == |od| + 1
  {
    Spectrum(WalshRows(od), |od| + 1)
  }

  /** The ODWS counters add up to N * (N - 1), one per pair (a, b); no
      absolute value falls outside the N + 1 counters. */
  lemma ExtendedWalshSpectrumTotal(od: seq<nat>)
    requires |od| >= 1
    ensures Total(ExtendedWalshSpectrum(od)) == |od| * (|od| - 1)
  {
    var rows := WalshRows(od);
    assert RowsBelow(rows, |od| - 1, |od| + 1) by {
      forall i | 0 <= i < |rows|
        ensures |rows[i]| == |od| - 1 && forall c :: 0 <= c < |od| - 1 ==> rows[i][c] < |od| + 1
      {
        assert rows[i] == AbsWalshRow(od, i);
      }
    }
    SpectrumTotal(rows, |od| - 1, |od| + 1);
  }

  /** The loop over b = 1 .. N - 1 for one a: `spectrum_counts[|W|]++`,
      with the out-of-range warning never reached. */
  method TallyWalshRow(od: seq<nat>, a: nat, counts: array<nat>)
    requires 1 <= |od| < counts.Length
    modifies counts
    ensures forall m :: 0 <= m <= |od| ==> counts[m] == old(counts[m]) + Count(AbsWalshRow(od, a), m, |od| - 1)
    ensures forall m :: |od| < m < counts.Length ==> counts[m] == old(counts[m])
  {
    ghost var row := AbsWalshRow(od, a);
    assert forall m :: Count(row, m, 0) == 0;
    var b := 1;
    while b < |od|
      invariant 1 <= b <= |od|
      invariant forall m :: 0 <= m <= |od| ==> counts[m] == old(counts[m]) + Count(row, m, b - 1)
      invariant forall m :: |od| < m < counts.Length ==> counts[m] == old(counts[m])
    {
      var wc := WalshTransform(od, a, b);
      var absWc := if wc >= 0 then wc else -wc;
      assert absWc == AbsWalsh(od, a, b) == row[b - 1];
      if absWc <= |od| {
        counts[absWc] := counts[absWc] + 1;
      }
      b := b + 1;
    }
  }

  /** `compute_extended_walsh_spectrum(f, spectrum_counts)`: the first
      N + 1 counters become the ODWS of the ortho-derivative of f. */
  method ComputeExtendedWalshSpectrum(t: VbfTt, counts: array<nat>)
    requires WellFormed(t) && t.numberOfEntries + 1 <= counts.Length
    modifies counts
    ensures counts[..t.numberOfEntries + 1] == ExtendedWalshSpectrum(Orthoderivative(t.values, t.dimension))
    ensures counts[t.numberOfEntries + 1..] == old(counts[t.numberOfEntries + 1..])
  {
    var od := ComputeOrthoderivative(t);
    var odv := od[..];
    var size := t.numberOfEntries;
    ZeroPrefix(counts, size + 1);
    ghost var rows := WalshRows(odv);
    var a := 0;
    while a < size
      invariant a <= size
      invariant forall m :: 0 <= m <= size ==> counts[m] == Histogram(rows, m, a)
      invariant forall m :: size < m < counts.Length ==> counts[m] == old(counts[m])
    {
      TallyWalshRow(odv, a, counts);
      assert rows[a] == AbsWalshRow(odv, a);
      a := a + 1;
    }
  }
}
