/** `c_src/invariants_computations.cpp`, second part: the in-place Möbius
    transform of a coordinate, the algebraic degree taken from the highest
    index holding a 1 in each coordinate's ANF, and the quadratic test. */
module CppAnf {
  import opened Bits
  import opened Ddt
  import opened Anf
  import opened CppFunction

  /** One pass `for j < sz: if (j & step) != 0: f[j] ^= f[j ^ step]` with
      step == 2^i, in place. */
  method PassInPlace(f: array<nat>, ghost n: nat, i: nat, step: nat)
    requires f.Length == Pow2(n) && i < n && step == Pow2(i)
    modifies f
    ensures f[..] == Pass(old(f[..]), n, i)
  {
    ghost var g := f[..];
    var sz := f.Length;
    var j := 0;
    while j < sz
      invariant j <= sz
      invariant forall m :: 0 <= m < sz ==> f[m] == if m < j then PassAt(g, n, i, m) else g[m]
    {
      if Bit(j, i) == 1 {
        FlipDown(j, i);
        FlipBits(j, i, i);
        var partner := Xor(j, step);
        f[j] := Xor(f[j], f[partner]);
      }
      j := j + 1;
    }
    assert f[..] == Pass(g, n, i);
  }

  /** `compute_anf_bool_inplace(f)` on a vector of 2^n entries: the passes
      for step = 1, 2, 4, ... below the size, leaving the Möbius transform
      of the old contents. Applying it twice gives the contents back
      (`Anf.TransformInvolution`). */
  method ComputeAnfInPlace(f: array<nat>, ghost n: nat)
    requires f.Length == Pow2(n)
    modifies f
    ensures f[..] == Transform(old(f[..]), n, n)
  {
    var sz := f.Length;
    var step := 1;
    var i := 0;
    while step < sz
      invariant i <= n && step == Pow2(i)
      invariant f[..] == Transform(old(f[..]), n, i)
    {
      PassInPlace(f, n, i, step);
      step := step * 2;
      i := i + 1;
    }
    if i < n {
      Pow2Monotone(i, n);
    }
  }

  /** The loop `anf[c][x] = (LUT[x] >> c) & 1` over a fresh vector. */
  method FillCoordinate(lut: seq<nat>, n: nat, c: nat) returns (coord: array<nat>)
    requires Pow2(n) <= |lut|
    ensures fresh(coord) && coord[..] == Component(lut[..Pow2(n)], c)
  {
    var sz := Pow2(n);
    coord := new nat[sz];
    var x := 0;
    while x < sz
      invariant x <= sz
      invariant forall x' :: 0 <= x' < x ==> coord[x'] == Bit(lut[x'], c)
    {
      coord[x] := Bit(lut[x], c);
      x := x + 1;
    }
    assert coord[..] == Component(lut[..Pow2(n)], c);
  }

  /** `bitcount(x)`: add the low bit, shift right, until nothing is left. */
  method Bitcount(x: nat) returns (w: nat)
    ensures w == Popcount(x)
  {
    var tmp := x;
    w := 0;
    while tmp != 0
      invariant w + Popcount(tmp) == Popcount(x)
    {
      w := w + tmp % 2;
      tmp := tmp / 2;
    }
  }

  /** The weight the C code reads off a coefficient list: the popcount of
      the highest index holding a 1, 0 when there is none. */
  function HighestOneWeight(coeffs: seq<nat>): nat
  {
    TopWeight(coeffs, |coeffs|)
  }

  /** The scan `for i = sz - 1 down to 0: if anf[c][i] == 1: w = popcount(i); break`. */
  method ScanHighestOne(coeffs: seq<nat>) returns (found: bool, w: nat)
    ensures found <==> exists m :: 0 <= m < |coeffs| && coeffs[m] == 1
    ensures w == HighestOneWeight(coeffs)
  {
    var i: nat := |coeffs|;
    while i > 0
      invariant i <= |coeffs|
      invariant forall m :: i <= m < |coeffs| ==> coeffs[m] != 1
    {
      if coeffs[i - 1] == 1 {
        w := Bitcount(i - 1);
        return true, w;
      }
      i := i - 1;
    }
    return false, 0;
  }

  /** The body of the degree loop for one coordinate: the scan, and the
      maximum raised when a 1 is found at a heavier index. */
  method RaiseToCoordinate(coeffs: seq<nat>, maxDeg: nat) returns (m: nat)
    ensures m == Greater(maxDeg, HighestOneWeight(coeffs))
  {
    m := maxDeg;
    var found, w := ScanHighestOne(coeffs);
    if found && w > m {
      m := w;
    }
  }

  /** The degree the C code gives coordinate c: the popcount of the highest
      index of its ANF holding a 1. */
  function TopCoordDegree(f: seq<nat>, c: nat): nat
  {
    HighestOneWeight(Mobius(Component(f, c)))
  }

  /** Those degrees for the coordinates below k. */
  function TopCoordDegrees(f: seq<nat>, k: nat): (ds: seq<nat>)
    ensures |ds| == k && forall c :: 0 <= c < k ==> ds[c] == TopCoordDegree(f, c)
  {
    seq(k, c requires 0 <= c < k => TopCoordDegree(f, c))
  }

  /** Appending a value to a list raises its largest value to that value
      when it is larger. */
  lemma LargestSnoc(ds: seq<nat>, e: nat)
    ensures Largest(ds + [e]) == Greater(Largest(ds), e)
  {
    assert (ds + [e])[..|ds|] == ds;
  }

  /** The weights the scan reads off a list of coefficient lists. */
  function HighestWeights(anf: seq<seq<nat>>): (ws: seq<nat>)
    ensures |ws| == |anf| && forall c :: 0 <= c < |anf| ==> ws[c] == HighestOneWeight(anf[c])
  {
    seq(|anf|, c requires 0 <= c < |anf| => HighestOneWeight(anf[c]))
  }

  /** One more coordinate raises the largest weight to its weight when that
      is larger. */
  lemma WeightsStep(anf: seq<seq<nat>>, c: nat)
    requires c < |anf|
    ensures Largest(HighestWeights(anf[..c + 1])) == Greater(Largest(HighestWeights(anf[..c])), HighestOneWeight(anf[c]))
  {
    assert HighestWeights(anf[..c + 1]) == HighestWeights(anf[..c]) + [HighestOneWeight(anf[c])];
    LargestSnoc(HighestWeights(anf[..c]), HighestOneWeight(anf[c]));
  }

  /** Read off the coordinate ANFs of f, the weights are the C degrees. */
  lemma WeightsAreTopDegrees(f: seq<nat>, anf: seq<seq<nat>>)
    requires forall c :: 0 <= c < |anf| ==> anf[c] == Mobius(Component(f, c))
    ensures HighestWeights(anf) == TopCoordDegrees(f, |anf|)
  {
  }

  /** The coordinate ANFs computed by the first loop. */
  method CoordinateAnfs(func: CFunction) returns (anf: seq<seq<nat>>)
    requires Pow2(func.n) <= |func.lut|
    ensures |anf| == func.n
    ensures forall c :: 0 <= c < func.n ==> anf[c] == Mobius(Component(Table(func), c))
  {
    var n := func.n;
    anf := [];
    var c := 0;
    while c < n
      invariant c <= n && |anf| == c
      invariant forall c' :: 0 <= c' < c ==> anf[c'] == Mobius(Component(Table(func), c'))
    {
      var coord := FillCoordinate(func.lut, n, c);
      ComputeAnfInPlace(coord, n);
      DimOfPow2(Component(Table(func), c), n);
      anf := anf + [coord[..]];
      c := c + 1;
    }
  }

  /** The second loop: over the coordinates, the largest weight found. */
  method MaxHighestWeight(anf: seq<seq<nat>>) returns (maxDeg: nat)
    ensures maxDeg == Largest(HighestWeights(anf))
  {
    maxDeg := 0;
    var c := 0;
    while c < |anf|
      invariant c <= |anf| && maxDeg == Largest(HighestWeights(anf[..c]))
    {
      maxDeg := RaiseToCoordinate(anf[c], maxDeg);
      WeightsStep(anf, c);
      c := c + 1;
    }
    assert anf[..c] == anf;
  }

  /** `compute_algebraic_degree_mv(F)`: 0 for n == 0; otherwise the largest,
      over the coordinates, of the popcount of the highest index holding a 1
      in the coordinate's ANF. */
  method AlgebraicDegreeMv(func: CFunction) returns (maxDeg: nat)
    requires Pow2(func.n) <= |func.lut|
    ensures maxDeg == Largest(TopCoordDegrees(Table(func), func.n))
  {
    if func.n == 0 {
      return 0;
    }
    var anf := CoordinateAnfs(func);
    maxDeg := MaxHighestWeight(anf);
    WeightsAreTopDegrees(Table(func), anf);
  }

  /** `is_quadratic(F)`: the degree the C code computes is exactly 2. */
  method IsQuadratic(func: CFunction) returns (quadratic: bool)
    requires Pow2(func.n) <= |func.lut|
    ensures quadratic <==> Largest(TopCoordDegrees(Table(func), func.n)) == 2
  {
    var deg := AlgebraicDegreeMv(func);
    return deg == 2;
  }

  // ---------------------------------------------------------------
  // The highest index is not the heaviest one

  /** The highest index holding a 1 is never heavier than the heaviest one,
      so the C degree never exceeds the algebraic degree. */
  lemma HighestBelowHeaviest(coeffs: seq<nat>)
    ensures HighestOneWeight(coeffs) <= Degree(coeffs)
  {
  }

  /** A list bounded entry by entry has a bounded largest value. */
  lemma LargestMonotone(ds: seq<nat>, es: seq<nat>)
    requires |ds| == |es| && forall i :: 0 <= i < |ds| ==> ds[i] <= es[i]
    ensures Largest(ds) <= Largest(es)
  {
    if |ds| > 0 {
      var d := Largest(ds);
      assert d in ds;
    }
  }

  /** The C degree is at most the algebraic degree. */
  lemma CppDegreeBelow(f: seq<nat>, n: nat)
    ensures Largest(TopCoordDegrees(f, n)) <= AlgebraicDegree(f, n)
  {
    forall c | 0 <= c < n
      ensures TopCoordDegrees(f, n)[c] <= CoordDegrees(f, n)[c]
    {
      HighestBelowHeaviest(Mobius(Component(f, c)));
    }
    LargestMonotone(TopCoordDegrees(f, n), CoordDegrees(f, n));
  }

  /** x0 x1 + x2 on 3-bit words, as a lookup table: bit 0 of the output
      carries the function, the other bits are 0. */
  const QuadraticLut: seq<nat> := [0, 0, 0, 1, 1, 1, 1, 0]

  /** A pass is fixed by its entries. */
  lemma PassFromEntries(f: seq<nat>, n: nat, i: nat, g: seq<nat>)
    requires Pow2(n) <= |f| && i < n && |g| == |f|
    requires forall m :: 0 <= m < |f| ==> PassAt(f, n, i, m) == g[m]
    ensures Pass(f, n, i) == g
  {
  }

  /** The three passes over coordinate 0 of that table. */
  lemma QuadraticLutPass0()
    ensures Pass([0, 0, 0, 1, 1, 1, 1, 0], 3, 0) == [0, 0, 0, 1, 1, 0, 1, 1]
  {
    var f: seq<nat> := [0, 0, 0, 1, 1, 1, 1, 0];
    assert Pow2(3) == 8;
    assert Pow2(0) == 1;
    FlipDown(1, 0);
    FlipDown(3, 0);
    FlipDown(5, 0);
    FlipDown(7, 0);
    assert PassAt(f, 3, 0, 1) == Xor(0, 0) == 0;
    assert PassAt(f, 3, 0, 3) == Xor(1, 0) == 1;
    assert PassAt(f, 3, 0, 5) == Xor(1, 1) == 0;
    assert PassAt(f, 3, 0, 7) == Xor(0, 1) == 1;
    assert Bit(0, 0) == 0 && Bit(2, 0) == 0 && Bit(4, 0) == 0 && Bit(6, 0) == 0;
    PassFromEntries(f, 3, 0, [0, 0, 0, 1, 1, 0, 1, 1]);
  }

  lemma QuadraticLutPass1()
    ensures Pass([0, 0, 0, 1, 1, 0, 1, 1], 3, 1) == [0, 0, 0, 1, 1, 0, 0, 1]
  {
    var f: seq<nat> := [0, 0, 0, 1, 1, 0, 1, 1];
    assert Pow2(3) == 8;
    assert Pow2(1) == 2;
    FlipDown(2, 1);
    FlipDown(3, 1);
    FlipDown(6, 1);
    FlipDown(7, 1);
    assert PassAt(f, 3, 1, 2) == Xor(0, 0) == 0;
    assert PassAt(f, 3, 1, 3) == Xor(1, 0) == 1;
    assert PassAt(f, 3, 1, 6) == Xor(1, 1) == 0;
    assert PassAt(f, 3, 1, 7) == Xor(1, 0) == 1;
    assert Bit(0, 1) == 0 && Bit(1, 1) == 0 && Bit(4, 1) == 0 && Bit(5, 1) == 0;
    PassFromEntries(f, 3, 1, [0, 0, 0, 1, 1, 0, 0, 1]);
  }

  lemma QuadraticLutPass2()
    ensures Pass([0, 0, 0, 1, 1, 0, 0, 1], 3, 2) == [0, 0, 0, 1, 1, 0, 0, 0]
  {
    var f: seq<nat> := [0, 0, 0, 1, 1, 0, 0, 1];
    assert Pow2(3) == 8;
    assert Pow2(2) == 4;
    FlipDown(4, 2);
    FlipDown(5, 2);
    FlipDown(6, 2);
    FlipDown(7, 2);
    assert PassAt(f, 3, 2, 4) == Xor(1, 0) == 1;
    assert PassAt(f, 3, 2, 5) == Xor(0, 0) == 0;
    assert PassAt(f, 3, 2, 6) == Xor(0, 0) == 0;
    assert PassAt(f, 3, 2, 7) == Xor(1, 1) == 0;
    assert Bit(0, 2) == 0 && Bit(1, 2) == 0 && Bit(2, 2) == 0 && Bit(3, 2) == 0;
    PassFromEntries(f, 3, 2, [0, 0, 0, 1, 1, 0, 0, 0]);
  }

  /** Its coordinate 0 has ANF coefficients at indices 3 (x0 x1, weight 2)
      and 4 (x2, weight 1). */
  lemma QuadraticLutAnf()
    ensures Mobius(Component(QuadraticLut, 0)) == [0, 0, 0, 1, 1, 0, 0, 0]
  {
    var t := QuadraticLut;
    assert Component(t, 0) == t;
    DimOfPow2(t, 3);
    QuadraticLutPass0();
    QuadraticLutPass1();
    QuadraticLutPass2();
    assert Transform(t, 3, 1) == [0, 0, 0, 1, 1, 0, 1, 1];
    assert Transform(t, 3, 2) == [0, 0, 0, 1, 1, 0, 0, 1];
  }

  /** Its coordinates 1 and 2 are zero, with zero ANF. */
  lemma QuadraticLutZeroCoordinates(c: nat)
    requires 1 <= c < 3
    ensures forall m :: 0 <= m < 8 ==> Mobius(Component(QuadraticLut, c))[m] == 0
  {
    var g := Component(QuadraticLut, c);
    forall m | 0 <= m < 8
      ensures g[m] == 0
    {
      assert QuadraticLut[m] < 2;
    }
    DimOfPow2(g, 3);
    TransformZero(g, 3, 3);
  }

  /** The weights read off the ANF of coordinate 0: 1 for the highest index
      holding a 1, 2 for the heaviest. */
  lemma QuadraticLutWeights()
    ensures HighestOneWeight([0, 0, 0, 1, 1, 0, 0, 0]) == 1
    ensures Degree([0, 0, 0, 1, 1, 0, 0, 0]) == 2
  {
    assert Popcount(4) == 1;
    assert Popcount(3) == 2;
  }

  /** A zero coefficient list has weight 0 either way. */
  lemma ZeroWeights(c: seq<nat>)
    requires forall m :: 0 <= m < |c| ==> c[m] == 0
    ensures HighestOneWeight(c) == 0 && Degree(c) == 0
  {
  }

  /** Coordinate 0 has C degree 1 and degree 2. */
  lemma QuadraticLutCoordinate0()
    ensures TopCoordDegree(QuadraticLut, 0) == 1 && CoordDegree(QuadraticLut, 0) == 2
  {
    QuadraticLutAnf();
    QuadraticLutWeights();
  }

  /** Coordinates 1 and 2 have degree 0 either way. */
  lemma QuadraticLutOtherCoordinates(c: nat)
    requires 1 <= c < 3
    ensures TopCoordDegree(QuadraticLut, c) == 0 && CoordDegree(QuadraticLut, c) == 0
  {
    QuadraticLutZeroCoordinates(c);
    ZeroWeights(Mobius(Component(QuadraticLut, c)));
  }

  /** The degree lists of a table whose coordinates are those of
      QuadraticLut. */
  lemma DegreesOfQuadraticLut(f: seq<nat>)
    requires TopCoordDegree(f, 0) == 1 && CoordDegree(f, 0) == 2
    requires forall c :: 1 <= c < 3 ==> TopCoordDegree(f, c) == 0 && CoordDegree(f, c) == 0
    ensures Largest(TopCoordDegrees(f, 3)) == 1
    ensures AlgebraicDegree(f, 3) == 2
  {
    var tops := TopCoordDegrees(f, 3);
    assert tops[0] == 1 && Largest(tops) in tops;
    var degs := CoordDegrees(f, 3);
    assert degs[0] == 2 && Largest(degs) in degs;
  }

  /** The C degree of x0 x1 + x2 is 1: the highest index holding a 1 is 4,
      of weight 1, while the algebraic degree is 2. So `is_quadratic` says
      false for this quadratic function. */
  lemma HighestIndexMissesDegree()
    ensures Largest(TopCoordDegrees(QuadraticLut, 3)) == 1
    ensures AlgebraicDegree(QuadraticLut, 3) == 2
  {
    QuadraticLutCoordinate0();
    forall c | 1 <= c < 3
      ensures TopCoordDegree(QuadraticLut, c) == 0 && CoordDegree(QuadraticLut, c) == 0
    {
      QuadraticLutOtherCoordinates(c);
    }
    DegreesOfQuadraticLut(QuadraticLut);
  }

  // ---------------------------------------------------------------
  // The degree the C code evidently means

  /** The corrected scan: the largest popcount over every index holding a 1,
      with no early stop. */
  method ScanHeaviestOne(coeffs: seq<nat>) returns (w: nat)
    requires IsBits(coeffs)
    ensures w == Degree(coeffs)
  {
    w := 0;
    var i := 0;
    while i < |coeffs|
      invariant i <= |coeffs| && w == MaxWeight(coeffs, i)
    {
      if coeffs[i] == 1 {
        var b := Bitcount(i);
        if b > w {
          w := b;
        }
      }
      i := i + 1;
    }
  }

  /** The degrees of a list of coefficient lists. */
  function Degrees(anf: seq<seq<nat>>): (ds: seq<nat>)
    ensures |ds| == |anf| && forall c :: 0 <= c < |anf| ==> ds[c] == Degree(anf[c])
  {
    seq(|anf|, c requires 0 <= c < |anf| => Degree(anf[c]))
  }

  /** One more coordinate raises the largest degree to its degree when that
      is larger. */
  lemma DegreesStep(anf: seq<seq<nat>>, c: nat)
    requires c < |anf|
    ensures Largest(Degrees(anf[..c + 1])) == Greater(Largest(Degrees(anf[..c])), Degree(anf[c]))
  {
    assert Degrees(anf[..c + 1]) == Degrees(anf[..c]) + [Degree(anf[c])];
    LargestSnoc(Degrees(anf[..c]), Degree(anf[c]));
  }

  /** The corrected second loop: over the coordinates, the largest degree. */
  method MaxHeaviestWeight(anf: seq<seq<nat>>) returns (maxDeg: nat)
    requires forall c :: 0 <= c < |anf| ==> IsBits(anf[c])
    ensures maxDeg == Largest(Degrees(anf))
  {
    maxDeg := 0;
    var c := 0;
    while c < |anf|
      invariant c <= |anf| && maxDeg == Largest(Degrees(anf[..c]))
    {
      var w := ScanHeaviestOne(anf[c]);
      if w > maxDeg {
        maxDeg := w;
      }
      DegreesStep(anf, c);
      c := c + 1;
    }
    assert anf[..c] == anf;
  }

  /** Read off the coordinate ANFs of f, the degrees are the coordinate degrees. */
  lemma DegreesAreCoordDegrees(f: seq<nat>, anf: seq<seq<nat>>)
    requires forall c :: 0 <= c < |anf| ==> anf[c] == Mobius(Component(f, c))
    ensures Degrees(anf) == CoordDegrees(f, |anf|)
  {
  }

  /** The coordinate ANFs are lists of bits. */
  lemma AnfsAreBits(f: seq<nat>, n: nat, anf: seq<seq<nat>>)
    requires |f| == Pow2(n)
    requires forall c :: 0 <= c < |anf| ==> anf[c] == Mobius(Component(f, c))
    ensures forall c :: 0 <= c < |anf| ==> IsBits(anf[c])
  {
    forall c | 0 <= c < |anf|
      ensures IsBits(anf[c])
    {
      DimOfPow2(Component(f, c), n);
      TransformBits(Component(f, c), n, n);
    }
  }

  /** `compute_algebraic_degree_mv` with the heaviest index in place of the
      highest one: the algebraic degree, the value the Python test reads. */
  method AlgebraicDegreeMvCorrected(func: CFunction) returns (maxDeg: nat)
    requires Pow2(func.n) <= |func.lut|
    ensures maxDeg == AlgebraicDegree(Table(func), func.n)
  {
    if func.n == 0 {
      return 0;
    }
    var anf := CoordinateAnfs(func);
    AnfsAreBits(Table(func), func.n, anf);
    maxDeg := MaxHeaviestWeight(anf);
    DegreesAreCoordDegrees(Table(func), anf);
  }

  /** A function of degree at most 1 passes the Python test (degree at most
      2) and fails the C test (degree exactly 2), whichever degree the C
      code computes. */
  lemma AffineQuadraticTestsDisagree(f: seq<nat>, n: nat)
    requires AlgebraicDegree(f, n) <= 1
    ensures AlgebraicDegree(f, n) <= 2
    ensures Largest(TopCoordDegrees(f, n)) != 2
  {
    CppDegreeBelow(f, n);
  }
}
