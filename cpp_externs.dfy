/** The `extern "C"` entry points of `c_src/invariants_computations.cpp`
    that the invariant code calls. Each takes a handle, null (None) or a
    created function, and answers a fixed value for the null handle. */
module CppExterns {
  import opened Bits
  import opened Outcomes
  import opened Ddt
  import opened DeltaRank
  import opened Anf
  import opened CppFunction
  import opened CppAnf
  import opened CppField
  import opened CppMonomial
  import opened KToOne

  /** A handle as the creation functions return it: null, or a function
      with at least 2^n entries. */
  predicate Covered(fh: Option<CFunction>)
  {
    fh.Some? ==> Pow2(fh.value.n) <= |fh.value.lut|
  }

  // ---------------------------------------------------------------
  // function_differential_uniformity

  /** The answer of `function_differential_uniformity`: 0 for null;
      otherwise the largest count written, undefined (None) when a count
      lands outside the C table. */
  ghost function HandleUniformity(fh: Option<CFunction>): Option<nat>
    requires Covered(fh)
  {
    if fh.None? then Some(0)
    else
      var f := Table(fh.value);
      if SpotsFit(f, fh.value.n) then Some(WrittenUniformity(f, fh.value.n)) else None
  }

  /** On a map of at most 15 bits the answer is the differential
      uniformity; above 15 bits it is undefined. */
  lemma HandleUniformityOfMap(fh: Option<CFunction>)
    requires Covered(fh) && fh.Some? && IsMap(Table(fh.value), fh.value.n)
    ensures fh.value.n <= 15 ==> HandleUniformity(fh) == Some(Uniformity(Table(fh.value), fh.value.n))
    ensures fh.value.n >= 16 ==> HandleUniformity(fh).None?
  {
    var f := Table(fh.value);
    if fh.value.n <= 15 {
      MapDiffsFit(f, fh.value.n);
      WrittenIsUniformity(f, fh.value.n);
    } else {
      WideUndefined(f, fh.value.n);
    }
  }

  /** `function_differential_uniformity(fh)`. */
  method FunctionDifferentialUniformity(fh: Option<CFunction>) returns (du: Option<nat>)
    requires Covered(fh)
    ensures du == HandleUniformity(fh)
  {
    if fh.None? {
      return Some(0);
    }
    du := DifferentialUniformity(fh.value);
  }

  // ---------------------------------------------------------------
  // function_k_to_1

  /** A k-to-1 count is unique: the count of any hit nonzero output. */
  lemma KToOneUnique(f: seq<nat>, n: nat, k: nat)
    requires IsLut(f, n) && KToOneMap(f, n, k)
    ensures forall j :: KToOneMap(f, n, j) ==> j == k
  {
    var v :| 0 < v < Pow2(n) && Count(f, v, |f|) > 0;
    assert Count(f, v, |f|) == k;
  }

  /** The answer of `compute_k_to_1` on a created function: for n = 0, 1
      or -1 as the single entry is 0 or not; otherwise the k of a k-to-1
      map, and -1 when there is none. */
  ghost function KOf(func: CFunction): int
    requires Pow2(func.n) <= |func.lut|
  {
    if func.n == 0 then (if func.lut[0] == 0 then 1 else -1)
    else if exists k :: KToOneMap(Table(func), func.n, k) then
      var k: nat :| KToOneMap(Table(func), func.n, k); k
    else -1
  }

  /** The answer of `function_k_to_1`: -1 for null. */
  ghost function HandleKToOne(fh: Option<CFunction>): int
    requires Covered(fh)
  {
    if fh.None? then -1 else KOf(fh.value)
  }

  /** On n >= 1 an answer other than -1 is a count k >= 1 of which the
      table is a k-to-1 map, and -1 means the table is k-to-1 for no k. */
  lemma HandleKToOneMeans(fh: Option<CFunction>)
    requires Covered(fh) && fh.Some? && fh.value.n >= 1
    ensures HandleKToOne(fh) != -1 ==>
      HandleKToOne(fh) >= 1 && KToOneMap(Table(fh.value), fh.value.n, HandleKToOne(fh))
    ensures HandleKToOne(fh) == -1 <==> forall j :: !KToOneMap(Table(fh.value), fh.value.n, j)
  {
    var f := Table(fh.value);
    if exists k :: KToOneMap(f, fh.value.n, k) {
      var k :| KToOneMap(f, fh.value.n, k);
      KToOneDivides(f, fh.value.n, k);
    }
  }

  /** `function_k_to_1(fh)`. */
  method FunctionKToOne(fh: Option<CFunction>) returns (k: int)
    requires Covered(fh)
    ensures k == HandleKToOne(fh)
  {
    if fh.None? {
      return -1;
    }
    k := ComputeKToOne(fh.value);
    if fh.value.n > 0 && k != -1 {
      KToOneUnique(Table(fh.value), fh.value.n, k);
    }
  }

  // ---------------------------------------------------------------
  // function_algebraic_degree, function_is_quadratic

  /** The answer of `function_algebraic_degree`: 0 for null, otherwise the
      largest degree the C scan finds, which is at most the algebraic
      degree of the table. */
  function HandleDegree(fh: Option<CFunction>): (d: nat)
    requires Covered(fh)
    ensures fh.Some? ==> d <= AlgebraicDegree(Table(fh.value), fh.value.n)
  {
    if fh.None? then 0
    else
      CppDegreeBelow(Table(fh.value), fh.value.n);
      Largest(TopCoordDegrees(Table(fh.value), fh.value.n))
  }

  /** `function_algebraic_degree(fh)`. */
  method FunctionAlgebraicDegree(fh: Option<CFunction>) returns (degree: nat)
    requires Covered(fh)
    ensures degree == HandleDegree(fh)
  {
    if fh.None? {
      return 0;
    }
    degree := AlgebraicDegreeMv(fh.value);
  }

  /** `function_is_quadratic(fh)`: the degree answer is 2, false for null. */
  method FunctionIsQuadratic(fh: Option<CFunction>) returns (quadratic: bool)
    requires Covered(fh)
    ensures quadratic <==> HandleDegree(fh) == 2
  {
    if fh.None? {
      return false;
    }
    quadratic := IsQuadratic(fh.value);
  }

  // ---------------------------------------------------------------
  // function_is_monomial

  /** The answer of `function_is_monomial`: false for null, otherwise the
      verdict of `is_monomial_impl`, undefined (None) where it reads
      outside its tables. */
  ghost function HandleMonomial(fh: Option<CFunction>): Option<bool>
    requires Covered(fh)
  {
    if fh.None? then Some(false) else MonomialVerdict(Table(fh.value), fh.value.n, fh.value.polynomial)
  }

  /** On a map, with a polynomial whose antilog table stays in range, the
      answer is defined and is the monomial test. */
  lemma HandleMonomialOfMap(fh: Option<CFunction>)
    requires Covered(fh) && fh.Some? && IsMap(Table(fh.value), fh.value.n)
    requires AlogFits(fh.value.n, fh.value.polynomial)
    ensures HandleMonomial(fh) == Some(fh.value.polynomial != 0 && fh.value.n <= 16
                                       && MonomialTest(Table(fh.value), fh.value.n, fh.value.polynomial))
  {
    MapVerdict(Table(fh.value), fh.value.n, fh.value.polynomial);
  }

  /** `function_is_monomial(fh)`. */
  method FunctionIsMonomial(fh: Option<CFunction>) returns (mono: Option<bool>)
    requires Covered(fh)
    ensures mono == HandleMonomial(fh)
  {
    if fh.None? {
      return Some(false);
    }
    mono := IsMonomialImpl(fh.value);
  }
}
