/** `c_invariants_bindings.py`: the Python list of ints copied into a
    `uint32_t` array, with its length passed as an `unsigned int` and the
    polynomial bitmask as a `uint32_t`. ctypes keeps the low 32 bits of
    each of these numbers. */
module InvariantBindings {
  import opened Bits
  import opened Outcomes
  import opened Ddt
  import opened CppFunction
  import opened CppExterns

  /** The entries the C code reads: the first `len(tt)` mod 2^32 entries,
      each taken mod 2^32. */
  function CArray(tt: seq<nat>): (a: seq<nat>)
    ensures |a| == |tt| % UintRange && |a| < UintRange
    ensures forall x :: 0 <= x < |a| ==> a[x] == tt[x] % UintRange
  {
    seq(|tt| % UintRange, x requires 0 <= x < |tt| % UintRange => tt[x] % UintRange)
  }

  /** A list of fewer than 2^32 entries, each below 2^32, crosses intact. */
  lemma CArrayIntact(tt: seq<nat>)
    requires |tt| < UintRange && forall x :: 0 <= x < |tt| ==> tt[x] < UintRange
    ensures CArray(tt) == tt
  {
  }

  /** The exponent of a power of two. */
  function Log2(k: nat): (e: nat)
    requires IsPow2(k)
    ensures Pow2(e) == k
    decreases k
  {
    if k == 1 then 0 else 1 + Log2(k / 2)
  }

  /** Powers of two with different exponents differ. */
  lemma Pow2Injective(a: nat, b: nat)
    requires Pow2(a) == Pow2(b)
    ensures a == b
  {
    if a < b {
      Pow2Monotone(a, b);
    } else if b < a {
      Pow2Monotone(b, a);
    }
  }

  /** The handle the bindings return for tt and an optional bitmask: null
      for an empty array, otherwise the array, the bitmask mod 2^32 (0 for
      none) and the dimension `lut_dimension` finds. */
  function Created(tt: seq<nat>, poly: Option<nat>): (fh: Option<CFunction>)
    ensures Covered(fh)
  {
    var a := CArray(tt);
    if |a| == 0 then None
    else Some(CFunction(a, if poly.Some? then poly.value % UintRange else 0, if IsPow2(|a|) then Log2(|a|) else 0))
  }

  /** 2^32 is the range of `uint32_t`. */
  lemma Pow2ThirtyTwo()
    ensures Pow2(32) == UintRange
  {
    Pow2Values();
  }

  /** The table of a map on n < 32 bits crosses unchanged. */
  lemma MapIntact(tt: seq<nat>, n: nat)
    requires IsMap(tt, n) && n < 32
    ensures CArray(tt) == tt
  {
    Pow2Monotone(n, 32);
    Pow2ThirtyTwo();
    assert forall x :: 0 <= x < |tt| ==> tt[x] < UintRange;
    CArrayIntact(tt);
  }

  /** A map on n < 32 bits crosses as the function of n bits over the same
      table. */
  lemma CreatedOfMap(tt: seq<nat>, n: nat, poly: Option<nat>)
    requires IsMap(tt, n) && n < 32
    ensures Created(tt, poly).Some?
    ensures Created(tt, poly).value.n == n && Table(Created(tt, poly).value) == tt
  {
    MapIntact(tt, n);
    Pow2IsPow2(n);
    Pow2Injective(Log2(Pow2(n)), n);
  }

  /** `create_function_from_truth_table(tt)` for no bitmask, else
      `create_function_from_truth_table_and_poly(tt, poly_bits)`. */
  method CreateFunction(tt: seq<nat>, poly: Option<nat>) returns (fh: Option<CFunction>)
    ensures fh == Created(tt, poly)
  {
    var a := CArray(tt);
    if poly.None? {
      fh := CreateFunctionFromTruthTable(Some(a));
    } else {
      fh := CreateFunctionFromTruthTableAndPoly(Some(a), poly.value % UintRange);
    }
    if fh.Some? && IsPow2(|a|) {
      Pow2Injective(fh.value.n, Log2(|a|));
    }
  }
}
