/** `apn_test.py`: the brute-force differential-uniformity computation of
    `BasicDUMethod` and the `DifferentialUniformityComputer` that picks the
    first usable method. */
module ApnTest {
  import opened Bits
  import opened Outcomes
  import opened Representations
  import opened ApnObject
  import opened Ddt

  /** What `BasicDUMethod.compute` yields for a table tt over 2^n inputs:
      the uniformity of its first 2^n entries, 0 when n == 0 (the loop over
      a is empty), and IndexError when the table is too short. */
  function BasicResult(tt: seq<nat>, n: nat): (r: Result<nat>)
    ensures r.Err? <==> n >= 1 && |tt| < Pow2(n)
    ensures r.Ok? ==> r.value <= Pow2(n)
    ensures n == 0 ==> r == Ok(0)
    ensures r.Ok? && n >= 1 ==>
      forall a, b :: 1 <= a < Pow2(n) && 0 <= b < Pow2(n) ==> Entry(tt[..Pow2(n)], n, a, b) <= r.value
  {
    if |tt| >= Pow2(n) then Ok(Uniformity(tt[..Pow2(n)], n))
    else if n == 0 then Ok(0)
    else Err("IndexError: list index out of range")
  }

  /** The innermost loop: the number of x with tt[x] ^ tt[x ^ a] == b. */
  method CountSolutions(tt: seq<nat>, n: nat, a: nat, b: nat) returns (countSolutions: nat)
    requires IsLut(tt, n) && a < Pow2(n)
    ensures countSolutions == Entry(tt, n, a, b)
  {
    countSolutions := 0;
    var x := 0;
    while x < Pow2(n)
      invariant x <= Pow2(n)
      invariant countSolutions == CountBelow(tt, n, a, b, x)
    {
      XorBound(x, a, n);
      var xXorA := Xor(x, a);
      if Xor(tt[x], tt[xXorA]) == b {
        countSolutions := countSolutions + 1;
      }
      x := x + 1;
    }
  }

  /** The loops over a and b, keeping the largest count seen. */
  method MaxSolutions(tt: seq<nat>, n: nat) returns (maxSolutions: nat)
    requires IsLut(tt, n)
    ensures maxSolutions == Uniformity(tt, n)
  {
    maxSolutions := 0;
    var a := 1;
    while a < Pow2(n)
      invariant 1 <= a <= Pow2(n)
      invariant maxSolutions == MaxBelow(tt, n, a)
    {
      maxSolutions := RowSolutions(tt, n, a, maxSolutions);
      a := a + 1;
    }
  }

  /** The loop over b for one a, raising the running maximum m to the
      largest count of row a. */
  method RowSolutions(tt: seq<nat>, n: nat, a: nat, m: nat) returns (maxSolutions: nat)
    requires IsLut(tt, n) && a < Pow2(n)
    ensures maxSolutions == Greater(m, RowMax(tt, n, a, Pow2(n)))
  {
    maxSolutions := m;
    var b := 0;
    while b < Pow2(n)
      invariant b <= Pow2(n)
      invariant maxSolutions == Greater(m, RowMax(tt, n, a, b))
    {
      RowMaxStep(tt, n, a, b, m);
      var countSolutions := CountSolutions(tt, n, a, b);
      if countSolutions > maxSolutions {
        maxSolutions := countSolutions;
      }
      b := b + 1;
    }
  }

  /** One more column: the running maximum takes in its entry. */
  lemma RowMaxStep(tt: seq<nat>, n: nat, a: nat, b: nat, m: nat)
    requires IsLut(tt, n) && a < Pow2(n) && b < Pow2(n)
    ensures Greater(m, RowMax(tt, n, a, b + 1)) == Greater(Greater(m, RowMax(tt, n, a, b)), Entry(tt, n, a, b))
  {
  }

  /** A method computing the differential uniformity. `BasicDUMethod` is the
      only one the repository defines. */
  datatype DuMethod = BasicDUMethod
  {
    /** `is_usable` accepts every function. */
    predicate IsUsable(apn: Apn)
    {
      true
    }

    /** `compute(apn)`: the table of the function (converted when it is held
        as a polynomial), then the brute-force maximum of the DDT over
        a != 0; the object is not changed. */
    method Compute(apn: Apn, lib: GaloisLib) returns (r: Result<nat>)
      ensures r == BasicResult(TableOf(apn.representation, apn.fieldN, apn.irrPoly, lib), apn.fieldN)
    {
      var tt: seq<nat>;
      var n: nat;
      if apn.representation.TableRepr? {
        tt := apn.representation.table.truthTable;
        n := apn.fieldN;
      } else {
        var apnTt := apn.GetTruthTable(lib);
        tt := apnTt.representation.table.truthTable;
        n := apnTt.fieldN;
      }
      var fieldSize := Pow2(n);
      if |tt| < fieldSize {
        if fieldSize == 1 {
          return Ok(0);
        }
        return Err("IndexError: list index out of range");
      }
      var maxSolutions := MaxSolutions(tt[..fieldSize], n);
      return Ok(maxSolutions);
    }
  }

  /** `DifferentialUniformityComputer`: a list of methods, tried in order. */
  class DifferentialUniformityComputer {
    var methods: seq<DuMethod>

    /** Without a list, the computer holds `[BasicDUMethod()]`. */
    constructor (methods: Option<seq<DuMethod>>)
      ensures this.methods == if methods.None? then [BasicDUMethod] else methods.value
    {
      if methods.None? {
        this.methods := [BasicDUMethod];
      } else {
        this.methods := methods.value;
      }
    }

    /** `compute_du`: the result of the first usable method, ValueError when
        none is usable. */
    method ComputeDu(apn: Apn, lib: GaloisLib) returns (r: Result<nat>)
      ensures |methods| == 0 ==> r.Err? && r.error == "ValueError: No suitable method found for computing differential uniformity."
      ensures |methods| > 0 ==> r == BasicResult(TableOf(apn.representation, apn.fieldN, apn.irrPoly, lib), apn.fieldN)
    {
      // The loop over the methods stops at the first usable one, and every
      // method is usable, so the first method of the list is taken.
      if |methods| == 0 {
        return Err("ValueError: No suitable method found for computing differential uniformity.");
      }
      assert methods[0].IsUsable(apn);
      r := methods[0].Compute(apn, lib);
    }
  }

  /** A function held as a polynomial converts to exactly 2^n entries, so
      `compute` never fails on it and yields the uniformity of that table. */
  lemma PolynomialTableComputes(apn: Apn, lib: GaloisLib)
    requires apn.representation.PolyRepr?
    ensures var tt := TableOf(apn.representation, apn.fieldN, apn.irrPoly, lib);
      && |tt| == Pow2(apn.fieldN)
      && BasicResult(tt, apn.fieldN) == Ok(Uniformity(tt, apn.fieldN))
  {
    var tt := TableOf(apn.representation, apn.fieldN, apn.irrPoly, lib);
    assert tt[..Pow2(apn.fieldN)] == tt;
  }
}
