/** `c_src/invariants_computations.cpp`, first part: the `Function` record
    built from a lookup table, the dimension read off the table length, and
    the differential uniformity counted in a flat `2^n * 2^n` table. */
module CppFunction {
  import opened Bits
  import opened Outcomes
  import opened Ddt
  import opened GammaRank
  import opened DeltaRank

  /** `struct Function`: the lookup table, the polynomial bitmask (0 for
      none) and the dimension n. */
  datatype CFunction = CFunction(lut: seq<nat>, polynomial: nat, n: nat)

  /** The number of values an `unsigned int` holds. */
  const UintRange: nat := 0x1_0000_0000

  /** k is a power of two. */
  predicate IsPow2(k: nat)
    decreases k
  {
    k == 1 || (k >= 2 && k % 2 == 0 && IsPow2(k / 2))
  }

  lemma {:induction false} Pow2IsPow2(e: nat)
    ensures IsPow2(Pow2(e))
  {
    if e > 0 {
      Pow2IsPow2(e - 1);
      assert Pow2(e) / 2 == Pow2(e - 1);
    }
  }

  /** `lut_dimension(length)`: halve while above 1, answering 0 as soon as
      an odd value shows up. It is log2 of a power of two and 0 for every
      other length. */
  method LutDimension(length: nat) returns (n: nat)
    ensures IsPow2(length) ==> Pow2(n) == length
    ensures !IsPow2(length) ==> n == 0
  {
    var rest := length;
    n := 0;
    while rest > 1
      invariant rest * Pow2(n) == length && (rest == 0 ==> n == 0)
      invariant IsPow2(rest) <==> IsPow2(length)
    {
      if rest % 2 != 0 {
        return 0;
      }
      Halve(rest, n);
      rest := rest / 2;
      n := n + 1;
    }
    return n;
  }

  /** Halving an even count doubles the power of two beside it. */
  lemma Halve(rest: nat, n: nat)
    requires rest % 2 == 0
    ensures rest * Pow2(n) == (rest / 2) * Pow2(n + 1)
  {
    var h := rest / 2;
    assert rest == 2 * h;
    assert Pow2(n + 1) == 2 * Pow2(n);
    calc {
      rest * Pow2(n);
      (2 * h) * Pow2(n);
      h * (2 * Pow2(n));
    }
  }

  /** The table entries the computations read: the first 2^n. */
  function Table(f: CFunction): (t: seq<nat>)
    requires Pow2(f.n) <= |f.lut|
    ensures IsLut(t, f.n) && forall x :: 0 <= x < Pow2(f.n) ==> t[x] == f.lut[x]
  {
    f.lut[..Pow2(f.n)]
  }

  /** `create_function_from_truth_table_and_poly(table, length, poly)`: no
      function for a null or empty table; otherwise the copy of the table
      with n = lut_dimension(length). The guard `(1U << n) == 0` is dead,
      since 2^n never exceeds the length, so a length that is not a power
      of two yields a function with n = 0. */
  method CreateFunctionFromTruthTableAndPoly(table: Option<seq<nat>>, poly: nat) returns (r: Option<CFunction>)
    requires table.Some? ==> |table.value| < UintRange
    ensures r.None? <==> table.None? || |table.value| == 0
    ensures r.Some? ==> r.value.lut == table.value && r.value.polynomial == poly
    ensures r.Some? && IsPow2(|table.value|) ==> Pow2(r.value.n) == |table.value|
    ensures r.Some? && !IsPow2(|table.value|) ==> r.value.n == 0
  {
    if table.None? || |table.value| == 0 {
      return None;
    }
    var length := |table.value|;
    var n := LutDimension(length);
    // The guard `(1U << n) == 0` of the C code: 2^n is at most the length,
    // so the shifted value is never 0 and the guard never fires.
    assert Pow2(n) % UintRange != 0;
    return Some(CFunction(table.value, poly, n));
  }

  /** `create_function_from_truth_table(table, length)`: the same, with no
      polynomial. */
  method CreateFunctionFromTruthTable(table: Option<seq<nat>>) returns (r: Option<CFunction>)
    requires table.Some? ==> |table.value| < UintRange
    ensures r.None? <==> table.None? || |table.value| == 0
    ensures r.Some? ==> r.value.lut == table.value && r.value.polynomial == 0
    ensures r.Some? && IsPow2(|table.value|) ==> Pow2(r.value.n) == |table.value|
    ensures r.Some? && !IsPow2(|table.value|) ==> r.value.n == 0
  {
    r := CreateFunctionFromTruthTableAndPoly(table, 0);
  }

  /** Every function the C code creates has at least 2^n entries, so the
      computations below never read past its table. */
  lemma CreatedCovers(table: seq<nat>, r: CFunction)
    requires |table| > 0 && r.lut == table
    requires IsPow2(|table|) ==> Pow2(r.n) == |table|
    requires !IsPow2(|table|) ==> r.n == 0
    ensures Pow2(r.n) <= |r.lut|
  {
  }

  /** A table of three entries is accepted as a function on 0-bit words,
      whose computations then look at its first entry only. */
  lemma NonPowerOfTwoAccepted()
    ensures !IsPow2(3)
    ensures var f := CFunction([0, 1, 2], 0, 0); |Table(f)| == 1 && Table(f) == [0]
  {
  }

  /** The creation the guard evidently means: a table whose length is not
      2^n for the n found is refused, so every created function has exactly
      2^n entries. */
  method CreateFunctionChecked(table: Option<seq<nat>>, poly: nat) returns (r: Option<CFunction>)
    requires table.Some? ==> |table.value| < UintRange
    ensures r.None? <==> table.None? || !IsPow2(|table.value|)
    ensures r.Some? ==> r.value.lut == table.value && r.value.polynomial == poly
    ensures r.Some? ==> IsLut(r.value.lut, r.value.n)
  {
    if table.None? || |table.value| == 0 {
      return None;
    }
    var length := |table.value|;
    var n := LutDimension(length);
    if Pow2(n) % UintRange != length {
      return None;
    }
    return Some(CFunction(table.value, poly, n));
  }

  // ---------------------------------------------------------------
  // Differential uniformity over a flat table

  /** Row a, column b of a flat s-by-s table sit at a * s + b. */
  function Cell(a: nat, b: nat, s: nat): (c: nat)
    requires a < s && b < s
    ensures c < s * s
  {
    BelowSquare(a, b, s);
    a * s + b
  }

  /** Distinct rows and columns have distinct cells. */
  lemma CellDistinct(a: nat, b: nat, a': nat, b': nat, s: nat)
    requires a < s && a' < s && b < s && b' < s && (a != a' || b != b')
    ensures Cell(a, b, s) != Cell(a', b', s)
  {
    if a * s + b == a' * s + b' {
      DivUnique(a * s + b, s, a, b);
      DivUnique(a' * s + b', s, a', b');
    }
  }

  /** `sz * sz`, the length of `ddt`, in `unsigned int` arithmetic. */
  function FlatLength(n: nat): nat
  {
    (Pow2(n) * Pow2(n)) % UintRange
  }

  /** Up to n = 15 the length is the full 2^n * 2^n. */
  lemma NarrowLength(n: nat)
    requires n <= 15
    ensures Pow2(n) * Pow2(n) < UintRange && FlatLength(n) == Pow2(n) * Pow2(n)
  {
    Pow2Double(n);
    Pow2Monotone(2 * n, 30);
    Pow2Values();
  }

  /** From n = 16 on, 2^n * 2^n wraps to 0: `ddt` is empty. */
  lemma WideLength(n: nat)
    requires n >= 16
    ensures FlatLength(n) == 0
  {
    Pow2Double(n);
    Pow2Add(32, 2 * n - 32);
    Pow2Values();
    DivUnique(Pow2(n) * Pow2(n), UintRange, Pow2(2 * n - 32), 0);
  }

  /** The cell `a * sz + out_diff` that input x increments in row a, with
      the sum wrapped to 32 bits. */
  function Spot(f: seq<nat>, n: nat, x: nat, a: nat): nat
    requires IsLut(f, n) && x < Pow2(n) && a < Pow2(n)
  {
    (a * Pow2(n) + OutDiff(f, n, x, a)) % UintRange
  }

  /** The increments of input x in the rows below k land inside `ddt`. */
  ghost predicate RowFits(f: seq<nat>, n: nat, x: nat, k: nat)
    requires IsLut(f, n) && x < Pow2(n) && k <= Pow2(n)
  {
    forall a :: 0 <= a < k ==> Spot(f, n, x, a) < FlatLength(n)
  }

  /** Every increment of the counting loops lands inside `ddt`; the first
      one that does not writes past the vector (undefined behaviour). */
  ghost predicate SpotsFit(f: seq<nat>, n: nat)
    requires IsLut(f, n)
  {
    InputsFit(f, n, Pow2(n))
  }

  /** Every increment made for the inputs below k lands inside the table. */
  ghost predicate InputsFit(f: seq<nat>, n: nat, k: nat)
    requires IsLut(f, n)
  {
    forall x :: 0 <= x < k && x < Pow2(n) ==> RowFits(f, n, x, Pow2(n))
  }

  /** The number of rows below k in which input x increments cell c. */
  function RowHits(f: seq<nat>, n: nat, x: nat, c: nat, k: nat): nat
    requires IsLut(f, n) && x < Pow2(n) && k <= Pow2(n)
    decreases k
  {
    if k == 0 then 0 else RowHits(f, n, x, c, k - 1) + (if Spot(f, n, x, k - 1) == c then 1 else 0)
  }

  /** The number of increments of cell c by the inputs below x. */
  function Hits(f: seq<nat>, n: nat, c: nat, x: nat): nat
    requires IsLut(f, n) && x <= Pow2(n)
    decreases x
  {
    if x == 0 then 0 else Hits(f, n, c, x - 1) + RowHits(f, n, x - 1, c, Pow2(n))
  }

  /** Cell a * sz + b once the counting loops are done. */
  function Written(f: seq<nat>, n: nat, a: nat, b: nat): nat
    requires IsLut(f, n)
  {
    Hits(f, n, a * Pow2(n) + b, Pow2(n))
  }

  /** The largest written cell of row a among the columns below k. */
  function WrittenRowMax(f: seq<nat>, n: nat, a: nat, k: nat): (m: nat)
    requires IsLut(f, n) && k <= Pow2(n)
    ensures forall b :: 0 <= b < k ==> Written(f, n, a, b) <= m
    ensures k > 0 ==> exists b :: 0 <= b < k && m == Written(f, n, a, b)
    decreases k
  {
    if k == 0 then 0 else Greater(WrittenRowMax(f, n, a, k - 1), Written(f, n, a, k - 1))
  }

  /** The largest written cell of the rows 1 to k - 1. */
  function WrittenMax(f: seq<nat>, n: nat, k: nat): (m: nat)
    requires IsLut(f, n) && k <= Pow2(n)
    ensures forall a, b :: 1 <= a < k && 0 <= b < Pow2(n) ==> Written(f, n, a, b) <= m
    ensures k > 1 ==> exists a, b :: 1 <= a < k && 0 <= b < Pow2(n) && m == Written(f, n, a, b)
    decreases k
  {
    if k <= 1 then 0
    else
      var r := WrittenRowMax(f, n, k - 1, Pow2(n));
      var b :| 0 <= b < Pow2(n) && r == Written(f, n, k - 1, b);
      assert Written(f, n, k - 1, b) <= Greater(WrittenMax(f, n, k - 1), r);
      Greater(WrittenMax(f, n, k - 1), r)
  }

  /** What `differential_uniformity` returns when no write leaves `ddt`:
      the largest cell of the rows a != 0, and 0 for n = 0. */
  function WrittenUniformity(f: seq<nat>, n: nat): (u: nat)
    requires IsLut(f, n)
    ensures forall a, b :: 1 <= a < Pow2(n) && 0 <= b < Pow2(n) ==> Written(f, n, a, b) <= u
    ensures n >= 1 ==> exists a, b :: 1 <= a < Pow2(n) && 0 <= b < Pow2(n) && u == Written(f, n, a, b)
    ensures n == 0 ==> u == 0
  {
    WrittenMax(f, n, Pow2(n))
  }

  /** When every write lands, n is at most 15 and the cells a * sz + b read
      back lie in the table. */
  lemma SpotsFitNarrow(f: seq<nat>, n: nat)
    requires IsLut(f, n) && SpotsFit(f, n)
    ensures n <= 15 && FlatLength(n) == Pow2(n) * Pow2(n)
  {
    assert RowFits(f, n, 0, Pow2(n));
    assert Spot(f, n, 0, 0) < FlatLength(n);
    if n >= 16 {
      WideLength(n);
      assert false;
    }
    NarrowLength(n);
  }

  /** On n = 0 the single write lands in the single cell. */
  lemma SpotsFitZero(f: seq<nat>)
    requires IsLut(f, 0)
    ensures SpotsFit(f, 0)
  {
    XorSelf(f[0]);
    Pow2Values();
  }

  /** Every cell counts the writes made for the inputs below x. */
  ghost predicate Filled(f: seq<nat>, n: nat, ddt: seq<nat>, x: nat)
    requires IsLut(f, n) && x <= Pow2(n)
  {
    forall c :: 0 <= c < |ddt| ==> ddt[c] == Hits(f, n, c, x)
  }

  /** Midway through input x: every cell counts the inputs below x and the
      rows of x below a. */
  ghost predicate CountedTo(f: seq<nat>, n: nat, x: nat, ddt: seq<nat>, a: nat)
    requires IsLut(f, n) && x < Pow2(n) && a <= Pow2(n)
  {
    forall c :: 0 <= c < |ddt| ==> ddt[c] == Hits(f, n, c, x) + RowHits(f, n, x, c, a)
  }

  /** One increment moves the count on by one row. */
  lemma CountedStep(f: seq<nat>, n: nat, x: nat, ddt: seq<nat>, a: nat)
    requires IsLut(f, n) && x < Pow2(n) && a < Pow2(n) && CountedTo(f, n, x, ddt, a)
    requires Spot(f, n, x, a) < |ddt|
    ensures CountedTo(f, n, x, ddt[Spot(f, n, x, a) := ddt[Spot(f, n, x, a)] + 1], a + 1)
  {
  }

  /** An increment inside `ddt` extends the fitting rows and the count by
      one row. */
  lemma FlatStep(f: seq<nat>, n: nat, x: nat, ddt: seq<nat>, a: nat)
    requires IsLut(f, n) && x < Pow2(n) && a < Pow2(n) && |ddt| == FlatLength(n)
    requires RowFits(f, n, x, a) && CountedTo(f, n, x, ddt, a) && Spot(f, n, x, a) < |ddt|
    ensures RowFits(f, n, x, a + 1)
    ensures CountedTo(f, n, x, ddt[Spot(f, n, x, a) := ddt[Spot(f, n, x, a)] + 1], a + 1)
  {
    CountedStep(f, n, x, ddt, a);
  }

  /** The counting loop for one input x: `ddt[a * sz + out_diff]++` for
      every a, stopping at the first cell outside `ddt`. */
  method AddInputFlat(f: seq<nat>, n: nat, x: nat, ddt: array<nat>) returns (inside: bool)
    requires IsLut(f, n) && x < Pow2(n) && ddt.Length == FlatLength(n)
    requires Filled(f, n, ddt[..], x)
    modifies ddt
    ensures inside <==> RowFits(f, n, x, Pow2(n))
    ensures inside ==> Filled(f, n, ddt[..], x + 1)
  {
    var sz := Pow2(n);
    var a := 0;
    while a < sz
      invariant a <= sz
      invariant RowFits(f, n, x, a)
      invariant CountedTo(f, n, x, ddt[..], a)
    {
      XorBound(x, a, n);
      var y := Xor(x, a);
      var outDiff := Xor(f[x], f[y]);
      var cell := (a * sz + outDiff) % UintRange;
      assert cell == Spot(f, n, x, a);
      if cell >= ddt.Length {
        return false;
      }
      FlatStep(f, n, x, ddt[..], a);
      ddt[cell] := ddt[cell] + 1;
      a := a + 1;
    }
    return true;
  }

  /** The counting loops: a fresh `ddt` of `sz * sz` cells, filled unless a
      write leaves it. */
  method FlatDdt(f: seq<nat>, n: nat) returns (ddt: array<nat>, inside: bool)
    requires IsLut(f, n)
    ensures fresh(ddt) && ddt.Length == FlatLength(n)
    ensures inside <==> SpotsFit(f, n)
    ensures inside ==> Filled(f, n, ddt[..], Pow2(n))
  {
    var sz := Pow2(n);
    ddt := new nat[(sz * sz) % UintRange](_ => 0);
    FilledStart(f, n, ddt[..]);
    inside := FillFlat(f, n, ddt);
  }

  /** A zeroed table counts the writes of no input. */
  lemma FilledStart(f: seq<nat>, n: nat, ddt: seq<nat>)
    requires IsLut(f, n) && forall c :: 0 <= c < |ddt| ==> ddt[c] == 0
    ensures Filled(f, n, ddt, 0)
  {
  }

  /** The loop over the inputs x, stopping at the first write outside
      `ddt`. */
  method FillFlat(f: seq<nat>, n: nat, ddt: array<nat>) returns (inside: bool)
    requires IsLut(f, n) && ddt.Length == FlatLength(n) && Filled(f, n, ddt[..], 0)
    modifies ddt
    ensures inside <==> SpotsFit(f, n)
    ensures inside ==> Filled(f, n, ddt[..], Pow2(n))
  {
    var x := 0;
    while x < Pow2(n)
      invariant x <= Pow2(n)
      invariant InputsFit(f, n, x)
      invariant Filled(f, n, ddt[..], x)
    {
      inside := AddInputFlat(f, n, x, ddt);
      if !inside {
        RowStops(f, n, x);
        return;
      }
      x := x + 1;
    }
    inside := true;
  }

  /** A row with a write outside the table makes the whole count undefined. */
  lemma RowStops(f: seq<nat>, n: nat, x: nat)
    requires IsLut(f, n) && x < Pow2(n) && !RowFits(f, n, x, Pow2(n))
    ensures !SpotsFit(f, n)
  {
  }

  /** Row a of `ddt` holds the written cells of row a. */
  ghost predicate FlatRow(f: seq<nat>, n: nat, ddt: seq<nat>, a: nat)
    requires IsLut(f, n) && a < Pow2(n)
  {
    && |ddt| == Pow2(n) * Pow2(n)
    && forall b :: 0 <= b < Pow2(n) ==> ddt[Cell(a, b, Pow2(n))] == Written(f, n, a, b)
  }

  /** The loop over b for one a != 0, raising the running maximum m. */
  method FlatRowMax(f: seq<nat>, n: nat, ddt: seq<nat>, a: nat, m: nat) returns (maxCount: nat)
    requires IsLut(f, n) && a < Pow2(n) && FlatRow(f, n, ddt, a)
    ensures maxCount == Greater(m, WrittenRowMax(f, n, a, Pow2(n)))
  {
    var sz := Pow2(n);
    maxCount := m;
    var b := 0;
    while b < sz
      invariant b <= sz
      invariant maxCount == Greater(m, WrittenRowMax(f, n, a, b))
    {
      var cell := Cell(a, b, sz);
      if ddt[cell] > maxCount {
        maxCount := ddt[cell];
      }
      b := b + 1;
    }
  }

  /** `differential_uniformity(F)`: 0 for n == 0; otherwise the counting
      loops, undefined (None) when a write leaves `ddt`, and then the
      largest cell of the rows a != 0. */
  method DifferentialUniformity(func: CFunction) returns (du: Option<nat>)
    requires Pow2(func.n) <= |func.lut|
    ensures du.Some? <==> SpotsFit(Table(func), func.n)
    ensures du.Some? ==> du.value == WrittenUniformity(Table(func), func.n)
    ensures DiffsFit(Table(func), func.n) && func.n <= 15 ==> du == Some(Uniformity(Table(func), func.n))
  {
    var f := Table(func);
    var n := func.n;
    if n == 0 {
      SpotsFitZero(f);
      return Some(0);
    }
    var ddtArray, inside := FlatDdt(f, n);
    if !inside {
      WrittenIsUniformity(f, n);
      return None;
    }
    SpotsFitNarrow(f, n);
    var maxCount := FlatMax(f, n, ddtArray[..]);
    WrittenIsUniformity(f, n);
    return Some(maxCount);
  }

  /** The loops over a != 0 and b reading a filled `ddt`: the largest
      written cell. */
  method FlatMax(f: seq<nat>, n: nat, ddt: seq<nat>) returns (maxCount: nat)
    requires IsLut(f, n) && |ddt| == Pow2(n) * Pow2(n)
    requires Filled(f, n, ddt, Pow2(n))
    ensures maxCount == WrittenUniformity(f, n)
  {
    maxCount := 0;
    var a := 1;
    while a < Pow2(n)
      invariant 1 <= a <= Pow2(n)
      invariant maxCount == WrittenMax(f, n, a)
    {
      RowsRead(f, n, ddt, a);
      maxCount := FlatRowMax(f, n, ddt, a, maxCount);
      a := a + 1;
    }
  }

  /** A filled `ddt` holds every row of written cells. */
  lemma RowsRead(f: seq<nat>, n: nat, ddt: seq<nat>, a: nat)
    requires IsLut(f, n) && a < Pow2(n) && |ddt| == Pow2(n) * Pow2(n)
    requires Filled(f, n, ddt, Pow2(n))
    ensures FlatRow(f, n, ddt, a)
  {
  }

  /** `is_apn(F)`: the differential uniformity is 2; undefined with it. */
  method IsApn(func: CFunction) returns (apn: Option<bool>)
    requires Pow2(func.n) <= |func.lut|
    ensures apn.Some? <==> SpotsFit(Table(func), func.n)
    ensures apn.Some? ==> (apn.value <==> WrittenUniformity(Table(func), func.n) == 2)
    ensures DiffsFit(Table(func), func.n) && func.n <= 15 ==> apn == Some(Uniformity(Table(func), func.n) == 2)
  {
    var du := DifferentialUniformity(func);
    if du.None? {
      return None;
    }
    return Some(du.value == 2);
  }

  // ---------------------------------------------------------------
  // When the outputs are n-bit words the flat table is the DDT

  /** With n-bit output differences and n <= 15 no sum wraps, and input x
      hits cell a * sz + b in row a exactly when its difference is b. */
  lemma {:induction false} RowHitsCell(f: seq<nat>, n: nat, x: nat, a: nat, b: nat, k: nat)
    requires IsLut(f, n) && DiffsFit(f, n) && n <= 15
    requires x < Pow2(n) && a < Pow2(n) && b < Pow2(n) && k <= Pow2(n)
    ensures RowHits(f, n, x, Cell(a, b, Pow2(n)), k) == if a < k && OutDiff(f, n, x, a) == b then 1 else 0
    decreases k
  {
    if k > 0 {
      RowHitsCell(f, n, x, a, b, k - 1);
      var sz := Pow2(n);
      var d := OutDiff(f, n, x, k - 1);
      SpotIsCell(f, n, x, k - 1);
      if k - 1 != a || d != b {
        CellDistinct(k - 1, d, a, b, sz);
      }
    }
  }

  /** With an n-bit difference d and n <= 15 the increment of row a goes to
      the cell a * sz + d of a table that holds it. */
  lemma SpotIsCell(f: seq<nat>, n: nat, x: nat, a: nat)
    requires IsLut(f, n) && DiffsFit(f, n) && n <= 15 && x < Pow2(n) && a < Pow2(n)
    ensures OutDiff(f, n, x, a) < Pow2(n)
    ensures Spot(f, n, x, a) == Cell(a, OutDiff(f, n, x, a), Pow2(n)) < FlatLength(n)
  {
    var sz := Pow2(n);
    var d := OutDiff(f, n, x, a);
    assert d < sz;
    NarrowLength(n);
    var c := Cell(a, d, sz);
    assert c == a * sz + d && c < sz * sz;
    DivUnique(c, UintRange, 0, c);
  }

  /** Cell a * sz + b counts the inputs below x with difference b in row a. */
  lemma {:induction false} HitsCount(f: seq<nat>, n: nat, a: nat, b: nat, x: nat)
    requires IsLut(f, n) && DiffsFit(f, n) && n <= 15
    requires a < Pow2(n) && b < Pow2(n) && x <= Pow2(n)
    ensures Hits(f, n, Cell(a, b, Pow2(n)), x) == CountBelow(f, n, a, b, x)
    decreases x
  {
    if x > 0 {
      HitsCount(f, n, a, b, x - 1);
      RowHitsCell(f, n, x - 1, a, b, Pow2(n));
    }
  }

  /** Row by row, the written maxima are the DDT maxima. */
  lemma {:induction false} WrittenRowMatches(f: seq<nat>, n: nat, a: nat, k: nat)
    requires IsLut(f, n) && DiffsFit(f, n) && n <= 15 && a < Pow2(n) && k <= Pow2(n)
    ensures WrittenRowMax(f, n, a, k) == RowMax(f, n, a, k)
    decreases k
  {
    if k > 0 {
      WrittenRowMatches(f, n, a, k - 1);
      HitsCount(f, n, a, k - 1, Pow2(n));
      assert Written(f, n, a, k - 1) == Entry(f, n, a, k - 1);
    }
  }

  lemma {:induction false} WrittenMaxMatches(f: seq<nat>, n: nat, k: nat)
    requires IsLut(f, n) && DiffsFit(f, n) && n <= 15 && k <= Pow2(n)
    ensures WrittenMax(f, n, k) == MaxBelow(f, n, k)
    decreases k
  {
    if k > 1 {
      WrittenMaxMatches(f, n, k - 1);
      WrittenRowMatches(f, n, k - 1, Pow2(n));
    }
  }

  /** For outputs whose differences are n-bit words and n <= 15 every write
      lands and the value returned is the differential uniformity. */
  lemma WrittenIsUniformity(f: seq<nat>, n: nat)
    requires IsLut(f, n)
    ensures DiffsFit(f, n) && n <= 15 ==> SpotsFit(f, n) && WrittenUniformity(f, n) == Uniformity(f, n)
  {
    if DiffsFit(f, n) && n <= 15 {
      WrittenMaxMatches(f, n, Pow2(n));
      NarrowLength(n);
      forall x | 0 <= x < Pow2(n)
        ensures RowFits(f, n, x, Pow2(n))
      {
        forall a | 0 <= a < Pow2(n)
          ensures Spot(f, n, x, a) < FlatLength(n)
        {
          SpotIsCell(f, n, x, a);
        }
      }
    }
  }

  /** From n = 16 on no table is counted: the first write leaves the empty
      `ddt`. */
  lemma WideUndefined(f: seq<nat>, n: nat)
    requires IsLut(f, n) && n >= 16
    ensures !SpotsFit(f, n)
  {
    WideLength(n);
    assert Spot(f, n, 0, 0) >= FlatLength(n);
    assert !RowFits(f, n, 0, Pow2(n));
  }
}
