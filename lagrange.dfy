/** `_lagrange_interpolation`: for every sample alpha with a nonzero value,
    the basis polynomial L_alpha = prod over beta != alpha of
    (x + beta) / (alpha + beta) is built coefficient by coefficient and
    y_alpha * L_alpha is added into the result. Coefficient lists have one
    entry per field element; index i holds the coefficient of x^i.

    The loops only read the field through the lookups `_gf_mul(a, b)` and
    `_gf_inv(a)`; the specification is stated over those lookups (`Ops`),
    and `GF` gives the ones `_build_all_tables` fills in. */
module Lagrange {
  import opened Bits
  import opened GaloisField
  import opened FieldTables
  import opened Outcomes

  /** The table lookups of GF(2^n): `_gf_mul_table[a][b]` and `_gf_inv_table[a]`. */
  datatype Ops = Ops(n: nat, mul: (nat, nat) -> nat, inv: nat -> nat)
  {
    /** 2^n, the length of every table. */
    function Size(): nat
    {
      Pow2(n)
    }
  }

  /** The lookups `_build_all_tables(n, p, g)` provides: the shift-and-XOR
      product and the brute-force inverse. The tables are only ever read at
      field elements; outside them the product reads its arguments modulo
      2^n, which lets its algebraic laws hold for every argument. */
  function GF(n: nat, p: nat): (o: Ops)
    ensures o.n == n
  {
    Ops(n, (a: nat, b: nat) => MulSlow(Low(a, n), Low(b, n), n, p), (a: nat) => FindInverse(a, n, p))
  }

  /** Looking up field elements gives field elements. */
  ghost predicate Closed(o: Ops)
  {
    && (forall a: nat, b: nat :: a < o.Size() && b < o.Size() ==> o.mul(a, b) < o.Size())
    && (forall a: nat :: a < o.Size() ==> o.inv(a) < o.Size())
  }

  lemma GFClosed(n: nat, p: nat)
    ensures Closed(GF(n, p))
  {
    var o := GF(n, p);
    forall a: nat, b: nat | a < o.Size() && b < o.Size()
      ensures o.mul(a, b) < o.Size()
    {
      MulBound(Low(a, n), Low(b, n), n, p);
    }
    forall a: nat | a < o.Size()
      ensures o.inv(a) < o.Size()
    {
      FindInverseSpec(a, n, p);
    }
  }

  /** The multiplication and inverse tables of f hold exactly the lookups o. */
  ghost predicate Holds(f: Field, o: Ops)
    reads f, f.mulTable, f.invTable
  {
    && o.n == f.n
    && f.mulTable.Length0 == o.Size() && f.mulTable.Length1 == o.Size()
    && f.invTable.Length == o.Size()
    && (forall x, y :: 0 <= x < o.Size() && 0 <= y < o.Size() ==> f.mulTable[x, y] == o.mul(x, y))
    && (forall x :: 0 <= x < o.Size() ==> f.invTable[x] == o.inv(x))
  }

  /** The tables `_build_all_tables` writes are those of GF(f.n, f.poly). */
  lemma BuiltTablesHold(f: Field)
    requires f.MulOk() && f.InvOk()
    ensures Holds(f, GF(f.n, f.poly)) && Closed(GF(f.n, f.poly))
  {
    var o := GF(f.n, f.poly);
    GFClosed(f.n, f.poly);
    forall x, y | 0 <= x < o.Size() && 0 <= y < o.Size()
      ensures f.mulTable[x, y] == o.mul(x, y)
    {
      LowOfSmall(x, f.n);
      LowOfSmall(y, f.n);
    }
  }

  // ---------------------------------------------------------------
  // The coefficient lists the loops compute

  function Zeros(size: nat): (r: seq<nat>)
    ensures |r| == size && forall i :: 0 <= i < size ==> r[i] == 0
  {
    seq(size, i => 0)
  }

  /** The constant polynomial 1: `L = [0]*size; L[0] = 1`. */
  function UnitPoly(size: nat): (r: seq<nat>)
    ensures |r| == size && (size >= 1 ==> r[0] == 1) && forall i :: 1 <= i < size ==> r[i] == 0
  {
    seq(size, i => if i == 0 then 1 else 0)
  }

  /** L(x) * x with the top coefficient dropped: the shift loop. */
  function Shifted(L: seq<nat>): (r: seq<nat>)
    ensures |r| == |L|
  {
    seq(|L|, i requires 0 <= i < |L| => if i == 0 then 0 else L[i - 1])
  }

  /** Coefficient i of A + L * c: the lookup is skipped where L[i] is 0. */
  function AddScaledAt(a: nat, l: nat, c: nat, o: Ops): nat
  {
    if l == 0 then a else Xor(a, o.mul(l, c))
  }

  /** A + L * c, coefficient by coefficient. */
  function AddScaled(A: seq<nat>, L: seq<nat>, c: nat, o: Ops): (r: seq<nat>)
    requires |A| == |L|
    ensures |r| == |A|
  {
    seq(|A|, i requires 0 <= i < |A| => AddScaledAt(A[i], L[i], c, o))
  }

  /** Coefficient i of L * d: zero coefficients stay zero. */
  function ScaledAt(l: nat, d: nat, o: Ops): nat
  {
    if l == 0 then 0 else o.mul(l, d)
  }

  /** L * d, coefficient by coefficient. */
  function Scaled(L: seq<nat>, d: nat, o: Ops): (r: seq<nat>)
    ensures |r| == |L|
  {
    seq(|L|, i requires 0 <= i < |L| => ScaledAt(L[i], d, o))
  }

  /** One pass of the beta loop: L := (L * (x + beta)) * d. */
  function Step(L: seq<nat>, beta: nat, d: nat, o: Ops): (r: seq<nat>)
    ensures |r| == |L|
  {
    Scaled(AddScaled(Shifted(L), L, beta, o), d, o)
  }

  /** Coefficient i of L_alpha after the betas 0 .. k-1, alpha skipped:
      each pass shifts, adds the multiple by beta and scales by the table
      inverse of alpha + beta. */
  function BasisCoef(o: Ops, alpha: nat, k: nat, i: nat): nat
  {
    if k == 0 then (if i == 0 then 1 else 0)
    else if k - 1 == alpha then BasisCoef(o, alpha, k - 1, i)
    else
      var shifted := if i == 0 then 0 else BasisCoef(o, alpha, k - 1, i - 1);
      ScaledAt(AddScaledAt(shifted, BasisCoef(o, alpha, k - 1, i), k - 1, o), o.inv(Xor(alpha, k - 1)), o)
  }

  /** The list L_alpha after the betas 0 .. k-1. */
  function Basis(o: Ops, alpha: nat, k: nat): (r: seq<nat>)
    ensures |r| == o.Size()
  {
    seq(o.Size(), i requires 0 <= i < o.Size() => BasisCoef(o, alpha, k, i))
  }

  /** Accumulating y * L reads a multiplication-table row or column that
      does not exist (Python raises IndexError). */
  predicate OutOfTable(L: seq<nat>, y: nat, size: nat)
  {
    exists i :: 0 <= i < |L| && L[i] != 0 && (L[i] >= size || y >= size)
  }

  /** One pass of the alpha loop: add y * L_alpha unless y is zero. */
  function AddSample(o: Ops, acc: Option<seq<nat>>, alpha: nat, y: nat): (r: Option<seq<nat>>)
    requires acc.Some? ==> |acc.value| == o.Size()
    ensures r.Some? ==> |r.value| == o.Size()
  {
    match acc
    case None => None
    case Some(P) =>
      if y == 0 then Some(P)
      else
        var L := Basis(o, alpha, o.Size());
        if OutOfTable(L, y, o.Size()) then None
        else Some(AddScaled(P, L, y, o))
  }

  /** The result list after the samples 0 .. k-1, or None once a lookup failed. */
  function Accumulated(o: Ops, tt: seq<nat>, k: nat): (r: Option<seq<nat>>)
    requires k <= |tt|
    ensures r.Some? ==> |r.value| == o.Size()
  {
    if k == 0 then Some(Zeros(o.Size()))
    else AddSample(o, Accumulated(o, tt, k - 1), k - 1, tt[k - 1])
  }

  /** What `_lagrange_interpolation(tt_values)` returns, None for IndexError. */
  function Interpolated(o: Ops, tt: seq<nat>): Option<seq<nat>>
  {
    Accumulated(o, tt, |tt|)
  }

  // ---------------------------------------------------------------
  // Facts the loops need

  /** Every coefficient is a field element. */
  ghost predicate AllBelow(L: seq<nat>, size: nat)
  {
    forall i :: 0 <= i < |L| ==> L[i] < size
  }

  /** Once a lookup has failed, the result stays None. */
  lemma {:induction false} AccumulatedNoneStays(o: Ops, tt: seq<nat>, k: nat, m: nat)
    requires k <= m <= |tt| && Accumulated(o, tt, k).None?
    ensures Accumulated(o, tt, m).None?
    decreases m
  {
    if k < m {
      AccumulatedNoneStays(o, tt, k, m - 1);
    }
  }

  /** Coefficients of one beta step stay field elements. */
  lemma StepBound(L: seq<nat>, beta: nat, d: nat, o: Ops)
    requires Closed(o) && AllBelow(L, o.Size()) && beta < o.Size() && d < o.Size()
    ensures AllBelow(Step(L, beta, d, o), o.Size())
  {
    var sh := Shifted(L);
    assert AllBelow(sh, o.Size());
    var added := AddScaled(sh, L, beta, o);
    forall i | 0 <= i < |added|
      ensures added[i] < o.Size()
    {
      if L[i] != 0 {
        XorBound(sh[i], o.mul(L[i], beta), o.n);
      }
    }
  }

  /** Every coefficient of a basis polynomial is a field element. */
  lemma {:induction false} BasisBound(o: Ops, alpha: nat, k: nat)
    requires Closed(o) && o.Size() >= 2 && alpha < o.Size() && k <= o.Size()
    ensures AllBelow(Basis(o, alpha, k), o.Size())
  {
    if k == 0 {
      BasisStart(o, alpha);
    } else {
      BasisBound(o, alpha, k - 1);
      if k - 1 == alpha {
        BasisSkip(o, alpha);
      } else {
        BasisNextBound(o, alpha, k - 1);
      }
    }
  }

  /** A pass with beta != alpha keeps the coefficients in the field. */
  lemma BasisNextBound(o: Ops, alpha: nat, beta: nat)
    requires Closed(o) && o.Size() >= 2 && alpha < o.Size() && beta < o.Size() && beta != alpha
    requires AllBelow(Basis(o, alpha, beta), o.Size())
    ensures AllBelow(Basis(o, alpha, beta + 1), o.Size())
  {
    XorBound(alpha, beta, o.n);
    StepBound(Basis(o, alpha, beta), beta, o.inv(Xor(alpha, beta)), o);
    BasisNext(o, alpha, beta);
  }

  /** The list before any pass is the constant 1. */
  lemma BasisStart(o: Ops, alpha: nat)
    ensures Basis(o, alpha, 0) == UnitPoly(o.Size())
  {
  }

  /** A pass with beta != alpha is one Step. */
  lemma BasisNext(o: Ops, alpha: nat, beta: nat)
    requires beta != alpha
    ensures Basis(o, alpha, beta + 1) == Step(Basis(o, alpha, beta), beta, o.inv(Xor(alpha, beta)), o)
  {
  }

  /** The pass with beta == alpha changes nothing. */
  lemma BasisSkip(o: Ops, alpha: nat)
    ensures Basis(o, alpha, alpha + 1) == Basis(o, alpha, alpha)
  {
  }

  // ---------------------------------------------------------------
  // The loops

  /** The shift loop: `L_new[i+1] ^= L[i]` for nonzero L[i], i < size - 1. */
  method ShiftInto(L: array<nat>) returns (L2: array<nat>)
    requires L.Length >= 1
    ensures fresh(L2) && L2[..] == Shifted(L[..])
  {
    var size := L.Length;
    L2 := new nat[size](_ => 0);
    var i := 0;
    while i < size - 1
      invariant 0 <= i <= size - 1
      invariant forall j :: 0 <= j < size ==> L2[j] == if 1 <= j <= i then L[j - 1] else 0
    {
      if L[i] != 0 {
        L2[i + 1] := Xor(L2[i + 1], L[i]);
      }
      i := i + 1;
    }
  }

  /** The beta loop: `L_new[i] ^= mul(L[i], beta)` for nonzero L[i]. */
  method AddMultipleInto(f: Field, ghost o: Ops, L2: array<nat>, L: array<nat>, beta: nat)
    requires Holds(f, o) && Closed(o)
    requires L.Length == L2.Length == o.Size() && beta < o.Size() && L2 != L
    requires AllBelow(L[..], o.Size()) && AllBelow(L2[..], o.Size())
    modifies L2
    ensures L2[..] == AddScaled(old(L2[..]), L[..], beta, o)
    ensures AllBelow(L2[..], o.Size())
  {
    ghost var sh := L2[..];
    ghost var added := AddScaled(sh, L[..], beta, o);
    var i := 0;
    while i < L.Length
      invariant 0 <= i <= L.Length
      invariant forall j :: 0 <= j < L.Length ==> L2[j] == if j < i then added[j] else sh[j]
      invariant forall j :: 0 <= j < L.Length ==> L2[j] < o.Size()
    {
      if L[i] != 0 {
        assert L[..][i] == L[i];
        var m := f.mulTable[L[i], beta];
        XorBound(L2[i], m, o.n);
        L2[i] := Xor(L2[i], m);
      }
      i := i + 1;
    }
  }

  /** The scaling loop: `L_new[i] = mul(L_new[i], d)` for nonzero entries. */
  method ScaleInPlace(f: Field, ghost o: Ops, L2: array<nat>, d: nat)
    requires Holds(f, o) && Closed(o)
    requires L2.Length == o.Size() && d < o.Size() && AllBelow(L2[..], o.Size())
    modifies L2
    ensures L2[..] == Scaled(old(L2[..]), d, o)
    ensures AllBelow(L2[..], o.Size())
  {
    ghost var before := L2[..];
    var i := 0;
    while i < L2.Length
      invariant 0 <= i <= L2.Length
      invariant forall j :: 0 <= j < L2.Length ==> L2[j] == if j < i then Scaled(before, d, o)[j] else before[j]
      invariant forall j :: 0 <= j < L2.Length ==> L2[j] < o.Size()
    {
      if L2[i] != 0 {
        assert L2[i] == before[i];
        L2[i] := f.mulTable[L2[i], d];
      }
      i := i + 1;
    }
  }

  /** L_new = (L * (x + beta)) * d: the three inner loops of one beta. */
  method MultiplyLinear(f: Field, ghost o: Ops, L: array<nat>, beta: nat, d: nat) returns (L2: array<nat>)
    requires Holds(f, o) && Closed(o)
    requires L.Length == o.Size() && beta < o.Size() && d < o.Size() && AllBelow(L[..], o.Size())
    ensures fresh(L2) && L2[..] == Step(L[..], beta, d, o) && AllBelow(L2[..], o.Size())
  {
    L2 := ShiftInto(L);
    assert AllBelow(L2[..], o.Size());
    AddMultipleInto(f, o, L2, L, beta);
    ScaleInPlace(f, o, L2, d);
  }

  /** One pass of the beta loop with beta != alpha. */
  method NextBasis(f: Field, ghost o: Ops, L: array<nat>, alpha: nat, beta: nat) returns (L2: array<nat>)
    requires Holds(f, o) && Closed(o)
    requires alpha < o.Size() && beta < o.Size() && beta != alpha
    requires L[..] == Basis(o, alpha, beta)
    ensures fresh(L2) && L2[..] == Basis(o, alpha, beta + 1)
  {
    BasisBound(o, alpha, beta);
    XorBound(alpha, beta, o.n);
    var denominator := f.invTable[Xor(alpha, beta)];
    L2 := MultiplyLinear(f, o, L, beta, denominator);
    BasisNext(o, alpha, beta);
  }

  /** One pass of the beta loop: `continue` when beta == alpha. */
  method BasisPass(f: Field, ghost o: Ops, L: array<nat>, alpha: nat, beta: nat) returns (L2: array<nat>)
    requires Holds(f, o) && Closed(o) && alpha < o.Size() && beta < o.Size()
    requires L[..] == Basis(o, alpha, beta)
    ensures (L2 == L || fresh(L2)) && L2[..] == Basis(o, alpha, beta + 1)
  {
    if beta == alpha {
      BasisSkip(o, alpha);
      return L;
    }
    L2 := NextBasis(f, o, L, alpha, beta);
  }

  /** `L = [0]*size; L[0] = 1`. */
  method NewUnit(size: nat) returns (L: array<nat>)
    requires size >= 1
    ensures fresh(L) && L[..] == UnitPoly(size)
  {
    L := new nat[size](_ => 0);
    L[0] := 1;
  }

  /** The beta loop for one alpha. */
  method BuildBasis(f: Field, ghost o: Ops, alpha: nat) returns (L: array<nat>)
    requires Holds(f, o) && Closed(o) && alpha < o.Size()
    ensures fresh(L) && L[..] == Basis(o, alpha, o.Size())
  {
    var size := Pow2(f.n);
    assert size == o.Size();
    L := NewUnit(size);
    BasisStart(o, alpha);
    var beta := 0;
    while beta < size
      invariant 0 <= beta <= size
      invariant fresh(L) && L[..] == Basis(o, alpha, beta)
    {
      L := BasisPass(f, o, L, alpha, beta);
      beta := beta + 1;
    }
  }

  /** The accumulation loop: `poly[i] ^= mul(L[i], y)` for nonzero L[i];
      false where Python raises IndexError on the table lookup. */
  method AccumulateInto(f: Field, ghost o: Ops, poly: array<nat>, L: array<nat>, y: nat) returns (ok: bool)
    requires Holds(f, o) && poly.Length == L.Length == o.Size() && poly != L
    modifies poly
    ensures ok == !OutOfTable(L[..], y, o.Size())
    ensures ok ==> poly[..] == AddScaled(old(poly[..]), L[..], y, o)
  {
    var size := poly.Length;
    ghost var before := poly[..];
    ghost var after := AddScaled(before, L[..], y, o);
    var i := 0;
    while i < size
      invariant 0 <= i <= size
      invariant forall j :: 0 <= j < size ==> poly[j] == if j < i then after[j] else before[j]
      invariant forall j :: 0 <= j < i ==> !(L[j] != 0 && (L[j] >= size || y >= size))
    {
      if L[i] != 0 {
        if L[i] >= size || y >= size {
          assert L[..][i] == L[i];
          return false;
        }
        poly[i] := Xor(poly[i], f.mulTable[L[i], y]);
      }
      i := i + 1;
    }
    assert poly[..] == after;
    assert forall j :: 0 <= j < |L[..]| ==> !(L[..][j] != 0 && (L[..][j] >= size || y >= size));
    return true;
  }

  /** One pass of the alpha loop: adds y * L_alpha into poly unless y is 0;
      false where a table lookup raises IndexError. */
  method SampleInto(f: Field, ghost o: Ops, poly: array<nat>, alpha: nat, y: nat) returns (ok: bool)
    requires Holds(f, o) && Closed(o) && poly.Length == o.Size() && alpha < o.Size()
    modifies poly
    ensures AddSample(o, Some(old(poly[..])), alpha, y) == if ok then Some(poly[..]) else None
  {
    if y == 0 {
      return true;
    }
    var L := BuildBasis(f, o, alpha);
    ok := AccumulateInto(f, o, poly, L, y);
  }

  /** `_lagrange_interpolation(tt_values)`, reading the tables of f, whose
      lookups are o; None where Python raises IndexError. */
  method LagrangeInterpolation(f: Field, ghost o: Ops, tt: seq<nat>) returns (res: Option<seq<nat>>)
    requires Holds(f, o) && Closed(o) && |tt| == o.Size()
    ensures res == Interpolated(o, tt)
  {
    var size := |tt|;
    var poly := new nat[size](_ => 0);
    assert poly[..] == Zeros(size);
    var alpha := 0;
    while alpha < size
      invariant 0 <= alpha <= size
      invariant Accumulated(o, tt, alpha) == Some(poly[..])
    {
      var ok := SampleInto(f, o, poly, alpha, tt[alpha]);
      if !ok {
        AccumulatedNoneStays(o, tt, alpha + 1, size);
        return None;
      }
      alpha := alpha + 1;
    }
    return Some(poly[..]);
  }
}
