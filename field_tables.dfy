/** The tables `_build_all_tables` keeps in module globals: the full
    multiplication table, the inverse table and the antilog/log tables of a
    generator. Here they are the fields of one `Field` object. */
module FieldTables {
  import opened Bits
  import opened GaloisField

  /** Entry k of the antilog table: 1 at 0 (written unconditionally),
      g^k for 1 <= k <= 2^n - 2, and the initial 0 above that. */
  function AlogEntry(g: nat, k: nat, n: nat, p: nat): nat
  {
    if k == 0 then 1 else if k + 2 <= Pow2(n) then GPow(g, k, n, p) else 0
  }

  /** The log table as the last write leaves it: the largest k < bound with
      antilog entry c, or the initial 0 when no such k exists. */
  function LogSearch(g: nat, c: nat, n: nat, p: nat, bound: nat): (r: nat)
    ensures bound == 0 ==> r == 0
    ensures bound > 0 ==> r < bound
    ensures r != 0 ==> AlogEntry(g, r, n, p) == c
    ensures forall k :: r < k < bound ==> AlogEntry(g, k, n, p) != c
  {
    if bound == 0 then 0
    else if AlogEntry(g, bound - 1, n, p) == c then bound - 1
    else LogSearch(g, c, n, p, bound - 1)
  }

  /** `_gf_log_table[c]` after `_build_log_tables`: writes for k in range(size - 1). */
  function LogEntry(g: nat, c: nat, n: nat, p: nat): nat
  {
    LogSearch(g, c, n, p, Pow2(n) - 1)
  }

  /** c is one of g^0 .. g^(2^n - 2). */
  ghost predicate IsPower(g: nat, c: nat, n: nat, p: nat)
  {
    exists k :: 0 <= k && k + 2 <= Pow2(n) && GPow(g, k, n, p) == c
  }

  /** Every nonzero element is a power of g. */
  ghost predicate Generates(g: nat, n: nat, p: nat)
  {
    forall c :: 0 < c < Pow2(n) ==> IsPower(g, c, n, p)
  }

  /** Looking up the log of a power of g gives back that power. */
  lemma {:induction false} AlogOfLog(g: nat, c: nat, n: nat, p: nat)
    requires 0 < c < Pow2(n) && Generates(g, n, p)
    ensures LogEntry(g, c, n, p) + 2 <= Pow2(n)
    ensures GPow(g, LogEntry(g, c, n, p), n, p) == c
  {
    assert IsPower(g, c, n, p);
    var k :| 0 <= k && k + 2 <= Pow2(n) && GPow(g, k, n, p) == c;
    var r := LogEntry(g, c, n, p);
    assert AlogEntry(g, k, n, p) == c;
    assert k <= r;
    if r == 0 {
      assert k == 0;
    }
  }

  /** When the powers g^0 .. g^(2^n - 2) are distinct, the log table inverts
      the antilog table: log[alog[k]] == k. */
  lemma LogOfAlog(g: nat, k: nat, n: nat, p: nat)
    requires k + 2 <= Pow2(n)
    requires forall i, j :: 0 <= i < j && j + 2 <= Pow2(n) ==> GPow(g, i, n, p) != GPow(g, j, n, p)
    ensures LogEntry(g, AlogEntry(g, k, n, p), n, p) == k
  {
    var c := AlogEntry(g, k, n, p);
    var r := LogEntry(g, c, n, p);
    assert c == GPow(g, k, n, p);
    if r != 0 {
      assert GPow(g, r, n, p) == c;
    }
  }

  /** The multiplication table, row by row. */
  method BuildMulTable(n: nat, p: nat) returns (t: array2<nat>)
    ensures fresh(t) && t.Length0 == Pow2(n) && t.Length1 == Pow2(n)
    ensures forall x, y :: 0 <= x < Pow2(n) && 0 <= y < Pow2(n) ==> t[x, y] == MulSlow(x, y, n, p)
  {
    var size := Pow2(n);
    t := new nat[size, size];
    var x := 0;
    while x < size
      invariant 0 <= x <= size
      invariant forall i, j :: 0 <= i < x && 0 <= j < size ==> t[i, j] == MulSlow(i, j, n, p)
    {
      var y := 0;
      while y < size
        invariant 0 <= y <= size
        invariant forall i, j :: 0 <= i < x && 0 <= j < size ==> t[i, j] == MulSlow(i, j, n, p)
        invariant forall j :: 0 <= j < y ==> t[x, j] == MulSlow(x, j, n, p)
      {
        t[x, y] := GfMulSlow(x, y, n, p);
        y := y + 1;
      }
      x := x + 1;
    }
  }

  /** The inverse table: 0 at 0, the brute-force inverse elsewhere. */
  method BuildInverseTable(n: nat, p: nat) returns (t: array<nat>)
    ensures fresh(t) && t.Length == Pow2(n)
    ensures forall x :: 0 <= x < Pow2(n) ==> t[x] == FindInverse(x, n, p)
  {
    var size := Pow2(n);
    t := new nat[size];
    t[0] := 0;
    var x := 1;
    while x < size
      invariant 1 <= x <= size
      invariant forall i :: 0 <= i < x ==> t[i] == FindInverse(i, n, p)
    {
      t[x] := GfFindInverse(x, n, p);
      x := x + 1;
    }
  }

  /** Entry k of the antilog table is entry k - 1 times g. */
  lemma AlogNext(g: nat, k: nat, n: nat, p: nat)
    requires 1 <= k && k + 2 <= Pow2(n)
    ensures AlogEntry(g, k, n, p) == MulSlow(AlogEntry(g, k - 1, n, p), g, n, p)
  {
  }

  /** `_build_log_tables`: antilog entries by repeated multiplication by g,
      then the log table by writing k at alog[k] for k in range(size - 1). */
  method BuildLogTables(g: nat, n: nat, p: nat) returns (logT: array<nat>, alogT: array<nat>)
    ensures fresh(logT) && fresh(alogT) && logT != alogT
    ensures logT.Length == Pow2(n) && alogT.Length == Pow2(n)
    ensures forall k :: 0 <= k < Pow2(n) ==> alogT[k] == AlogEntry(g, k, n, p)
    ensures forall c :: 0 <= c < Pow2(n) ==> logT[c] == LogEntry(g, c, n, p)
  {
    var size := Pow2(n);
    alogT := new nat[size](_ => 0);
    FillAntilog(alogT, g, n, p);
    logT := new nat[size](_ => 0);
    FillLog(logT, alogT, g, n, p);
  }

  /** The first loop: `alog[0] = 1`, then `alog[k] = alog[k-1] * g` for
      k in range(1, size - 1). */
  method FillAntilog(alogT: array<nat>, g: nat, n: nat, p: nat)
    requires alogT.Length == Pow2(n) && forall i :: 0 <= i < Pow2(n) ==> alogT[i] == 0
    modifies alogT
    ensures forall k :: 0 <= k < Pow2(n) ==> alogT[k] == AlogEntry(g, k, n, p)
  {
    var size := Pow2(n);
    alogT[0] := 1;
    var k := 1;
    while k < size - 1
      invariant 1 <= k
      invariant k <= size - 1 || size == 1
      invariant forall i :: 0 <= i < size ==> alogT[i] == if i < k then AlogEntry(g, i, n, p) else 0
    {
      AlogNext(g, k, n, p);
      alogT[k] := GfMulSlow(alogT[k - 1], g, n, p);
      k := k + 1;
    }
  }

  /** The second loop: `log[alog[k]] = k` for k in range(size - 1). */
  method FillLog(logT: array<nat>, alogT: array<nat>, g: nat, n: nat, p: nat)
    requires logT != alogT && logT.Length == Pow2(n) && alogT.Length == Pow2(n)
    requires forall i :: 0 <= i < Pow2(n) ==> logT[i] == 0
    requires forall i :: 0 <= i < Pow2(n) ==> alogT[i] == AlogEntry(g, i, n, p)
    modifies logT
    ensures forall c :: 0 <= c < Pow2(n) ==> logT[c] == LogEntry(g, c, n, p)
  {
    var size := Pow2(n);
    var k := 0;
    while k < size - 1
      invariant 0 <= k <= size - 1 || (size == 1 && k == 0)
      invariant forall c :: 0 <= c < size ==> logT[c] == LogSearch(g, c, n, p, k)
    {
      var val := alogT[k];
      assert n >= 1;
      if k > 0 {
        GPowBound(g, k, n, p);
      }
      forall c | 0 <= c < size
        ensures LogSearch(g, c, n, p, k + 1) == if c == val then k else LogSearch(g, c, n, p, k)
      {
      }
      logT[val] := k;
      k := k + 1;
    }
  }

  /** The field tables of one call to `_build_all_tables`. */
  class Field {
    var n: nat
    var poly: nat
    var generator: nat
    var mulTable: array2<nat>
    var invTable: array<nat>
    var logTable: array<nat>
    var alogTable: array<nat>

    /** The multiplication table holds every product. */
    ghost predicate MulOk()
      reads this, mulTable
    {
      && mulTable.Length0 == Pow2(n) && mulTable.Length1 == Pow2(n)
      && forall x, y :: 0 <= x < Pow2(n) && 0 <= y < Pow2(n) ==> mulTable[x, y] == MulSlow(x, y, n, poly)
    }

    /** The inverse table holds every brute-force inverse. */
    ghost predicate InvOk()
      reads this, invTable
    {
      && invTable.Length == Pow2(n)
      && forall x :: 0 <= x < Pow2(n) ==> invTable[x] == FindInverse(x, n, poly)
    }

    /** The antilog and log tables of the generator. */
    ghost predicate LogOk()
      reads this, logTable, alogTable
    {
      && logTable.Length == Pow2(n) && alogTable.Length == Pow2(n)
      && (forall k :: 0 <= k < Pow2(n) ==> alogTable[k] == AlogEntry(generator, k, n, poly))
      && (forall c :: 0 <= c < Pow2(n) ==> logTable[c] == LogEntry(generator, c, n, poly))
    }

    /** Every table holds what the slow routines compute. */
    ghost predicate Valid()
      reads this, mulTable, invTable, logTable, alogTable
    {
      MulOk() && InvOk() && LogOk()
    }

    /** `_build_all_tables(field_n, poly_int, generator)`. */
    constructor BuildAllTables(fieldN: nat, polyInt: nat, g: nat)
      ensures Valid()
      ensures n == fieldN && poly == polyInt && generator == g
    {
      var mt := BuildMulTable(fieldN, polyInt);
      var it := BuildInverseTable(fieldN, polyInt);
      var lt, at := BuildLogTables(g, fieldN, polyInt);
      n, poly, generator := fieldN, polyInt, g;
      mulTable, invTable, logTable, alogTable := mt, it, lt, at;
    }
  }
}
