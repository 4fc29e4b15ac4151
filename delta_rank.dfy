/** `computations/rank/delta_rank.py`: the difference distribution table as
    a list of lists, the packed pairs (a, b) with a != 0 whose entry is 2,
    and the 0/1 matrix over those pairs. The rank over GF(2) that the
    repository then asks Sage for is not modelled. */
module DeltaRank {
  import opened Bits
  import opened Outcomes
  import opened Ddt
  import opened GammaRank

  /** Every difference f[x] ^ f[x ^ a] is an n-bit word, so it indexes a row
      of the table. */
  ghost predicate DiffsFit(f: seq<nat>, n: nat)
    requires IsLut(f, n)
  {
    forall x, a :: 0 <= x < Pow2(n) && 0 <= a < Pow2(n) ==> OutDiff(f, n, x, a) < Pow2(n)
  }

  /** A map on n-bit words has only n-bit differences. */
  lemma MapDiffsFit(f: seq<nat>, n: nat)
    requires IsMap(f, n)
    ensures DiffsFit(f, n)
  {
    forall x, a | 0 <= x < Pow2(n) && 0 <= a < Pow2(n)
      ensures OutDiff(f, n, x, a) < Pow2(n)
    {
      XorBound(x, a, n);
      XorBound(f[x], f[Xor(x, a)], n);
    }
  }

  // ---------------------------------------------------------------
  // The table

  /** A square table holding, at (a, b), the count of solutions below k. */
  ghost predicate CountedBelow(f: seq<nat>, n: nat, table: seq<seq<nat>>, k: nat)
    requires IsLut(f, n) && k <= Pow2(n)
  {
    && |table| == Pow2(n)
    && forall a :: 0 <= a < Pow2(n) ==>
         |table[a]| == Pow2(n) && forall b :: 0 <= b < Pow2(n) ==> table[a][b] == CountBelow(f, n, a, b, k)
  }

  /** Midway through input x: the rows below a count x too, the others not yet. */
  ghost predicate CountedMidway(f: seq<nat>, n: nat, table: seq<seq<nat>>, x: nat, a: nat)
    requires IsLut(f, n) && x < Pow2(n)
  {
    && |table| == Pow2(n)
    && forall a' :: 0 <= a' < Pow2(n) ==>
         |table[a']| == Pow2(n) &&
         forall b :: 0 <= b < Pow2(n) ==> table[a'][b] == CountBelow(f, n, a', b, if a' < a then x + 1 else x)
  }

  /** The loop over a for one input x: `table[a][f[x] ^ f[x ^ a]] += 1`,
      IndexError when a difference falls outside the table. */
  method AddInput(f: seq<nat>, n: nat, x: nat, table: seq<seq<nat>>) returns (r: Result<seq<seq<nat>>>)
    requires IsLut(f, n) && x < Pow2(n) && CountedBelow(f, n, table, x)
    ensures r.Err? <==> exists a :: 0 <= a < Pow2(n) && OutDiff(f, n, x, a) >= Pow2(n)
    ensures r.Ok? ==> CountedBelow(f, n, r.value, x + 1)
  {
    var t := table;
    var a := 0;
    MidwayStart(f, n, t, x);
    while a < Pow2(n)
      invariant a <= Pow2(n)
      invariant CountedMidway(f, n, t, x, a)
      invariant forall a' :: 0 <= a' < a ==> OutDiff(f, n, x, a') < Pow2(n)
    {
      XorBound(x, a, n);
      var diff := Xor(f[x], f[Xor(x, a)]);
      assert diff == OutDiff(f, n, x, a);
      if diff >= Pow2(n) {
        return Err("IndexError: list index out of range");
      }
      MidwayStep(f, n, t, x, a);
      t := t[a := t[a][diff := t[a][diff] + 1]];
      a := a + 1;
    }
    MidwayEnd(f, n, t, x);
    return Ok(t);
  }

  lemma MidwayStart(f: seq<nat>, n: nat, table: seq<seq<nat>>, x: nat)
    requires IsLut(f, n) && x < Pow2(n) && CountedBelow(f, n, table, x)
    ensures CountedMidway(f, n, table, x, 0)
  {
  }

  /** Counting input x in row a moves the midway point past a. */
  lemma MidwayStep(f: seq<nat>, n: nat, t: seq<seq<nat>>, x: nat, a: nat)
    requires IsLut(f, n) && x < Pow2(n) && a < Pow2(n) && CountedMidway(f, n, t, x, a)
    requires OutDiff(f, n, x, a) < Pow2(n)
    ensures var diff := OutDiff(f, n, x, a);
      CountedMidway(f, n, t[a := t[a][diff := t[a][diff] + 1]], x, a + 1)
  {
    var diff := OutDiff(f, n, x, a);
    var row := t[a][diff := t[a][diff] + 1];
    forall b | 0 <= b < Pow2(n)
      ensures row[b] == CountBelow(f, n, a, b, x + 1)
    {
      assert CountBelow(f, n, a, b, x + 1) == CountBelow(f, n, a, b, x) + (if diff == b then 1 else 0);
    }
  }

  lemma MidwayEnd(f: seq<nat>, n: nat, t: seq<seq<nat>>, x: nat)
    requires IsLut(f, n) && x < Pow2(n) && CountedMidway(f, n, t, x, Pow2(n))
    ensures CountedBelow(f, n, t, x + 1)
  {
  }

  /** `ddt(f)`: the table of counts, built one input at a time. It is the
      difference distribution table exactly when every difference fits,
      and IndexError otherwise. */
  method DdtTable(f: seq<nat>, n: nat) returns (r: Result<seq<seq<nat>>>)
    requires IsLut(f, n)
    ensures r.Err? <==> !DiffsFit(f, n)
    ensures r.Ok? ==> IsTable(f, n, r.value)
  {
    var size := Pow2(n);
    var table := seq(size, _ => seq(size, _ => 0));
    var x := 0;
    while x < size
      invariant x <= size
      invariant CountedBelow(f, n, table, x)
      invariant forall x', a :: 0 <= x' < x && 0 <= a < size ==> OutDiff(f, n, x', a) < size
    {
      var next := AddInput(f, n, x, table);
      if next.Err? {
        DiffOutsideTable(f, n, x);
        return Err(next.error);
      }
      table := next.value;
      x := x + 1;
    }
    CountedAll(f, n, table);
    return Ok(table);
  }

  /** A difference outside the table at input x means not every difference
      fits. */
  lemma DiffOutsideTable(f: seq<nat>, n: nat, x: nat)
    requires IsLut(f, n) && x < Pow2(n)
    requires exists a :: 0 <= a < Pow2(n) && OutDiff(f, n, x, a) >= Pow2(n)
    ensures !DiffsFit(f, n)
  {
    var a :| 0 <= a < Pow2(n) && OutDiff(f, n, x, a) >= Pow2(n);
    assert !(OutDiff(f, n, x, a) < Pow2(n));
  }

  /** With every input counted, the table is the DDT. */
  lemma CountedAll(f: seq<nat>, n: nat, table: seq<seq<nat>>)
    requires IsLut(f, n) && CountedBelow(f, n, table, Pow2(n))
    ensures IsTable(f, n, table)
  {
  }

  // ---------------------------------------------------------------
  // The pairs

  /** y packs a pair (a, b) with a != 0 whose DDT entry is 2. */
  ghost predicate IsDeltaPair(f: seq<nat>, n: nat, y: nat)
    requires IsLut(f, n)
  {
    1 <= y / Pow2(n) < Pow2(n) && Entry(f, n, y / Pow2(n), y % Pow2(n)) == 2
  }

  /** The pairs collected so far: exactly the delta pairs below the cursor,
      in increasing order. */
  ghost predicate PairsBelow(f: seq<nat>, n: nat, pairs: seq<nat>, cursor: nat)
    requires IsLut(f, n)
  {
    && (forall i, j :: 0 <= i < j < |pairs| ==> pairs[i] < pairs[j])
    && (forall y: nat :: y in pairs <==> IsDeltaPair(f, n, y) && y < cursor)
  }

  /** The loop over b for one a: append `(a << n) | b` when the entry is 2. */
  method RowPairs(f: seq<nat>, n: nat, table: seq<seq<nat>>, a: nat, pairs: seq<nat>)
    returns (pairs': seq<nat>)
    requires IsLut(f, n) && IsTable(f, n, table) && 1 <= a < Pow2(n)
    requires PairsBelow(f, n, pairs, a * Pow2(n))
    ensures PairsBelow(f, n, pairs', (a + 1) * Pow2(n))
  {
    pairs' := pairs;
    ghost var base := a * Pow2(n);
    var b := 0;
    while b < Pow2(n)
      invariant b <= Pow2(n)
      invariant PairsBelow(f, n, pairs', base + b)
    {
      PackIsPair(f, n, table, a, b);
      PairsBelowExtend(f, n, pairs', base + b, table[a][b] == 2);
      if table[a][b] == 2 {
        pairs' := pairs' + [Pack(a, b, n)];
      }
      b := b + 1;
    }
    NextRowStart(a, Pow2(n));
  }

  /** Row a + 1 starts where row a ends. */
  lemma NextRowStart(a: nat, s: nat)
    ensures a * s + s == (a + 1) * s
  {
  }

  /** `(a << n) | b` is the number a * 2^n + b, and it is a delta pair
      exactly when the table entry is 2. */
  lemma PackIsPair(f: seq<nat>, n: nat, table: seq<seq<nat>>, a: nat, b: nat)
    requires IsLut(f, n) && IsTable(f, n, table) && 1 <= a < Pow2(n) && b < Pow2(n)
    ensures Pack(a, b, n) == a * Pow2(n) + b
    ensures IsDeltaPair(f, n, Pack(a, b, n)) <==> table[a][b] == 2
  {
    PackAdds(a, b, n);
    PackUnpack(a, b, n);
  }

  /** Moving the cursor past one number adds it exactly when it is a delta
      pair. */
  lemma PairsBelowExtend(f: seq<nat>, n: nat, pairs: seq<nat>, c: nat, isPair: bool)
    requires IsLut(f, n) && PairsBelow(f, n, pairs, c) && (isPair <==> IsDeltaPair(f, n, c))
    ensures PairsBelow(f, n, pairs + (if isPair then [c] else []), c + 1)
  {
    if isPair {
      forall i | 0 <= i < |pairs|
        ensures pairs[i] < c
      {
        assert pairs[i] in pairs;
      }
    }
  }

  /** The delta pairs of f, in increasing order: `(a << n) | b` for a != 0
      and every b with ddt[a][b] == 2, visited in (a, b) order. */
  method DeltaPairs(f: seq<nat>, n: nat, table: seq<seq<nat>>) returns (pairs: seq<nat>)
    requires IsLut(f, n) && IsTable(f, n, table)
    ensures forall i, j :: 0 <= i < j < |pairs| ==> pairs[i] < pairs[j]
    ensures forall y: nat :: y in pairs <==> IsDeltaPair(f, n, y)
    ensures forall y: nat :: y in pairs ==> y < Pow2(2 * n)
  {
    pairs := [];
    NoPairBelowSize(f, n);
    var a := 1;
    while a < Pow2(n)
      invariant 1 <= a <= Pow2(n)
      invariant PairsBelow(f, n, pairs, a * Pow2(n))
    {
      pairs := RowPairs(f, n, table, a, pairs);
      a := a + 1;
    }
    PairsBelowSquare(f, n);
  }

  /** No delta pair lies below 2^n: its a would be 0. */
  lemma NoPairBelowSize(f: seq<nat>, n: nat)
    requires IsLut(f, n)
    ensures forall y: nat :: y < Pow2(n) ==> !IsDeltaPair(f, n, y)
  {
    forall y: nat | y < Pow2(n)
      ensures y / Pow2(n) == 0
    {
      DivUnique(y, Pow2(n), 0, y);
    }
  }

  /** Every delta pair is a 2n-bit word. */
  lemma PairsBelowSquare(f: seq<nat>, n: nat)
    requires IsLut(f, n)
    ensures forall y: nat :: IsDeltaPair(f, n, y) ==> y < Pow2(n) * Pow2(n) && y < Pow2(2 * n)
  {
    forall y: nat | IsDeltaPair(f, n, y)
      ensures y < Pow2(n) * Pow2(n)
    {
      QuotientBelowSquare(y, Pow2(n));
    }
    Pow2Double(n);
  }

  /** A number whose quotient by s is below s is below s * s. */
  lemma QuotientBelowSquare(y: nat, s: nat)
    requires 0 < s && y / s < s
    ensures y < s * s
  {
    var hi, lo := y / s, y % s;
    assert y == hi * s + lo;
    BelowSquare(hi, lo, s);
  }

  /** `compute_rank` up to the rank: the table, the pairs, and the matrix
      over 2n-bit words with a one at x ^ y for every pair y. It fails
      exactly when some difference does not fit, never for a map on n-bit
      words. */
  method DeltaMatrix(f: seq<nat>, n: nat) returns (r: Result<(seq<nat>, seq<seq<nat>>)>)
    requires IsLut(f, n)
    ensures r.Err? <==> !DiffsFit(f, n)
    ensures r.Ok? ==>
      var (pairs, mat) := r.value;
      && (forall i, j :: 0 <= i < j < |pairs| ==> pairs[i] < pairs[j])
      && (forall y: nat :: y in pairs <==> IsDeltaPair(f, n, y))
      && |mat| == Pow2(2 * n)
      && forall x :: 0 <= x < Pow2(2 * n) ==> |mat[x]| == Pow2(2 * n) && IsRow(x, pairs, mat[x])
  {
    var table := DdtTable(f, n);
    if table.Err? {
      return Err(table.error);
    }
    var deltaPairs := DeltaPairs(f, n, table.value);
    PairsFit(deltaPairs, 2 * n);
    var matContent := MatrixContent(deltaPairs, 2 * n);
    return Ok((deltaPairs, matContent.value));
  }

  /** A list of k-bit words has no entry at or above 2^k. */
  lemma PairsFit(pairs: seq<nat>, k: nat)
    requires forall y: nat :: y in pairs ==> y < Pow2(k)
    ensures !exists j :: 0 <= j < |pairs| && pairs[j] >= Pow2(k)
  {
    forall j | 0 <= j < |pairs|
      ensures pairs[j] < Pow2(k)
    {
      assert pairs[j] in pairs;
    }
  }
}
