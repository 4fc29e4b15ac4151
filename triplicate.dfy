/** The canonical-triplicate check of `c_src/check_lin_eq_2x_uniform_3to1.c`:
    its table of primitive polynomials, its shift-and-XOR field multiplier,
    the table of elements beta, the greedy scan that splits the nonzero
    inputs into triples (i, i * beta, i * beta ^ i) on which F is constant,
    and the early exits of `run_alg1_equivalence_test`. */
module Triplicate {
  import opened Bits
  import opened Outcomes
  import opened Ddt
  import opened GaloisField
  import opened CppField
  import opened VbfTruthTable
  import InterpolationText

  // ---------------------------------------------------------------
  // prim_poly_table and vbf_tt_get_primitive_polynomial

  /** `prim_poly_table`: entry d is the polynomial used in dimension d. */
  const PrimPolyTable: seq<nat> := [
    0, 3, 7, 13, 19, 37, 67, 131, 285, 529, 1033, 2053, 4179, 8219, 17475,
    32771, 69643, 131081, 262273, 524389, 1048585]

  /** `vbf_tt_get_primitive_polynomial(dimension)`: 0 outside [1, 20]. */
  function PrimitivePolynomial(dimension: nat): nat
  {
    if dimension < 1 || dimension > 20 then 0 else PrimPolyTable[dimension]
  }

  /** The triplicate check reads a truth table in the field of its own
      primitive polynomial, which for n = 3, 6 and 10 is not the default
      irreducible polynomial that interpolation uses for the same n. */
  lemma DefaultsDifferFromPrimitive()
    ensures InterpolationText.DefaultIrreducible(3) == Some(0xB) && PrimitivePolynomial(3) == 13
    ensures InterpolationText.DefaultIrreducible(6) == Some(0x5B) && PrimitivePolynomial(6) == 67
    ensures InterpolationText.DefaultIrreducible(10) == Some(0x46F) && PrimitivePolynomial(10) == 1033
    ensures InterpolationText.DefaultIrreducible(8) == Some(PrimitivePolynomial(8))
  {
  }

  /** Every polynomial of the table has degree exactly its dimension, and
      outside [1, 20] there is none. */
  lemma PrimitivePolynomialDegree(dimension: nat)
    ensures 1 <= dimension <= 20 ==> HasDegree(PrimitivePolynomial(dimension), dimension)
    ensures !(1 <= dimension <= 20) ==> PrimitivePolynomial(dimension) == 0
  {
    Pow2Values();
  }

  // ---------------------------------------------------------------
  // vbf_tt_ff_multiply

  /** One step on a: shift left, and XOR the polynomial when bit
      `dimension - 1` was set. */
  function FfStep(a: nat, pp: nat, dimension: nat): nat
    requires dimension >= 1
  {
    if Bit(a, dimension - 1) == 1 then Xor(2 * a, pp) else 2 * a
  }

  /** k rounds of the multiplication loop: the XOR of the a's selected by
      the low bits of b. */
  function FfLoop(a: nat, b: nat, pp: nat, dimension: nat, k: nat): nat
    requires k == 0 || dimension >= 1
    decreases k
  {
    if k == 0 then 0
    else Xor(if b % 2 == 1 then a else 0, FfLoop(FfStep(a, pp, dimension), b / 2, pp, dimension, k - 1))
  }

  /** The product of `vbf_tt_ff_multiply`: `dimension` rounds, then the
      mask `(1 << dimension) - 1`. */
  function FfMul(a: nat, b: nat, pp: nat, dimension: nat): (r: nat)
    ensures r < Pow2(dimension)
  {
    Low(FfLoop(a, b, pp, dimension, dimension), dimension)
  }

  /** For an operand below 2^n and a polynomial of degree n, the C step is
      the `xtime` step of `_gf_mul_slow`. */
  lemma FfStepIsXTime(a: nat, pp: nat, n: nat)
    requires n >= 1 && HasDegree(pp, n) && a < Pow2(n)
    ensures FfStep(a, pp, n) == XTime(a, n, pp) && XTime(a, n, pp) < Pow2(n)
  {
    assert Bit(2 * a, n) == Bit(a, n - 1);
    assert FfStep(a, pp, n) == Step(a, n, pp);
    StepIsXTime(a, n, pp);
  }

  /** The two loops agree round by round. */
  lemma {:induction false} FfLoopAgrees(a: nat, b: nat, pp: nat, n: nat, k: nat)
    requires n >= 1 && HasDegree(pp, n) && a < Pow2(n)
    ensures FfLoop(a, b, pp, n, k) == MulLoop(a, b, n, pp, k)
    decreases k
  {
    if k > 0 {
      FfStepIsXTime(a, pp, n);
      FfLoopAgrees(XTime(a, n, pp), b / 2, pp, n, k - 1);
    }
  }

  /** `vbf_tt_ff_multiply` computes the product of `_gf_mul_slow` when the
      first operand is an n-bit word and the polynomial has degree n. */
  lemma FfMulAgrees(a: nat, b: nat, pp: nat, n: nat)
    requires n >= 1 && HasDegree(pp, n) && a < Pow2(n)
    ensures FfMul(a, b, pp, n) == MulSlow(a, b, n, pp)
  {
    FfLoopAgrees(a, b, pp, n, n);
    MulLoopBound(a, b, n, pp, n);
    LowOfSmall(MulLoop(a, b, n, pp, n), n);
  }

  /** `vbf_tt_ff_multiply(a, b, pp, dimension)`. */
  method FfMultiply(a0: nat, b0: nat, pp: nat, dimension: nat) returns (product: nat)
    ensures product == FfMul(a0, b0, pp, dimension) && product < Pow2(dimension)
    ensures dimension >= 1 && HasDegree(pp, dimension) && a0 < Pow2(dimension) ==>
              product == MulSlow(a0, b0, dimension, pp)
  {
    product := 0;
    var a, b := a0, b0;
    var i := 0;
    while i < dimension
      invariant i <= dimension
      invariant Xor(product, FfLoop(a, b, pp, dimension, dimension - i)) == FfLoop(a0, b0, pp, dimension, dimension)
    {
      ghost var product0, a1, b1 := product, a, b;
      if b % 2 == 1 {
        product := Xor(product, a);
      }
      b := b / 2;
      var carry := Bit(a, dimension - 1) == 1;
      a := 2 * a;
      if carry {
        a := Xor(a, pp);
      }
      assert a == FfStep(a1, pp, dimension);
      XorAssoc(product0, if b1 % 2 == 1 then a1 else 0, FfLoop(a, b, pp, dimension, dimension - i - 1));
      XorZeroRight(product0);
      i := i + 1;
    }
    XorZeroRight(product);
    product := Low(product, dimension);
    if dimension >= 1 && HasDegree(pp, dimension) && a0 < Pow2(dimension) {
      FfMulAgrees(a0, b0, pp, dimension);
    }
  }

  // ---------------------------------------------------------------
  // betas

  /** `betas`: the element beta of dimension 4, 6, ..., 20. */
  const Betas: seq<nat> := [6, 14, 214, 42, 3363, 16363, 44234, 245434, 476308]

  /** The dimensions the check accepts: even, from 4 to 20. */
  predicate DimensionAccepted(dimension: nat)
  {
    4 <= dimension <= 20 && dimension % 2 == 0
  }

  /** beta is `betas[(dimension - 4) / 2]`, an index always in range, and an
      n-bit word. */
  function Beta(dimension: nat): (beta: nat)
    requires DimensionAccepted(dimension)
    ensures beta < Pow2(dimension)
  {
    Pow2Values();
    Betas[(dimension - 4) / 2]
  }

  // ---------------------------------------------------------------
  // The scan of is_canonical_triplicate_internal

  /** A recorded triple: the common value F(i) and the inputs i, i * beta
      and i * beta ^ i. */
  datatype Triple = Triple(value: nat, first: nat, second: nat, third: nat)

  /** The state of the scan: the inputs still pending (`c[x] != 0`), the
      output labels `ol` and the triples recorded so far. */
  datatype ScanState = ScanState(pending: seq<bool>, ol: seq<nat>, triples: seq<Triple>)

  /** How the scan ends: it accepts with its last state, rejects, or meets a
      pending input whose nonzero value F(i) lies outside the table `ol` of
      2^n labels, where the C reads `T->ol[Fi]` out of bounds (undefined
      behaviour). */
  datatype ScanOutcome = Accepted(last: ScanState) | Rejected | OutOfTable

  /** Before the loop: every input but 0 pending, no label, no triple. */
  function Start(size: nat): (st: ScanState)
    ensures |st.pending| == size && |st.ol| == size && st.triples == []
  {
    ScanState(seq(size, x => x != 0), seq(size, _ => 0), [])
  }

  /** The state fits a table of 2^n entries. */
  predicate Shaped(n: nat, st: ScanState)
  {
    |st.pending| == Pow2(n) && |st.ol| == Pow2(n)
  }

  /** i * beta, the second input of the triple of i. */
  function Partner(n: nat, i: nat): (k: nat)
    requires DimensionAccepted(n)
    ensures k < Pow2(n)
  {
    FfMul(i, Beta(n), PrimitivePolynomial(n), n)
  }

  /** i * beta ^ i, the third input of the triple of i. */
  function Third(n: nat, i: nat): (ki: nat)
    requires DimensionAccepted(n) && i < Pow2(n)
    ensures ki < Pow2(n)
  {
    XorBound(Partner(n, i), i, n);
    Xor(Partner(n, i), i)
  }

  /** The triple of a pending input i, recorded as triple number
      `|st.triples|` with label `|st.triples| + 1`. */
  function Record(f: seq<nat>, n: nat, i: nat, st: ScanState): (st': ScanState)
    requires IsLut(f, n) && DimensionAccepted(n) && Shaped(n, st) && i < Pow2(n) && f[i] < Pow2(n)
    ensures Shaped(n, st')
  {
    ScanState(st.pending[i := false][Partner(n, i) := false][Third(n, i) := false],
              st.ol[f[i] := |st.triples| + 1],
              st.triples + [Triple(f[i], i, Partner(n, i), Third(n, i))])
  }

  /** Input i may open a triple: F(i) is nonzero, inside the table and has
      no label yet, and F takes the same value at i * beta and at
      i * beta ^ i. */
  predicate Admits(f: seq<nat>, n: nat, i: nat, st: ScanState)
    requires IsLut(f, n) && DimensionAccepted(n) && Shaped(n, st) && i < Pow2(n)
  {
    f[i] != 0 && f[i] < Pow2(n) && st.ol[f[i]] == 0 && f[Partner(n, i)] == f[i] && f[Third(n, i)] == f[i]
  }

  /** The loop from input i on: a pending input with F(i) = 0 or with a
      labelled value, or without its triple, ends the scan with a rejection;
      a pending input whose nonzero value is not below 2^n ends it out of
      the table. */
  function ScanFrom(f: seq<nat>, n: nat, i: nat, st: ScanState): ScanOutcome
    requires IsLut(f, n) && DimensionAccepted(n) && Shaped(n, st) && 1 <= i <= Pow2(n)
    decreases Pow2(n) - i
  {
    if i == Pow2(n) then Accepted(st)
    else if !st.pending[i] then ScanFrom(f, n, i + 1, st)
    else if f[i] != 0 && f[i] >= Pow2(n) then OutOfTable
    else if !Admits(f, n, i, st) then Rejected
    else ScanFrom(f, n, i + 1, Record(f, n, i, st))
  }

  /** What `is_canonical_triplicate_internal` accepts. */
  predicate Canonical(f: seq<nat>, n: nat)
    requires IsLut(f, n)
  {
    && DimensionAccepted(n)
    && f[0] == 0
    && ScanFrom(f, n, 1, Start(Pow2(n))).Accepted?
  }

  /** The final state of an accepted scan. */
  function Scan(f: seq<nat>, n: nat): ScanState
    requires IsLut(f, n) && Canonical(f, n)
  {
    ScanFrom(f, n, 1, Start(Pow2(n))).last
  }

  /** The verdict of `is_canonical_triplicate_internal`: false on a wrong
      dimension or F(0) != 0, otherwise the outcome of the scan, with None
      for the out-of-bounds read. */
  function CanonicalVerdict(f: seq<nat>, n: nat): (v: Option<bool>)
    requires IsLut(f, n)
    ensures v == Some(true) <==> Canonical(f, n)
  {
    if !DimensionAccepted(n) || f[0] != 0 then Some(false)
    else OutcomeVerdict(ScanFrom(f, n, 1, Start(Pow2(n))))
  }

  /** Acceptance is true, rejection false, the out-of-bounds read None. */
  function OutcomeVerdict(o: ScanOutcome): (v: Option<bool>)
    ensures v == Some(true) <==> o.Accepted?
    ensures v == None <==> o == OutOfTable
  {
    match o
    case Accepted(_) => Some(true)
    case Rejected => Some(false)
    case OutOfTable => None
  }

  // ---------------------------------------------------------------
  // What the scan keeps

  /** x is one of the three inputs of the triple. */
  predicate Member(x: nat, tr: Triple)
  {
    x == tr.first || x == tr.second || x == tr.third
  }

  /** A triple as the scan records it: a nonzero value taken by F at its
      three inputs i, i * beta and i * beta ^ i, with i nonzero. */
  predicate Consistent(f: seq<nat>, n: nat, tr: Triple)
    requires IsLut(f, n) && DimensionAccepted(n)
  {
    && 0 < tr.first < Pow2(n)
    && tr.second == Partner(n, tr.first)
    && tr.third == Third(n, tr.first)
    && tr.value != 0
    && f[tr.first] == tr.value && f[tr.second] == tr.value && f[tr.third] == tr.value
  }

  /** 0 and every input below i are settled. */
  predicate Settled(n: nat, i: nat, st: ScanState)
  {
    && Shaped(n, st)
    && 1 <= i <= Pow2(n)
    && !st.pending[0]
    && (forall x :: 1 <= x < i ==> !st.pending[x])
  }

  /** A settled nonzero input belongs to the triple its value labels. */
  ghost predicate Labelled(f: seq<nat>, n: nat, st: ScanState)
    requires IsMap(f, n) && Shaped(n, st)
  {
    forall x :: 0 < x < Pow2(n) && !st.pending[x] ==>
      0 < st.ol[f[x]] <= |st.triples| && Member(x, st.triples[st.ol[f[x]] - 1])
  }

  /** A label names the triple of its value. */
  ghost predicate Linked(n: nat, st: ScanState)
    requires Shaped(n, st)
  {
    forall v :: 0 <= v < Pow2(n) && st.ol[v] != 0 ==>
      st.ol[v] <= |st.triples| && st.triples[st.ol[v] - 1].value == v
  }

  /** Every recorded triple is consistent, labelled by its own number, and
      has its inputs settled. */
  ghost predicate Recorded(f: seq<nat>, n: nat, st: ScanState)
    requires IsMap(f, n) && DimensionAccepted(n) && Shaped(n, st)
  {
    forall q :: 0 <= q < |st.triples| ==>
      && Consistent(f, n, st.triples[q])
      && st.ol[st.triples[q].value] == q + 1
      && !st.pending[st.triples[q].first] && !st.pending[st.triples[q].second]
      && !st.pending[st.triples[q].third]
  }

  /** The invariant of the scan before input i. */
  ghost predicate Tracked(f: seq<nat>, n: nat, i: nat, st: ScanState)
    requires IsMap(f, n) && DimensionAccepted(n)
  {
    Settled(n, i, st) && Labelled(f, n, st) && Linked(n, st) && Recorded(f, n, st)
  }

  lemma StartTracked(f: seq<nat>, n: nat)
    requires IsMap(f, n) && DimensionAccepted(n)
    ensures Tracked(f, n, 1, Start(Pow2(n)))
  {
  }

  /** Skipping a settled input keeps the invariant. */
  lemma SkipKeeps(f: seq<nat>, n: nat, i: nat, st: ScanState)
    requires IsMap(f, n) && DimensionAccepted(n) && Tracked(f, n, i, st)
    requires i < Pow2(n) && !st.pending[i]
    ensures Tracked(f, n, i + 1, st)
  {
    SettledStep(n, i, st);
  }

  /** A settled input extends the settled prefix by one. */
  lemma SettledStep(n: nat, i: nat, st: ScanState)
    requires Settled(n, i, st) && i < Pow2(n) && !st.pending[i]
    ensures Settled(n, i + 1, st)
  {
    forall x | 1 <= x < i + 1
      ensures !st.pending[x]
    {
      if x < i {
        assert !st.pending[x];
      }
    }
  }

  /** Recording keeps settled inputs labelled. */
  lemma RecordLabelled(f: seq<nat>, n: nat, i: nat, st: ScanState)
    requires IsMap(f, n) && DimensionAccepted(n) && Shaped(n, st) && Labelled(f, n, st)
    requires i < Pow2(n) && Admits(f, n, i, st)
    ensures Labelled(f, n, Record(f, n, i, st))
  {
    var st' := Record(f, n, i, st);
    var j := |st.triples|;
    forall x | 0 < x < Pow2(n) && !st'.pending[x]
      ensures 0 < st'.ol[f[x]] <= |st'.triples| && Member(x, st'.triples[st'.ol[f[x]] - 1])
    {
      if x == i || x == Partner(n, i) || x == Third(n, i) {
        assert st'.ol[f[x]] == j + 1;
      } else {
        assert !st.pending[x];
      }
    }
  }

  /** Recording keeps labels pointing at their triples. */
  lemma RecordLinked(f: seq<nat>, n: nat, i: nat, st: ScanState)
    requires IsMap(f, n) && DimensionAccepted(n) && Shaped(n, st) && Linked(n, st)
    requires i < Pow2(n)
    ensures Linked(n, Record(f, n, i, st))
  {
  }

  /** Recording keeps the triples consistent and numbered. */
  lemma RecordRecorded(f: seq<nat>, n: nat, i: nat, st: ScanState)
    requires IsMap(f, n) && DimensionAccepted(n) && Shaped(n, st) && Recorded(f, n, st)
    requires 0 < i < Pow2(n) && Admits(f, n, i, st)
    ensures Recorded(f, n, Record(f, n, i, st))
  {
    var st' := Record(f, n, i, st);
    var j := |st.triples|;
    assert Consistent(f, n, st'.triples[j]);
    forall q | 0 <= q < j
      ensures st'.ol[st'.triples[q].value] == q + 1
    {
      assert st.ol[st.triples[q].value] == q + 1;
    }
  }

  /** Recording the triple of an admitted input keeps the invariant. */
  lemma RecordKeeps(f: seq<nat>, n: nat, i: nat, st: ScanState)
    requires IsMap(f, n) && DimensionAccepted(n) && Tracked(f, n, i, st)
    requires i < Pow2(n) && st.pending[i] && Admits(f, n, i, st)
    ensures Tracked(f, n, i + 1, Record(f, n, i, st))
  {
    RecordLabelled(f, n, i, st);
    RecordLinked(f, n, i, st);
    RecordRecorded(f, n, i, st);
  }

  /** Whatever the scan accepts from a tracked state ends tracked. */
  lemma {:induction false} ScanKeeps(f: seq<nat>, n: nat, i: nat, st: ScanState, last: ScanState)
    requires IsMap(f, n) && DimensionAccepted(n) && Tracked(f, n, i, st)
    requires ScanFrom(f, n, i, st) == Accepted(last)
    ensures Tracked(f, n, Pow2(n), last)
    decreases Pow2(n) - i
  {
    if i < Pow2(n) {
      if !st.pending[i] {
        SkipKeeps(f, n, i, st);
        ScanKeeps(f, n, i + 1, st, last);
      } else {
        assert Admits(f, n, i, st);
        RecordKeeps(f, n, i, st);
        ScanKeeps(f, n, i + 1, Record(f, n, i, st), last);
      }
    }
  }

  // ---------------------------------------------------------------
  // What an accepted scan says about F

  /** x belongs to one of the triples. */
  ghost predicate Covered(ts: seq<Triple>, x: nat)
  {
    exists q :: 0 <= q < |ts| && Member(x, ts[q])
  }

  /** An accepted F splits its nonzero inputs into the recorded triples: each
      triple is consistent, no two triples share a value, every nonzero input
      lies in a triple, and only 0 maps to 0. */
  lemma TriplicateSound(f: seq<nat>, n: nat)
    requires IsLut(f, n) && Canonical(f, n)
    ensures forall q :: 0 <= q < |Scan(f, n).triples| ==> Consistent(f, n, Scan(f, n).triples[q])
    ensures forall q, r :: 0 <= q < r < |Scan(f, n).triples| ==>
              Scan(f, n).triples[q].value != Scan(f, n).triples[r].value
    ensures forall x :: 0 < x < Pow2(n) ==> Covered(Scan(f, n).triples, x)
    ensures forall x :: 0 <= x < Pow2(n) ==> (f[x] == 0 <==> x == 0)
  {
    CanonicalIsMap(f, n);
    var last := Scan(f, n);
    StartTracked(f, n);
    ScanKeeps(f, n, 1, Start(Pow2(n)), last);
    var ts := last.triples;
    forall q, r | 0 <= q < r < |ts|
      ensures ts[q].value != ts[r].value
    {
      assert last.ol[ts[q].value] == q + 1 && last.ol[ts[r].value] == r + 1;
    }
    forall x | 0 < x < Pow2(n)
      ensures Covered(ts, x) && f[x] != 0
    {
      var q := last.ol[f[x]] - 1;
      assert Member(x, ts[q]) && Consistent(f, n, ts[q]);
    }
  }

  /** F is a canonical triplicate in the sense of the check: F(0) = 0, and
      for every nonzero x the nonzero value F(x) is taken at x * beta and at
      x * beta ^ x and at no other nonzero input. */
  ghost predicate Triplicated(f: seq<nat>, n: nat)
    requires IsLut(f, n)
  {
    && DimensionAccepted(n)
    && IsMap(f, n)
    && f[0] == 0
    && forall x {:trigger Partner(n, x)} :: 0 < x < Pow2(n) ==>
         && f[x] != 0
         && f[Partner(n, x)] == f[x]
         && f[Third(n, x)] == f[x]
         && forall y :: 0 < y < Pow2(n) && f[y] == f[x] ==>
              y == x || y == Partner(n, x) || y == Third(n, x)
  }

  /** For a triplicated F, an input whose value is already labelled is
      settled. */
  lemma LabelledValueSettled(f: seq<nat>, n: nat, x: nat, st: ScanState)
    requires IsLut(f, n) && Triplicated(f, n)
    requires Shaped(n, st) && Linked(n, st) && Recorded(f, n, st)
    requires 0 < x < Pow2(n) && st.ol[f[x]] != 0
    ensures !st.pending[x]
  {
    var tr := LabelledTriple(f, n, f[x], st);
    SameValueInTriple(f, n, x, tr.first);
  }

  /** A labelled value names a recorded triple of that value, whose three
      inputs are settled. */
  lemma LabelledTriple(f: seq<nat>, n: nat, v: nat, st: ScanState) returns (tr: Triple)
    requires IsMap(f, n) && DimensionAccepted(n)
    requires Shaped(n, st) && Linked(n, st) && Recorded(f, n, st)
    requires v < Pow2(n) && st.ol[v] != 0
    ensures Consistent(f, n, tr) && tr.value == v
    ensures !st.pending[tr.first] && !st.pending[tr.second] && !st.pending[tr.third]
  {
    tr := st.triples[st.ol[v] - 1];
  }

  /** For a triplicated F, an input with the value of i is i or one of its
      two partners. */
  lemma SameValueInTriple(f: seq<nat>, n: nat, x: nat, i: nat)
    requires IsLut(f, n) && Triplicated(f, n)
    requires 0 < x < Pow2(n) && 0 < i < Pow2(n) && f[x] == f[i]
    ensures x == i || x == Partner(n, i) || x == Third(n, i)
  {
    assert f[Partner(n, i)] == f[i];
  }

  /** For a triplicated F a nonzero input has a nonzero value, shared by
      its two partners. */
  lemma TriplicatedAt(f: seq<nat>, n: nat, x: nat)
    requires IsLut(f, n) && Triplicated(f, n) && 0 < x < Pow2(n)
    ensures f[x] != 0 && f[x] < Pow2(n) && f[Partner(n, x)] == f[x] && f[Third(n, x)] == f[x]
  {
    var k := Partner(n, x);
  }

  /** For a triplicated F every pending nonzero input admits its triple. */
  lemma TriplicatedAdmits(f: seq<nat>, n: nat, i: nat, st: ScanState)
    requires IsLut(f, n) && Triplicated(f, n)
    requires Shaped(n, st) && Linked(n, st) && Recorded(f, n, st)
    requires 0 < i < Pow2(n) && st.pending[i]
    ensures Admits(f, n, i, st)
  {
    TriplicatedAt(f, n, i);
    if st.ol[f[i]] != 0 {
      LabelledValueSettled(f, n, i, st);
    }
  }

  /** For a triplicated F one round of the scan never rejects: it moves to
      a tracked state with the same outcome. */
  lemma TriplicatedStep(f: seq<nat>, n: nat, i: nat, st: ScanState) returns (st': ScanState)
    requires IsLut(f, n) && Triplicated(f, n) && Tracked(f, n, i, st) && i < Pow2(n)
    ensures Tracked(f, n, i + 1, st')
    ensures ScanFrom(f, n, i, st) == ScanFrom(f, n, i + 1, st')
  {
    if !st.pending[i] {
      SkipKeeps(f, n, i, st);
      st' := st;
    } else {
      TriplicatedAdmits(f, n, i, st);
      RecordKeeps(f, n, i, st);
      st' := Record(f, n, i, st);
    }
  }

  /** The scan accepts every triplicated F, from any tracked state. */
  lemma {:induction false} ScanTotal(f: seq<nat>, n: nat, i: nat, st: ScanState)
    requires IsLut(f, n) && Triplicated(f, n) && Tracked(f, n, i, st)
    ensures ScanFrom(f, n, i, st).Accepted?
    decreases Pow2(n) - i
  {
    if i < Pow2(n) {
      var st' := TriplicatedStep(f, n, i, st);
      ScanTotal(f, n, i + 1, st');
    }
  }

  /** Every triplicated F passes the check. */
  lemma TriplicateComplete(f: seq<nat>, n: nat)
    requires IsLut(f, n) && Triplicated(f, n)
    ensures Canonical(f, n)
  {
    StartTracked(f, n);
    ScanTotal(f, n, 1, Start(Pow2(n)));
  }

  // ---------------------------------------------------------------
  // Counting: the triples fit the (2^n - 1) / 3 columns of `t`

  /** The number of pending inputs. */
  function CountPending(s: seq<bool>): (c: nat)
    ensures c <= |s|
  {
    if |s| == 0 then 0 else CountPending(s[..|s| - 1]) + (if s[|s| - 1] then 1 else 0)
  }

  /** Settling a pending input lowers the count by one. */
  lemma {:induction false} CountClear(s: seq<bool>, x: nat)
    requires x < |s| && s[x]
    ensures CountPending(s[x := false]) + 1 == CountPending(s)
    decreases |s|
  {
    var s' := s[x := false];
    if x < |s| - 1 {
      assert s'[..|s'| - 1] == s[..|s| - 1][x := false];
      CountClear(s[..|s| - 1], x);
    } else {
      assert s'[..|s'| - 1] == s[..|s| - 1];
    }
  }

  /** With nothing pending the count is 0. */
  lemma {:induction false} CountNone(s: seq<bool>)
    requires forall x :: 0 <= x < |s| ==> !s[x]
    ensures CountPending(s) == 0
    decreases |s|
  {
    if |s| > 0 {
      CountNone(s[..|s| - 1]);
    }
  }

  /** Once every input is settled nothing is pending. */
  lemma AllSettled(n: nat, st: ScanState)
    requires Settled(n, Pow2(n), st)
    ensures CountPending(st.pending) == 0
  {
    CountNone(st.pending);
  }

  /** At the start every input but 0 is pending. */
  lemma {:induction false} CountStart(size: nat)
    requires size >= 1
    ensures CountPending(seq(size, x => x != 0)) == size - 1
    decreases size
  {
    if size > 1 {
      assert seq(size, x => x != 0)[..size - 1] == seq(size - 1, x => x != 0);
      CountStart(size - 1);
    } else {
      assert seq(size, x => x != 0)[..size - 1] == [];
    }
  }

  /** 2^n leaves remainder 1 modulo 3 for even n. */
  lemma {:induction false} Pow2Mod3(n: nat)
    requires n % 2 == 0
    ensures Pow2(n) % 3 == 1
    decreases n
  {
    if n > 0 {
      Pow2Mod3(n - 2);
      assert Pow2(n) == 4 * Pow2(n - 2);
      FourTimesMod3(Pow2(n - 2));
    }
  }

  /** Multiplying by 4 keeps the remainder 1 modulo 3. */
  lemma FourTimesMod3(a: nat)
    requires a % 3 == 1
    ensures (4 * a) % 3 == 1
  {
    var q := a / 3;
    assert a == 3 * q + 1;
    assert 4 * a == 3 * (4 * q + 1) + 1;
  }

  /** Every pending input and every triple accounts for its share of the
      2^n - 1 nonzero inputs. */
  predicate Counted(n: nat, st: ScanState)
  {
    CountPending(st.pending) + 3 * |st.triples| == Pow2(n) - 1
  }

  /** A settled nonzero input has a value inside the table, and that value
      is labelled. */
  ghost predicate Claimed(f: seq<nat>, n: nat, st: ScanState)
    requires IsLut(f, n) && Shaped(n, st)
  {
    forall x :: 0 < x < Pow2(n) && !st.pending[x] ==> f[x] < Pow2(n) && st.ol[f[x]] != 0
  }

  /** The invariant the count needs: settled inputs, claimed values and the
      count itself. */
  ghost predicate Tallied(f: seq<nat>, n: nat, i: nat, st: ScanState)
    requires IsLut(f, n)
  {
    Settled(n, i, st) && Claimed(f, n, st) && Counted(n, st)
  }

  lemma StartTallied(f: seq<nat>, n: nat)
    requires IsLut(f, n) && DimensionAccepted(n)
    ensures Tallied(f, n, 1, Start(Pow2(n)))
  {
    CountStart(Pow2(n));
  }

  /** For k, i distinct and nonzero, k ^ i differs from 0, i and k. */
  lemma XorOfDistinct(k: nat, i: nat)
    requires k != 0 && i != 0 && k != i
    ensures Xor(k, i) != 0 && Xor(k, i) != i && Xor(k, i) != k
  {
    XorAssoc(k, i, i);
    XorAssoc(i, k, k);
    XorSelf(i);
    XorSelf(k);
    XorZeroRight(i);
    XorZeroRight(k);
    XorComm(k, i);
    XorComm(0, i);
    XorComm(0, k);
  }

  /** With F(0) = 0 an admitted input i is multiplied by beta to neither 0
      nor i: F(i * beta) = F(i) != 0 rules out 0, and i * beta = i would make
      i * beta ^ i = 0. */
  lemma AdmittedPartner(f: seq<nat>, n: nat, i: nat, st: ScanState)
    requires IsLut(f, n) && DimensionAccepted(n) && f[0] == 0 && Shaped(n, st)
    requires 0 < i < Pow2(n) && Admits(f, n, i, st)
    ensures Partner(n, i) != 0 && Partner(n, i) != i
  {
    XorSelf(i);
  }

  /** With F(0) = 0 an admitted input and its two partners are three
      distinct pending inputs. */
  lemma AdmittedArePending(f: seq<nat>, n: nat, i: nat, st: ScanState)
    requires IsLut(f, n) && DimensionAccepted(n) && f[0] == 0 && Shaped(n, st) && Claimed(f, n, st)
    requires 0 < i < Pow2(n) && st.pending[i] && Admits(f, n, i, st)
    ensures Partner(n, i) != i && Third(n, i) != i && Third(n, i) != Partner(n, i)
    ensures st.pending[Partner(n, i)] && st.pending[Third(n, i)]
  {
    AdmittedPartner(f, n, i, st);
    XorOfDistinct(Partner(n, i), i);
  }

  /** Recording a triple settles three distinct pending inputs. */
  lemma RecordTallied(f: seq<nat>, n: nat, i: nat, st: ScanState)
    requires IsLut(f, n) && DimensionAccepted(n) && f[0] == 0 && Tallied(f, n, i, st)
    requires i < Pow2(n) && st.pending[i] && Admits(f, n, i, st)
    ensures Tallied(f, n, i + 1, Record(f, n, i, st))
  {
    var k, ki := Partner(n, i), Third(n, i);
    AdmittedArePending(f, n, i, st);
    var p1 := st.pending[i := false];
    var p2 := p1[k := false];
    CountClear(st.pending, i);
    CountClear(p1, k);
    CountClear(p2, ki);
  }

  /** Before a pending input there is room for one more triple. */
  lemma RoomForTriple(n: nat, i: nat, st: ScanState)
    requires DimensionAccepted(n) && Shaped(n, st) && i < Pow2(n) && st.pending[i] && Counted(n, st)
    ensures |st.triples| < (Pow2(n) - 1) / 3
  {
    CountClear(st.pending, i);
    Pow2Mod3(n);
    FewerTriples(Pow2(n), CountPending(st.pending), |st.triples|);
  }

  /** With t triples and at least one pending input among total - 1 inputs,
      where total leaves remainder 1 modulo 3, t is below (total - 1) / 3. */
  lemma FewerTriples(total: nat, pending: nat, t: nat)
    requires total % 3 == 1 && pending >= 1 && pending + 3 * t == total - 1
    ensures t < (total - 1) / 3
  {
    var m := (total - 1) / 3;
    assert total - 1 == 3 * m;
  }

  /** One round of an accepting scan keeps the count. */
  lemma TalliedStep(f: seq<nat>, n: nat, i: nat, st: ScanState, last: ScanState) returns (st': ScanState)
    requires IsLut(f, n) && DimensionAccepted(n) && f[0] == 0 && Tallied(f, n, i, st)
    requires i < Pow2(n) && ScanFrom(f, n, i, st) == Accepted(last)
    ensures Tallied(f, n, i + 1, st') && ScanFrom(f, n, i + 1, st') == Accepted(last)
  {
    if !st.pending[i] {
      SettledStep(n, i, st);
      st' := st;
    } else {
      assert Admits(f, n, i, st);
      RecordTallied(f, n, i, st);
      st' := Record(f, n, i, st);
    }
  }

  /** The count survives the scan. */
  lemma {:induction false} ScanTallies(f: seq<nat>, n: nat, i: nat, st: ScanState, last: ScanState)
    requires IsLut(f, n) && DimensionAccepted(n) && f[0] == 0 && Tallied(f, n, i, st)
    requires ScanFrom(f, n, i, st) == Accepted(last)
    ensures Tallied(f, n, Pow2(n), last)
    decreases Pow2(n) - i
  {
    if i < Pow2(n) {
      var st' := TalliedStep(f, n, i, st, last);
      ScanTallies(f, n, i + 1, st', last);
    }
  }

  /** An accepted F has exactly (2^n - 1) / 3 triples: F is 3-to-1 on the
      nonzero inputs. */
  lemma TriplicateCount(f: seq<nat>, n: nat)
    requires IsLut(f, n) && Canonical(f, n)
    ensures 3 * |Scan(f, n).triples| == Pow2(n) - 1
  {
    var last := Scan(f, n);
    StartTallied(f, n);
    ScanTallies(f, n, 1, Start(Pow2(n)), last);
    AllSettled(n, last);
  }

  /** An accepted F takes every value inside the table of 2^n labels. */
  lemma CanonicalIsMap(f: seq<nat>, n: nat)
    requires IsLut(f, n) && Canonical(f, n)
    ensures IsMap(f, n)
  {
    var last := Scan(f, n);
    StartTallied(f, n);
    ScanTallies(f, n, 1, Start(Pow2(n)), last);
    forall x | 0 < x < Pow2(n)
      ensures f[x] < Pow2(n)
    {
      assert !last.pending[x];
    }
  }

  /** On a table of n-bit words the scan never leaves the table. */
  lemma {:induction false} ScanInTable(f: seq<nat>, n: nat, i: nat, st: ScanState)
    requires IsMap(f, n) && DimensionAccepted(n) && Shaped(n, st) && 1 <= i <= Pow2(n)
    ensures !ScanFrom(f, n, i, st).OutOfTable?
    decreases Pow2(n) - i
  {
    if i < Pow2(n) {
      if !st.pending[i] {
        ScanInTable(f, n, i + 1, st);
      } else if Admits(f, n, i, st) {
        ScanInTable(f, n, i + 1, Record(f, n, i, st));
      }
    }
  }

  /** The verdict is undefined only when some output is not an n-bit word:
      on a table of n-bit words it is whether F is canonical. */
  lemma MapVerdict(f: seq<nat>, n: nat)
    requires IsLut(f, n)
    ensures IsMap(f, n) ==> CanonicalVerdict(f, n) == Some(Canonical(f, n))
  {
    if IsMap(f, n) && DimensionAccepted(n) && f[0] == 0 {
      ScanInTable(f, n, 1, Start(Pow2(n)));
    }
  }

  // ---------------------------------------------------------------
  // struct triplicate and is_canonical_triplicate_internal

  /** One round of an accepting scan: a settled input is skipped, a pending
      one records its triple. */
  function Advance(f: seq<nat>, n: nat, i: nat, st: ScanState): (st': ScanState)
    requires IsLut(f, n) && DimensionAccepted(n) && Shaped(n, st) && i < Pow2(n)
    requires st.pending[i] ==> f[i] < Pow2(n)
    ensures Shaped(n, st')
  {
    if st.pending[i] then Record(f, n, i, st) else st
  }

  /** A pending input whose value is 0, or inside the table but without its
      triple, ends the scan with a rejection. */
  lemma Rejects(f: seq<nat>, n: nat, i: nat, st: ScanState)
    requires IsLut(f, n) && DimensionAccepted(n) && Shaped(n, st) && 1 <= i < Pow2(n)
    requires st.pending[i] && (f[i] == 0 || f[i] < Pow2(n)) && !Admits(f, n, i, st)
    ensures ScanFrom(f, n, i, st) == Rejected
  {
  }

  /** A pending input whose nonzero value is not below 2^n ends the scan out
      of the table. */
  lemma Leaves(f: seq<nat>, n: nat, i: nat, st: ScanState)
    requires IsLut(f, n) && DimensionAccepted(n) && Shaped(n, st) && 1 <= i < Pow2(n)
    requires st.pending[i] && f[i] != 0 && f[i] >= Pow2(n)
    ensures ScanFrom(f, n, i, st) == OutOfTable
  {
  }

  /** A round that does not stop keeps the count and the outcome. */
  lemma AdvanceKeeps(f: seq<nat>, n: nat, i: nat, st: ScanState)
    requires IsLut(f, n) && DimensionAccepted(n) && f[0] == 0 && Tallied(f, n, i, st)
    requires i < Pow2(n) && (st.pending[i] ==> Admits(f, n, i, st))
    ensures Tallied(f, n, i + 1, Advance(f, n, i, st))
    ensures ScanFrom(f, n, i, st) == ScanFrom(f, n, i + 1, Advance(f, n, i, st))
  {
    if st.pending[i] {
      RecordTallied(f, n, i, st);
    }
  }

  /** Past the last input the scan accepts its state. */
  lemma ScanEnds(f: seq<nat>, n: nat, st: ScanState)
    requires IsLut(f, n) && DimensionAccepted(n) && Shaped(n, st)
    ensures ScanFrom(f, n, Pow2(n), st) == Accepted(st)
  {
  }

  /** A scan that reaches the end accepts, and its last state holds
      (2^n - 1) / 3 triples. */
  lemma ScanAccepts(f: seq<nat>, n: nat, st: ScanState)
    requires IsLut(f, n) && DimensionAccepted(n) && f[0] == 0 && Tallied(f, n, Pow2(n), st)
    requires ScanFrom(f, n, 1, Start(Pow2(n))) == ScanFrom(f, n, Pow2(n), st)
    ensures Canonical(f, n) && Scan(f, n) == st && 3 * |st.triples| == Pow2(n) - 1
  {
    AllSettled(n, st);
  }

  /** The table `t` holds the triples: value, i, i * beta and i * beta ^ i
      in rows 0 to 3 of `tN` columns each. */
  predicate Laid(t: seq<nat>, tN: nat, ts: seq<Triple>)
  {
    && |t| == 4 * tN
    && |ts| <= tN
    && forall q :: 0 <= q < |ts| ==>
         && t[q] == ts[q].value && t[tN + q] == ts[q].first
         && t[2 * tN + q] == ts[q].second && t[3 * tN + q] == ts[q].third
  }

  /** Writing the columns of a recorded triple lays out the triples of the
      new state. */
  lemma LaidRecord(f: seq<nat>, n: nat, i: nat, st: ScanState, t0: seq<nat>, tN: nat, j: nat,
                   fi: nat, k: nat, ki: nat, t1: seq<nat>)
    requires IsLut(f, n) && DimensionAccepted(n) && Shaped(n, st) && i < Pow2(n) && f[i] < Pow2(n)
    requires Laid(t0, tN, st.triples) && j == |st.triples| && j < tN
    requires fi == f[i] && k == Partner(n, i) && ki == Third(n, i)
    requires t1 == t0[j := fi][tN + j := i][2 * tN + j := k][3 * tN + j := ki]
    ensures Laid(t1, tN, Record(f, n, i, st).triples)
  {
    LaidExtend(t0, tN, st.triples, Triple(f[i], i, Partner(n, i), Third(n, i)));
  }

  /** Writing one more column lays out one more triple. */
  lemma LaidExtend(t: seq<nat>, tN: nat, ts: seq<Triple>, tr: Triple)
    requires Laid(t, tN, ts) && |ts| < tN
    ensures Laid(t[|ts| := tr.value][tN + |ts| := tr.first][2 * tN + |ts| := tr.second][3 * tN + |ts| := tr.third],
                 tN, ts + [tr])
  {
  }

  /** `triplicate`: the number of inputs N, the number of triples tN, the
      triple table t and the output labels ol. */
  class TriplicateTables {
    var N: nat
    var tN: nat
    var t: array<nat>
    var ol: array<nat>

    /** `T.t = NULL; T.ol = NULL;`: no tables yet. */
    constructor()
      ensures N == 0 && tN == 0 && t.Length == 0 && ol.Length == 0
    {
      N := 0;
      tN := 0;
      t := new nat[0];
      ol := new nat[0];
    }

    /** One round of the loop of `is_canonical_triplicate_internal`: a
        pending input i that admits its triple has it written into `t`, `ol`
        and `c`; one that does not ends the scan with a rejection, and one
        whose value lies outside `ol` ends it with the out-of-bounds read. */
    method Visit(F: VbfTt, beta: nat, pp: nat, c: array<bool>, i: nat, j: nat, ghost st: ScanState)
      returns (rejected: bool, faulted: bool, j': nat, ghost st': ScanState)
      requires WellFormed(F) && DimensionAccepted(F.dimension) && F.values[0] == 0
      requires beta == Beta(F.dimension) && pp == PrimitivePolynomial(F.dimension)
      requires N == |F.values| && tN == (N - 1) / 3 && i < N
      requires ol.Length == N && c.Length == N && t != ol
      requires Tallied(F.values, F.dimension, i, st)
      requires c[..] == st.pending && ol[..] == st.ol && |st.triples| == j
      requires Laid(t[..], tN, st.triples)
      modifies t, ol, c
      ensures rejected ==> ScanFrom(F.values, F.dimension, i, st) == Rejected
      ensures faulted ==> ScanFrom(F.values, F.dimension, i, st) == OutOfTable
      ensures !rejected && !faulted ==>
                && Tallied(F.values, F.dimension, i + 1, st')
                && c[..] == st'.pending && ol[..] == st'.ol && |st'.triples| == j'
                && Laid(t[..], tN, st'.triples)
                && ScanFrom(F.values, F.dimension, i, st) == ScanFrom(F.values, F.dimension, i + 1, st')
    {
      var n := F.dimension;
      ghost var f := F.values;
      rejected, faulted, j', st' := Step(F, beta, pp, c, i, j, st);
      if rejected {
        Rejects(f, n, i, st);
      } else if faulted {
        Leaves(f, n, i, st);
      } else {
        AdvanceKeeps(f, n, i, st);
      }
    }

    /** The statements of one round: skip a settled input, reject a zero
        value, stop at a value outside `ol`, reject an already labelled
        value, or open the triple. */
    method Step(F: VbfTt, beta: nat, pp: nat, c: array<bool>, i: nat, j: nat, ghost st: ScanState)
      returns (rejected: bool, faulted: bool, j': nat, ghost st': ScanState)
      requires WellFormed(F) && DimensionAccepted(F.dimension) && F.values[0] == 0
      requires beta == Beta(F.dimension) && pp == PrimitivePolynomial(F.dimension)
      requires N == |F.values| && tN == (N - 1) / 3 && i < N
      requires ol.Length == N && c.Length == N && t != ol
      requires Tallied(F.values, F.dimension, i, st)
      requires c[..] == st.pending && ol[..] == st.ol && |st.triples| == j
      requires Laid(t[..], tN, st.triples)
      modifies t, ol, c
      ensures faulted <==> st.pending[i] && F.values[i] != 0 && F.values[i] >= N
      ensures rejected <==> st.pending[i] && !faulted && !Admits(F.values, F.dimension, i, st)
      ensures !rejected && !faulted ==>
                && st' == Advance(F.values, F.dimension, i, st)
                && c[..] == st'.pending && ol[..] == st'.ol && |st'.triples| == j'
                && Laid(t[..], tN, st'.triples)
    {
      st' := st;
      faulted := false;
      if !c[i] {
        return false, false, j, st;
      }
      var fi := F.values[i];
      if fi == 0 {
        return true, false, j, st;
      }
      if fi >= N {
        return false, true, j, st;
      }
      if ol[fi] != 0 {
        return true, false, j, st;
      }
      RoomForTriple(F.dimension, i, st);
      rejected, j' := OpenTriple(F, beta, pp, c, i, j, st);
      if !rejected {
        st' := Record(F.values, F.dimension, i, st);
      }
    }

    /** The triple of a pending input i whose value F(i) is nonzero, inside
        `ol` and unlabelled: label and first two rows are written, then the
        inputs i * beta and i * beta ^ i are checked and written. */
    method OpenTriple(F: VbfTt, beta: nat, pp: nat, c: array<bool>, i: nat, j: nat, ghost st: ScanState)
      returns (rejected: bool, j': nat)
      requires WellFormed(F) && DimensionAccepted(F.dimension)
      requires beta == Beta(F.dimension) && pp == PrimitivePolynomial(F.dimension)
      requires N == |F.values| && i < N && ol.Length == N && c.Length == N && t != ol
      requires Shaped(F.dimension, st)
      requires c[..] == st.pending && ol[..] == st.ol && |st.triples| == j
      requires Laid(t[..], tN, st.triples) && j < tN
      requires st.pending[i] && F.values[i] != 0 && F.values[i] < N && st.ol[F.values[i]] == 0
      modifies t, ol, c
      ensures rejected <==> !Admits(F.values, F.dimension, i, st)
      ensures !rejected ==>
                var st' := Record(F.values, F.dimension, i, st);
                c[..] == st'.pending && ol[..] == st'.ol && |st'.triples| == j' &&
                Laid(t[..], tN, st'.triples)
    {
      var n := F.dimension;
      var fi := F.values[i];
      ghost var t0, c0 := t[..], c[..];
      WriteHead(c, fi, i, j);
      var k := FfMultiply(i, beta, pp, n);
      XorBound(k, i, n);
      var ki := Xor(k, i);
      assert k == Partner(n, i) && ki == Third(n, i);
      if F.values[k] != fi || F.values[ki] != fi {
        return true, j;
      }
      WriteTail(c, k, ki, j);
      LaidRecord(F.values, n, i, st, t0, tN, j, fi, k, ki, t[..]);
      rejected, j' := false, j + 1;
    }

    /** `T->ol[Fi] = j+1; T->t[0*T->tN + j] = Fi; T->t[1*T->tN + j] = i;
        c[i] = 0;` */
    method WriteHead(c: array<bool>, fi: nat, i: nat, j: nat)
      requires fi < ol.Length && i < c.Length && j < tN && t.Length == 4 * tN && t != ol
      modifies t, ol, c
      ensures t[..] == old(t[..])[j := fi][tN + j := i]
      ensures ol[..] == old(ol[..])[fi := j + 1]
      ensures c[..] == old(c[..])[i := false]
    {
      ol[fi] := j + 1;
      t[j] := fi;
      t[tN + j] := i;
      c[i] := false;
    }

    /** `T->t[2*T->tN + j] = k; c[k] = 0; T->t[3*T->tN + j] = k ^ i;
        c[k ^ i] = 0;` */
    method WriteTail(c: array<bool>, k: nat, ki: nat, j: nat)
      requires k < c.Length && ki < c.Length && j < tN && t.Length == 4 * tN
      modifies t, c
      ensures t[..] == old(t[..])[2 * tN + j := k][3 * tN + j := ki]
      ensures c[..] == old(c[..])[k := false][ki := false]
    {
      t[2 * tN + j] := k;
      c[k] := false;
      t[3 * tN + j] := ki;
      c[ki] := false;
    }

    /** `is_canonical_triplicate_internal(F, T)`: accepts exactly the
        canonical triplicates, with None where the scan reads `ol` out of
        bounds; leaves T alone when the dimension or F(0) is wrong, and on
        success holds the labels and the triples of the scan. */
    method IsCanonicalTriplicateInternal(F: VbfTt) returns (ok: Option<bool>)
      requires WellFormed(F)
      modifies this
      ensures ok == CanonicalVerdict(F.values, F.dimension)
      ensures IsMap(F.values, F.dimension) ==> ok == Some(Canonical(F.values, F.dimension))
      ensures !DimensionAccepted(F.dimension) || F.values[0] != 0 ==> unchanged(this)
      ensures ok == Some(true) ==> N == F.numberOfEntries && tN == (N - 1) / 3 && fresh(t) && fresh(ol)
      ensures ok == Some(true) ==> ol[..] == Scan(F.values, F.dimension).ol
      ensures ok == Some(true) ==>
                |Scan(F.values, F.dimension).triples| == tN && Laid(t[..], tN, Scan(F.values, F.dimension).triples)
    {
      MapVerdict(F.values, F.dimension);
      var n := F.dimension;
      if n < 4 || n > 20 || n % 2 != 0 {
        return Some(false);
      }
      if F.values[0] != 0 {
        return Some(false);
      }
      ok := Build(F);
    }

    /** The part of `is_canonical_triplicate_internal` after the checks on
        the dimension and F(0): allocate `t` and `ol`, pick beta and the
        polynomial, and scan. */
    method Build(F: VbfTt) returns (ok: Option<bool>)
      requires WellFormed(F) && DimensionAccepted(F.dimension) && F.values[0] == 0
      modifies this
      ensures ok == CanonicalVerdict(F.values, F.dimension)
      ensures N == F.numberOfEntries && tN == (N - 1) / 3 && fresh(t) && fresh(ol)
      ensures ok == Some(true) ==> ol[..] == Scan(F.values, F.dimension).ol
      ensures ok == Some(true) ==>
                |Scan(F.values, F.dimension).triples| == tN && Laid(t[..], tN, Scan(F.values, F.dimension).triples)
    {
      var n := F.dimension;
      ghost var f := F.values;
      N := F.numberOfEntries;
      tN := (N - 1) / 3;
      var tt := new nat[tN * 4](_ => 0);
      var oo := new nat[N](_ => 0);
      t, ol := tt, oo;
      var idx := (n - 4) / 2;
      assert idx < |Betas|;
      var beta := Betas[idx];
      var pp := PrimitivePolynomial(n);
      assert oo[..] == Start(N).ol;
      ghost var last;
      assert N == Pow2(n);
      ok, last := ScanAll(F, beta, pp);
      if ok == Some(true) {
        ScanAccepts(f, n, last);
      }
    }

    /** The loop of `is_canonical_triplicate_internal` over the inputs 1 to
        N - 1: its verdict is the scan's, and on acceptance `ol` and `t`
        hold the final labels and triples. */
    method ScanAll(F: VbfTt, beta: nat, pp: nat) returns (ok: Option<bool>, ghost last: ScanState)
      requires WellFormed(F) && DimensionAccepted(F.dimension) && F.values[0] == 0
      requires beta == Beta(F.dimension) && pp == PrimitivePolynomial(F.dimension)
      requires N == |F.values| && tN == (N - 1) / 3
      requires t.Length == 4 * tN && ol.Length == N && t != ol && ol[..] == Start(N).ol
      modifies t, ol
      ensures ok == OutcomeVerdict(ScanFrom(F.values, F.dimension, 1, Start(N)))
      ensures ok == Some(true) ==>
                Tallied(F.values, F.dimension, N, last) && ol[..] == last.ol && Laid(t[..], tN, last.triples)
      ensures ok == Some(true) ==> ScanFrom(F.values, F.dimension, 1, Start(N)) == ScanFrom(F.values, F.dimension, N, last)
    {
      var n := F.dimension;
      ghost var f := F.values;
      var c := new bool[N](x => x != 0);
      ghost var st0 := Start(N);
      assert c[..] == st0.pending;
      StartTallied(f, n);
      var j := 0;
      var i := 1;
      last := st0;
      while i < N
        invariant 1 <= i <= N && c.Length == N
        invariant Tallied(f, n, i, last)
        invariant c[..] == last.pending && ol[..] == last.ol && |last.triples| == j
        invariant Laid(t[..], tN, last.triples)
        invariant ScanFrom(f, n, 1, st0) == ScanFrom(f, n, i, last)
      {
        var rejected, faulted;
        ghost var next;
        rejected, faulted, j, next := Visit(F, beta, pp, c, i, j, last);
        if rejected || faulted {
          ok := if rejected then Some(false) else None;
          assert ok != Some(true) && ScanFrom(f, n, 1, st0) == if rejected then Rejected else OutOfTable;
          return;
        }
        last := next;
        i := i + 1;
      }
      ScanEnds(f, n, last);
      assert ScanFrom(f, n, 1, st0) == Accepted(last);
      ok := Some(true);
    }
  }

  // ---------------------------------------------------------------
  // check_is_canonical_triplicate and run_alg1_equivalence_test

  /** `check_is_canonical_triplicate(F)`: a fresh `triplicate`, scanned and
      released. */
  method CheckIsCanonicalTriplicate(F: VbfTt) returns (ok: Option<bool>)
    requires WellFormed(F)
    ensures ok == CanonicalVerdict(F.values, F.dimension)
    ensures IsMap(F.values, F.dimension) ==> ok == Some(Canonical(F.values, F.dimension))
  {
    var T := new TriplicateTables();
    ok := T.IsCanonicalTriplicateInternal(F);
  }

  /** `run_alg1_equivalence_test(dimF, ttF, dimG, ttG)`: false on a dimension
      mismatch; otherwise both functions are scanned, an out-of-bounds read
      in either scan leaves the outcome undefined (None), a function that is
      not a canonical triplicate gives false, and otherwise the verdict is
      `searchVerdict`, that of the backtracking search
      `test_triplicate_linear_equivalence`, which is not part of this model. */
  method RunAlg1EquivalenceTest(dimF: nat, ttF: seq<nat>, dimG: nat, ttG: seq<nat>, searchVerdict: bool)
    returns (equivalent: Option<bool>)
    requires |ttF| == Pow2(dimF) && |ttG| == Pow2(dimG)
    ensures dimF != dimG ==> equivalent == Some(false)
    ensures dimF == dimG ==>
              equivalent == if CanonicalVerdict(ttF, dimF) == None || CanonicalVerdict(ttG, dimG) == None then None
                            else Some(Canonical(ttF, dimF) && Canonical(ttG, dimG) && searchVerdict)
    ensures IsMap(ttF, dimF) && IsMap(ttG, dimG) ==>
              (equivalent == Some(true) <==> dimF == dimG && Canonical(ttF, dimF) && Canonical(ttG, dimG) && searchVerdict)
  {
    MapVerdict(ttF, dimF);
    MapVerdict(ttG, dimG);
    if dimF != dimG {
      return Some(false);
    }
    var F := VbfTt(dimF, Pow2(dimF), ttF);
    var G := VbfTt(dimG, Pow2(dimG), ttG);
    var Ft := new TriplicateTables();
    var Gt := new TriplicateTables();
    var okF := Ft.IsCanonicalTriplicateInternal(F);
    var okG := Gt.IsCanonicalTriplicateInternal(G);
    if okF == None || okG == None {
      return None;
    }
    if okF == Some(false) || okG == Some(false) {
      return Some(false);
    }
    equivalent := Some(searchVerdict);
  }
}
