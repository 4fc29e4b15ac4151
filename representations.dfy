/** The two representations of a vectorial Boolean function: the truth
    table and the univariate polynomial. The polynomial is evaluated with
    the interpolator's own multiplication (`MulSlow` modulo the chosen
    reduction polynomial) in place of the `galois` library, and the
    library's choices (its default field, whether it accepts a polynomial,
    its primitive element) are parameters. */
module Representations {
  import opened Bits
  import opened GaloisField
  import opened Outcomes
  import opened Text
  import opened Terms

  /** `TruthTableRepresentation`: the list of outputs, one per input. */
  datatype TruthTableRepresentation = TruthTableRepresentation(truthTable: seq<nat>)
  {
    /** `to_truth_table` hands back the object itself. */
    function ToTruthTable(): (r: TruthTableRepresentation)
      ensures r.truthTable == truthTable
    {
      this
    }

    /** `to_univariate_polynomial` is not implemented and always raises. */
    function ToUnivariatePolynomial(): (r: Result<seq<Term>>)
      ensures r.Err?
    {
      Err("NotImplementedError")
    }
  }

  // ---------------------------------------------------------------
  // Choosing the field

  /** The `irr_poly` argument: an integer or a text. */
  datatype PolyArg = IntPoly(value: int) | TextPoly(text: string)

  /** `int(irr_poly)`, None where Python raises ValueError. A text is read as
      decimal digits after stripping whitespace. */
  function IntOf(a: PolyArg): (r: Option<int>)
    ensures a.TextPoly? && r.Some? ==> r.value >= 0 && IsDigits(Strip(a.text))
  {
    match a
    case IntPoly(v) => Some(v)
    case TextPoly(t) => if IsDigits(Strip(t)) then Some(DigitsValue(Strip(t))) else None
  }

  /** The reduction polynomial of the field `to_truth_table` evaluates in:
      the integer when `int()` reads one and the library accepts it, else
      the library's default. */
  function FieldPolyOf(a: PolyArg, libraryDefault: nat, accepts: nat -> bool): (p: nat)
    ensures IntOf(a).None? ==> p == libraryDefault
    ensures p != libraryDefault ==> IntOf(a) == Some(p as int) && accepts(p)
  {
    match IntOf(a)
    case None => libraryDefault
    case Some(v) => if v >= 0 && accepts(v as nat) then v as nat else libraryDefault
  }

  /** A text that is a polynomial, not a number, always selects the default. */
  lemma PolynomialTextSelectsDefault(t: string, libraryDefault: nat, accepts: nat -> bool)
    requires 'x' in t
    ensures FieldPolyOf(TextPoly(t), libraryDefault, accepts) == libraryDefault
  {
    StripKeeps(t, Whitespace, 'x');
    var s := Strip(t);
    var k :| 0 <= k < |s| && s[k] == 'x';
    assert !IsDigit(s[k]);
  }

  /** What the conversion takes from the `galois` library: its default
      reduction polynomial for each n, whether it accepts a polynomial for
      GF(2^n), and the primitive element it picks for a field. */
  datatype GaloisLib = GaloisLib(defaultPoly: nat -> nat, accepts: (nat, nat) -> bool, primitive: (nat, nat) -> nat)
  {
    /** The reduction polynomial `GF(2**n, irreducible_poly=...)` ends up with. */
    function FieldPoly(n: nat, irr: PolyArg): nat
    {
      FieldPolyOf(irr, defaultPoly(n), (p: nat) => accepts(n, p))
    }

    /** The field's primitive element. */
    function Generator(n: nat, irr: PolyArg): nat
    {
      primitive(n, FieldPoly(n, irr))
    }
  }

  // ---------------------------------------------------------------
  // Evaluation

  /** The value of one term g^c * x^m at x. */
  function TermValue(t: Term, x: nat, g: nat, n: nat, p: nat): nat
  {
    MulSlow(GPow(g, t.coeffExp, n, p), Power(x, t.monExp, n, p), n, p)
  }

  /** The sum (XOR) of the terms' values at x, added in list order. */
  function PolyValue(terms: seq<Term>, x: nat, g: nat, n: nat, p: nat): nat
  {
    if |terms| == 0 then 0
    else Xor(PolyValue(terms[..|terms| - 1], x, g, n, p), TermValue(terms[|terms| - 1], x, g, n, p))
  }

  /** The value of a concatenation is the sum of the values. */
  lemma {:induction false} PolyValueAppend(A: seq<Term>, B: seq<Term>, x: nat, g: nat, n: nat, p: nat)
    ensures PolyValue(A + B, x, g, n, p) == Xor(PolyValue(A, x, g, n, p), PolyValue(B, x, g, n, p))
    decreases |B|
  {
    if |B| == 0 {
      assert A + B == A;
      XorZeroRight(PolyValue(A, x, g, n, p));
    } else {
      var B' := B[..|B| - 1];
      var last := B[|B| - 1];
      assert (A + B)[..|A + B| - 1] == A + B';
      PolyValueAppend(A, B', x, g, n, p);
      XorAssoc(PolyValue(A, x, g, n, p), PolyValue(B', x, g, n, p), TermValue(last, x, g, n, p));
    }
  }

  /** The order of the terms does not matter: swapping two blocks keeps the value. */
  lemma PolyValueSwap(A: seq<Term>, B: seq<Term>, x: nat, g: nat, n: nat, p: nat)
    ensures PolyValue(A + B, x, g, n, p) == PolyValue(B + A, x, g, n, p)
  {
    PolyValueAppend(A, B, x, g, n, p);
    PolyValueAppend(B, A, x, g, n, p);
    XorComm(PolyValue(A, x, g, n, p), PolyValue(B, x, g, n, p));
  }

  /** Two terms with the same monomial add their coefficients. */
  lemma SameMonomialAdds(c1: nat, c2: nat, m: nat, x: nat, g: nat, n: nat, p: nat)
    ensures PolyValue([Term(c1, m), Term(c2, m)], x, g, n, p)
         == MulSlow(Xor(GPow(g, c1, n, p), GPow(g, c2, n, p)), Power(x, m, n, p), n, p)
  {
    var terms := [Term(c1, m), Term(c2, m)];
    var a, b, xm := GPow(g, c1, n, p), GPow(g, c2, n, p), Power(x, m, n, p);
    assert terms[..1] == [Term(c1, m)];
    assert [Term(c1, m)][..0] == [];
    assert PolyValue([Term(c1, m)], x, g, n, p) == Xor(0, MulSlow(a, xm, n, p));
    assert PolyValue(terms, x, g, n, p) == Xor(MulSlow(a, xm, n, p), MulSlow(b, xm, n, p));
    MulXorLeft(GPow(g, c1, n, p), GPow(g, c2, n, p), Power(x, m, n, p), n, p);
  }

  /** Every value is a field element. */
  lemma {:induction false} PolyValueBound(terms: seq<Term>, x: nat, g: nat, n: nat, p: nat)
    requires n >= 1
    ensures PolyValue(terms, x, g, n, p) < Pow2(n)
    decreases |terms|
  {
    if |terms| > 0 {
      var t := terms[|terms| - 1];
      PolyValueBound(terms[..|terms| - 1], x, g, n, p);
      GPowBound(g, t.coeffExp, n, p);
      MulBound(GPow(g, t.coeffExp, n, p), Power(x, t.monExp, n, p), n, p);
      XorBound(PolyValue(terms[..|terms| - 1], x, g, n, p), TermValue(t, x, g, n, p), n);
    }
  }

  /** `UnivariatePolynomialRepresentation`: the term list, stored as given. */
  class UnivariatePolynomialRepresentation {
    var univariatePolynomial: seq<Term>

    constructor (terms: seq<Term>)
      ensures univariatePolynomial == terms
    {
      univariatePolynomial := terms;
    }

    /** `to_univariate_polynomial` returns the object itself. */
    method ToUnivariatePolynomial() returns (r: UnivariatePolynomialRepresentation)
      ensures r == this && r.univariatePolynomial == univariatePolynomial
    {
      return this;
    }

    /** `to_truth_table(field_n, irr_poly)`: the coefficients g^c first, then
        the value at every x in 0 .. 2^n - 1, in the field and with the
        primitive element the library picks. */
    method ToTruthTable(n: nat, irr: PolyArg, lib: GaloisLib)
      returns (r: TruthTableRepresentation)
      ensures |r.truthTable| == Pow2(n)
      ensures forall x :: 0 <= x < Pow2(n) ==>
        r.truthTable[x] == PolyValue(univariatePolynomial, x, lib.Generator(n, irr), n, lib.FieldPoly(n, irr))
      ensures |univariatePolynomial| == 0 ==> forall x :: 0 <= x < Pow2(n) ==> r.truthTable[x] == 0
    {
      var p := lib.FieldPoly(n, irr);
      var g := lib.Generator(n, irr);
      var coeffs := CoefficientsOf(univariatePolynomial, g, n, p);
      var tt := ValuesOf(univariatePolynomial, coeffs, g, n, p);
      return TruthTableRepresentation(tt);
    }
  }

  /** The first loop of `to_truth_table`: g^c for every term, in order. */
  method CoefficientsOf(terms: seq<Term>, g: nat, n: nat, p: nat) returns (coeffs: seq<nat>)
    ensures |coeffs| == |terms|
    ensures forall i :: 0 <= i < |terms| ==> coeffs[i] == GPow(g, terms[i].coeffExp, n, p)
  {
    coeffs := [];
    var j := 0;
    while j < |terms|
      invariant 0 <= j <= |terms|
      invariant |coeffs| == j
      invariant forall i :: 0 <= i < j ==> coeffs[i] == GPow(g, terms[i].coeffExp, n, p)
    {
      coeffs := coeffs + [GPow(g, terms[j].coeffExp, n, p)];
      j := j + 1;
    }
  }

  /** The outer loop of `to_truth_table`: one value per x in 0 .. 2^n - 1. */
  method ValuesOf(terms: seq<Term>, coeffs: seq<nat>, g: nat, n: nat, p: nat) returns (tt: seq<nat>)
    requires |coeffs| == |terms|
    requires forall i :: 0 <= i < |terms| ==> coeffs[i] == GPow(g, terms[i].coeffExp, n, p)
    ensures |tt| == Pow2(n)
    ensures forall x :: 0 <= x < Pow2(n) ==> tt[x] == PolyValue(terms, x, g, n, p)
  {
    tt := [];
    var x := 0;
    while x < Pow2(n)
      invariant 0 <= x <= Pow2(n)
      invariant |tt| == x
      invariant forall y :: 0 <= y < x ==> tt[y] == PolyValue(terms, y, g, n, p)
    {
      var val := ValueAt(terms, coeffs, x, g, n, p);
      tt := tt + [val];
      x := x + 1;
    }
  }

  /** The inner loop of `to_truth_table`: val += coeff * x^m over the terms. */
  method ValueAt(terms: seq<Term>, coeffs: seq<nat>, x: nat, g: nat, n: nat, p: nat) returns (val: nat)
    requires |coeffs| == |terms|
    requires forall i :: 0 <= i < |terms| ==> coeffs[i] == GPow(g, terms[i].coeffExp, n, p)
    ensures val == PolyValue(terms, x, g, n, p)
  {
    val := 0;
    var j := 0;
    while j < |terms|
      invariant 0 <= j <= |terms|
      invariant val == PolyValue(terms[..j], x, g, n, p)
    {
      assert terms[..j + 1][..j] == terms[..j];
      val := Xor(val, MulSlow(coeffs[j], Power(x, terms[j].monExp, n, p), n, p));
      j := j + 1;
    }
    assert terms[..j] == terms;
  }
}
