/** `apn_properties.py`: the properties computed for a function held as a
    univariate polynomial. The polynomial degree and the canonical-triplicate
    test come from outside (the `galois` library and the triplicate check)
    and are parameters; the differential uniformity is computed by a default
    `DifferentialUniformityComputer`. */
module ApnProperties {
  import opened Bits
  import opened Outcomes
  import opened Text
  import opened Terms
  import opened Anf
  import opened ApnIsQuadratic
  import opened KToOne
  import opened Representations
  import opened ApnObject
  import opened Ddt
  import opened ApnTest
  import opened UserInputParser

  /** The entries `compute_apn_properties` writes. */
  datatype Properties = Properties(
    algebraicDegree: nat,
    numberOfTerms: nat,
    isMonomial: bool,
    isApn: bool,
    isQuadratic: bool,
    kToOne: string,
    uniformlyDistributed: bool)

  /** A truth table as the Python list of ints it is. */
  function PyInts(tt: seq<nat>): (items: seq<PyValue>)
    ensures |items| == |tt| && forall x :: 0 <= x < |tt| ==> items[x] == PyInt(tt[x])
  {
    seq(|tt|, x requires 0 <= x < |tt| => PyInt(tt[x]))
  }

  /** The "k_to_1" text is "3-to-1" exactly when every nonzero output
      occurs three times. */
  lemma ThreeToOneLabel(tt: seq<nat>)
    ensures KToOneLabel(tt) == "3-to-1" <==> UniformNonzero(tt, 3)
  {
    KToOneLabelMeans(tt);
    assert NatToString(3) == "3";
    if KToOneLabel(tt) == "3-to-1" {
      var k :| UniformNonzero(tt, k);
      LabelNamesThree(k);
    }
  }

  /** Only the count 3 is written "3-to-1". */
  lemma LabelNamesThree(k: nat)
    requires NatToString(k) + "-to-1" == "3-to-1"
    ensures k == 3
  {
    var d := NatToString(k);
    assert |d + "-to-1"| == 6;
    assert d == (d + "-to-1")[..1] == "3";
    DigitsValueOfNatToString(k);
    assert DigitsValue("3") == 3;
  }

  /** The quadratic test on an int list of length 2^n: it answers only when
      every entry is an n-bit word. */
  method QuadraticOrFalse(tt: seq<nat>, n: nat) returns (quadratic: bool)
    ensures quadratic <==> |tt| == Pow2(n) && (forall x :: 0 <= x < |tt| ==> tt[x] < Pow2(n))
                           && AlgebraicDegree(tt, n) <= 2
  {
    var items := PyInts(tt);
    var r := IsQuadraticApn(PySequence(items), n);
    // `except Exception`: a raised error sets False.
    quadratic := r.Ok? && r.value;
    if |tt| == Pow2(n) && FirstBadEntry(items, n, Pow2(n)).None? {
      assert Outputs(items) == tt;
    }
  }

  /** `compute_apn_properties(apn)` as written: nothing without a
      polynomial; AttributeError at the first write (step 3), with nothing
      written, when the object has no `properties` attribute, which is the
      case for every object `APN(...)`, `from_representation` or the parser
      builds; otherwise the seven entries of `PolynomialProperties` are
      written into `properties` and every other entry is kept. */
  method ComputeApnProperties(apn: Apn, lib: GaloisLib, polyDegree: nat, canonical: bool)
    returns (r: Result<Option<Properties>>)
    modifies apn`properties
    ensures !apn.representation.PolyRepr? ==> r == Ok(None) && apn.properties == old(apn.properties)
    ensures apn.representation.PolyRepr? && old(apn.properties).None? ==>
      r == Err(NoProperties) && apn.properties.None?
    ensures apn.representation.PolyRepr? && old(apn.properties).Some? ==>
      && r.Ok? && r.value.Some?
      && Describes(r.value.value, TableOf(apn.representation, apn.fieldN, apn.irrPoly, lib), apn.fieldN, polyDegree,
                   |apn.representation.poly.univariatePolynomial|,
                   Uniformity(TableOf(apn.representation, apn.fieldN, apn.irrPoly, lib), apn.fieldN) == 2, canonical)
      && apn.properties == Some(WithProperties(old(apn.properties).value, r.value.value))
  {
    if !apn.representation.PolyRepr? {
      return Ok(None);
    }
    if apn.properties.None? {
      return Err(NoProperties);
    }
    var props := PolynomialProperties(apn, lib, polyDegree, canonical);
    apn.properties := Some(WithProperties(apn.properties.value, props.value));
    return Ok(props);
  }

  /** The seven entries, written over whatever `properties` held. */
  function WithProperties(d: map<string, InvValue>, p: Properties): map<string, InvValue>
  {
    d["algebraic_degree" := IntV(p.algebraicDegree)]["number_of_terms" := IntV(p.numberOfTerms)]
     ["is_monomial" := BoolV(p.isMonomial)]["is_apn" := BoolV(p.isApn)]["is_quadratic" := BoolV(p.isQuadratic)]
     ["k_to_1" := TextV(p.kToOne)]["uniformly_distributed" := BoolV(p.uniformlyDistributed)]
  }

  /** The values steps 3 to 9 compute: nothing without a polynomial;
      otherwise the degree given, the number of terms, a single term as the
      monomial test, uniformity 2 of the function's table as the APN test,
      the quadratic test (False where it raises), the "k_to_1" text, and the
      triplicate answer only for "3-to-1". The computer holds
      `BasicDUMethod` alone, so `compute_du` raises no ValueError, and the
      table converted from a polynomial has 2^n entries, so `compute` raises
      no IndexError. */
  method PolynomialProperties(apn: Apn, lib: GaloisLib, polyDegree: nat, canonical: bool)
    returns (props: Option<Properties>)
    ensures props.None? <==> !apn.representation.PolyRepr?
    ensures props.Some? ==>
      var tt := TableOf(apn.representation, apn.fieldN, apn.irrPoly, lib);
      && |tt| == Pow2(apn.fieldN)
      && Describes(props.value, tt, apn.fieldN, polyDegree, |apn.representation.poly.univariatePolynomial|,
                   Uniformity(tt, apn.fieldN) == 2, canonical)
  {
    if !apn.representation.PolyRepr? {
      return None;
    }
    var numberOfTerms := |apn.representation.poly.univariatePolynomial|;
    var computer := new DifferentialUniformityComputer(None);
    var du := computer.ComputeDu(apn, lib);
    ghost var table := TableOf(apn.representation, apn.fieldN, apn.irrPoly, lib);
    PolynomialTableComputes(apn, lib);
    assert du == Ok(Uniformity(table, apn.fieldN));
    var tt := apn.GetTruthTableList(lib);
    assert tt == table;
    var p := TableProperties(tt, apn.fieldN, polyDegree, numberOfTerms, du == Ok(2), canonical);
    return Some(p);
  }

  /** A parsed input, as `store_apn_pandas` and `add-input` hand it to
      `compute_apn_properties`: the parser's ValueError for a field size of
      at most 1, and the AttributeError for every other input. */
  method ParsedApnRaises(univariatePolynomial: seq<Term>, fieldN: int, irrPoly: string, lib: GaloisLib,
                         polyDegree: nat, canonical: bool)
    returns (r: Result<Option<Properties>>)
    ensures r.Err?
    ensures fieldN > 1 ==> r == Err(NoProperties)
  {
    var parsed := ParseUnivariatePolynomial(univariatePolynomial, fieldN, irrPoly, lib);
    if parsed.Err? {
      return Err(parsed.error);
    }
    r := ComputeApnProperties(parsed.value, lib, polyDegree, canonical);
  }

  /** With `properties` set to `{}` by the constructor, the computation
      succeeds on every polynomial and writes exactly the seven entries. */
  method InitializedApnComputes(univariatePolynomial: seq<Term>, fieldN: nat, irrPoly: string, lib: GaloisLib,
                                polyDegree: nat, canonical: bool)
    returns (apn: Apn, r: Result<Option<Properties>>)
    ensures r.Ok? && r.value.Some?
    ensures apn.representation.PolyRepr? && apn.representation.poly.univariatePolynomial == univariatePolynomial
    ensures Describes(r.value.value, TableOf(apn.representation, fieldN, irrPoly, lib), fieldN, polyDegree,
                      |univariatePolynomial|, Uniformity(TableOf(apn.representation, fieldN, irrPoly, lib), fieldN) == 2,
                      canonical)
    ensures apn.properties == Some(WithProperties(map[], r.value.value))
  {
    apn := new Apn.WithEmptyProperties(univariatePolynomial, fieldN, irrPoly);
    r := ComputeApnProperties(apn, lib, polyDegree, canonical);
  }

  /** The entries written for a table tt over n bits: the degree given, the
      number of terms, a single term as the monomial test, the APN answer,
      the quadratic test (False where it raises), the "k_to_1" text, and the
      triplicate answer only for "3-to-1". */
  ghost predicate Describes(p: Properties, tt: seq<nat>, n: nat, polyDegree: nat, numberOfTerms: nat,
                            isApn: bool, canonical: bool)
  {
    && p.algebraicDegree == polyDegree && p.numberOfTerms == numberOfTerms
    && (p.isMonomial <==> numberOfTerms == 1)
    && p.isApn == isApn
    && (p.isQuadratic <==> |tt| == Pow2(n) && (forall x :: 0 <= x < |tt| ==> tt[x] < Pow2(n))
                           && AlgebraicDegree(tt, n) <= 2)
    && p.kToOne == KToOneLabel(tt)
    && (p.uniformlyDistributed <==> UniformNonzero(tt, 3) && canonical)
  }

  /** Steps 3 to 9 once the table, the number of terms and the APN answer
      are known. */
  method TableProperties(tt: seq<nat>, n: nat, polyDegree: nat, numberOfTerms: nat, isApn: bool,
                         canonical: bool) returns (p: Properties)
    ensures Describes(p, tt, n, polyDegree, numberOfTerms, isApn, canonical)
  {
    var isQuadratic := QuadraticOrFalse(tt, n);
    var kToOne := KToOneLabel(tt);
    var uniformlyDistributed := false;
    ThreeToOneLabel(tt);
    if kToOne == "3-to-1" {
      uniformlyDistributed := canonical;
    }
    return Properties(polyDegree, numberOfTerms, numberOfTerms == 1, isApn,
                      isQuadratic, kToOne, uniformlyDistributed);
  }
}
