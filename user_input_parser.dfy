/** `user_input_parser.py`: `PolynomialParser.parse_univariate_polynomial`
    turns a term list, a field size and a reduction polynomial text into an
    APN object. A blank text is replaced by the text of the polynomial
    `galois.GF(2**n)` picks by default. */
module UserInputParser {
  import opened Bits
  import opened Outcomes
  import opened Text
  import opened Terms
  import opened PolyText
  import opened Representations
  import opened Dicts
  import opened ApnObject

  /** `str(galois.GF(2**n).irreducible_poly)`: the library's default
      polynomial written as "x^k + ... + x + 1". */
  function DefaultIrrText(n: nat, lib: GaloisLib): string
  {
    BitmaskToPolyStr(lib.defaultPoly(n))
  }

  /** The polynomial text the parsed object keeps. */
  function ParsedIrr(n: nat, irrPoly: string, lib: GaloisLib): (irr: string)
    ensures Strip(irrPoly) != "" ==> irr == irrPoly
    ensures Strip(irrPoly) == "" ==> irr == DefaultIrrText(n, lib)
  {
    if Strip(irrPoly) == "" then DefaultIrrText(n, lib) else irrPoly
  }

  /** `parse_univariate_polynomial`: ValueError for a field size of at most
      1; otherwise a fresh APN over the terms, with the text kept or, when
      blank, the library default's text, and no `properties` attribute. */
  method ParseUnivariatePolynomial(univariatePolynomial: seq<Term>, fieldN: int, irrPoly: string, lib: GaloisLib)
    returns (r: Result<Apn>)
    ensures r.Err? <==> fieldN <= 1
    ensures r.Ok? ==>
      && fresh(r.value) && r.value.representation.PolyRepr? && fresh(r.value.representation.poly)
      && r.value.representation.poly.univariatePolynomial == univariatePolynomial
      && r.value.fieldN == fieldN && r.value.irrPoly == ParsedIrr(fieldN, irrPoly, lib)
      && r.value.invariants == Empty() && r.value.properties.None?
  {
    if fieldN <= 1 {
      return Err("ValueError: Field degree must be greater than 1.");
    }
    var irr := irrPoly;
    if Strip(irrPoly) == "" {
      irr := DefaultIrrText(fieldN, lib);
    }
    var apn := new Apn(univariatePolynomial, fieldN, irr);
    return Ok(apn);
  }

  /** A blank text is replaced by a text that reads back as the library's
      default polynomial, whenever that polynomial is not 0. */
  lemma BlankReadsAsDefault(n: nat, irrPoly: string, lib: GaloisLib)
    requires Strip(irrPoly) == "" && 0 < lib.defaultPoly(n) && BitLength(lib.defaultPoly(n)) <= MaxExp + 1
    ensures ParsePolyStr(ParsedIrr(n, irrPoly, lib)) == lib.defaultPoly(n)
  {
    WriteThenRead(lib.defaultPoly(n));
  }
}
