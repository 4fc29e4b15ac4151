/** `vbf_object.py`: a vectorial Boolean function held as a univariate
    polynomial representation, a cached truth table, its field size, its
    reduction polynomial text and its dictionary of invariants. The text
    kept is the user's only when it reads as a polynomial that `galois`
    accepts for GF(2^n); otherwise it is the default polynomial's text,
    or "" when n has none. */
module VbfObject {
  import opened Bits
  import opened Outcomes
  import opened Text
  import opened Terms
  import opened PolyText
  import opened Representations
  import opened Dicts
  import opened ApnObject

  /** How `galois.GF(2**field_n, irreducible_poly=bits)` ends: it accepts
      the polynomial, or raises an exception of some kind with some text. */
  datatype FieldCheck = Accepted | Raised(isValueError: bool, message: string)

  /** `sub in s` for texts. */
  predicate Contains(s: string, sub: string)
  {
    exists i :: 0 <= i <= |s| - |sub| && OccursAt(s, sub, i)
  }

  predicate OccursAt(s: string, sub: string, i: int)
    requires 0 <= i <= |s| - |sub|
  {
    s[i..i + |sub|] == sub
  }

  /** The complaint the constructor recovers from: a ValueError saying,
      in any case, that the polynomial "is reducible". */
  predicate SaysReducible(check: FieldCheck)
  {
    check.Raised? && check.isValueError && Contains(Lower(check.message), "is reducible")
  }

  /** The fallback text: the default polynomial for n written out, or ""
      when there is none (an absent entry reads as 0). */
  function FallbackStr(fieldN: nat, defaults: map<nat, nat>): string
  {
    var fallbackBits := if fieldN in defaults then defaults[fieldN] else 0;
    if fallbackBits != 0 then BitmaskToPolyStr(fallbackBits) else ""
  }

  /** The polynomial text the constructor keeps, or the error it lets
      through. */
  function KeptIrrPoly(irrPoly: string, fieldN: nat, defaults: map<nat, nat>, check: FieldCheck): Result<string>
  {
    if irrPoly == "" || ParsePolyStr(irrPoly) == 0 then Ok(FallbackStr(fieldN, defaults))
    else if check.Accepted? then Ok(irrPoly)
    else if SaysReducible(check) then Ok(FallbackStr(fieldN, defaults))
    else Err(check.message)
  }

  /** Every default polynomial is non-zero and fits the text reader. */
  predicate DefaultsReadable(defaults: map<nat, nat>)
  {
    forall n :: n in defaults ==> 0 < defaults[n] && BitLength(defaults[n]) <= MaxExp + 1
  }

  /** The fallback text reads back as the default polynomial. */
  lemma FallbackReadsBack(fieldN: nat, defaults: map<nat, nat>)
    requires DefaultsReadable(defaults)
    ensures fieldN in defaults ==> ParsePolyStr(FallbackStr(fieldN, defaults)) == defaults[fieldN]
    ensures fieldN !in defaults ==> FallbackStr(fieldN, defaults) == ""
  {
    if fieldN in defaults {
      WriteThenRead(defaults[fieldN]);
    }
  }

  /** The kept text is the user's text verbatim or the fallback, and it
      always reads as a polynomial unless it is "" for want of a default.
      The user's text survives exactly when it reads and `galois` accepts it. */
  lemma KeptIrrPolyReadable(irrPoly: string, fieldN: nat, defaults: map<nat, nat>, check: FieldCheck)
    requires DefaultsReadable(defaults)
    ensures var r := KeptIrrPoly(irrPoly, fieldN, defaults, check);
      && (r.Err? <==> irrPoly != "" && ParsePolyStr(irrPoly) != 0 && !check.Accepted? && !SaysReducible(check))
      && (r.Ok? ==> r.value == irrPoly || r.value == FallbackStr(fieldN, defaults))
      && (r.Ok? && r.value != "" ==> ParsePolyStr(r.value) != 0)
      && (r.Ok? && r.value == "" ==> fieldN !in defaults)
  {
    FallbackReadsBack(fieldN, defaults);
    if fieldN in defaults {
      assert FallbackStr(fieldN, defaults) != "";
    }
  }

  /** The truth table a polynomial representation stands for, in the field
      its text selects. */
  ghost function PolyTable(rep: UnivariatePolynomialRepresentation, fieldN: nat, irrPoly: string, lib: GaloisLib): seq<nat>
    reads rep
  {
    TableOf(PolyRepr(rep), fieldN, irrPoly, lib)
  }

  class Vbf {
    var irrPoly: string
    var fieldN: nat
    var invariants: Dict<InvValue>
    var cachedTtList: seq<nat>
    var representation: UnivariatePolynomialRepresentation?

    /** The object `__init__` builds once the polynomial text is settled:
        no invariants, no cached table, and a representation only for a
        non-empty term list. */
    constructor FromFields(uniPolyData: seq<Term>, fieldN: nat, irrPoly: string)
      ensures this.irrPoly == irrPoly && this.fieldN == fieldN
      ensures invariants == Empty() && cachedTtList == []
      ensures |uniPolyData| == 0 ==> representation == null
      ensures |uniPolyData| > 0 ==>
        representation != null && fresh(representation) && representation.univariatePolynomial == uniPolyData
    {
      this.irrPoly := irrPoly;
      this.fieldN := fieldN;
      invariants := Empty();
      cachedTtList := [];
      if |uniPolyData| > 0 {
        var rep := new UnivariatePolynomialRepresentation(uniPolyData);
        representation := rep;
      } else {
        representation := null;
      }
    }

    /** `VBF(uni_poly_data, field_n, irr_poly)`, with the outcome of the
        `galois` check and the table of default polynomials as parameters. */
    static method Create(uniPolyData: seq<Term>, fieldN: nat, irrPoly: string, defaults: map<nat, nat>,
                         check: FieldCheck) returns (r: Result<Vbf>)
      ensures r.Err? <==> KeptIrrPoly(irrPoly, fieldN, defaults, check).Err?
      ensures r.Ok? ==>
        && fresh(r.value) && r.value.irrPoly == KeptIrrPoly(irrPoly, fieldN, defaults, check).value
        && r.value.fieldN == fieldN && r.value.invariants == Empty() && r.value.cachedTtList == []
        && (|uniPolyData| == 0 <==> r.value.representation == null)
        && (r.value.representation != null ==>
              fresh(r.value.representation) && r.value.representation.univariatePolynomial == uniPolyData)
    {
      var chosen: string;
      if irrPoly == "" {
        chosen := FallbackStr(fieldN, defaults);
      } else {
        var bits := ParseIrreduciblePolyStr(irrPoly);
        if bits == 0 {
          chosen := FallbackStr(fieldN, defaults);
        } else if check.Accepted? {
          chosen := irrPoly;
        } else if SaysReducible(check) {
          chosen := FallbackStr(fieldN, defaults);
        } else {
          return Err(check.message);
        }
      }
      var v := new Vbf.FromFields(uniPolyData, fieldN, chosen);
      return Ok(v);
    }

    /** `VBF.from_representation`. A truth table is handed to its
        `to_univariate_polynomial(field_n, irr_poly)`, which takes no such
        arguments and raises in any case, so that path always fails. A
        polynomial builds a new object from its term list, with the
        fallback text chosen first when no text is given. */
    static method FromRepresentation(rep: ReprArg, fieldN: nat, irrPoly: string, defaults: map<nat, nat>,
                                     check: FieldCheck) returns (r: Result<Vbf>)
      ensures !(rep.IsRepr? && rep.repr.PolyRepr?) ==> r.Err?
      ensures rep.IsRepr? && rep.repr.PolyRepr? ==>
        var finalIrr := if irrPoly == "" then DetermineIrrPolyStr(fieldN, irrPoly, defaults) else irrPoly;
        && (r.Err? <==> KeptIrrPoly(finalIrr, fieldN, defaults, check).Err?)
        && (r.Ok? ==>
              && fresh(r.value) && r.value.irrPoly == KeptIrrPoly(finalIrr, fieldN, defaults, check).value
              && r.value.fieldN == fieldN && r.value.cachedTtList == []
              && (r.value.representation != null ==>
                    r.value.representation.univariatePolynomial == rep.repr.poly.univariatePolynomial))
    {
      if rep.NotRepr? {
        return Err("ValueError: Unrecognized representation type");
      }
      match rep.repr
      case TableRepr(t) =>
        var converted := t.ToUnivariatePolynomial();
        return Err(converted.error);
      case PolyRepr(p) =>
        var finalIrrStr := irrPoly;
        if irrPoly == "" {
          finalIrrStr := DetermineIrrPolyStr(fieldN, irrPoly, defaults);
        }
        r := Create(p.univariatePolynomial, fieldN, finalIrrStr, defaults, check);
    }

    /** `VBF.from_cached_tt`: goes through the truth-table path of
        `from_representation`, so it always fails. */
    static method FromCachedTt(ttList: seq<nat>, fieldN: nat, irrPoly: string, defaults: map<nat, nat>,
                               check: FieldCheck) returns (r: Result<Vbf>)
      ensures r.Err?
    {
      var ttRep := TruthTableRepresentation(ttList);
      r := FromRepresentation(IsRepr(TableRepr(ttRep)), fieldN, irrPoly, defaults, check);
    }

    /** `_get_truth_table_list`: a non-empty cache is returned as it is;
        otherwise the representation is converted once and the result kept;
        with neither, ValueError. */
    method GetTruthTableList(lib: GaloisLib) returns (r: Result<seq<nat>>)
      modifies this`cachedTtList
      ensures old(cachedTtList) != [] ==> r == Ok(old(cachedTtList)) && cachedTtList == old(cachedTtList)
      ensures old(cachedTtList) == [] && representation == null ==> r.Err? && cachedTtList == []
      ensures old(cachedTtList) == [] && representation != null ==>
        && cachedTtList == PolyTable(representation, fieldN, irrPoly, lib)
        && |cachedTtList| == Pow2(fieldN) && r == Ok(cachedTtList)
      ensures r.Ok? ==> cachedTtList != [] && r.value == cachedTtList
    {
      if cachedTtList != [] {
        return Ok(cachedTtList);
      }
      if representation == null {
        return Err("ValueError: VBF has no representation to build a truth table.");
      }
      var ttRep := representation.ToTruthTable(fieldN, TextPoly(irrPoly), lib);
      cachedTtList := ttRep.truthTable;
      return Ok(cachedTtList);
    }

    /** `get_truth_table`: the same filling of the cache, the table wrapped
        in a truth-table representation. */
    method GetTruthTable(lib: GaloisLib) returns (r: Result<TruthTableRepresentation>)
      modifies this`cachedTtList
      ensures old(cachedTtList) != [] ==> r == Ok(TruthTableRepresentation(old(cachedTtList))) && cachedTtList == old(cachedTtList)
      ensures old(cachedTtList) == [] && representation == null ==> r.Err? && cachedTtList == []
      ensures old(cachedTtList) == [] && representation != null ==>
        && cachedTtList == PolyTable(representation, fieldN, irrPoly, lib)
        && |cachedTtList| == Pow2(fieldN) && r == Ok(TruthTableRepresentation(cachedTtList))
      ensures r.Ok? ==> cachedTtList != [] && r.value.truthTable == cachedTtList
    {
      if cachedTtList == [] {
        if representation == null {
          return Err("ValueError: VBF has no representation or cached TT to build from.");
        }
        var ttRep := representation.ToTruthTable(fieldN, TextPoly(irrPoly), lib);
        cachedTtList := ttRep.truthTable;
      }
      return Ok(TruthTableRepresentation(cachedTtList));
    }

    /** The `representation` getter: the stored representation; without
        one, the cached table would be converted, but that conversion
        raises, and with no cache either it is ValueError. */
    method GetRepresentation() returns (r: Result<UnivariatePolynomialRepresentation>)
      ensures r.Ok? <==> representation != null
      ensures r.Ok? ==> r.value == representation
    {
      if representation == null {
        if cachedTtList != [] {
          var rep := TruthTableRepresentation(cachedTtList);
          var polyRep := rep.ToUnivariatePolynomial();
          return Err(polyRep.error);
        }
        return Err("ValueError: No representation or cached truth table available.");
      }
      return Ok(representation);
    }

    /** The `representation` setter: a polynomial is stored, and an empty
        polynomial text is replaced by the fallback; a truth table fails in
        its conversion and anything else is ValueError, changing nothing. */
    method SetRepresentation(newRep: ReprArg, defaults: map<nat, nat>) returns (r: Result<()>)
      modifies this`representation, this`irrPoly
      ensures r.Ok? <==> newRep.IsRepr? && newRep.repr.PolyRepr?
      ensures r.Err? ==> representation == old(representation) && irrPoly == old(irrPoly)
      ensures r.Ok? ==> representation == newRep.repr.poly
      ensures r.Ok? ==> irrPoly == if old(irrPoly) == "" then DetermineIrrPolyStr(fieldN, "", defaults) else old(irrPoly)
    {
      if newRep.NotRepr? {
        return Err("ValueError: Unrecognized representation type");
      }
      match newRep.repr
      case TableRepr(t) =>
        var polyRep := t.ToUnivariatePolynomial();
        return Err(polyRep.error);
      case PolyRepr(p) =>
        representation := p;
        if irrPoly == "" {
          irrPoly := DetermineIrrPolyStr(fieldN, "", defaults);
        }
        return Ok(());
    }
  }

  /** A polynomial given without a text, for an n that has a default, ends
      with the default polynomial's text when `galois` accepts it. */
  lemma FromPolyWithoutText(fieldN: nat, defaults: map<nat, nat>)
    requires DefaultsReadable(defaults) && fieldN in defaults
    ensures var finalIrr := DetermineIrrPolyStr(fieldN, "", defaults);
      && KeptIrrPoly(finalIrr, fieldN, defaults, Accepted) == Ok(BitmaskToPolyStr(defaults[fieldN]))
      && ParsePolyStr(KeptIrrPoly(finalIrr, fieldN, defaults, Accepted).value) == defaults[fieldN]
  {
    assert ParsePolyStr("") == 0;
    FallbackReadsBack(fieldN, defaults);
  }

  /** Without a text and without a default, the object ends with no text:
      the "0" chosen first does not read as a polynomial. */
  lemma FromPolyWithoutDefault(fieldN: nat, defaults: map<nat, nat>, check: FieldCheck)
    requires fieldN !in defaults
    ensures KeptIrrPoly(DetermineIrrPolyStr(fieldN, "", defaults), fieldN, defaults, check) == Ok("")
  {
    assert ParsePolyStr("") == 0;
    ZeroTextUnreadable("0");
  }

  /** The text "0" is no polynomial: its one token is not a term. */
  lemma ZeroTextUnreadable(s: string)
    requires s == "0"
    ensures ParsePolyStr(s) == 0
  {
    assert Split(s, '+') == [s] by {
      assert Find(s, '+') == -1;
    }
    StripPadded("", s, "", Whitespace);
    assert "" + s + "" == s;
    assert StripEach([s]) == [s];
    assert Lower(s) == s;
    assert LowerEach([s]) == [s];
    assert Tokens(s) == [s];
    assert TokenExp(s) == None;
  }
}
