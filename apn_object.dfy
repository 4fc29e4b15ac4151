/** `apn_object.py`: an APN function held as a representation (a truth
    table or a univariate polynomial) together with its field size, its
    reduction polynomial text and its dictionary of invariants. */
module ApnObject {
  import opened Bits
  import opened Outcomes
  import opened Terms
  import opened Representations
  import opened Dicts

  /** The values the invariant dictionary holds. */
  datatype InvValue =
    | BoolV(b: bool)
    | IntV(i: int)
    | TextV(s: string)
    | CountsV(counts: map<int, int>)
    | NoneV

  /** `d.get(k, default)`. */
  function GetOr(d: map<string, InvValue>, k: string, default: InvValue): (r: InvValue)
    ensures k in d ==> r == d[k]
    ensures k !in d ==> r == default
  {
    if k in d then d[k] else default
  }

  /** Python truthiness of a stored value: `bool(v)`. */
  predicate Truthy(v: InvValue)
  {
    match v
    case BoolV(b) => b
    case IntV(i) => i != 0
    case TextV(s) => s != ""
    case CountsV(c) => c != map[]
    case NoneV => false
  }

  /** The error reading or writing `apn.properties` raises on an object
      without the attribute. */
  const NoProperties: string := "AttributeError: 'APN' object has no attribute 'properties'"

  /** A representation object. */
  datatype Repr =
    | TableRepr(table: TruthTableRepresentation)
    | PolyRepr(poly: UnivariatePolynomialRepresentation)

  /** An argument that may or may not be a `Representation`. */
  datatype ReprArg = IsRepr(repr: Repr) | NotRepr

  /** The truth table a representation stands for: the stored list, or the
      polynomial's value at every field element. */
  ghost function TableOf(r: Repr, n: nat, irr: string, lib: GaloisLib): seq<nat>
    reads if r.PolyRepr? then {r.poly} else {}
  {
    match r
    case TableRepr(t) => t.truthTable
    case PolyRepr(p) =>
      seq(Pow2(n), x requires 0 <= x < Pow2(n) reads p =>
        PolyValue(p.univariatePolynomial, x, lib.Generator(n, TextPoly(irr)), n, lib.FieldPoly(n, TextPoly(irr))))
  }

  class Apn {
    var representation: Repr
    var fieldN: nat
    var irrPoly: string
    var invariants: Dict<InvValue>
    /** The `properties` attribute: `None` while the object has none. Neither
        `__init__` nor `from_representation` creates it; only the loaders of
        the JSON files assign it. */
    var properties: Option<map<string, InvValue>>

    /** `APN(univariate_polynomial, field_n, irr_poly)`: the term list in a
        new polynomial representation, no invariants and no `properties`
        attribute. */
    constructor (univariatePolynomial: seq<Term>, fieldN: nat, irrPoly: string)
      ensures representation.PolyRepr? && fresh(representation.poly)
      ensures representation.poly.univariatePolynomial == univariatePolynomial
      ensures this.fieldN == fieldN && this.irrPoly == irrPoly
      ensures invariants == Empty() && properties.None?
    {
      var rep := new UnivariatePolynomialRepresentation(univariatePolynomial);
      representation := PolyRepr(rep);
      this.fieldN := fieldN;
      this.irrPoly := irrPoly;
      invariants := Empty();
      properties := None;
    }

    /** The same constructor with `self.properties = {}` added, which every
        reader of `properties` takes for granted. */
    constructor WithEmptyProperties(univariatePolynomial: seq<Term>, fieldN: nat, irrPoly: string)
      ensures representation.PolyRepr? && fresh(representation.poly)
      ensures representation.poly.univariatePolynomial == univariatePolynomial
      ensures this.fieldN == fieldN && this.irrPoly == irrPoly
      ensures invariants == Empty() && properties == Some(map[])
    {
      var rep := new UnivariatePolynomialRepresentation(univariatePolynomial);
      representation := PolyRepr(rep);
      this.fieldN := fieldN;
      this.irrPoly := irrPoly;
      invariants := Empty();
      properties := Some(map[]);
    }

    /** The object `from_representation` builds without `__init__`. */
    constructor FromFields(representation: Repr, fieldN: nat, irrPoly: string)
      ensures this.representation == representation
      ensures this.fieldN == fieldN && this.irrPoly == irrPoly
      ensures invariants == Empty() && properties.None?
    {
      this.representation := representation;
      this.fieldN := fieldN;
      this.irrPoly := irrPoly;
      invariants := Empty();
      properties := None;
    }

    /** What `load_input_apns` and `load_match_list` do to a parsed object:
        `properties` and `invariants` from the file, `{}` when absent. */
    method SetLoaded(properties: Option<map<string, InvValue>>, invariants: Option<Dict<InvValue>>)
      modifies this
      ensures this.properties == Some(if properties.Some? then properties.value else map[])
      ensures this.invariants == (if invariants.Some? then invariants.value else Empty())
      ensures representation == old(representation) && fieldN == old(fieldN) && irrPoly == old(irrPoly)
    {
      this.properties := Some(if properties.Some? then properties.value else map[]);
      this.invariants := if invariants.Some? then invariants.value else Empty();
    }

    /** `APN.from_representation`: TypeError for anything that is not a
        representation; otherwise a new object with the three fields set and
        no invariants. */
    static method FromRepresentation(arg: ReprArg, fieldN: nat, irrPoly: string) returns (r: Result<Apn>)
      ensures r.Err? <==> arg.NotRepr?
      ensures r.Ok? ==>
        && fresh(r.value) && r.value.representation == arg.repr
        && r.value.fieldN == fieldN && r.value.irrPoly == irrPoly && r.value.invariants == Empty()
        && r.value.properties.None?
    {
      if arg.NotRepr? {
        return Err("TypeError: representation must be an instance of Representation");
      }
      var apn := new Apn.FromFields(arg.repr, fieldN, irrPoly);
      return Ok(apn);
    }

    /** `_get_truth_table_list`: the stored list of a truth-table
        representation, else a fresh conversion that is not kept. */
    method GetTruthTableList(lib: GaloisLib) returns (tt: seq<nat>)
      ensures tt == TableOf(representation, fieldN, irrPoly, lib)
      ensures representation.PolyRepr? ==> |tt| == Pow2(fieldN)
    {
      match representation
      case TableRepr(t) =>
        tt := t.truthTable;
      case PolyRepr(p) =>
        var converted := p.ToTruthTable(fieldN, TextPoly(irrPoly), lib);
        tt := converted.truthTable;
    }

    /** `get_truth_table`: a new object over the truth table of this one,
        with the same field and polynomial; this one is not changed. */
    method GetTruthTable(lib: GaloisLib) returns (r: Apn)
      ensures fresh(r)
      ensures r.representation.TableRepr?
      ensures TableOf(r.representation, r.fieldN, r.irrPoly, lib) == TableOf(representation, fieldN, irrPoly, lib)
      ensures r.fieldN == fieldN && r.irrPoly == irrPoly && r.invariants == Empty() && r.properties.None?
    {
      var tableRepr: TruthTableRepresentation;
      if representation.TableRepr? {
        tableRepr := representation.table.ToTruthTable();
      } else {
        tableRepr := representation.poly.ToTruthTable(fieldN, TextPoly(irrPoly), lib);
      }
      var made := FromRepresentation(IsRepr(TableRepr(tableRepr)), fieldN, irrPoly);
      r := made.value;
    }
  }
}
