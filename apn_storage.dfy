/** `apn_storage_pandas.py`: one Parquet table of APN functions per field
    size, keyed for duplicates by (field size, polynomial text, sorted term
    list), and the reconstruction of APN objects from its rows. A table is a
    sequence of rows; the computations that fill a row (parsing, truth
    table, properties, ranks, spectra) are given as their outcomes. */
module ApnStorage {
  import opened Outcomes
  import opened Text
  import opened Terms
  import opened Dicts
  import opened ApnObject
  import opened Representations
  import opened UserInputParser
  import opened ApnProperties

  /** `get_parquet_filename(n)`. */
  function ParquetFilename(n: int): string
  {
    "apn_data_" + IntToString(n) + ".parquet"
  }

  /** Different field sizes are stored in different files. */
  lemma ParquetFilenameInjective(n1: int, n2: int)
    requires ParquetFilename(n1) == ParquetFilename(n2)
    ensures n1 == n2
  {
    var f := ParquetFilename(n1);
    assert IntToString(n1) == f[9..|f| - 8] == IntToString(n2);
    IntToStringInjective(n1, n2);
  }

  /** `poly_to_key(poly)`: the term list sorted by (coeff_exp, mon_exp).
      The JSON text it is then written as is left out; the key is the list. */
  function PolyToKey(poly: seq<Term>): (key: seq<Term>)
    ensures SortedTerms(key) && multiset(key) == multiset(poly)
  {
    SortByKey(poly)
  }

  /** Two term lists share a key exactly when they hold the same terms. */
  lemma PolyToKeyIffPermutation(a: seq<Term>, b: seq<Term>)
    ensures PolyToKey(a) == PolyToKey(b) <==> multiset(a) == multiset(b)
  {
    SortByKeyIffPermutation(a, b);
  }

  /** An `odds_str` / `odws_str` cell as the loader reads it: the text
      "Non-quadratic", a JSON object, a missing value, or text that is not
      JSON. */
  datatype SpectrumCell =
    | NonQuadraticText
    | Json(counts: map<int, int>)
    | NullCell
    | Unreadable

  /** A row of the APN table. `poly` is `None` when the cell is not a JSON
      term list. */
  datatype ApnRow = ApnRow(fieldN: int, irrPoly: string, polyKey: seq<Term>, poly: Option<seq<Term>>,
                           oddsStr: SpectrumCell, odwsStr: SpectrumCell,
                           gammaRank: Option<int>, deltaRank: Option<int>, citation: Option<string>)

  /** What a store that gets past `compute_apn_properties` learns before it
      builds the row: whether the polynomial converted to a truth table, the
      properties, the two ranks (`None` when the computation raised) and
      the two spectra (`None` when the computation raised). */
  datatype Computations = Computations(truthTableOk: bool, properties: map<string, InvValue>,
                                       gammaRank: Option<int>, deltaRank: Option<int>,
                                       odds: Option<map<int, int>>, odws: Option<map<int, int>>)

  /** Steps 1 to 3: parsed (a field size above 1), converted, and `is_apn`
      holds. */
  predicate Storable(fieldN: int, c: Computations)
  {
    fieldN > 1 && c.truthTableOk && Truthy(GetOr(c.properties, "is_apn", BoolV(false)))
  }

  /** Step 4: the `is_quadratic` property, false when missing. */
  predicate IsQuadratic(c: Computations)
  {
    Truthy(GetOr(c.properties, "is_quadratic", BoolV(false)))
  }

  /** A spectrum column: the spectrum (an empty one when its computation
      raised) for a quadratic function, "Non-quadratic" otherwise. */
  function SpectrumCellOf(quadratic: bool, spectrum: Option<map<int, int>>): SpectrumCell
  {
    if !quadratic then NonQuadraticText
    else if spectrum.Some? then Json(spectrum.value)
    else Json(map[])
  }

  /** Step 7: the new row. */
  function ApnRowOf(poly: seq<Term>, fieldN: int, irr: string, citation: string, c: Computations): ApnRow
  {
    var q := IsQuadratic(c);
    ApnRow(fieldN, irr, PolyToKey(poly), Some(poly), SpectrumCellOf(q, c.odds), SpectrumCellOf(q, c.odws),
      c.gammaRank, c.deltaRank, Some(citation))
  }

  /** A row with this (field_n, irr_poly, poly_key). */
  predicate SameKey(row: ApnRow, fieldN: int, irr: string, key: seq<Term>)
  {
    row.fieldN == fieldN && row.irrPoly == irr && row.polyKey == key
  }

  /** Step 9's mask selects some row. */
  predicate KeyTaken(rows: seq<ApnRow>, fieldN: int, irr: string, key: seq<Term>)
  {
    exists i :: 0 <= i < |rows| && SameKey(rows[i], fieldN, irr, key)
  }

  /** Step 9: the duplicate mask, row by row. */
  method AnyWithKey(rows: seq<ApnRow>, fieldN: int, irr: string, key: seq<Term>) returns (found: bool)
    ensures found <==> KeyTaken(rows, fieldN, irr, key)
  {
    for i := 0 to |rows|
      invariant forall j :: 0 <= j < i ==> !SameKey(rows[j], fieldN, irr, key)
    {
      if SameKey(rows[i], fieldN, irr, key) {
        return true;
      }
    }
    return false;
  }

  /** No two rows of a table share a key. */
  predicate KeysDistinct(rows: seq<ApnRow>)
  {
    forall i, j :: 0 <= i < j < |rows| ==> !SameKey(rows[i], rows[j].fieldN, rows[j].irrPoly, rows[j].polyKey)
  }

  /** The Parquet files, by name. */
  class ApnDatabase {
    var files: map<string, seq<ApnRow>>

    constructor ()
      ensures files == map[]
    {
      files := map[];
    }

    /** `load_apn_df_for_field`: a missing file reads as an empty table. */
    function Rows(name: string): seq<ApnRow>
      reads this
    {
      if name in files then files[name] else []
    }

    /** `store_apn_pandas` as written: the parser's error is printed and
        nothing is stored (`Ok(false)`) for a field size of at most 1; for
        every other input the parsed object has no `properties` attribute,
        so `compute_apn_properties` raises AttributeError before any row is
        built. No file is touched either way (the method modifies nothing). */
    method StoreApn(poly: seq<Term>, fieldN: int, irr: string, citation: string, lib: GaloisLib,
                    polyDegree: nat, canonical: bool)
      returns (r: Result<bool>)
      ensures r.Ok? <==> fieldN <= 1
      ensures r.Ok? ==> !r.value
      ensures r.Err? ==> r.error == NoProperties
    {
      var parsed := ParseUnivariatePolynomial(poly, fieldN, irr, lib);
      if parsed.Err? {
        return Ok(false);
      }
      var props := ComputeApnProperties(parsed.value, lib, polyDegree, canonical);
      // The exception propagates out of the store.
      return Err(props.error);
    }

    /** The store once the parsed object carries `properties`: nothing is
        stored when the polynomial does not parse or convert, when it is not
        APN, or when its table already has a row with the same field size,
        polynomial text and sorted terms; otherwise exactly the new row is
        appended to the table of its field size and nothing else changes. */
    method StoreApnWithProperties(poly: seq<Term>, fieldN: int, irr: string, citation: string, c: Computations)
      returns (stored: bool)
      modifies this
      ensures var name := ParquetFilename(fieldN);
        && (stored <==> Storable(fieldN, c) && !KeyTaken(old(Rows(name)), fieldN, irr, PolyToKey(poly)))
        && (!stored ==> files == old(files))
        && (stored ==> files == old(files)[name := old(Rows(name)) + [ApnRowOf(poly, fieldN, irr, citation, c)]])
    {
      if fieldN <= 1 || !c.truthTableOk {
        return false;
      }
      if !Truthy(GetOr(c.properties, "is_apn", BoolV(false))) {
        return false;
      }
      var isQuadratic := Truthy(GetOr(c.properties, "is_quadratic", BoolV(false)));
      var oddsDict: map<int, int> := map[];
      var odwsDict: map<int, int> := map[];
      if isQuadratic {
        if c.odds.Some? {
          oddsDict := c.odds.value;
        }
        if c.odws.Some? {
          odwsDict := c.odws.value;
        }
      }
      var oddsStr, odwsStr;
      if isQuadratic {
        oddsStr, odwsStr := Json(oddsDict), Json(odwsDict);
      } else {
        oddsStr, odwsStr := NonQuadraticText, NonQuadraticText;
      }
      var polyKey := PolyToKey(poly);
      var newRow := ApnRow(fieldN, irr, polyKey, Some(poly), oddsStr, odwsStr, c.gammaRank, c.deltaRank, Some(citation));
      var name := ParquetFilename(fieldN);
      var df := Rows(name);
      var isDuplicate := AnyWithKey(df, fieldN, irr, polyKey);
      if isDuplicate {
        return false;
      }
      files := files[name := df + [newRow]];
      return true;
    }
  }

  /** A store keeps a table free of rows with equal keys. */
  lemma StoreKeepsKeysDistinct(rows: seq<ApnRow>, poly: seq<Term>, fieldN: int, irr: string, citation: string,
                               c: Computations)
    requires KeysDistinct(rows) && !KeyTaken(rows, fieldN, irr, PolyToKey(poly))
    ensures KeysDistinct(rows + [ApnRowOf(poly, fieldN, irr, citation, c)])
  {
    var rows' := rows + [ApnRowOf(poly, fieldN, irr, citation, c)];
    forall i, j | 0 <= i < j < |rows'|
      ensures !SameKey(rows'[i], rows'[j].fieldN, rows'[j].irrPoly, rows'[j].polyKey)
    {
      if j == |rows| {
        assert rows'[i] == rows[i];
      }
    }
  }

  /** After a store, the same function with its terms in any order is
      turned away. */
  lemma StoredBlocksPermutations(rows: seq<ApnRow>, poly: seq<Term>, fieldN: int, irr: string, citation: string,
                                 c: Computations, reordered: seq<Term>)
    requires multiset(reordered) == multiset(poly)
    ensures KeyTaken(rows + [ApnRowOf(poly, fieldN, irr, citation, c)], fieldN, irr, PolyToKey(reordered))
  {
    PolyToKeyIffPermutation(poly, reordered);
    var rows' := rows + [ApnRowOf(poly, fieldN, irr, citation, c)];
    assert SameKey(rows'[|rows|], fieldN, irr, PolyToKey(reordered));
  }

  // ---------------------------------------------------------------
  // Loading

  /** A reconstructed APN: its terms, field size, polynomial text as the
      parser settles it and the invariants the loader sets, in the order it
      sets them. The loader gives it no `properties` attribute. */
  datatype LoadedApn = LoadedApn(poly: seq<Term>, fieldN: int, irrPoly: string, invariants: Dict<InvValue>)

  /** A spectrum cell of a row whose cells are not "Non-quadratic": the
      parsed JSON object, an empty one for a missing value, or an error. */
  function SpectrumValue(cell: SpectrumCell): Option<InvValue>
  {
    match cell
    case Json(counts) => Some(CountsV(counts))
    case NullCell => Some(CountsV(map[]))
    case NonQuadraticText => None
    case Unreadable => None
  }

  /** A rank cell: the number, or `None` for a missing value. */
  function RankValue(rank: Option<int>): InvValue
  {
    if rank.Some? then IntV(rank.value) else NoneV
  }

  /** The invariants the loader sets, in the order it sets them: the two
      spectra, the ranks and the citation (empty when missing). */
  function LoadedInvariants(odds: InvValue, odws: InvValue, row: ApnRow): (d: Dict<InvValue>)
    ensures Valid(d)
  {
    Dict(["odds", "odws", "gamma_rank", "delta_rank", "citation"],
         map["odds" := odds, "odws" := odws, "gamma_rank" := RankValue(row.gammaRank),
             "delta_rank" := RankValue(row.deltaRank),
             "citation" := TextV(if row.citation.Some? then row.citation.value else "")])
  }

  /** One row of `load_apn_objects_for_field_pandas`: `None` when the poly
      cell is not JSON, the parser rejects the field size (at most 1), or a
      spectrum cell cannot be read. The polynomial text is the parser's: a
      blank cell becomes the library default's text. "Non-quadratic" in
      either spectrum cell sets both invariants to "non-quadratic". The
      field size is the requested one. */
  function LoadRow(row: ApnRow, n: int, lib: GaloisLib): Option<LoadedApn>
  {
    if row.poly.None? || n <= 1 then None
    else if row.oddsStr == NonQuadraticText || row.odwsStr == NonQuadraticText then
      Some(LoadedApn(row.poly.value, n, ParsedIrr(n, row.irrPoly, lib),
                     LoadedInvariants(TextV("non-quadratic"), TextV("non-quadratic"), row)))
    else
      var odds := SpectrumValue(row.oddsStr);
      var odws := SpectrumValue(row.odwsStr);
      if odds.None? || odws.None? then None
      else
        Some(LoadedApn(row.poly.value, n, ParsedIrr(n, row.irrPoly, lib), LoadedInvariants(odds.value, odws.value, row)))
  }

  /** The rows that load, in table order. */
  function LoadedAll(rows: seq<ApnRow>, n: int, lib: GaloisLib): seq<LoadedApn>
    decreases |rows|
  {
    if |rows| == 0 then []
    else
      var front := LoadedAll(rows[..|rows| - 1], n, lib);
      var r := LoadRow(rows[|rows| - 1], n, lib);
      if r.Some? then front + [r.value] else front
  }

  /** `load_apn_objects_for_field_pandas(n)` over the table's rows: a row
      that raises is skipped, the others are reconstructed in order. */
  method LoadApnObjects(rows: seq<ApnRow>, n: int, lib: GaloisLib)
    returns (apnList: seq<LoadedApn>)
    ensures apnList == LoadedAll(rows, n, lib)
  {
    apnList := [];
    if |rows| == 0 {
      return;
    }
    for i := 0 to |rows|
      invariant apnList == LoadedAll(rows[..i], n, lib)
    {
      assert rows[..i + 1][..i] == rows[..i];
      var row := rows[i];
      if row.poly.None? || n <= 1 {
        continue;
      }
      var oddsValue, odwsValue;
      if row.oddsStr == NonQuadraticText || row.odwsStr == NonQuadraticText {
        oddsValue, odwsValue := TextV("non-quadratic"), TextV("non-quadratic");
      } else {
        var odds := SpectrumValue(row.oddsStr);
        if odds.None? {
          continue;
        }
        var odws := SpectrumValue(row.odwsStr);
        if odws.None? {
          continue;
        }
        oddsValue, odwsValue := odds.value, odws.value;
      }
      var irr := row.irrPoly;
      if Strip(irr) == "" {
        irr := DefaultIrrText(n, lib);
      }
      var invariants := LoadedInvariants(oddsValue, odwsValue, row);
      apnList := apnList + [LoadedApn(row.poly.value, n, irr, invariants)];
    }
    assert rows[..|rows|] == rows;
  }

  // ---------------------------------------------------------------
  // What loading promises

  /** "Non-quadratic" in either column loads as lower-case "non-quadratic"
      in both invariants. */
  lemma NonQuadraticLoadsLower(row: ApnRow, n: int, lib: GaloisLib)
    requires row.oddsStr == NonQuadraticText || row.odwsStr == NonQuadraticText
    requires LoadRow(row, n, lib).Some?
    ensures var inv := LoadRow(row, n, lib).value.invariants.vals;
      inv["odds"] == TextV("non-quadratic") && inv["odws"] == TextV("non-quadratic")
  {
  }

  /** A stored row of a field size above 1 loads back with the same terms,
      the same polynomial text unless it is blank (then the library
      default's text), the spectra for a quadratic function and
      "non-quadratic" otherwise, the ranks, and the citation; its invariant
      keys come in the loader's order. */
  lemma StoreThenLoad(poly: seq<Term>, fieldN: int, irr: string, citation: string, c: Computations,
                      lib: GaloisLib)
    requires fieldN > 1
    ensures var r := LoadRow(ApnRowOf(poly, fieldN, irr, citation, c), fieldN, lib);
      && r.Some?
      && r.value.poly == poly && r.value.fieldN == fieldN
      && (Strip(irr) != "" ==> r.value.irrPoly == irr)
      && (Strip(irr) == "" ==> r.value.irrPoly == DefaultIrrText(fieldN, lib))
      && r.value.invariants.keys == ["odds", "odws", "gamma_rank", "delta_rank", "citation"]
      && Valid(r.value.invariants)
      && r.value.invariants.vals["odds"]
         == (if !IsQuadratic(c) then TextV("non-quadratic") else CountsV(if c.odds.Some? then c.odds.value else map[]))
      && r.value.invariants.vals["odws"]
         == (if !IsQuadratic(c) then TextV("non-quadratic") else CountsV(if c.odws.Some? then c.odws.value else map[]))
      && r.value.invariants.vals["gamma_rank"] == (if c.gammaRank.Some? then IntV(c.gammaRank.value) else NoneV)
      && r.value.invariants.vals["delta_rank"] == (if c.deltaRank.Some? then IntV(c.deltaRank.value) else NoneV)
      && r.value.invariants.vals["citation"] == TextV(citation)
  {
  }

  /** Loading skips exactly the rows that fail and keeps table order: every
      loaded object comes from a row, and every row that loads is there. */
  lemma {:induction false} LoadedFromRows(rows: seq<ApnRow>, n: int, lib: GaloisLib)
    ensures |LoadedAll(rows, n, lib)| <= |rows|
    ensures forall a :: a in LoadedAll(rows, n, lib) ==> exists i :: 0 <= i < |rows| && LoadRow(rows[i], n, lib) == Some(a)
    ensures forall i :: 0 <= i < |rows| && LoadRow(rows[i], n, lib).Some? ==> LoadRow(rows[i], n, lib).value in LoadedAll(rows, n, lib)
    decreases |rows|
  {
    if |rows| > 0 {
      var front := rows[..|rows| - 1];
      LoadedFromRows(front, n, lib);
      forall a | a in LoadedAll(rows, n, lib)
        ensures exists i :: 0 <= i < |rows| && LoadRow(rows[i], n, lib) == Some(a)
      {
        if a in LoadedAll(front, n, lib) {
          var i :| 0 <= i < |front| && LoadRow(front[i], n, lib) == Some(a);
          assert rows[i] == front[i];
        } else {
          assert LoadRow(rows[|rows| - 1], n, lib) == Some(a);
        }
      }
      forall i | 0 <= i < |rows| && LoadRow(rows[i], n, lib).Some?
        ensures LoadRow(rows[i], n, lib).value in LoadedAll(rows, n, lib)
      {
        if i < |front| {
          assert rows[i] == front[i];
        }
      }
    }
  }
}
