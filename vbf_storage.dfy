/** `storage_pandas.py`: the Parquet tables of vectorial Boolean functions,
    one table per field size and APN-ness, and the duplicate gate in front
    of an insertion. A table is a sequence of rows; the poly column holds
    the term list it was written from, or nothing when the cell is empty or
    not valid JSON. */
module VbfStorage {
  import opened Outcomes
  import opened Text
  import opened Terms
  import opened ApnObject

  /** `get_parquet_filename(dimension, is_apn)`, with '/' as the separator. */
  function ParquetFilename(dimension: int, isApn: bool): string
  {
    "database/" + (if isApn then "apn" else "vbf") + "/" + (if isApn then "apn_data" else "vbf_data")
      + "_" + IntToString(dimension) + ".parquet"
  }

  /** Different (dimension, is_apn) pairs are stored in different files. */
  lemma ParquetFilenameInjective(d1: int, a1: bool, d2: int, a2: bool)
    requires ParquetFilename(d1, a1) == ParquetFilename(d2, a2)
    ensures d1 == d2 && a1 == a2
  {
    var f := ParquetFilename(d1, a1);
    var p1 := "database/" + (if a1 then "apn" else "vbf") + "/" + (if a1 then "apn_data" else "vbf_data") + "_";
    var p2 := "database/" + (if a2 then "apn" else "vbf") + "/" + (if a2 then "apn_data" else "vbf_data") + "_";
    assert |p1| == 22 == |p2|;
    assert f == p1 + IntToString(d1) + ".parquet";
    assert f == p2 + IntToString(d2) + ".parquet";
    assert f[9] == p1[9] == p2[9];
    assert a1 == a2;
    assert IntToString(d1) == f[22..|f| - 8] == IntToString(d2);
    IntToStringInjective(d1, d2);
  }

  /** A row of a table, as far as the gate reads it. */
  datatype VbfRow = VbfRow(fieldN: int, poly: Option<seq<Term>>, irrPoly: string, isApn: bool,
                           cells: map<string, InvValue>)

  /** The row describes the same function: same field, same polynomial
      text, and the same terms in any order. */
  predicate SameFunction(row: VbfRow, n: int, irr: string, terms: seq<Term>)
  {
    row.fieldN == n && row.irrPoly == irr && row.poly.Some? && multiset(row.poly.value) == multiset(terms)
  }

  /** Some row of the table describes the same function. */
  predicate HasDuplicate(rows: seq<VbfRow>, n: int, irr: string, terms: seq<Term>)
  {
    exists i :: 0 <= i < |rows| && SameFunction(rows[i], n, irr, terms)
  }

  /** `is_duplicate_candidate`: the rows with the same field and polynomial
      text are searched for one whose sorted term list is the sorted
      candidate; rows without a readable poly are skipped. */
  method IsDuplicateCandidate(rows: seq<VbfRow>, n: int, irr: string, terms: seq<Term>) returns (dup: bool)
    ensures dup <==> HasDuplicate(rows, n, irr, terms)
  {
    var sortedCandidate := SortByKey(terms);
    for i := 0 to |rows|
      invariant forall j :: 0 <= j < i ==> !SameFunction(rows[j], n, irr, terms)
    {
      var row := rows[i];
      if row.fieldN != n || row.irrPoly != irr || row.poly.None? {
        continue;
      }
      SortByKeyIffPermutation(row.poly.value, terms);
      if SortByKey(row.poly.value) == sortedCandidate {
        return true;
      }
    }
    return false;
  }

  /** The table after `drop_duplicates()`: the first of equal rows stays. */
  function DropDuplicates<T(==,!new)>(rows: seq<T>): (r: seq<T>)
    ensures forall x :: x in r <==> x in rows
    decreases |rows|
  {
    if |rows| == 0 then []
    else
      var front := rows[..|rows| - 1];
      var last := rows[|rows| - 1];
      DropDuplicates(front) + (if last in front then [] else [last])
  }

  /** No two rows are equal. */
  predicate NoDuplicates<T(==,!new)>(rows: seq<T>)
  {
    forall i, j :: 0 <= i < j < |rows| ==> rows[i] != rows[j]
  }

  /** `drop_duplicates` leaves no two equal rows. */
  lemma {:induction false} DropDuplicatesDistinct<T(!new)>(rows: seq<T>)
    ensures NoDuplicates(DropDuplicates(rows))
    decreases |rows|
  {
    if |rows| > 0 {
      DropDuplicatesDistinct(rows[..|rows| - 1]);
    }
  }

  /** A table without equal rows is left as it is. */
  lemma {:induction false} DropDuplicatesOfDistinct<T(!new)>(rows: seq<T>)
    requires NoDuplicates(rows)
    ensures DropDuplicates(rows) == rows
    decreases |rows|
  {
    if |rows| > 0 {
      var front := rows[..|rows| - 1];
      assert NoDuplicates(front);
      DropDuplicatesOfDistinct(front);
      assert rows[|rows| - 1] !in front;
      assert front + [rows[|rows| - 1]] == rows;
    }
  }

  /** The row `store_vbf_pandas` builds from the computed invariants; bool
      columns are the truthiness of the invariant, missing ones take the
      documented defaults. */
  function VbfRowOf(terms: seq<Term>, dimension: int, irr: string, invariants: map<string, InvValue>, citation: string)
    : VbfRow
  {
    VbfRow(dimension, Some(terms), irr, Truthy(GetOr(invariants, "is_apn", BoolV(false))),
      map[
        "odds" := GetOr(invariants, "odds", TextV("non-quadratic")),
        "odws" := GetOr(invariants, "odws", TextV("non-quadratic")),
        "delta_rank" := GetOr(invariants, "delta_rank", NoneV),
        "gamma_rank" := GetOr(invariants, "gamma_rank", NoneV),
        "algebraic_degree" := GetOr(invariants, "algebraic_degree", NoneV),
        "is_quadratic" := BoolV(Truthy(GetOr(invariants, "is_quadratic", BoolV(false)))),
        "is_monomial" := BoolV(Truthy(GetOr(invariants, "is_monomial", BoolV(false)))),
        "k_to_1" := GetOr(invariants, "k_to_1", TextV("unknown")),
        "citation" := GetOr(invariants, "citation", TextV(citation))
      ])
  }

  /** The Parquet files, by name. */
  class VbfDatabase {
    var files: map<string, seq<VbfRow>>

    constructor ()
      ensures files == map[]
    {
      files := map[];
    }

    /** `load_dataframe_for_dimension`: a missing file reads as an empty table. */
    function Rows(name: string): seq<VbfRow>
      reads this
    {
      if name in files then files[name] else []
    }

    /** `store_vbf_pandas`, given whether `VBF(...)` raised and the
        invariants it then computes: a failed construction stores nothing;
        otherwise the row goes to the APN or the VBF table of its dimension,
        unless that table already holds the same function, and the table
        becomes the old rows plus the new one, without equal rows. Nothing
        else changes. */
    method StoreVbf(construction: Result<()>, terms: seq<Term>, dimension: int, irr: string,
                    invariants: map<string, InvValue>, citation: string)
      returns (stored: bool)
      modifies this
      ensures construction.Err? ==> !stored && files == old(files)
      ensures construction.Ok? ==>
        var row := VbfRowOf(terms, dimension, irr, invariants, citation);
        var name := ParquetFilename(dimension, row.isApn);
        && (stored <==> !HasDuplicate(old(Rows(name)), dimension, irr, terms))
        && (!stored ==> files == old(files))
        && (stored ==> files == old(files)[name := DropDuplicates(old(Rows(name)) + [row])])
    {
      if construction.Err? {
        return false;
      }
      var row := VbfRowOf(terms, dimension, irr, invariants, citation);
      var name := ParquetFilename(dimension, row.isApn);
      var existing := Rows(name);
      var polyData := row.poly.value;
      var dup := IsDuplicateCandidate(existing, dimension, irr, polyData);
      if dup {
        return false;
      }
      files := files[name := DropDuplicates(existing + [row])];
      return true;
    }
  }

  /** When the table had no equal rows, a store appends exactly the new
      row. */
  lemma StoreAppendsOne(rows: seq<VbfRow>, terms: seq<Term>, dimension: int, irr: string,
                        invariants: map<string, InvValue>, citation: string)
    requires NoDuplicates(rows) && !HasDuplicate(rows, dimension, irr, terms)
    ensures DropDuplicates(rows + [VbfRowOf(terms, dimension, irr, invariants, citation)])
         == rows + [VbfRowOf(terms, dimension, irr, invariants, citation)]
  {
    var row := VbfRowOf(terms, dimension, irr, invariants, citation);
    assert SameFunction(row, dimension, irr, terms);
    DropDuplicatesOfDistinct(rows + [row]);
  }

  /** After a store, the same function in any term order is a duplicate. */
  lemma StoredIsDuplicate(rows: seq<VbfRow>, terms: seq<Term>, dimension: int, irr: string,
                          invariants: map<string, InvValue>, citation: string, reordered: seq<Term>)
    requires multiset(reordered) == multiset(terms)
    ensures HasDuplicate(DropDuplicates(rows + [VbfRowOf(terms, dimension, irr, invariants, citation)]), dimension, irr, reordered)
  {
    var row := VbfRowOf(terms, dimension, irr, invariants, citation);
    var r := DropDuplicates(rows + [row]);
    assert row in rows + [row];
    var i :| 0 <= i < |r| && r[i] == row;
    assert SameFunction(r[i], dimension, irr, reordered);
  }
}
