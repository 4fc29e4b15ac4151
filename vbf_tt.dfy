/** The C truth-table record `vbf_tt` that the spectra and the triplicate
    code take: a dimension, a number of entries and the entries. */
module VbfTruthTable {
  import opened Bits

  datatype VbfTt = VbfTt(dimension: nat, numberOfEntries: nat, values: seq<nat>)

  /** The record as the Python bindings build it: 2^dimension entries. */
  predicate WellFormed(t: VbfTt)
  {
    t.numberOfEntries == Pow2(t.dimension) && |t.values| == t.numberOfEntries
  }
}
