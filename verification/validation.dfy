/** The check that the CSV header has every column the script reads. */
module Validation {
  import opened Seqs

  const RequiredColumns: seq<string> := ["Title", "MPO_score", "norm_docking_score", "docking score"]

  /** The required columns absent from `header`, in the order they are required. */
  function MissingColumns(header: seq<string>): (missing: seq<string>)
    ensures forall c :: c in missing <==> c in RequiredColumns && c !in header
    ensures SubsequenceOf(missing, RequiredColumns)
  {
    var keep := (c: string) => c !in header;
    FilterMembers(RequiredColumns, keep);
    Filter(RequiredColumns, keep)
  }

  /** Validation fails exactly when some required column is absent. */
  lemma ValidationFailsIffColumnAbsent(header: seq<string>)
    ensures |MissingColumns(header)| > 0 <==> exists c :: c in RequiredColumns && c !in header
  {
    if exists c :: c in RequiredColumns && c !in header {
      var c :| c in RequiredColumns && c !in header;
      assert c in MissingColumns(header);
    }
  }
}
