/** The rows of the compound table before and after pair aggregation. */
module Table {
  import opened Wrappers

  /** One input row: the four columns the script requires. */
  datatype Compound = Compound(title: string, mpo: real, normDocking: real, docking: real)

  /** The four columns added to both rows of a title that occurs exactly twice. */
  datatype Aggregate = Aggregate(avgMpo: real, deltaMpo: real, avgNormDocking: real, deltaNormDocking: real)

  /** A processed row; `agg` is None where pandas leaves the added columns NaN. */
  datatype Row = Row(compound: Compound, agg: Option<Aggregate>) {
    function Title(): string {
      compound.title
    }
  }

  /** Why a run of the script stops with an exception. */
  datatype Failure = MissingRequired(columns: seq<string>) | NoPairedTitles | BenchmarkWithoutAggregate

  /** The two columns the script sorts by. */
  datatype SortKey = AvgMpo | AvgNormDocking

  /** The value of a sort column in a row, None when it is NaN. */
  function KeyOf(r: Row, k: SortKey): Option<real> {
    match r.agg
    case None => None
    case Some(a) => Some(if k == AvgMpo then a.avgMpo else a.avgNormDocking)
  }

  /** The input rows underlying processed rows. */
  function Compounds(rows: seq<Row>): (cs: seq<Compound>)
    ensures |cs| == |rows|
    ensures forall i :: 0 <= i < |rows| ==> cs[i] == rows[i].compound
  {
    seq(|rows|, i requires 0 <= i < |rows| => rows[i].compound)
  }

  /** The Title column. */
  function Titles(cs: seq<Compound>): (ts: seq<string>)
    ensures |ts| == |cs|
    ensures forall i :: 0 <= i < |cs| ==> ts[i] == cs[i].title
  {
    seq(|cs|, i requires 0 <= i < |cs| => cs[i].title)
  }

  /** The set of titles in a table; its size is pandas' `nunique` of Title. */
  function TitleSet(rows: seq<Row>): set<string> {
    set r | r in rows :: r.Title()
  }
}
