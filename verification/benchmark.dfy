/**
 * Benchmark selection and filtering: the benchmark rows are those whose
 * lower-cased title contains the lower-cased benchmark name; the thresholds
 * are the averages of the first benchmark row that has them; a row is kept
 * when both its averages strictly exceed the thresholds; the output is the
 * kept rows followed by the benchmark rows.
 */
module Benchmark {
  import opened Wrappers
  import opened Seqs
  import opened Text
  import opened Table

  /** A row belongs to the benchmark when its lower-cased title contains `name`. */
  predicate IsBenchmark(r: Row, name: string) {
    Contains(Lower(r.Title()), name)
  }

  /** The benchmark rows of a table, in table order. */
  function BenchmarkRows(rows: seq<Row>, name: string): (bench: seq<Row>)
    ensures forall i :: 0 <= i < |bench| ==> bench[i] in rows && IsBenchmark(bench[i], name)
    ensures forall i :: 0 <= i < |rows| && IsBenchmark(rows[i], name) ==> rows[i] in bench
    ensures SubsequenceOf(bench, rows)
    ensures forall x :: multiset(bench)[x] == if IsBenchmark(x, name) then multiset(rows)[x] else 0
  {
    var keep := (r: Row) => IsBenchmark(r, name);
    FilterMembers(rows, keep);
    FilterCounts(rows, keep);
    Filter(rows, keep)
  }

  /** A row is a benchmark row exactly when the name occurs somewhere in its lower-cased title. */
  lemma BenchmarkIffNameOccurs(r: Row, name: string)
    ensures IsBenchmark(r, name) <==> exists i: nat :: OccursAt(Lower(r.Title()), name, i)
  {
    assert IsBenchmark(r, name) == Contains(Lower(r.Title()), name);
    ContainsIffOccurs(Lower(r.Title()), name);
  }

  /** The first non-missing value of a column, as `dropna().iloc[0]` reads it. */
  function FirstKey(rows: seq<Row>, k: SortKey): (v: Option<real>)
    ensures v.None? <==> forall i :: 0 <= i < |rows| ==> KeyOf(rows[i], k).None?
    ensures v.Some? ==> exists i :: 0 <= i < |rows| && KeyOf(rows[i], k) == v &&
                          forall j :: 0 <= j < i ==> KeyOf(rows[j], k).None?
  {
    if |rows| == 0 then None
    else if KeyOf(rows[0], k).Some? then KeyOf(rows[0], k)
    else
      var v := FirstKey(rows[1..], k);
      assert forall i :: 1 <= i < |rows| ==> rows[i] == rows[1..][i - 1];
      v
  }

  /** The position of the first row that carries aggregate columns. */
  function FirstAggregated(rows: seq<Row>): (r: Option<nat>)
    ensures r.Some? ==> r.value < |rows| && rows[r.value].agg.Some? &&
                        forall j :: 0 <= j < r.value ==> rows[j].agg.None?
    ensures r.None? <==> forall i :: 0 <= i < |rows| ==> rows[i].agg.None?
  {
    if |rows| == 0 then None
    else if rows[0].agg.Some? then Some(0)
    else
      var r := FirstAggregated(rows[1..]);
      assert forall i :: 1 <= i < |rows| ==> rows[i] == rows[1..][i - 1];
      if r.None? then None else Some(r.value + 1)
  }

  /**
   * Both thresholds come from the same row: the first benchmark row with
   * aggregate columns, since a row has either all of them or none.
   */
  lemma {:induction false} FirstKeysFromOneRow(rows: seq<Row>, k: SortKey)
    ensures FirstKey(rows, k) == match FirstAggregated(rows)
                                 case None => None
                                 case Some(i) => KeyOf(rows[i], k)
  {
    if |rows| > 0 && rows[0].agg.None? {
      FirstKeysFromOneRow(rows[1..], k);
    }
  }

  datatype Thresholds = Thresholds(mpo: real, normDocking: real)

  /**
   * The benchmark thresholds: the two averages of the first benchmark row that
   * has them; None where the source's `.iloc[0]` finds no value.
   */
  function ThresholdsOf(bench: seq<Row>): (t: Option<Thresholds>)
    ensures t.None? <==> forall i :: 0 <= i < |bench| ==> bench[i].agg.None?
    ensures t.Some? <==> FirstAggregated(bench).Some?
    ensures t.Some? ==>
              var src := bench[FirstAggregated(bench).value];
              t.value == Thresholds(src.agg.value.avgMpo, src.agg.value.avgNormDocking)
  {
    FirstKeysFromOneRow(bench, AvgMpo);
    FirstKeysFromOneRow(bench, AvgNormDocking);
    match (FirstKey(bench, AvgMpo), FirstKey(bench, AvgNormDocking))
    case (Some(m), Some(d)) => Some(Thresholds(m, d))
    case _ => None
  }

  /** A row beats the benchmark when both its averages are present and strictly greater. */
  predicate Passes(r: Row, t: Thresholds) {
    match (KeyOf(r, AvgMpo), KeyOf(r, AvgNormDocking))
    case (Some(m), Some(d)) => m > t.mpo && d > t.normDocking
    case _ => false
  }

  /** The rows that beat the benchmark on both averages, in table order. */
  function AboveBenchmark(rows: seq<Row>, t: Thresholds): (kept: seq<Row>)
    ensures forall i :: 0 <= i < |kept| ==>
              kept[i] in rows && kept[i].agg.Some? &&
              kept[i].agg.value.avgMpo > t.mpo && kept[i].agg.value.avgNormDocking > t.normDocking
    ensures forall i :: 0 <= i < |rows| && rows[i].agg.Some? ==>
              (rows[i].agg.value.avgMpo > t.mpo && rows[i].agg.value.avgNormDocking > t.normDocking ==>
               rows[i] in kept)
    ensures SubsequenceOf(kept, rows)
    ensures forall x :: multiset(kept)[x] == if Passes(x, t) then multiset(rows)[x] else 0
  {
    var keep := (r: Row) => Passes(r, t);
    FilterMembers(rows, keep);
    FilterCounts(rows, keep);
    Filter(rows, keep)
  }

  /** What the benchmark stage produces when the benchmark is found. */
  datatype Selection = Selection(benchmark: seq<Row>, thresholds: Thresholds, kept: seq<Row>, output: seq<Row>)

  /**
   * The benchmark stage: None when no title matches, an error when the
   * matching rows have no aggregate columns, otherwise the selection.
   */
  function SelectAgainstBenchmark(processed: seq<Row>, name: string): (res: Result<Option<Selection>, Failure>)
    ensures res.Ok? && res.value.None? <==> forall i :: 0 <= i < |processed| ==> !IsBenchmark(processed[i], name)
    ensures res.Err? <==> (exists i :: 0 <= i < |processed| && IsBenchmark(processed[i], name)) &&
                          (forall i :: 0 <= i < |processed| && IsBenchmark(processed[i], name) ==> processed[i].agg.None?)
    ensures res.Err? ==> res.error == BenchmarkWithoutAggregate
    ensures res.Ok? && res.value.Some? ==>
              var s := res.value.value;
              && s.benchmark == BenchmarkRows(processed, name)
              && Some(s.thresholds) == ThresholdsOf(s.benchmark)
              && s.kept == AboveBenchmark(processed, s.thresholds)
              && s.output == s.kept + s.benchmark
  {
    var bench := BenchmarkRows(processed, name);
    if |bench| == 0 then
      assert forall i :: 0 <= i < |processed| ==> !IsBenchmark(processed[i], name);
      Ok(None)
    else
      assert bench[0] in processed && IsBenchmark(bench[0], name);
      match ThresholdsOf(bench)
      case None => Err(BenchmarkWithoutAggregate)
      case Some(t) =>
        var kept := AboveBenchmark(processed, t);
        Ok(Some(Selection(bench, t, kept, kept + bench)))
  }

  /** Some row titled `x` has a value in column `k` that exceeds `t`. */
  predicate HasRowAbove(rows: seq<Row>, k: SortKey, t: real, x: string) {
    exists i :: 0 <= i < |rows| && rows[i].Title() == x && KeyOf(rows[i], k).Some? && KeyOf(rows[i], k).value > t
  }

  /** The titles of the rows whose value in column `k` exceeds `t`. */
  function TitlesAbove(rows: seq<Row>, k: SortKey, t: real): (titles: set<string>)
    ensures forall x :: x in titles <==> HasRowAbove(rows, k, t, x)
  {
    var keep := (r: Row) => KeyOf(r, k).Some? && KeyOf(r, k).value > t;
    FilterMembers(rows, keep);
    TitleSet(Filter(rows, keep))
  }

  /** The three counts of unique titles in the final summary. */
  datatype Summary = Summary(aboveMpo: nat, aboveNormDocking: nat, aboveBoth: nat)

  function Summarise(byMpo: seq<Row>, byDocking: seq<Row>, s: Selection): Summary {
    Summary(|TitlesAbove(byMpo, AvgMpo, s.thresholds.mpo)|,
            |TitlesAbove(byDocking, AvgNormDocking, s.thresholds.normDocking)|,
            |TitleSet(s.kept)|)
  }

  lemma SubsetCard(a: set<string>, b: set<string>)
    requires a <= b
    ensures |a| <= |b|
  {
    assert b == a + (b - a);
  }

  /**
   * The number of titles beating the benchmark on both averages is at most the
   * number beating it on either one, when the rankings hold the processed rows.
   */
  lemma SummaryCountsOrdered(processed: seq<Row>, byMpo: seq<Row>, byDocking: seq<Row>, s: Selection)
    requires multiset(byMpo) == multiset(processed) && multiset(byDocking) == multiset(processed)
    requires s.kept == AboveBenchmark(processed, s.thresholds)
    ensures Summarise(byMpo, byDocking, s).aboveBoth <= Summarise(byMpo, byDocking, s).aboveMpo
    ensures Summarise(byMpo, byDocking, s).aboveBoth <= Summarise(byMpo, byDocking, s).aboveNormDocking
  {
    var t := s.thresholds;
    var both := TitleSet(s.kept);
    var mpo := TitlesAbove(byMpo, AvgMpo, t.mpo);
    var dock := TitlesAbove(byDocking, AvgNormDocking, t.normDocking);
    forall x | x in both
      ensures x in mpo && x in dock
    {
      var r :| r in s.kept && r.Title() == x;
      assert r in processed;
      assert r in multiset(byMpo) && r in multiset(byDocking);
    }
    SubsetCard(both, mpo);
    SubsetCard(both, dock);
  }
}
