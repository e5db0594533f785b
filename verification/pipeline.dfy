/**
 * The whole postprocessing run: required-column check, pair aggregation, the
 * two rankings, the benchmark filter and the summary counts.
 */
module Pipeline {
  import opened Wrappers
  import opened Seqs
  import opened Text
  import opened Table
  import opened Validation
  import opened Pairs
  import opened Ranking
  import opened Benchmark

  /** Everything a successful run writes or prints. */
  datatype Report = Report(
    processed: seq<Row>,
    byAvgMpo: seq<Row>,
    byAvgNormDocking: seq<Row>,
    selection: Option<Selection>,
    summary: Option<Summary>)

  /** Some row of the processed table carries the aggregate columns. */
  predicate HasAggregates(rows: seq<Row>) {
    exists i :: 0 <= i < |rows| && rows[i].agg.Some?
  }

  /** The report is consistent with the processed table it was built from. */
  predicate WellFormed(rep: Report) {
    && SortedDesc(rep.byAvgMpo, AvgMpo)
    && SortedDesc(rep.byAvgNormDocking, AvgNormDocking)
    && multiset(rep.byAvgMpo) == multiset(rep.processed)
    && multiset(rep.byAvgNormDocking) == multiset(rep.processed)
    && (rep.selection.None? <==> rep.summary.None?)
    && (rep.summary.Some? ==>
          rep.summary.value.aboveBoth <= rep.summary.value.aboveMpo &&
          rep.summary.value.aboveBoth <= rep.summary.value.aboveNormDocking)
  }

  /** The stages after pair aggregation: the two rankings, the benchmark filter, the summary. */
  function RankAndSelect(processed: seq<Row>, name: string): (res: Result<Report, Failure>)
    ensures res.Err? <==> SelectAgainstBenchmark(processed, name).Err?
    ensures res.Err? ==> res.error == BenchmarkWithoutAggregate
    ensures res.Ok? ==> res.value.processed == processed && WellFormed(res.value)
    ensures res.Ok? ==> res.value.selection == SelectAgainstBenchmark(processed, name).value
    ensures res.Ok? && res.value.selection.Some? ==>
              res.value.summary == Some(Summarise(res.value.byAvgMpo, res.value.byAvgNormDocking, res.value.selection.value))
  {
    var byMpo := SortDesc(processed, AvgMpo);
    var byDocking := SortDesc(processed, AvgNormDocking);
    match SelectAgainstBenchmark(processed, name)
    case Err(e) => Err(e)
    case Ok(None) => Ok(Report(processed, byMpo, byDocking, None, None))
    case Ok(Some(s)) =>
      SummaryCountsOrdered(processed, byMpo, byDocking, s);
      Ok(Report(processed, byMpo, byDocking, Some(s), Some(Summarise(byMpo, byDocking, s))))
  }

  /**
   * One run on a table whose header is `header` and whose rows are `cs`, with
   * the benchmark name as typed at the prompt.
   */
  function Run(header: seq<string>, cs: seq<Compound>, benchmarkName: string): (res: Result<Report, Failure>)
    ensures res.Err? && res.error.MissingRequired? <==> |MissingColumns(header)| > 0
    ensures res.Err? && res.error.MissingRequired? ==> res.error.columns == MissingColumns(header)
    ensures res.Err? && res.error == NoPairedTitles <==>
              |MissingColumns(header)| == 0 && !HasAggregates(Process(cs))
    ensures res.Err? && res.error == BenchmarkWithoutAggregate <==>
              |MissingColumns(header)| == 0 && HasAggregates(Process(cs)) &&
              SelectAgainstBenchmark(Process(cs), Lower(benchmarkName)).Err?
    ensures res.Ok? ==> res.value.processed == Process(cs) && WellFormed(res.value)
    ensures res.Ok? ==> res.value.selection == SelectAgainstBenchmark(Process(cs), Lower(benchmarkName)).value
    ensures res.Ok? && res.value.selection.Some? ==>
              res.value.summary == Some(Summarise(res.value.byAvgMpo, res.value.byAvgNormDocking, res.value.selection.value))
  {
    var missing := MissingColumns(header);
    if |missing| > 0 then Err(MissingRequired(missing))
    else
      var processed := Process(cs);
      if !HasAggregates(processed) then Err(NoPairedTitles)
      else RankAndSelect(processed, Lower(benchmarkName))
  }

  /**
   * The name is lower-cased when it is read, and only the lower-cased name is
   * used, so a name that arrives already lower-cased gives the same run.
   */
  lemma {:induction false} RunOnLoweredName(header: seq<string>, cs: seq<Compound>, benchmarkName: string)
    ensures Run(header, cs, Lower(benchmarkName)) == Run(header, cs, benchmarkName)
  {
    LowerIdempotent(benchmarkName);
  }

  lemma AggregatesIffPair(out: seq<Row>, cs: seq<Compound>)
    requires CarriesGroupAggregate(out, cs)
    requires multiset(Compounds(out)) == multiset(cs)
    ensures HasAggregates(out) <==> exists i :: 0 <= i < |cs| && |Group(cs, cs[i].title)| == 2
  {
    if HasAggregates(out) {
      var i :| 0 <= i < |out| && out[i].agg.Some?;
      var g := Group(cs, out[i].Title());
      assert GroupAggregate(g).Some?;
      SelectMembers(cs, {out[i].Title()});
      assert g[0] in cs && g[0].title == out[i].Title();
      var j :| 0 <= j < |cs| && cs[j] == g[0];
      assert |Group(cs, cs[j].title)| == 2;
    }
    if exists i :: 0 <= i < |cs| && |Group(cs, cs[i].title)| == 2 {
      var i :| 0 <= i < |cs| && |Group(cs, cs[i].title)| == 2;
      assert cs[i] in multiset(Compounds(out));
      var j :| 0 <= j < |out| && Compounds(out)[j] == cs[i];
      assert out[j].Title() == cs[i].title;
      assert out[j].agg == GroupAggregate(Group(cs, cs[i].title));
    }
  }

  /**
   * The aggregate columns exist (so the sorts at lines 89 and 106 can run)
   * exactly when some title has exactly two rows in the input.
   */
  lemma AggregatesIffSomePair(cs: seq<Compound>)
    ensures HasAggregates(Process(cs)) <==> exists i :: 0 <= i < |cs| && |Group(cs, cs[i].title)| == 2
  {
    ProcessCarriesGroupAggregate(cs);
    ProcessIsPermutation(cs);
    AggregatesIffPair(Process(cs), cs);
  }

  /**
   * A row whose pair supplied the thresholds is never kept: every row of its
   * title carries exactly the threshold averages, and the comparison is strict.
   */
  lemma NeverBeatsItself(processed: seq<Row>, src: Row, t: Thresholds, kept: seq<Row>)
    requires AggregatePerTitle(processed)
    requires src in processed && src.agg.Some?
    requires t == Thresholds(src.agg.value.avgMpo, src.agg.value.avgNormDocking)
    requires kept == AboveBenchmark(processed, t)
    ensures forall i :: 0 <= i < |kept| ==> kept[i].Title() != src.Title()
  {
    var k :| 0 <= k < |processed| && processed[k] == src;
    forall i | 0 <= i < |kept|
      ensures kept[i].Title() != src.Title()
    {
      var r := kept[i];
      assert r in processed && r.agg.Some? && r.agg.value.avgMpo > t.mpo;
      var m :| 0 <= m < |processed| && processed[m] == r;
      assert r.Title() == src.Title() ==> r.agg == src.agg;
    }
  }

  /**
   * The benchmark never beats itself: no kept row shares the title of the
   * benchmark row the thresholds were read from, since both rows of that pair
   * carry exactly the threshold averages and the comparison is strict.
   */
  lemma BenchmarkNeverBeatsItself(cs: seq<Compound>, name: string)
    ensures SelectAgainstBenchmark(Process(cs), name).Ok? && SelectAgainstBenchmark(Process(cs), name).value.Some? ==>
            var s := SelectAgainstBenchmark(Process(cs), name).value.value;
            && FirstAggregated(s.benchmark).Some?
            && forall i :: 0 <= i < |s.kept| ==> s.kept[i].Title() != s.benchmark[FirstAggregated(s.benchmark).value].Title()
  {
    var res := SelectAgainstBenchmark(Process(cs), name);
    if res.Ok? && res.value.Some? {
      var s := res.value.value;
      var src := s.benchmark[FirstAggregated(s.benchmark).value];
      assert src in Process(cs);
      SameTitleSameAggregate(cs);
      NeverBeatsItself(Process(cs), src, s.thresholds, s.kept);
    }
  }
}
