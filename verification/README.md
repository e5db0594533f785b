# Partial-agonist pair postprocessor, modelled in Dafny

This project models the pure core of `3_Partial_Agonist_Postprocessor.py`, the
script that post-processes a table of docked compounds scored in two receptor
states. Each compound title normally occurs twice in the table, once per state.
The script:

1. checks that the header has the columns `Title`, `MPO_score`,
   `norm_docking_score` and `docking score`;
2. groups the rows by `Title` in order of first appearance. A title with exactly
   two rows gets `Avg_MPO`, `Delta_MPO`, `Avg_norm_docking` and
   `Delta_norm_docking` (the means and absolute differences of the two rows)
   on both rows. Every other group is meant to pass through without these
   columns, as the note at line 37 states; see below for what line 78 does
   with such groups as written;
3. ranks the processed table twice, in descending order of `Avg_MPO` and of
   `Avg_norm_docking`, with rows lacking the column last;
4. finds the benchmark rows, those whose lower-cased title contains the
   lower-cased benchmark name. It reads the thresholds from the first
   benchmark row that has averages and keeps the rows whose two averages both
   strictly exceed them. The output is the kept rows followed by all
   benchmark rows;
5. counts the unique titles above the benchmark on `Avg_MPO`, on
   `Avg_norm_docking`, and on both.

Files and modules:

- `wrappers.dfy` (`Wrappers`): `Option` and `Result`.
- `seqs.dfy` (`Seqs`): filtering, subsequences, first occurrences and
  first-appearance de-duplication.
- `text.dfy` (`Text`): lower-casing and substring search on titles.
- `table.dfy` (`Table`): input rows (`Compound`), the aggregate columns
  (`Aggregate`), processed rows (`Row`), sort keys, and the `Failure` reasons
  that stop the script.
- `validation.dfy` (`Validation`): the required-column check.
- `pairs.dfy` (`Pairs`): group-by-title pair aggregation.
- `ranking.dfy` (`Ranking`): the two descending sorts.
- `benchmark.dfy` (`Benchmark`): benchmark lookup, thresholds, filter, output
  and summary counts.
- `pipeline.dfy` (`Pipeline`): the whole run and the properties that span
  several stages.

Modelling choices:

- Scores are `real`. A NaN aggregate cell is `None`, and a processed row has
  either all four aggregate columns or none (lines 71-75 set them together).
- The model reproduces three of the places where the script raises an
  exception. Each becomes a `Failure`:
  - `MissingRequired` for the `ValueError` at line 56;
  - `NoPairedTitles` when no title has exactly two rows. Under the
    pass-through stated at line 37, the processed table then has no `Avg_MPO`
    column and the column selection before the sort at line 89 would fail.
    An empty input fails already at line 85. As written, such an input
    raises earlier, at line 78 (next item);
  - `BenchmarkWithoutAggregate` for the `IndexError` of `.iloc[0]` at lines
    115-116, when benchmark rows exist but none has averages.

  A fourth place is deliberately not reproduced. Line 64 appends each group
  whose size is not 2 as a whole DataFrame, while line 76 appends the rows of
  a pair as Series. `pd.DataFrame` at line 78 then gets a mixed list, which it
  cannot lay out as rows. So as written the script completes only when every
  title occurs exactly twice. The model follows the intent stated at line 37
  instead: such groups pass through unchanged.
- A missing benchmark is not an error. The script prints a warning and still
  writes both rankings, so the report has `selection == None`.
- pandas' default sort is not stable. `Ranking.SortDesc` inserts rows one at a
  time, but its contract promises only what pandas promises: a permutation,
  non-increasing in the key, missing keys last. `Ranking.SortedKeysUnique`
  shows that these facts fix the key column of the result. Only the order of
  rows with equal keys is left open.
- The script compares strictly, and it appends the benchmark rows only to the
  filtered table, not to the two rankings.

## Model

| member | source | states |
|---|---|---|
| Validation.MissingColumns | 3_Partial_Agonist_Postprocessor.py:53-54 | the reported columns are exactly the required ones absent from the header, listed in required-column order |
| Validation.ValidationFailsIffColumnAbsent | 3_Partial_Agonist_Postprocessor.py:53-56 | validation fails if and only if some required column is absent from the header |
| Seqs.Distinct | 3_Partial_Agonist_Postprocessor.py:59 | the group keys are every title of the table, each exactly once |
| Seqs.DistinctFirstAppearanceOrder | 3_Partial_Agonist_Postprocessor.py:59 | with `sort=False` the groups come in order of the first appearance of their title |
| Pairs.PairAggregate | 3_Partial_Agonist_Postprocessor.py:66-70 | each average is the midpoint of its two scores and lies between their minimum and maximum; each delta is their spread, max minus min, so it is never negative |
| Pairs.PairAggregateSymmetric | 3_Partial_Agonist_Postprocessor.py:66-70 | swapping the two rows of a pair leaves all four statistics unchanged |
| Pairs.ProcessIsPermutation | 3_Partial_Agonist_Postprocessor.py:59-78 | the processed table holds exactly the input rows, each as often as in the input |
| Pairs.ProcessKeepsGroupOrder | 3_Partial_Agonist_Postprocessor.py:62-66 | the rows of each title come out in their input order |
| Pairs.ProcessFirstAppearanceOrder | 3_Partial_Agonist_Postprocessor.py:59-78 | of two processed rows with different titles, the earlier one's title first appears earlier in the input |
| Pairs.ProcessGroupsContiguous | 3_Partial_Agonist_Postprocessor.py:59-78 | rows sharing a title are adjacent in the processed table |
| Pairs.ProcessAggregates | 3_Partial_Agonist_Postprocessor.py:62-76 | a processed row has aggregate columns if and only if its title has exactly two input rows, and then they are the statistics of those two rows |
| Pairs.SameTitleSameAggregate | 3_Partial_Agonist_Postprocessor.py:71-76 | rows with the same title carry the same aggregate columns, or both carry none |
| Pipeline.AggregatesIffSomePair | 3_Partial_Agonist_Postprocessor.py:59-89 | the aggregate columns the sorts need exist if and only if some title has exactly two rows |
| Ranking.SortDesc | 3_Partial_Agonist_Postprocessor.py:89 | the ranking is a permutation of the processed rows, non-increasing in the key, with every row lacking the key after every row having it |
| Ranking.SortedKeysUnique | 3_Partial_Agonist_Postprocessor.py:106 | any two sorted permutations of the same rows have the same key column, so only the order among equal keys is unspecified |
| Text.Lower | 3_Partial_Agonist_Postprocessor.py:111 | lower-casing keeps the length and every character that is not upper case, and maps each letter A-Z to its lower-case letter (code point plus 32) |
| Text.LowerIdempotent | 3_Partial_Agonist_Postprocessor.py:47 | lower-casing a string that is already lower case changes nothing |
| Pipeline.RunOnLoweredName | 3_Partial_Agonist_Postprocessor.py:47 | a run given the name already lower-cased, as line 47 produces it, is the same as a run given the name as typed |
| Text.ContainsIffOccurs | 3_Partial_Agonist_Postprocessor.py:111 | the substring test holds exactly when the name occurs at some position of the title |
| Benchmark.BenchmarkRows | 3_Partial_Agonist_Postprocessor.py:111 | the benchmark rows are exactly the rows whose lower-cased title contains the name, in table order, each with the multiplicity it has in the table |
| Benchmark.BenchmarkIffNameOccurs | 3_Partial_Agonist_Postprocessor.py:111 | a row is a benchmark row if and only if the name occurs somewhere in its lower-cased title |
| Benchmark.FirstKey | 3_Partial_Agonist_Postprocessor.py:115-116 | the threshold read from a column is its value in the first row where it is present, and is missing only when no row has it |
| Benchmark.FirstAggregated | 3_Partial_Agonist_Postprocessor.py:115 | the position found holds a row with aggregates and every earlier row lacks them; there is none only when no row has them |
| Benchmark.FirstKeysFromOneRow | 3_Partial_Agonist_Postprocessor.py:115-116 | both thresholds are read from the same row, the first benchmark row that has aggregate columns |
| Benchmark.ThresholdsOf | 3_Partial_Agonist_Postprocessor.py:115-116 | the thresholds exist exactly when some benchmark row has aggregates, and are that first row's two averages |
| Pipeline.NeverBeatsItself | 3_Partial_Agonist_Postprocessor.py:115-122 | when every row of a title carries the same aggregates, no row sharing the title of the row that supplied the thresholds passes the strict filter |
| Benchmark.AboveBenchmark | 3_Partial_Agonist_Postprocessor.py:119-122 | a row is kept if and only if both its averages are present and strictly exceed the thresholds; rows without aggregates are never kept; table order and each kept row's multiplicity are kept |
| Benchmark.SelectAgainstBenchmark | 3_Partial_Agonist_Postprocessor.py:111-124 | not found exactly when no title matches; an error exactly when matches exist but none has aggregates; otherwise the output is the kept rows followed by all benchmark rows |
| Pipeline.BenchmarkNeverBeatsItself | 3_Partial_Agonist_Postprocessor.py:115-122 | no kept row has the title of the benchmark row that supplied the thresholds, because the comparison is strict |
| Benchmark.TitlesAbove | 3_Partial_Agonist_Postprocessor.py:134-135 | a title is counted if and only if some row with that title has a value in the column strictly above the threshold |
| Benchmark.SummaryCountsOrdered | 3_Partial_Agonist_Postprocessor.py:134-136 | the unique titles above the benchmark on both averages are no more than those above it on Avg_MPO alone, or on Avg_norm_docking alone |
| Pipeline.RankAndSelect | 3_Partial_Agonist_Postprocessor.py:89-136 | both rankings are sorted permutations of the processed table; the summary exists exactly when the benchmark was found, and then holds the unique-title counts of the two rankings and of the kept rows |
| Pipeline.Run | 3_Partial_Agonist_Postprocessor.py:53-136 | the run fails on missing columns exactly when one is absent, fails for lack of pairs exactly when no processed row has aggregates, and fails on the benchmark exactly when its rows lack them; otherwise the report is built from the processed table, and its summary holds the unique-title counts of the two rankings and of the kept rows |

## Left out

- Console and file I/O: the prompts and path clean-up (lines 46-47, including the `strip` of the typed name), `read_csv` and `to_csv`, the output paths (lines 50, 90-92, 107-108, 129-130) and the summary `print`s (lines 113, 133-145). The benchmark name is a parameter, and the summary counts are returned instead of printed.
- Column reordering for the CSV layout (lines 81-88, 95-105, 126-128). It changes neither which rows appear nor their order.
- CSV columns other than the four required ones. The script carries them along unchanged, and the model does not represent them.
- Floating point: scores are exact reals. A NaN in an input score, and NaN propagation through the averages, are not modelled.
- The regular-expression reading of `str.contains`: the benchmark name is matched as a plain substring.
- Text.Lower: folds only the ASCII letters A-Z. Python's `str.lower` also folds other Unicode letters.
- Null titles, which `groupby` drops: titles are always strings here.
- The exception at line 78: as written, the script raises there whenever some title does not occur exactly twice, because `pd.DataFrame` receives a list mixing whole groups (DataFrames, line 64) with single rows (Series, line 76). The model instead passes such groups through unchanged, as line 37 states, and returns a report for these inputs.
- Pipeline.Run: on `BenchmarkWithoutAggregate` only the error is returned, although the script has already written both rankings before it raises.
