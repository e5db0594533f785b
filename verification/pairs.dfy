/**
 * Pair aggregation: the rows are grouped by Title in order of first appearance;
 * a title with exactly two rows gets the average and the absolute difference of
 * its MPO and normalised docking scores on both rows, and every other group is
 * passed through without them.
 */
module Pairs {
  import opened Wrappers
  import opened Seqs
  import opened Table

  function Min(a: real, b: real): real {
    if a <= b then a else b
  }

  function Max(a: real, b: real): real {
    if a <= b then b else a
  }

  function Abs(x: real): real {
    if x < 0.0 then -x else x
  }

  /** The four statistics of a pair: the averages are the midpoints and the deltas the spreads. */
  function PairAggregate(a: Compound, b: Compound): (g: Aggregate)
    ensures Min(a.mpo, b.mpo) <= g.avgMpo <= Max(a.mpo, b.mpo)
    ensures g.avgMpo - Min(a.mpo, b.mpo) == Max(a.mpo, b.mpo) - g.avgMpo
    ensures g.deltaMpo == Max(a.mpo, b.mpo) - Min(a.mpo, b.mpo) >= 0.0
    ensures Min(a.normDocking, b.normDocking) <= g.avgNormDocking <= Max(a.normDocking, b.normDocking)
    ensures g.avgNormDocking - Min(a.normDocking, b.normDocking) == Max(a.normDocking, b.normDocking) - g.avgNormDocking
    ensures g.deltaNormDocking == Max(a.normDocking, b.normDocking) - Min(a.normDocking, b.normDocking) >= 0.0
  {
    Aggregate((a.mpo + b.mpo) / 2.0, Abs(a.mpo - b.mpo),
              (a.normDocking + b.normDocking) / 2.0, Abs(a.normDocking - b.normDocking))
  }

  /** Swapping the two rows of a pair does not change its statistics. */
  lemma PairAggregateSymmetric(a: Compound, b: Compound)
    ensures PairAggregate(a, b) == PairAggregate(b, a)
  {
  }

  /** The rows of `cs` whose title is in `ts`, in their original order. */
  function Select(cs: seq<Compound>, ts: set<string>): (r: seq<Compound>)
    ensures forall i :: 0 <= i < |r| ==> r[i].title in ts
  {
    if |cs| == 0 then []
    else (if cs[0].title in ts then [cs[0]] else []) + Select(cs[1..], ts)
  }

  /** The group of one title, in input order. */
  function Group(cs: seq<Compound>, t: string): seq<Compound> {
    Select(cs, {t})
  }

  /** The statistics a group contributes: present only for a group of exactly two rows. */
  function GroupAggregate(g: seq<Compound>): Option<Aggregate> {
    if |g| == 2 then Some(PairAggregate(g[0], g[1])) else None
  }

  /** The rows of a group, each extended with the same aggregate columns. */
  function Attach(g: seq<Compound>, a: Option<Aggregate>): (rows: seq<Row>)
    ensures Compounds(rows) == g
    ensures forall i :: 0 <= i < |rows| ==> rows[i].agg == a
  {
    seq(|g|, i requires 0 <= i < |g| => Row(g[i], a))
  }

  /** The processed groups of the titles `ts`, one after the other. */
  function ProcessTitles(cs: seq<Compound>, ts: seq<string>): seq<Row>
    decreases |ts|
  {
    if |ts| == 0 then []
    else
      var g := Group(cs, ts[0]);
      Attach(g, GroupAggregate(g)) + ProcessTitles(cs, ts[1..])
  }

  /** The processed table: every group, in order of first appearance of its title. */
  function Process(cs: seq<Compound>): seq<Row> {
    ProcessTitles(cs, Distinct(Titles(cs)))
  }

  function SetOf(ts: seq<string>): set<string> {
    set t | t in ts
  }

  // ---------------------------------------------------------------------------
  // Facts about Select

  lemma {:induction false} SelectOfConcat(a: seq<Compound>, b: seq<Compound>, ts: set<string>)
    ensures Select(a + b, ts) == Select(a, ts) + Select(b, ts)
    decreases |a|
  {
    if |a| > 0 {
      assert (a + b)[0] == a[0];
      assert (a + b)[1..] == a[1..] + b;
      SelectOfConcat(a[1..], b, ts);
    } else {
      assert a + b == b;
    }
  }

  lemma {:induction false} SelectOfSelect(cs: seq<Compound>, s: set<string>, t: set<string>)
    ensures Select(Select(cs, s), t) == Select(cs, s * t)
    decreases |cs|
  {
    if |cs| > 0 {
      SelectOfSelect(cs[1..], s, t);
      var head := if cs[0].title in s then [cs[0]] else [];
      SelectOfConcat(head, Select(cs[1..], s), t);
    }
  }

  lemma {:induction false} SelectMembers(cs: seq<Compound>, ts: set<string>)
    ensures forall c :: c in Select(cs, ts) <==> c in cs && c.title in ts
    decreases |cs|
  {
    if |cs| > 0 {
      SelectMembers(cs[1..], ts);
      assert cs == [cs[0]] + cs[1..];
    }
  }

  lemma {:induction false} SelectNone(cs: seq<Compound>, ts: set<string>)
    requires forall i :: 0 <= i < |cs| ==> cs[i].title !in ts
    ensures Select(cs, ts) == []
    decreases |cs|
  {
    if |cs| > 0 {
      SelectNone(cs[1..], ts);
    }
  }

  lemma {:induction false} SelectAll(cs: seq<Compound>, ts: set<string>)
    requires forall i :: 0 <= i < |cs| ==> cs[i].title in ts
    ensures Select(cs, ts) == cs
    decreases |cs|
  {
    if |cs| > 0 {
      SelectAll(cs[1..], ts);
      assert cs == [cs[0]] + cs[1..];
    }
  }

  lemma {:induction false} SelectSplit(cs: seq<Compound>, s: set<string>, t: set<string>)
    requires s !! t
    ensures multiset(Select(cs, s + t)) == multiset(Select(cs, s)) + multiset(Select(cs, t))
    decreases |cs|
  {
    if |cs| > 0 {
      SelectSplit(cs[1..], s, t);
    }
  }

  lemma CompoundsOfConcat(a: seq<Row>, b: seq<Row>)
    ensures Compounds(a + b) == Compounds(a) + Compounds(b)
  {
  }

  // ---------------------------------------------------------------------------
  // ProcessTitles, one title at a time

  /** Every row's title is one of `ts`. */
  predicate TitlesWithin(rows: seq<Row>, ts: seq<string>) {
    forall i :: 0 <= i < |rows| ==> rows[i].Title() in ts
  }

  /** Of two rows with different titles, the earlier one's title appears first in `titles`. */
  predicate InFirstAppearanceOrder(rows: seq<Row>, titles: seq<string>) {
    forall i, j :: 0 <= i < j < |rows| && rows[i].Title() != rows[j].Title() ==>
      (rows[i].Title() in titles && rows[j].Title() in titles &&
       FirstIndex(titles, rows[i].Title()) < FirstIndex(titles, rows[j].Title()))
  }

  /** Every row carries the aggregate of its title's group. */
  predicate CarriesGroupAggregate(rows: seq<Row>, cs: seq<Compound>) {
    forall i :: 0 <= i < |rows| ==> rows[i].agg == GroupAggregate(Group(cs, rows[i].Title()))
  }

  /** The block of one title consists of that title's rows with its group aggregate. */
  lemma Block(cs: seq<Compound>, t: string)
    ensures TitlesWithin(Attach(Group(cs, t), GroupAggregate(Group(cs, t))), [t])
    ensures CarriesGroupAggregate(Attach(Group(cs, t), GroupAggregate(Group(cs, t))), cs)
  {
    var g := Group(cs, t);
    var block := Attach(g, GroupAggregate(g));
    forall i | 0 <= i < |block|
      ensures block[i].Title() == t
    {
      assert Compounds(block)[i] == g[i];
    }
  }

  lemma {:induction false} ProcessTitlesMultiset(cs: seq<Compound>, ts: seq<string>)
    requires NoDuplicates(ts)
    ensures multiset(Compounds(ProcessTitles(cs, ts))) == multiset(Select(cs, SetOf(ts)))
    decreases |ts|
  {
    if |ts| == 0 {
      SelectNone(cs, {});
    } else {
      var g := Group(cs, ts[0]);
      var rest := ts[1..];
      NoDuplicatesTail(ts);
      ProcessTitlesMultiset(cs, rest);
      CompoundsOfConcat(Attach(g, GroupAggregate(g)), ProcessTitles(cs, rest));
      assert SetOf(ts) == {ts[0]} + SetOf(rest);
      SelectSplit(cs, {ts[0]}, SetOf(rest));
    }
  }

  lemma {:induction false} ProcessTitlesGroup(cs: seq<Compound>, ts: seq<string>, t: string)
    requires NoDuplicates(ts)
    ensures Group(Compounds(ProcessTitles(cs, ts)), t) == if t in ts then Group(cs, t) else []
    decreases |ts|
  {
    if |ts| == 0 {
      SelectNone([], {t});
    } else {
      var g := Group(cs, ts[0]);
      var block := Attach(g, GroupAggregate(g));
      var rest := ProcessTitles(cs, ts[1..]);
      NoDuplicatesTail(ts);
      ProcessTitlesGroup(cs, ts[1..], t);
      assert ProcessTitles(cs, ts) == block + rest;
      CompoundsOfConcat(block, rest);
      SelectOfConcat(g, Compounds(rest), {t});
      assert Group(Compounds(ProcessTitles(cs, ts)), t) == Select(g, {t}) + Group(Compounds(rest), t);
      SelectOfSelect(cs, {ts[0]}, {t});
      if t == ts[0] {
        assert {ts[0]} * {t} == {t};
      } else {
        assert {ts[0]} * {t} == {};
        SelectNone(cs, {});
      }
    }
  }

  lemma {:induction false} ProcessTitlesRows(cs: seq<Compound>, ts: seq<string>)
    ensures TitlesWithin(ProcessTitles(cs, ts), ts)
    ensures CarriesGroupAggregate(ProcessTitles(cs, ts), cs)
    decreases |ts|
  {
    if |ts| > 0 {
      var g := Group(cs, ts[0]);
      var block := Attach(g, GroupAggregate(g));
      var rest := ProcessTitles(cs, ts[1..]);
      ProcessTitlesRows(cs, ts[1..]);
      Block(cs, ts[0]);
      var out := ProcessTitles(cs, ts);
      assert out == block + rest;
      forall i | 0 <= i < |out|
        ensures out[i].Title() in ts
      {
        if i < |block| {
          assert out[i] == block[i];
        } else {
          assert out[i] == rest[i - |block|];
        }
      }
    }
  }

  lemma {:induction false} ProcessTitlesOrder(cs: seq<Compound>, ts: seq<string>)
    requires forall a :: 0 <= a < |ts| ==> ts[a] in Titles(cs)
    requires forall a, b :: 0 <= a < b < |ts| ==> FirstIndex(Titles(cs), ts[a]) < FirstIndex(Titles(cs), ts[b])
    ensures InFirstAppearanceOrder(ProcessTitles(cs, ts), Titles(cs))
    decreases |ts|
  {
    if |ts| > 0 {
      var titles := Titles(cs);
      var g := Group(cs, ts[0]);
      var block := Attach(g, GroupAggregate(g));
      var rest := ProcessTitles(cs, ts[1..]);
      var out := ProcessTitles(cs, ts);
      ProcessTitlesOrder(cs, ts[1..]);
      ProcessTitlesRows(cs, ts[1..]);
      Block(cs, ts[0]);
      assert out == block + rest;
      assert forall i :: 0 <= i < |block| ==> out[i] == block[i];
      forall i, j | 0 <= i < j < |out| && out[i].Title() != out[j].Title()
        ensures out[i].Title() in titles && out[j].Title() in titles
        ensures FirstIndex(titles, out[i].Title()) < FirstIndex(titles, out[j].Title())
      {
        if i < |block| && |block| <= j {
          assert out[i] == block[i];
          assert out[j] == rest[j - |block|];
          var b :| 0 <= b < |ts[1..]| && ts[1..][b] == out[j].Title();
          assert ts[b + 1] == out[j].Title();
        } else if |block| <= i {
          assert out[i] == rest[i - |block|];
          assert out[j] == rest[j - |block|];
        }
      }
    }
  }

  // ---------------------------------------------------------------------------
  // Properties of the processed table

  /** The processed table is a permutation of the input rows. */
  lemma ProcessIsPermutation(cs: seq<Compound>)
    ensures multiset(Compounds(Process(cs))) == multiset(cs)
  {
    var ts := Distinct(Titles(cs));
    ProcessTitlesMultiset(cs, ts);
    forall i | 0 <= i < |cs|
      ensures cs[i].title in SetOf(ts)
    {
      assert Titles(cs)[i] == cs[i].title;
    }
    SelectAll(cs, SetOf(ts));
  }

  /** Each title's rows come out in their input order: grouping reorders only across titles. */
  lemma ProcessKeepsGroupOrder(cs: seq<Compound>, t: string)
    ensures Group(Compounds(Process(cs)), t) == Group(cs, t)
  {
    var ts := Distinct(Titles(cs));
    ProcessTitlesGroup(cs, ts, t);
    if t !in ts {
      forall i | 0 <= i < |cs|
        ensures cs[i].title !in {t}
      {
        assert Titles(cs)[i] == cs[i].title;
      }
      SelectNone(cs, {t});
    }
  }

  /**
   * Groups are contiguous and appear in order of the first appearance of their
   * title: of two rows with different titles, the earlier one's title appears
   * first in the input.
   */
  lemma ProcessFirstAppearanceOrder(cs: seq<Compound>)
    ensures InFirstAppearanceOrder(Process(cs), Titles(cs))
  {
    DistinctFirstAppearanceOrder(Titles(cs));
    ProcessTitlesOrder(cs, Distinct(Titles(cs)));
  }

  /** Consequence: rows sharing a title are adjacent in the processed table. */
  lemma ProcessGroupsContiguous(cs: seq<Compound>)
    ensures forall i, j, k :: 0 <= i < j < k < |Process(cs)| && Process(cs)[i].Title() == Process(cs)[k].Title() ==>
              Process(cs)[j].Title() == Process(cs)[i].Title()
  {
    ProcessFirstAppearanceOrder(cs);
  }

  /**
   * A row carries aggregate columns exactly when its title has two rows in the
   * input, and then they are the statistics of those two rows, in input order.
   */
  lemma ProcessAggregates(cs: seq<Compound>)
    ensures forall i :: 0 <= i < |Process(cs)| ==>
              (Process(cs)[i].agg.Some? <==> |Group(cs, Process(cs)[i].Title())| == 2)
    ensures forall i :: 0 <= i < |Process(cs)| && Process(cs)[i].agg.Some? ==>
              var g := Group(cs, Process(cs)[i].Title());
              |g| == 2 && Process(cs)[i].agg.value == PairAggregate(g[0], g[1])
  {
    ProcessTitlesRows(cs, Distinct(Titles(cs)));
  }

  /** Every processed row carries the aggregate of its title's group. */
  lemma ProcessCarriesGroupAggregate(cs: seq<Compound>)
    ensures CarriesGroupAggregate(Process(cs), cs)
  {
    ProcessTitlesRows(cs, Distinct(Titles(cs)));
  }

  /** Rows with the same title carry the same aggregate columns (or both none). */
  predicate AggregatePerTitle(rows: seq<Row>) {
    forall i, j :: 0 <= i < |rows| && 0 <= j < |rows| && rows[i].Title() == rows[j].Title() ==>
      rows[i].agg == rows[j].agg
  }

  lemma GroupAggregatePerTitle(rows: seq<Row>, cs: seq<Compound>)
    requires CarriesGroupAggregate(rows, cs)
    ensures AggregatePerTitle(rows)
  {
  }

  /** In the processed table the aggregate columns are a function of the title. */
  lemma SameTitleSameAggregate(cs: seq<Compound>)
    ensures AggregatePerTitle(Process(cs))
  {
    ProcessTitlesRows(cs, Distinct(Titles(cs)));
    GroupAggregatePerTitle(Process(cs), cs);
  }
}
