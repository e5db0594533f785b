/**
 * The two rankings: the processed table sorted in descending order of Avg_MPO
 * and of Avg_norm_docking, rows without the column (NaN) placed last.
 */
module Ranking {
  import opened Wrappers
  import opened Table

  /** A key may stand before another in descending order with missing keys last. */
  predicate KeyPrecedes(x: Option<real>, y: Option<real>) {
    match x
    case None => y.None?
    case Some(v) => y.None? || v >= y.value
  }

  predicate Precedes(a: Row, b: Row, k: SortKey) {
    KeyPrecedes(KeyOf(a, k), KeyOf(b, k))
  }

  /** Non-increasing in the key, with every row lacking the key after every row having it. */
  predicate SortedDesc(rows: seq<Row>, k: SortKey) {
    forall i, j :: 0 <= i < j < |rows| ==> Precedes(rows[i], rows[j], k)
  }

  lemma KeyPrecedesTransitive(x: Option<real>, y: Option<real>, z: Option<real>)
    requires KeyPrecedes(x, y) && KeyPrecedes(y, z)
    ensures KeyPrecedes(x, z)
  {
  }

  /** A row that may precede the head of a sorted table may precede all of it. */
  lemma PrependSorted(r: Row, rows: seq<Row>, k: SortKey)
    requires SortedDesc(rows, k)
    requires |rows| == 0 || Precedes(r, rows[0], k)
    ensures SortedDesc([r] + rows, k)
  {
    var out := [r] + rows;
    forall i, j | 0 <= i < j < |out|
      ensures Precedes(out[i], out[j], k)
    {
      if i == 0 && j > 1 {
        KeyPrecedesTransitive(KeyOf(r, k), KeyOf(rows[0], k), KeyOf(rows[j - 1], k));
      }
    }
  }

  /** Inserting one row into a sorted table. */
  function Insert(r: Row, rows: seq<Row>, k: SortKey): (out: seq<Row>)
    requires SortedDesc(rows, k)
    ensures SortedDesc(out, k)
    ensures multiset(out) == multiset(rows) + multiset{r}
    decreases |rows|
  {
    if |rows| == 0 then [r]
    else if Precedes(r, rows[0], k) then
      PrependSorted(r, rows, k);
      [r] + rows
    else
      var tail := Insert(r, rows[1..], k);
      assert rows == [rows[0]] + rows[1..];
      PrependAfterInsert(rows[0], r, rows[1..], tail, k);
      [rows[0]] + tail
  }

  /** The head of a sorted table still leads after another row is inserted behind it. */
  lemma PrependAfterInsert(h: Row, r: Row, rest: seq<Row>, tail: seq<Row>, k: SortKey)
    requires SortedDesc([h] + rest, k) && SortedDesc(tail, k)
    requires !Precedes(r, h, k)
    requires multiset(tail) == multiset(rest) + multiset{r}
    ensures SortedDesc([h] + tail, k)
  {
    if |tail| > 0 {
      assert tail[0] in multiset(tail);
      if tail[0] != r {
        assert tail[0] in rest;
        var m :| 0 <= m < |rest| && rest[m] == tail[0];
        assert ([h] + rest)[m + 1] == tail[0];
        assert Precedes(([h] + rest)[0], ([h] + rest)[m + 1], k);
      } else {
        assert KeyPrecedes(KeyOf(h, k), KeyOf(r, k));
      }
    }
    PrependSorted(h, tail, k);
  }

  /**
   * The table sorted by one key in descending order. The rows are inserted
   * one at a time, which happens to keep ties in input order; pandas' default
   * sort does not promise that, so the contract does not either.
   */
  function SortDesc(rows: seq<Row>, k: SortKey): (out: seq<Row>)
    ensures SortedDesc(out, k)
    ensures multiset(out) == multiset(rows)
    // Missing keys come last; this already follows from SortedDesc and is spelled out for readers.
    ensures forall i, j :: 0 <= i < j < |out| && KeyOf(out[i], k).None? ==> KeyOf(out[j], k).None?
    decreases |rows|
  {
    if |rows| == 0 then []
    else
      assert rows == [rows[0]] + rows[1..];
      Insert(rows[0], SortDesc(rows[1..], k), k)
  }

  /** The key column of a table. */
  function Keys(rows: seq<Row>, k: SortKey): (ks: seq<Option<real>>)
    ensures |ks| == |rows|
    ensures forall i :: 0 <= i < |rows| ==> ks[i] == KeyOf(rows[i], k)
  {
    seq(|rows|, i requires 0 <= i < |rows| => KeyOf(rows[i], k))
  }

  lemma SortedDrop(rows: seq<Row>, k: SortKey, j: nat)
    requires j < |rows| && SortedDesc(rows, k)
    ensures SortedDesc(rows[..j] + rows[j + 1..], k)
  {
    var d := rows[..j] + rows[j + 1..];
    forall a, b | 0 <= a < b < |d|
      ensures Precedes(d[a], d[b], k)
    {
      var a' := if a < j then a else a + 1;
      var b' := if b < j then b else b + 1;
      assert d[a] == rows[a'] && d[b] == rows[b'];
    }
  }

  lemma MultisetAfterDrop(a: seq<Row>, b: seq<Row>, j: nat)
    requires multiset(a) == multiset(b) && |a| > 0 && j < |b| && b[j] == a[0]
    ensures multiset(a[1..]) == multiset(b[..j] + b[j + 1..])
  {
    assert b == b[..j] + [b[j]] + b[j + 1..];
    assert a == [a[0]] + a[1..];
    assert multiset(b) == multiset(b[..j]) + multiset{b[j]} + multiset(b[j + 1..]);
    assert multiset(b[..j] + b[j + 1..]) == multiset(b[..j]) + multiset(b[j + 1..]);
    assert multiset(a) == multiset{a[0]} + multiset(a[1..]);
    calc {
      multiset(a[1..]);
      multiset(a) - multiset{a[0]};
      multiset(b) - multiset{b[j]};
      multiset(b[..j]) + multiset(b[j + 1..]);
    }
  }

  lemma KeysCons(a: seq<Row>, k: SortKey)
    requires |a| > 0
    ensures Keys(a, k) == [KeyOf(a[0], k)] + Keys(a[1..], k)
  {
  }

  /** The heads of two sorted arrangements of the same rows have the same key. */
  lemma SortedHeadsAgree(a: seq<Row>, b: seq<Row>, k: SortKey)
    requires SortedDesc(a, k) && SortedDesc(b, k)
    requires multiset(a) == multiset(b) && |a| > 0
    ensures |b| > 0 && KeyOf(a[0], k) == KeyOf(b[0], k)
  {
    assert a[0] in multiset(b);
    var j :| 0 <= j < |b| && b[j] == a[0];
    assert b[0] in multiset(a);
    var i :| 0 <= i < |a| && a[i] == b[0];
    assert Precedes(a[0], a[i], k) || i == 0;
    assert Precedes(b[0], b[j], k) || j == 0;
  }

  /** In a sorted table, rows between two rows with equal keys have that key too. */
  lemma SortedPlateau(b: seq<Row>, k: SortKey, j: nat)
    requires SortedDesc(b, k) && j < |b| && KeyOf(b[0], k) == KeyOf(b[j], k)
    ensures forall m :: 0 <= m <= j ==> KeyOf(b[m], k) == KeyOf(b[0], k)
  {
    forall m | 0 < m < j
      ensures KeyOf(b[m], k) == KeyOf(b[0], k)
    {
      assert Precedes(b[0], b[m], k) && Precedes(b[m], b[j], k);
    }
  }

  /** Dropping a row from the end of a plateau starting at the head. */
  lemma KeysAfterDrop(b: seq<Row>, k: SortKey, j: nat)
    requires j < |b|
    requires forall m :: 0 <= m <= j ==> KeyOf(b[m], k) == KeyOf(b[0], k)
    ensures Keys(b, k) == [KeyOf(b[0], k)] + Keys(b[..j] + b[j + 1..], k)
  {
    var d := b[..j] + b[j + 1..];
    var lhs := Keys(b, k);
    var rhs := [KeyOf(b[0], k)] + Keys(d, k);
    forall m | 0 < m < |b|
      ensures lhs[m] == rhs[m]
    {
      if m <= j {
        assert d[m - 1] == b[m - 1];
      } else {
        assert d[m - 1] == b[m];
      }
    }
  }

  /**
   * Any two sorted arrangements of the same rows have the same key column, so
   * the ranking is determined up to the order of rows with equal keys.
   */
  lemma {:induction false} SortedKeysUnique(a: seq<Row>, b: seq<Row>, k: SortKey)
    requires SortedDesc(a, k) && SortedDesc(b, k)
    requires multiset(a) == multiset(b)
    ensures Keys(a, k) == Keys(b, k)
    decreases |a|
  {
    if |a| == 0 {
      assert |b| == |multiset(b)| == 0;
    } else {
      SortedHeadsAgree(a, b, k);
      assert a[0] in multiset(b);
      var j :| 0 <= j < |b| && b[j] == a[0];
      SortedPlateau(b, k, j);
      KeysAfterDrop(b, k, j);
      var b' := b[..j] + b[j + 1..];
      SortedDrop(b, k, j);
      SortedDrop(a, k, 0);
      assert a[..0] + a[1..] == a[1..];
      MultisetAfterDrop(a, b, j);
      SortedKeysUnique(a[1..], b', k);
      KeysCons(a, k);
    }
  }
}
