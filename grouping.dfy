/**
 * Group-by-and-count: the count of rows per key, for a given list of keys
 * (`groupby(...).count()`, `value_counts()` and the cells of a pivot table),
 * and the fact that ties the counts back to the table: over a list of
 * distinct keys that covers every row, the counts add up to the number of rows.
 */
module Grouping {
  import opened Sequences

  /** One output row of a group-and-count: a key and how many rows have it. */
  datatype Group<K> = Group(key: K, count: nat)

  function GroupKeyOf<K>(g: Group<K>): K { g.key }

  /** The number of rows of `s` with each key of `ks`, in the order of `ks`. */
  function CountsBy<T(==,!new), K(==)>(s: seq<T>, key: T -> K, ks: seq<K>): seq<nat> {
    seq(|ks|, i requires 0 <= i < |ks| => |Where(s, key, ks[i])|)
  }

  /** One group per key of `ks`, with its row count from `CountsBy`. */
  function GroupBy<T(==,!new), K(==)>(s: seq<T>, key: T -> K, ks: seq<K>): seq<Group<K>> {
    var counts := CountsBy(s, key, ks);
    seq(|ks|, i requires 0 <= i < |ks| => Group(ks[i], counts[i]))
  }

  /** The count column of a grouped table. */
  function Counts<K>(gs: seq<Group<K>>): seq<nat> {
    seq(|gs|, i requires 0 <= i < |gs| => gs[i].count)
  }

  /** The sum of a column of counts. */
  function Total(xs: seq<nat>): nat
    decreases |xs|
  {
    if xs == [] then 0 else xs[0] + Total(xs[1..])
  }

  /** Appending a row adds one to the total exactly when its key is listed. */
  lemma {:induction false} TotalCountsSnoc<T(!new), K>(s: seq<T>, x: T, key: T -> K, ks: seq<K>)
    requires Distinct(ks)
    ensures Total(CountsBy(s + [x], key, ks)) == Total(CountsBy(s, key, ks)) + (if key(x) in ks then 1 else 0)
    decreases |ks|
  {
    if ks != [] {
      assert (s + [x])[..|s|] == s;
      assert CountsBy(s + [x], key, ks)[1..] == CountsBy(s + [x], key, ks[1..]);
      assert CountsBy(s, key, ks)[1..] == CountsBy(s, key, ks[1..]);
      assert ks == [ks[0]] + ks[1..];
      TotalCountsSnoc(s, x, key, ks[1..]);
    }
  }

  /**
   * Partition: when the keys are distinct and every row's key is among them,
   * the per-key counts add up to the number of rows.
   */
  lemma {:induction false} CountsPartition<T(!new), K>(s: seq<T>, key: T -> K, ks: seq<K>)
    requires Distinct(ks)
    requires forall x :: x in s ==> key(x) in ks
    ensures Total(CountsBy(s, key, ks)) == |s|
    decreases |s|
  {
    if s == [] {
      assert forall k :: k in ks ==> Where(s, key, k) == [];
      ZeroCounts(s, key, ks);
    } else {
      var init, last := s[..|s| - 1], s[|s| - 1];
      assert s == init + [last];
      CountsPartition(init, key, ks);
      TotalCountsSnoc(init, last, key, ks);
    }
  }

  lemma {:induction false} ZeroCounts<T(!new), K>(s: seq<T>, key: T -> K, ks: seq<K>)
    requires s == []
    ensures Total(CountsBy(s, key, ks)) == 0
    decreases |ks|
  {
    if ks != [] {
      assert CountsBy(s, key, ks)[1..] == CountsBy(s, key, ks[1..]);
      ZeroCounts(s, key, ks[1..]);
    }
  }

  /** The same partition, read off a grouped table. */
  lemma GroupByPartition<T(!new), K>(s: seq<T>, key: T -> K, ks: seq<K>)
    requires Distinct(ks)
    requires forall x :: x in s ==> key(x) in ks
    ensures Total(Counts(GroupBy(s, key, ks))) == |s|
  {
    assert Counts(GroupBy(s, key, ks)) == CountsBy(s, key, ks);
    CountsPartition(s, key, ks);
  }

  /** A table with pairwise-distinct keys has as many rows as distinct keys. */
  lemma {:induction false} DistinctKeysCard<T(!new), K>(s: seq<T>, key: T -> K)
    requires DistinctKeys(s, key)
    ensures |Keys(s, key)| == |s|
    decreases |s|
  {
    if s != [] {
      var init, last := s[..|s| - 1], s[|s| - 1];
      assert s == init + [last];
      DistinctKeysCard(init, key);
      KeysSnoc(init, last, key);
      assert key(last) !in Keys(init, key) by {
        forall y | y in init ensures key(y) != key(last) {
          var i :| 0 <= i < |init| && init[i] == y;
          assert s[i] == y;
        }
      }
    }
  }

  /** Each row of a list of row totals equals the matching entry: the grand totals agree. */
  lemma {:induction false} TotalOfRowTotals(cells: seq<seq<nat>>, xs: seq<nat>)
    requires |cells| == |xs|
    requires forall i :: 0 <= i < |xs| ==> Total(cells[i]) == xs[i]
    ensures GridTotal(cells) == Total(xs)
    decreases |xs|
  {
    if xs != [] {
      TotalOfRowTotals(cells[1..], xs[1..]);
    }
  }

  /** The sum of every cell of a grid. */
  function GridTotal(cells: seq<seq<nat>>): nat
    decreases |cells|
  {
    if cells == [] then 0 else Total(cells[0]) + GridTotal(cells[1..])
  }

  /** Column `j` of a grid, a row too short to have one counting as 0 there. */
  function Column(cells: seq<seq<nat>>, j: nat): seq<nat> {
    seq(|cells|, i requires 0 <= i < |cells| => if j < |cells[i]| then cells[i][j] else 0)
  }
}
