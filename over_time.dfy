/**
 * Participation over time (helper.py `data_over_time`): for one column — the
 * region, the event or the athlete's name — how many distinct values occur in
 * each edition of the Games.
 */
module OverTime {
  import opened Sequences
  import opened Deduplication
  import opened Sorting
  import opened Grouping
  import opened Dataset
  import opened YearGroups

  /** The distinct values of column `col` among the rows of year `y`. */
  ghost function ColumnValues<V>(df: seq<Row>, col: Row -> V, y: int): set<V> {
    set x | x in df && x.Year == y :: col(x)
  }

  /**
   * `[Edition, col]`: one row per edition in the table, in ascending order,
   * counting the distinct values of `col` in that edition.  Over all editions
   * the counts add up to the number of distinct (edition, value) pairs.
   */
  function DataOverTime<V(==,!new)>(df: seq<Row>, col: Row -> V): (r: seq<Group<int>>)
    ensures forall i, j :: 0 <= i < j < |r| ==> r[i].key < r[j].key
    ensures forall y :: y in Keys(r, GroupKeyOf) <==> y in Keys(df, YearOf)
    ensures forall g :: g in r ==> g.count == |ColumnValues(df, col, g.key)|
    ensures Total(Counts(r)) == |Keys(df, YearColKey(col))|
  {
    var d := Dedup(df, YearColKey(col));
    DataOverTimeCorrect(df, col, d);
    YearCounts(d)
  }

  lemma DataOverTimeCorrect<V(!new)>(df: seq<Row>, col: Row -> V, d: seq<Row>)
    requires d == Dedup(df, YearColKey(col))
    ensures Keys(d, YearOf) == Keys(df, YearOf)
    ensures forall g :: g in YearCounts(d) ==> g.count == |ColumnValues(df, col, g.key)|
    ensures |d| == |Keys(df, YearColKey(col))|
  {
    var key := YearColKey(col);
    assert Keys(d, YearOf) == Keys(df, YearOf) by {
      forall y | y in Keys(df, YearOf) ensures y in Keys(d, YearOf) {
        var x :| x in df && x.Year == y;
        assert key(x) in Keys(d, key);
        var z :| z in d && key(z) == key(x);
      }
    }
    forall g | g in YearCounts(d) ensures g.count == |ColumnValues(df, col, g.key)| {
      DistinctCount(df, col, d, g.key);
    }
    DistinctKeysCard(d, key);
  }

  /** Within one edition the surviving rows have distinct values of `col`, one per value. */
  lemma DistinctCount<V(!new)>(df: seq<Row>, col: Row -> V, d: seq<Row>, y: int)
    requires d == Dedup(df, YearColKey(col))
    ensures |Where(d, YearOf, y)| == |ColumnValues(df, col, y)|
  {
    var key := YearColKey(col);
    var w := Where(d, YearOf, y);
    WhereKeepsDistinct(d, YearOf, y, key);
    forall i, j | 0 <= i < j < |w| ensures col(w[i]) != col(w[j]) {
      assert w[i] in w && w[j] in w;
      assert key(w[i]) != key(w[j]);
    }
    DistinctKeysCard(w, col);
    assert Keys(w, col) == ColumnValues(df, col, y) by {
      forall v | v in ColumnValues(df, col, y) ensures v in Keys(w, col) {
        var x :| x in df && x.Year == y && col(x) == v;
        assert key(x) in Keys(d, key);
        var z :| z in d && key(z) == key(x);
        assert z in w;
      }
    }
  }
}
