/**
 * `groupby('Year').count()`: the shared last step of the per-edition queries.
 */
module YearGroups {
  import opened Wrappers
  import opened Sequences
  import opened Sorting
  import opened Grouping
  import opened Dataset

  /**
   * One group per edition present in `rows`, in ascending order, with the
   * number of rows of that edition; the counts add up to the number of rows.
   */
  function YearCounts(rows: seq<Row>): (r: seq<Group<int>>)
    ensures forall i, j :: 0 <= i < j < |r| ==> r[i].key < r[j].key
    ensures forall y :: y in Keys(r, GroupKeyOf) <==> y in Keys(rows, YearOf)
    ensures forall g :: g in r ==> g.count == |Where(rows, YearOf, g.key)| && g.count >= 1
    ensures Total(Counts(r)) == |rows|
  {
    var years := SortedKeys(rows, YearOf, IntLt);
    YearGroupKeys(rows, years);
    YearGroupCounts(rows, years);
    GroupByPartition(rows, YearOf, years);
    GroupBy(rows, YearOf, years)
  }

  lemma YearGroupKeys(rows: seq<Row>, years: seq<int>)
    requires years == SortedKeys(rows, YearOf, IntLt)
    ensures Distinct(years)
    ensures forall i, j :: 0 <= i < j < |years| ==> years[i] < years[j]
    ensures forall y :: y in Keys(GroupBy(rows, YearOf, years), GroupKeyOf) <==> y in Keys(rows, YearOf)
  {
    var r := GroupBy(rows, YearOf, years);
    IntLtIsStrictTotalOrder();
    forall y ensures y in Keys(r, GroupKeyOf) <==> y in years {
      if y in years {
        var i :| 0 <= i < |years| && years[i] == y;
        assert GroupKeyOf(r[i]) == y;
      }
    }
  }

  lemma YearGroupCounts(rows: seq<Row>, years: seq<int>)
    requires forall y :: y in years ==> y in Keys(rows, YearOf)
    ensures forall g :: g in GroupBy(rows, YearOf, years) ==>
              g.count == |Where(rows, YearOf, g.key)| && g.count >= 1
  {
    var r := GroupBy(rows, YearOf, years);
    forall g | g in r ensures g.count == |Where(rows, YearOf, g.key)| && g.count >= 1 {
      var i :| 0 <= i < |r| && r[i] == g;
      assert years[i] in years;
      var x :| x in rows && x.Year == years[i];
      assert x in Where(rows, YearOf, years[i]);
    }
  }
}
