/**
 * One country's medals (helper.py `yearwise_medal_tally` and
 * `country_event_heatmap`).  Both queries take the medal rows, keep the first
 * row of each (Team, NOC, Year, City, Sport, Event, Medal) unit, and then keep
 * the units of the chosen region; the first counts them per edition, the
 * second per sport and edition.
 */
module CountryAnalysis {
  import opened Wrappers
  import opened Sequences
  import opened Deduplication
  import opened Sorting
  import opened Grouping
  import opened Dataset
  import opened YearGroups

  /** The medal units of one region, deduplicated before the region filter. */
  function CountryUnits(df: seq<Row>, country: string): (r: seq<Row>)
    ensures forall x :: x in r ==> x in df && x.Medal.Some? && x.region == Some(country)
    ensures DistinctKeys(r, CountryUnitKey)
  {
    var d := Dedup(MedalRows(df), CountryUnitKey);
    WhereKeepsDistinct(d, RegionOf, Some(country), CountryUnitKey);
    Where(d, RegionOf, Some(country))
  }

  /**
   * A unit is kept exactly when the first medal row of that unit in the table
   * belongs to the region.
   */
  lemma CountryUnitsFirst(df: seq<Row>, country: string, k: (string, string, int, string, string, string, Option<MedalKind>))
    ensures k in Keys(CountryUnits(df, country), CountryUnitKey) <==>
            var f := First(MedalRows(df), CountryUnitKey, k); f.Some? && f.value.region == Some(country)
  {
    var m := MedalRows(df);
    var d := Dedup(m, CountryUnitKey);
    var f := First(m, CountryUnitKey, k);
    if k in Keys(CountryUnits(df, country), CountryUnitKey) {
      var x :| x in CountryUnits(df, country) && CountryUnitKey(x) == k;
      DedupKeepsFirst(m, CountryUnitKey, x);
    }
    if f.Some? && f.value.region == Some(country) {
      assert k in Keys(d, CountryUnitKey);
      var x :| x in d && CountryUnitKey(x) == k;
      DedupKeepsFirst(m, CountryUnitKey, x);
      assert x in CountryUnits(df, country);
    }
  }

  /** Every row of a NOC maps to the same region. */
  ghost predicate RegionFollowsNoc(df: seq<Row>) {
    forall x, y :: x in df && y in df && x.NOC == y.NOC ==> x.region == y.region
  }

  /**
   * When the region is a function of the NOC, deduplicating before the region
   * filter loses no unit of the region: every medal of the region is counted
   * once.
   */
  lemma CountryUnitsCover(df: seq<Row>, country: string)
    requires RegionFollowsNoc(df)
    ensures Keys(CountryUnits(df, country), CountryUnitKey) ==
            Keys(Where(MedalRows(df), RegionOf, Some(country)), CountryUnitKey)
  {
    var m := MedalRows(df);
    forall k | k in Keys(Where(m, RegionOf, Some(country)), CountryUnitKey)
      ensures k in Keys(CountryUnits(df, country), CountryUnitKey)
    {
      var y :| y in Where(m, RegionOf, Some(country)) && CountryUnitKey(y) == k;
      var f := First(m, CountryUnitKey, k);
      assert k in Keys(m, CountryUnitKey);
      CountryUnitsFirst(df, country, k);
    }
    forall k | k in Keys(CountryUnits(df, country), CountryUnitKey)
      ensures k in Keys(Where(m, RegionOf, Some(country)), CountryUnitKey)
    {
      var x :| x in CountryUnits(df, country) && CountryUnitKey(x) == k;
      assert x in Where(m, RegionOf, Some(country));
    }
  }

  /**
   * `[Year, Medal]`: one row per edition in which the region won a medal unit,
   * in ascending order, with the number of its units that edition; the counts
   * add up to all of its units.
   */
  function YearwiseMedalTally(df: seq<Row>, country: string): (r: seq<Group<int>>)
    ensures forall i, j :: 0 <= i < j < |r| ==> r[i].key < r[j].key
    ensures forall y :: y in Keys(r, GroupKeyOf) <==> y in Keys(CountryUnits(df, country), YearOf)
    ensures forall g :: g in r ==> g.count == |Where(CountryUnits(df, country), YearOf, g.key)| && g.count >= 1
    ensures Total(Counts(r)) == |CountryUnits(df, country)|
  {
    YearCounts(CountryUnits(df, country))
  }

  /**
   * The pivot table: sports down, editions across, and in each cell the
   * number of the region's units of that sport in that edition (0 where there
   * are none).
   */
  datatype Heatmap = Heatmap(sports: seq<string>, years: seq<int>, cells: seq<seq<nat>>)

  /** The cells of one sport's row. */
  function SportRow(units: seq<Row>, sport: string, years: seq<int>): seq<nat> {
    CountsBy(Where(units, SportOf, sport), YearOf, years)
  }

  /** The rows of the pivot table, one per sport. */
  function SportRows(units: seq<Row>, sports: seq<string>, years: seq<int>): seq<seq<nat>> {
    seq(|sports|, i requires 0 <= i < |sports| => SportRow(units, sports[i], years))
  }

  function CountryEventHeatmap(df: seq<Row>, country: string): (r: Heatmap)
    ensures StrictlyAscending(r.sports, StrLt)
    ensures forall i, j :: 0 <= i < j < |r.years| ==> r.years[i] < r.years[j]
    ensures forall s :: s in r.sports <==> s in Keys(CountryUnits(df, country), SportOf)
    ensures forall y :: y in r.years <==> y in Keys(CountryUnits(df, country), YearOf)
    ensures |r.cells| == |r.sports|
    ensures forall i :: 0 <= i < |r.sports| ==> |r.cells[i]| == |r.years|
    ensures forall i, j :: 0 <= i < |r.sports| && 0 <= j < |r.years| ==>
              r.cells[i][j] == |Where(Where(CountryUnits(df, country), SportOf, r.sports[i]), YearOf, r.years[j])|
    ensures GridTotal(r.cells) == |CountryUnits(df, country)|
  {
    var units := CountryUnits(df, country);
    var sports := SortedKeys(units, SportOf, StrLt);
    var years := SortedKeys(units, YearOf, IntLt);
    StrLtIsStrictTotalOrder();
    IntLtIsStrictTotalOrder();
    HeatmapTotal(units, sports, years);
    Heatmap(sports, years, SportRows(units, sports, years))
  }

  /** Every unit falls in exactly one cell. */
  lemma HeatmapTotal(units: seq<Row>, sports: seq<string>, years: seq<int>)
    requires sports == SortedKeys(units, SportOf, StrLt)
    requires years == SortedKeys(units, YearOf, IntLt)
    ensures GridTotal(SportRows(units, sports, years)) == |units|
  {
    StrLtIsStrictTotalOrder();
    IntLtIsStrictTotalOrder();
    var cells := SportRows(units, sports, years);
    HeatmapRowTotals(units, sports, years);
    TotalOfRowTotals(cells, CountsBy(units, SportOf, sports));
    CountsPartition(units, SportOf, sports);
  }

  /** Each sport's row adds up to the units of that sport. */
  lemma HeatmapRowTotals(units: seq<Row>, sports: seq<string>, years: seq<int>)
    requires years == SortedKeys(units, YearOf, IntLt)
    ensures forall i :: 0 <= i < |sports| ==>
              Total(SportRows(units, sports, years)[i]) == |Where(units, SportOf, sports[i])|
  {
    IntLtIsStrictTotalOrder();
    forall i | 0 <= i < |sports|
      ensures Total(SportRows(units, sports, years)[i]) == |Where(units, SportOf, sports[i])|
    {
      CountsPartition(Where(units, SportOf, sports[i]), YearOf, years);
    }
  }

  /** Each edition's column adds up to the units of that edition. */
  lemma HeatmapColumnTotals(units: seq<Row>, sports: seq<string>, years: seq<int>)
    requires sports == SortedKeys(units, SportOf, StrLt)
    ensures forall j :: 0 <= j < |years| ==>
              Total(Column(SportRows(units, sports, years), j)) == |Where(units, YearOf, years[j])|
  {
    StrLtIsStrictTotalOrder();
    forall j | 0 <= j < |years|
      ensures Total(Column(SportRows(units, sports, years), j)) == |Where(units, YearOf, years[j])|
    {
      var y := years[j];
      var col := Column(SportRows(units, sports, years), j);
      forall i | 0 <= i < |sports| ensures col[i] == CountsBy(Where(units, YearOf, y), SportOf, sports)[i] {
        WhereCommute(units, SportOf, sports[i], YearOf, y);
      }
      assert col == CountsBy(Where(units, YearOf, y), SportOf, sports);
      CountsPartition(Where(units, YearOf, y), SportOf, sports);
    }
  }

  /** Each sport's row of the pivot table adds up to the region's units in that sport. */
  lemma HeatmapRowMargins(df: seq<Row>, country: string)
    ensures var h := CountryEventHeatmap(df, country);
            forall i :: 0 <= i < |h.sports| ==>
              Total(h.cells[i]) == |Where(CountryUnits(df, country), SportOf, h.sports[i])|
  {
    var units := CountryUnits(df, country);
    HeatmapRowTotals(units, SortedKeys(units, SportOf, StrLt), SortedKeys(units, YearOf, IntLt));
  }

  /**
   * The columns of the pivot table are the editions of the year-by-year
   * tally, in the same order, and each column adds up to that edition's count.
   */
  lemma HeatmapColumnsAreYearwise(df: seq<Row>, country: string)
    ensures var h, t := CountryEventHeatmap(df, country), YearwiseMedalTally(df, country);
            && |h.years| == |t|
            && forall j :: 0 <= j < |t| ==> h.years[j] == t[j].key && Total(Column(h.cells, j)) == t[j].count
  {
    var units := CountryUnits(df, country);
    var sports, years := SortedKeys(units, SportOf, StrLt), SortedKeys(units, YearOf, IntLt);
    assert CountryEventHeatmap(df, country) == Heatmap(sports, years, SportRows(units, sports, years));
    assert YearwiseMedalTally(df, country) == YearCounts(units);
    HeatmapColumnsOf(units, CountryEventHeatmap(df, country), YearwiseMedalTally(df, country));
  }

  lemma HeatmapColumnsOf(units: seq<Row>, h: Heatmap, t: seq<Group<int>>)
    requires var sports, years := SortedKeys(units, SportOf, StrLt), SortedKeys(units, YearOf, IntLt);
             h == Heatmap(sports, years, SportRows(units, sports, years))
    requires t == YearCounts(units)
    ensures |h.years| == |t|
    ensures forall j :: 0 <= j < |t| ==> h.years[j] == t[j].key && Total(Column(h.cells, j)) == t[j].count
  {
    var sports := SortedKeys(units, SportOf, StrLt);
    var years := SortedKeys(units, YearOf, IntLt);
    assert YearCounts(units) == GroupBy(units, YearOf, years);
    HeatmapColumnTotals(units, sports, years);
  }

}
