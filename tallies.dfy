/**
 * Medal tallies (helper.py `fetch_medal_tally` and `medal_tally`): collapse
 * the table to medal-award units, so that a team medal counts once, then sum
 * the Gold/Silver/Bronze indicators per region, or per year for the timeline
 * of one country.
 */
module Tallies {
  import opened Wrappers
  import opened Sequences
  import opened Deduplication
  import opened Sorting
  import opened Dataset

  /** The first column of a tally: a region, or a year for one country's timeline. */
  datatype GroupKey = ByRegion(region: string) | ByYear(year: int)

  /** One output row: `[group, Gold, Silver, Bronze, Total]`. */
  datatype TallyRow = TallyRow(key: GroupKey, Gold: int, Silver: int, Bronze: int, Total: int)

  function KeyOf(t: TallyRow): GroupKey { t.key }
  function NegGold(t: TallyRow): int { -t.Gold }

  /** `t` holds the medal sums of `members` and their total. */
  ghost predicate SummedOver(t: TallyRow, members: seq<Row>) {
    && t.Gold == SumOf(members, GoldOf)
    && t.Silver == SumOf(members, SilverOf)
    && t.Bronze == SumOf(members, BronzeOf)
    && t.Total == t.Gold + t.Silver + t.Bronze
  }

  /**
   * `r` is the per-region tally of `units`: one row per region present among
   * the units (rows with no region form no group), each summing that
   * region's units, sorted by Gold from most to fewest.
   */
  ghost predicate IsRegionTally(r: seq<TallyRow>, units: seq<Row>) {
    && (forall t :: t in r ==> t.key.ByRegion? && SummedOver(t, Where(units, RegionOf, Some(t.key.region))))
    && DistinctKeys(r, KeyOf)
    && (forall g :: ByRegion(g) in Keys(r, KeyOf) <==> Some(g) in Keys(units, RegionOf))
    && (forall i, j :: 0 <= i < j < |r| ==> r[i].Gold >= r[j].Gold)
  }

  /**
   * `r` is the per-year tally of `units`: one row per year that occurs,
   * each summing that year's units, in ascending year order.
   */
  ghost predicate IsYearTally(r: seq<TallyRow>, units: seq<Row>) {
    && (forall t :: t in r ==> t.key.ByYear? && SummedOver(t, Where(units, YearOf, t.key.year)))
    && (forall i, j :: 0 <= i < j < |r| ==> r[i].key.ByYear? && r[j].key.ByYear? && r[i].key.year < r[j].key.year)
    && (forall y :: ByYear(y) in Keys(r, KeyOf) <==> y in Keys(units, YearOf))
  }

  function GroupRow(key: GroupKey, members: seq<Row>): TallyRow {
    var g, s, b := SumOf(members, GoldOf), SumOf(members, SilverOf), SumOf(members, BronzeOf);
    TallyRow(key, g, s, b, g + s + b)
  }

  /** `groupby('region').sum()` (groups in region order), then `sort_values('Gold', ascending=False)`. */
  function RegionTally(units: seq<Row>): (r: seq<TallyRow>)
    ensures IsRegionTally(r, units)
  {
    SortedGroupsAreTally(units);
    SortBy(RegionGroups(units), NegGold)
  }

  function RegionGroups(units: seq<Row>): seq<TallyRow> {
    var regions := SortedSet(PresentRegions(units), StrLt);
    seq(|regions|, i requires 0 <= i < |regions| =>
      GroupRow(ByRegion(regions[i]), Where(units, RegionOf, Some(regions[i]))))
  }

  lemma RegionGroupsCorrect(units: seq<Row>)
    ensures forall t :: t in RegionGroups(units) ==>
      t.key.ByRegion? && SummedOver(t, Where(units, RegionOf, Some(t.key.region)))
    ensures DistinctKeys(RegionGroups(units), KeyOf)
    ensures forall g :: ByRegion(g) in Keys(RegionGroups(units), KeyOf) <==> Some(g) in Keys(units, RegionOf)
  {
    RegionGroupsSummed(units);
    RegionGroupsKeys(units);
  }

  lemma RegionGroupsSummed(units: seq<Row>)
    ensures forall t :: t in RegionGroups(units) ==>
      t.key.ByRegion? && SummedOver(t, Where(units, RegionOf, Some(t.key.region)))
  {
    var regions := SortedSet(PresentRegions(units), StrLt);
    var groups := RegionGroups(units);
    forall t | t in groups ensures t.key.ByRegion? && SummedOver(t, Where(units, RegionOf, Some(t.key.region))) {
      var i :| 0 <= i < |groups| && groups[i] == t;
      assert t == GroupRow(ByRegion(regions[i]), Where(units, RegionOf, Some(regions[i])));
    }
  }

  lemma RegionGroupsKeys(units: seq<Row>)
    ensures DistinctKeys(RegionGroups(units), KeyOf)
    ensures forall g :: ByRegion(g) in Keys(RegionGroups(units), KeyOf) <==> Some(g) in Keys(units, RegionOf)
  {
    var regions := SortedSet(PresentRegions(units), StrLt);
    var groups := RegionGroups(units);
    StrLtIsStrictTotalOrder();
    AscendingIsDistinct(regions, StrLt);
    assert forall i :: 0 <= i < |groups| ==> groups[i].key == ByRegion(regions[i]);
    RegionRowKeys(groups, regions);
  }

  lemma RegionRowKeys(r: seq<TallyRow>, regions: seq<string>)
    requires |r| == |regions|
    requires forall i :: 0 <= i < |r| ==> r[i].key == ByRegion(regions[i])
    requires Distinct(regions)
    ensures DistinctKeys(r, KeyOf)
    ensures forall g :: ByRegion(g) in Keys(r, KeyOf) <==> g in regions
  {
    forall i, j | 0 <= i < j < |r| ensures KeyOf(r[i]) != KeyOf(r[j]) {
      assert regions[i] != regions[j];
    }
    forall g ensures ByRegion(g) in Keys(r, KeyOf) <==> g in regions {
      if g in regions {
        var i :| 0 <= i < |regions| && regions[i] == g;
        assert KeyOf(r[i]) == ByRegion(g);
      }
    }
  }

  /** Sorting the groups keeps them and orders them by Gold, most first. */
  lemma SortedGroupsAreTally(units: seq<Row>)
    ensures IsRegionTally(SortBy(RegionGroups(units), NegGold), units)
  {
    var groups := RegionGroups(units);
    var r := SortBy(groups, NegGold);
    RegionGroupsCorrect(units);
    SortByKeepsDistinct(groups, NegGold, KeyOf);
    assert Keys(r, KeyOf) == Keys(groups, KeyOf);
    forall i, j | 0 <= i < j < |r| ensures r[i].Gold >= r[j].Gold {
      assert NegGold(r[i]) <= NegGold(r[j]);
    }
  }

  /** `groupby('Year').sum()`, which lists the years in ascending order. */
  function YearTally(units: seq<Row>): (r: seq<TallyRow>)
    ensures IsYearTally(r, units)
  {
    YearRowsCorrect(units);
    YearRows(units)
  }

  function YearRows(units: seq<Row>): seq<TallyRow> {
    var years := SortedKeys(units, YearOf, IntLt);
    seq(|years|, i requires 0 <= i < |years| => GroupRow(ByYear(years[i]), Where(units, YearOf, years[i])))
  }

  lemma YearRowsCorrect(units: seq<Row>)
    ensures IsYearTally(YearRows(units), units)
  {
    var years := SortedKeys(units, YearOf, IntLt);
    IntLtIsStrictTotalOrder();
    YearRowsShape(units);
    YearRowKeys(YearRows(units), years);
  }

  lemma YearRowsShape(units: seq<Row>)
    ensures var years, r := SortedKeys(units, YearOf, IntLt), YearRows(units);
            && |r| == |years|
            && (forall i :: 0 <= i < |r| ==> r[i].key == ByYear(years[i]))
            && (forall t :: t in r ==> t.key.ByYear? && SummedOver(t, Where(units, YearOf, t.key.year)))
  {
    var years, r := SortedKeys(units, YearOf, IntLt), YearRows(units);
    forall t | t in r ensures t.key.ByYear? && SummedOver(t, Where(units, YearOf, t.key.year)) {
      var i :| 0 <= i < |r| && r[i] == t;
      assert t == GroupRow(ByYear(years[i]), Where(units, YearOf, years[i]));
    }
  }

  lemma YearRowKeys(r: seq<TallyRow>, years: seq<int>)
    requires |r| == |years|
    requires forall i :: 0 <= i < |r| ==> r[i].key == ByYear(years[i])
    ensures forall y :: ByYear(y) in Keys(r, KeyOf) <==> y in years
  {
    forall y ensures ByYear(y) in Keys(r, KeyOf) <==> y in years {
      if y in years {
        var i :| 0 <= i < |years| && years[i] == y;
        assert KeyOf(r[i]) == ByYear(y);
      }
    }
  }

  /** The four filter cases: 'Overall' leaves the column unfiltered. */
  function SelectUnits(units: seq<Row>, year: Filter<int>, country: Filter<string>): (r: seq<Row>)
    ensures forall x :: x in r <==>
      && x in units
      && (year.Only? ==> x.Year == year.value)
      && (country.Only? ==> x.region == Some(country.value))
    ensures forall x :: multiset(r)[x] ==
              if (year.Only? ==> x.Year == year.value) && (country.Only? ==> x.region == Some(country.value))
              then multiset(units)[x] else 0
    ensures IsSubseq(r, units)
  {
    match (year, country)
    case (Overall, Overall) =>
      assert IsSubseq(units, units) by { SubseqOfItself(units); }
      units
    case (Overall, Only(c)) =>
      WhereMultiset(units, RegionOf, Some(c));
      Where(units, RegionOf, Some(c))
    case (Only(y), Overall) =>
      WhereMultiset(units, YearOf, y);
      Where(units, YearOf, y)
    case (Only(y), Only(c)) =>
      var w := Where(units, YearOf, y);
      WhereMultiset(units, YearOf, y);
      WhereMultiset(w, RegionOf, Some(c));
      IsSubseqTransitive(Where(w, RegionOf, Some(c)), w, units);
      Where(w, RegionOf, Some(c))
  }

  /**
   * The medal-award units of the table that match the filters: exactly the
   * first rows of their units that match the filters, no unit twice; without
   * a country filter, every unit of the chosen years is there.
   */
  function TallyUnits(df: seq<Row>, year: Filter<int>, country: Filter<string>): (r: seq<Row>)
    ensures forall x :: x in r ==> x in df && First(df, MedalUnitKey, MedalUnitKey(x)) == Some(x)
    ensures forall x :: x in r ==>
              (year.Only? ==> x.Year == year.value) && (country.Only? ==> x.region == Some(country.value))
    ensures forall x ::
              x in df && First(df, MedalUnitKey, MedalUnitKey(x)) == Some(x)
              && (year.Only? ==> x.Year == year.value) && (country.Only? ==> x.region == Some(country.value))
              ==> x in r
    ensures DistinctKeys(r, MedalUnitKey)
    ensures country.Overall? ==>
              forall x :: x in df && (year.Only? ==> x.Year == year.value) ==> MedalUnitKey(x) in Keys(r, MedalUnitKey)
  {
    UnitsSelected(df, year, country);
    FirstUnitsSelected(df, year, country);
    SelectUnits(Dedup(df, MedalUnitKey), year, country)
  }

  lemma UnitsSelected(df: seq<Row>, year: Filter<int>, country: Filter<string>)
    ensures var r := SelectUnits(Dedup(df, MedalUnitKey), year, country);
            && (forall x :: x in r ==> x in df && First(df, MedalUnitKey, MedalUnitKey(x)) == Some(x))
            && DistinctKeys(r, MedalUnitKey)
            && (country.Overall? ==>
                  forall x :: x in df && (year.Only? ==> x.Year == year.value) ==> MedalUnitKey(x) in Keys(r, MedalUnitKey))
  {
    var d := Dedup(df, MedalUnitKey);
    var r := SelectUnits(d, year, country);
    forall x | x in r ensures x in df && First(df, MedalUnitKey, MedalUnitKey(x)) == Some(x) {
      DedupKeepsFirst(df, MedalUnitKey, x);
    }
    match (year, country)
    case (Overall, Overall) =>
    case (Overall, Only(c)) =>
      WhereKeepsDistinct(d, RegionOf, Some(c), MedalUnitKey);
    case (Only(y), Overall) =>
      WhereKeepsDistinct(d, YearOf, y, MedalUnitKey);
    case (Only(y), Only(c)) =>
      WhereKeepsDistinct(d, YearOf, y, MedalUnitKey);
      WhereKeepsDistinct(Where(d, YearOf, y), RegionOf, Some(c), MedalUnitKey);
    if country.Overall? {
      UnitsOfYears(df, year);
    }
  }

  /** A first row of its unit that matches the filters survives the dedup and the masks. */
  lemma FirstUnitsSelected(df: seq<Row>, year: Filter<int>, country: Filter<string>)
    ensures forall x ::
              x in df && First(df, MedalUnitKey, MedalUnitKey(x)) == Some(x)
              && (year.Only? ==> x.Year == year.value) && (country.Only? ==> x.region == Some(country.value))
              ==> x in SelectUnits(Dedup(df, MedalUnitKey), year, country)
  {
    var d := Dedup(df, MedalUnitKey);
    forall x | x in df && First(df, MedalUnitKey, MedalUnitKey(x)) == Some(x)
               && (year.Only? ==> x.Year == year.value) && (country.Only? ==> x.region == Some(country.value))
      ensures x in SelectUnits(d, year, country)
    {
      assert MedalUnitKey(x) in Keys(d, MedalUnitKey);
      var z :| z in d && MedalUnitKey(z) == MedalUnitKey(x);
      DedupKeepsFirst(df, MedalUnitKey, z);
      assert z == x;
    }
  }

  /** The year carries over to the unit, so no unit of a chosen year is lost. */
  lemma UnitsOfYears(df: seq<Row>, year: Filter<int>)
    ensures forall x :: x in df && (year.Only? ==> x.Year == year.value) ==>
              MedalUnitKey(x) in Keys(SelectUnits(Dedup(df, MedalUnitKey), year, Overall), MedalUnitKey)
  {
    var d := Dedup(df, MedalUnitKey);
    var r := SelectUnits(d, year, Overall);
    forall x | x in df && (year.Only? ==> x.Year == year.value) ensures MedalUnitKey(x) in Keys(r, MedalUnitKey) {
      assert MedalUnitKey(x) in Keys(d, MedalUnitKey);
      var z :| z in d && MedalUnitKey(z) == MedalUnitKey(x);
      assert z in r;
    }
  }

  /**
   * The medal tally for a year and a country, either of which may be
   * 'Overall'.  With all years of one country it is that country's timeline
   * (one row per year, ascending); otherwise it ranks regions by Gold.  An
   * empty selection gives an empty table.
   */
  function FetchMedalTally(df: seq<Row>, year: Filter<int>, country: Filter<string>): (r: seq<TallyRow>)
    ensures forall t :: t in r ==> t.Total == t.Gold + t.Silver + t.Bronze
    ensures year.Overall? && country.Only? ==> IsYearTally(r, TallyUnits(df, year, country))
    ensures !(year.Overall? && country.Only?) ==> IsRegionTally(r, TallyUnits(df, year, country))
    ensures TallyUnits(df, year, country) == [] ==> r == []
  {
    var units := TallyUnits(df, year, country);
    TallyOf(units, year.Overall? && country.Only?)
  }

  /** Step 3 of the tally: group by year for a country's timeline, else by region. */
  function TallyOf(units: seq<Row>, byYear: bool): (r: seq<TallyRow>)
    ensures byYear ==> IsYearTally(r, units)
    ensures !byYear ==> IsRegionTally(r, units)
    ensures units == [] ==> r == []
  {
    if byYear then YearTally(units) else RegionTally(units)
  }

  /**
   * The all-time tally by region.  Its medal-award unit also lists Sport;
   * otherwise it is the 'Overall'/'Overall' case of the tally above.
   */
  function MedalTally(df: seq<Row>): (r: seq<TallyRow>)
    ensures IsRegionTally(r, Dedup(df, MedalTallyKey))
  {
    RegionTally(Dedup(df, MedalTallyKey))
  }

  /** With the preprocessor's 0/1 indicators, no tally column is negative. */
  lemma TallyNonNegative(df: seq<Row>, year: Filter<int>, country: Filter<string>)
    requires forall x :: x in df ==> IndicatorsAgree(x)
    ensures forall t :: t in FetchMedalTally(df, year, country) ==>
      t.Gold >= 0 && t.Silver >= 0 && t.Bronze >= 0 && t.Total >= 0
  {
    var units := TallyUnits(df, year, country);
    var r := FetchMedalTally(df, year, country);
    assert forall x :: x in units ==> IndicatorsAgree(x) by {
      forall x | x in units ensures IndicatorsAgree(x) {
        assert x in Dedup(df, MedalUnitKey);
      }
    }
    if year.Overall? && country.Only? {
      assert IsYearTally(r, units);
      forall t | t in r ensures t.Gold >= 0 && t.Silver >= 0 && t.Bronze >= 0 && t.Total >= 0 {
        SummedNonNegative(t, Where(units, YearOf, t.key.year));
      }
    } else {
      assert IsRegionTally(r, units);
      forall t | t in r ensures t.Gold >= 0 && t.Silver >= 0 && t.Bronze >= 0 && t.Total >= 0 {
        SummedNonNegative(t, Where(units, RegionOf, Some(t.key.region)));
      }
    }
  }

  lemma SummedNonNegative(t: TallyRow, members: seq<Row>)
    requires SummedOver(t, members)
    requires forall x :: x in members ==> IndicatorsAgree(x)
    ensures t.Gold >= 0 && t.Silver >= 0 && t.Bronze >= 0 && t.Total >= 0
  {
    SumOfNonNegative(members, GoldOf);
    SumOfNonNegative(members, SilverOf);
    SumOfNonNegative(members, BronzeOf);
  }

  /**
   * A row repeating an earlier row's medal-award unit (another member of the
   * same relay or team) changes no tally, wherever it stands in the table.
   */
  lemma DuplicateUnitCountedOnce(a: seq<Row>, x: Row, b: seq<Row>, year: Filter<int>, country: Filter<string>)
    requires MedalUnitKey(x) in Keys(a, MedalUnitKey)
    ensures FetchMedalTally(a + [x] + b, year, country) == FetchMedalTally(a + b, year, country)
  {
    DedupDropsLaterDuplicate(a, x, b, MedalUnitKey);
  }

  /**
   * A team's gold medal shared by any number of athlete rows is one Gold on
   * the country's timeline.
   */
  lemma TeamGoldCountsOnce(team: seq<Row>, country: string)
    requires team != []
    requires forall x :: x in team ==> MedalUnitKey(x) == MedalUnitKey(team[0])
    requires team[0].Medal == Some(Gold) && IndicatorsAgree(team[0])
    requires team[0].region == Some(country)
    ensures FetchMedalTally(team, Overall, Only(country)) == [TallyRow(ByYear(team[0].Year), 1, 0, 0, 1)]
  {
    var u := team[0];
    TeamUnits(team, country);
    FetchIsTallyOf(team, Overall, Only(country));
    OneRowYearTally(u);
  }

  /**
   * The tally is step 3 applied to the selected units.  Stated apart so that
   * callers see this one unfolding and not the contracts behind it.
   */
  lemma FetchIsTallyOf(df: seq<Row>, year: Filter<int>, country: Filter<string>)
    ensures FetchMedalTally(df, year, country) == TallyOf(TallyUnits(df, year, country), year.Overall? && country.Only?)
  {
  }

  /** All rows of one team medal collapse to the first. */
  lemma TeamUnits(team: seq<Row>, country: string)
    requires team != []
    requires forall x :: x in team ==> MedalUnitKey(x) == MedalUnitKey(team[0])
    requires team[0].region == Some(country)
    ensures TallyUnits(team, Overall, Only(country)) == [team[0]]
  {
    var u := team[0];
    DedupAppendBlock([], team, MedalUnitKey(u), MedalUnitKey);
    assert [] + team == team;
    assert Dedup(team, MedalUnitKey) == [u];
    OneRowSelection(u, country);
  }

  lemma OneRowSelection(u: Row, country: string)
    requires u.region == Some(country)
    ensures SelectUnits([u], Overall, Only(country)) == [u]
  {
    assert [u][..0] == [];
  }

  lemma OneRowYears(u: Row)
    ensures SortedKeys([u], YearOf, IntLt) == [u.Year]
  {
    assert [u][..0] == [];
    assert KeyList([u], YearOf) == [u.Year];
    assert [u.Year][..0] == [];
    assert SortedSet([u.Year], IntLt) == InsertUnique(u.Year, [], IntLt);
  }

  /** The tally row of a single unit holds that unit's indicators. */
  lemma OneRowGroup(k: GroupKey, u: Row)
    ensures GroupRow(k, [u]) == TallyRow(k, u.Gold, u.Silver, u.Bronze, u.Gold + u.Silver + u.Bronze)
  {
    SumOfSingleton(u, GoldOf);
    SumOfSingleton(u, SilverOf);
    SumOfSingleton(u, BronzeOf);
  }

  lemma OneRowYearTally(u: Row)
    requires u.Medal == Some(Gold) && IndicatorsAgree(u)
    ensures YearTally([u]) == [TallyRow(ByYear(u.Year), 1, 0, 0, 1)]
  {
    OneRowYearRows(u);
  }

  lemma OneRowYearRows(u: Row)
    requires u.Medal == Some(Gold) && IndicatorsAgree(u)
    ensures YearRows([u]) == [TallyRow(ByYear(u.Year), 1, 0, 0, 1)]
  {
    OneRowYears(u);
    OneRowGroup(ByYear(u.Year), u);
    assert [u][..0] == [];
    assert Where([u], YearOf, u.Year) == [u];
    var r := YearRows([u]);
    assert |r| == 1;
    assert r[0] == GroupRow(ByYear(u.Year), [u]);
    assert u.Gold == 1 && u.Silver == 0 && u.Bronze == 0;
    assert r == [TallyRow(ByYear(u.Year), 1, 0, 0, 1)];
  }
}
