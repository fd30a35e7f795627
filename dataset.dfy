/**
 * The cleaned athlete-event table the queries read: one row per athlete per
 * event per edition of the Games, with the region resolved from the NOC code
 * and the medal spread into 0/1 indicator columns by the preprocessing step.
 * Also the column projections and the composite keys the queries group and
 * deduplicate on.
 */
module Dataset {
  import opened Wrappers
  import opened Sequences

  datatype MedalKind = Gold | Silver | Bronze
  datatype SexCode = M | F
  datatype Season = Summer | Winter

  /**
   * One row of the table.  `region` is absent when the NOC code has no region,
   * `Medal` when the athlete won nothing.  Age, Height and Weight are carried
   * along; no query computes with them.  Gold, Silver and Bronze are the
   * indicator columns added by the preprocessing step.
   */
  datatype Row = Row(
    Name: string,
    Sex: SexCode,
    Age: Option<real>,
    Height: Option<real>,
    Weight: Option<real>,
    Team: string,
    NOC: string,
    Games: string,
    Year: int,
    Season: Season,
    City: string,
    Sport: string,
    Event: string,
    Medal: Option<MedalKind>,
    region: Option<string>,
    Gold: int,
    Silver: int,
    Bronze: int)

  /**
   * What the preprocessing step guarantees of the indicator columns: each is
   * 1 exactly when the row's medal is of that kind, and 0 otherwise.
   */
  predicate IndicatorsAgree(r: Row) {
    && r.Gold == (if r.Medal == Some(Gold) then 1 else 0)
    && r.Silver == (if r.Medal == Some(Silver) then 1 else 0)
    && r.Bronze == (if r.Medal == Some(Bronze) then 1 else 0)
  }

  /** The filter arguments: the sentinel 'Overall' (no filter) or one value. */
  datatype Filter<T> = Overall | Only(value: T)

  // Single columns.
  function NameOf(r: Row): string { r.Name }
  function SexOf(r: Row): SexCode { r.Sex }
  function YearOf(r: Row): int { r.Year }
  function SportOf(r: Row): string { r.Sport }
  function RegionOf(r: Row): Option<string> { r.region }
  function HasMedal(r: Row): bool { r.Medal.Some? }
  function GoldOf(r: Row): int { r.Gold }
  function SilverOf(r: Row): int { r.Silver }
  function BronzeOf(r: Row): int { r.Bronze }

  /** A medal-award unit: athletes sharing a team medal agree on all of these. */
  function MedalUnitKey(r: Row): (string, string, string, int, string, string, Option<MedalKind>) {
    (r.Team, r.NOC, r.Games, r.Year, r.City, r.Event, r.Medal)
  }

  /** The medal-award unit of the overall tally, which also lists Sport. */
  function MedalTallyKey(r: Row): (string, string, string, int, string, string, string, Option<MedalKind>) {
    (r.Team, r.NOC, r.Games, r.Year, r.City, r.Sport, r.Event, r.Medal)
  }

  /** The medal unit of the per-country queries, which leaves out Games. */
  function CountryUnitKey(r: Row): (string, string, int, string, string, string, Option<MedalKind>) {
    (r.Team, r.NOC, r.Year, r.City, r.Sport, r.Event, r.Medal)
  }

  /** An athlete is identified by name and region. */
  function AthleteKey(r: Row): (string, Option<string>) {
    (r.Name, r.region)
  }

  /** One entity of column `col` in one edition. */
  function YearColKey<V>(col: Row -> V): Row -> (int, V) {
    (r: Row) => (r.Year, col(r))
  }

  /** The regions present in `s`, one entry per row that has one. */
  function PresentRegions(s: seq<Row>): (r: seq<string>)
    ensures forall g :: g in r <==> Some(g) in Keys(s, RegionOf)
    decreases |s|
  {
    if s == [] then []
    else
      var init, last := s[..|s| - 1], s[|s| - 1];
      assert s == init + [last];
      KeysSnoc(init, last, RegionOf);
      PresentRegions(init) + (if last.region.Some? then [last.region.value] else [])
  }

  /** Rows that have a medal (`dropna(subset=['Medal'])`). */
  function MedalRows(df: seq<Row>): (r: seq<Row>)
    ensures forall x :: x in r <==> x in df && x.Medal.Some?
    ensures IsSubseq(r, df)
  {
    Where(df, HasMedal, true)
  }

  /** Every copy of a medal row is kept, and no copy of any other row. */
  lemma MedalRowsKeepsCopies(df: seq<Row>)
    ensures forall x :: multiset(MedalRows(df))[x] == if x.Medal.Some? then multiset(df)[x] else 0
  {
    WhereMultiset(df, HasMedal, true);
  }
}
