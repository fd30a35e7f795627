/**
 * Most successful athletes (helper.py `most_successful` and
 * `most_successful_atheletes_country`): count the medal rows of each athlete
 * name, keep the top 15 (or 10), and attach Sport (and region) by a left join
 * back to the whole table followed by keep-first on Name.  A team medal counts
 * once per athlete here: this is a personal tally, not a count of medal units.
 */
module Rankings {
  import opened Wrappers
  import opened Sequences
  import opened Deduplication
  import opened Sorting
  import opened Dataset

  /** A row of `value_counts()` on Name: `[Name, Medal_Count]`. */
  datatype NameCount = NameCount(Name: string, Medal_Count: nat)

  /**
   * An output row: `[Name, Medal_Count, Sport, region]` for the overall
   * ranking, `[Name, Medal_Count, Sport]` for one country's.  Sport and region
   * are absent only when the left join found no row for the name.
   */
  datatype Ranked =
    | RankedAthlete(Name: string, Medal_Count: nat, Sport: Option<string>, region: Option<string>)
    | RankedInCountry(Name: string, Medal_Count: nat, Sport: Option<string>)

  function CountName(c: NameCount): string { c.Name }
  function NegCount(c: NameCount): int { -(c.Medal_Count as int) }
  function RankedName(t: Ranked): string { t.Name }

  /** Medal rows of one sport, or of all sports for 'Overall'. */
  function SportMedalRows(df: seq<Row>, sport: Filter<string>): (r: seq<Row>)
    ensures forall x :: x in r <==> x in df && x.Medal.Some? && (sport.Only? ==> x.Sport == sport.value)
    ensures forall x :: multiset(r)[x] ==
              if x.Medal.Some? && (sport.Only? ==> x.Sport == sport.value) then multiset(df)[x] else 0
  {
    MedalRowsKeepsCopies(df);
    if sport.Overall? then MedalRows(df)
    else
      WhereMultiset(MedalRows(df), SportOf, sport.value);
      Where(MedalRows(df), SportOf, sport.value)
  }

  /** Medal rows of one region; a row without region never matches. */
  function CountryMedalRows(df: seq<Row>, country: string): (r: seq<Row>)
    ensures forall x :: x in r <==> x in df && x.Medal.Some? && x.region == Some(country)
    ensures forall x :: multiset(r)[x] == if x.Medal.Some? && x.region == Some(country) then multiset(df)[x] else 0
  {
    MedalRowsKeepsCopies(df);
    WhereMultiset(MedalRows(df), RegionOf, Some(country));
    Where(MedalRows(df), RegionOf, Some(country))
  }

  /** One entry per distinct name, in order of first appearance, with its number of rows. */
  function NameCounts(rows: seq<Row>): (r: seq<NameCount>)
    ensures DistinctKeys(r, CountName)
    ensures forall n :: n in Keys(r, CountName) <==> n in Keys(rows, NameOf)
    ensures forall c :: c in r ==> c.Medal_Count == |Where(rows, NameOf, c.Name)| && c.Medal_Count >= 1
  {
    NameCountsCorrect(rows);
    CountEach(rows, Dedup(rows, NameOf))
  }

  /** The count of each name of `names` among `rows`. */
  function CountEach(rows: seq<Row>, names: seq<Row>): seq<NameCount> {
    seq(|names|, i requires 0 <= i < |names| => NameCount(names[i].Name, |Where(rows, NameOf, names[i].Name)|))
  }

  lemma NameCountsCorrect(rows: seq<Row>)
    ensures var r := CountEach(rows, Dedup(rows, NameOf));
            && DistinctKeys(r, CountName)
            && (forall n :: n in Keys(r, CountName) <==> n in Keys(rows, NameOf))
            && (forall c :: c in r ==> c.Medal_Count == |Where(rows, NameOf, c.Name)| && c.Medal_Count >= 1)
  {
    var d := Dedup(rows, NameOf);
    CountEachCounts(rows, d);
    CountEachNames(rows, d);
  }

  /** Counting names that occur in `rows` gives each its number of rows, at least one. */
  lemma CountEachCounts(rows: seq<Row>, names: seq<Row>)
    requires forall x :: x in names ==> x in rows
    ensures forall c :: c in CountEach(rows, names) ==> c.Medal_Count == |Where(rows, NameOf, c.Name)| && c.Medal_Count >= 1
  {
    var r := CountEach(rows, names);
    forall c | c in r ensures c.Medal_Count == |Where(rows, NameOf, c.Name)| && c.Medal_Count >= 1 {
      var i :| 0 <= i < |r| && r[i] == c;
      assert names[i] in Where(rows, NameOf, names[i].Name);
    }
  }

  /** Counting keeps the names of `names`, and keeps them distinct. */
  lemma CountEachNames(rows: seq<Row>, names: seq<Row>)
    requires DistinctKeys(names, NameOf)
    ensures DistinctKeys(CountEach(rows, names), CountName)
    ensures Keys(CountEach(rows, names), CountName) == Keys(names, NameOf)
  {
    var r := CountEach(rows, names);
    forall i, j | 0 <= i < j < |r| ensures CountName(r[i]) != CountName(r[j]) {
      assert NameOf(names[i]) != NameOf(names[j]);
    }
    forall n | n in Keys(names, NameOf) ensures n in Keys(r, CountName) {
      var x :| x in names && x.Name == n;
      var i :| 0 <= i < |names| && names[i] == x;
      assert CountName(r[i]) == n;
    }
    forall n | n in Keys(r, CountName) ensures n in Keys(names, NameOf) {
      var c :| c in r && c.Name == n;
      var i :| 0 <= i < |r| && r[i] == c;
      assert NameOf(names[i]) == n;
    }
  }

  /** `value_counts()`: the name counts, most medals first (ties in any order). */
  function ValueCounts(rows: seq<Row>): (r: seq<NameCount>)
    ensures DistinctKeys(r, CountName)
    ensures forall n :: n in Keys(r, CountName) <==> n in Keys(rows, NameOf)
    ensures forall c :: c in r ==> c.Medal_Count == |Where(rows, NameOf, c.Name)| && c.Medal_Count >= 1
    ensures forall i, j :: 0 <= i < j < |r| ==> r[i].Medal_Count >= r[j].Medal_Count
  {
    SortedCounts(NameCounts(rows));
    SortBy(NameCounts(rows), NegCount)
  }

  /** Sorting the counts keeps their entries and their distinct names, and orders them by count. */
  lemma SortedCounts(counts: seq<NameCount>)
    requires DistinctKeys(counts, CountName)
    ensures DistinctKeys(SortBy(counts, NegCount), CountName)
    ensures Keys(SortBy(counts, NegCount), CountName) == Keys(counts, CountName)
    ensures forall c :: c in SortBy(counts, NegCount) <==> c in counts
    ensures var r := SortBy(counts, NegCount); forall i, j :: 0 <= i < j < |r| ==> r[i].Medal_Count >= r[j].Medal_Count
  {
    SortByKeepsDistinct(counts, NegCount, CountName);
    var r := SortBy(counts, NegCount);
    assert forall i, j :: 0 <= i < j < |r| ==> NegCount(r[i]) <= NegCount(r[j]);
  }

  /** The (Sport, region) pairs of the table rows of one name. */
  ghost function Matches(df: seq<Row>, name: string): set<(string, Option<string>)> {
    set x | x in df && x.Name == name :: (x.Sport, x.region)
  }

  /**
   * `merge(..., on='Name', how='left')` of one count row: one output row per
   * table row with that name, in table order, or a single row with no Sport
   * and no region when there is none.
   */
  function JoinOne(c: NameCount, df: seq<Row>): (r: seq<Ranked>)
    ensures r != []
    ensures forall t :: t in r ==> t.RankedAthlete? && t.Name == c.Name && t.Medal_Count == c.Medal_Count
    ensures c.Name !in Keys(df, NameOf) ==> r == [RankedAthlete(c.Name, c.Medal_Count, None, None)]
    ensures c.Name in Keys(df, NameOf) ==>
              && |r| == |Where(df, NameOf, c.Name)|
              && (forall i :: 0 <= i < |r| ==>
                    r[i] == RankedAthlete(c.Name, c.Medal_Count, Some(Where(df, NameOf, c.Name)[i].Sport), Where(df, NameOf, c.Name)[i].region))
              && forall t :: t in r ==> t.Sport.Some? && (t.Sport.value, t.region) in Matches(df, c.Name)
    ensures forall x :: x in df && x.Name == c.Name ==> RankedAthlete(c.Name, c.Medal_Count, Some(x.Sport), x.region) in r
  {
    var m := Where(df, NameOf, c.Name);
    if m == [] then
      assert forall x :: x in df ==> (x in m <==> x.Name == c.Name);
      [RankedAthlete(c.Name, c.Medal_Count, None, None)]
    else
      MatchRowsCorrect(c, df, m);
      MatchRows(c, m)
  }

  /** One joined row per matching table row, in order. */
  function MatchRows(c: NameCount, m: seq<Row>): seq<Ranked> {
    seq(|m|, i requires 0 <= i < |m| => RankedAthlete(c.Name, c.Medal_Count, Some(m[i].Sport), m[i].region))
  }

  lemma MatchRowsCorrect(c: NameCount, df: seq<Row>, m: seq<Row>)
    requires m == Where(df, NameOf, c.Name) && m != []
    ensures var r := MatchRows(c, m);
            && c.Name in Keys(df, NameOf)
            && (forall t :: t in r ==> t.RankedAthlete? && t.Name == c.Name && t.Medal_Count == c.Medal_Count)
            && (forall t :: t in r ==> t.Sport.Some? && (t.Sport.value, t.region) in Matches(df, c.Name))
            && (forall x :: x in df && x.Name == c.Name ==> RankedAthlete(c.Name, c.Medal_Count, Some(x.Sport), x.region) in r)
  {
    var r := MatchRows(c, m);
    assert m[0] in m;
    forall t | t in r ensures t.Sport.Some? && (t.Sport.value, t.region) in Matches(df, c.Name) {
      var i :| 0 <= i < |r| && r[i] == t;
      assert m[i] in m;
    }
    forall x | x in df && x.Name == c.Name
      ensures RankedAthlete(c.Name, c.Medal_Count, Some(x.Sport), x.region) in r
    {
      assert x in m;
      var i :| 0 <= i < |m| && m[i] == x;
      assert r[i] == RankedAthlete(c.Name, c.Medal_Count, Some(x.Sport), x.region);
    }
  }

  /**
   * The left join of the count rows, block by block in their order: every
   * row carries a count row's name and count; every table row of a counted
   * name gives a row with its Sport and region; each count row whose name has
   * no table row gives a row with neither.
   */
  function LeftJoin(top: seq<NameCount>, df: seq<Row>): (r: seq<Ranked>)
    ensures Keys(r, RankedName) == Keys(top, CountName)
    ensures forall t :: t in r ==> t.RankedAthlete? && NameCount(t.Name, t.Medal_Count) in top
    ensures forall t :: t in r && t.Sport.Some? ==> (t.Sport.value, t.region) in Matches(df, t.Name)
    ensures forall t :: t in r && t.Sport.None? ==> t.region.None? && t.Name !in Keys(df, NameOf)
    ensures forall c, x :: c in top && x in df && x.Name == c.Name ==>
              RankedAthlete(c.Name, c.Medal_Count, Some(x.Sport), x.region) in r
    ensures forall c :: c in top && c.Name !in Keys(df, NameOf) ==> RankedAthlete(c.Name, c.Medal_Count, None, None) in r
    decreases |top|
  {
    if top == [] then []
    else
      var init, c := top[..|top| - 1], top[|top| - 1];
      assert top == init + [c];
      var rest := LeftJoin(init, df);
      LeftJoinStep(init, c, df, rest);
      rest + JoinOne(c, df)
  }

  /**
   * The join lists the count rows' blocks in the order of the count rows:
   * the join of the first k count rows, followed by the block of the k-th,
   * is a prefix of the whole join.
   */
  lemma {:induction false} LeftJoinPrefix(top: seq<NameCount>, df: seq<Row>, k: nat)
    requires k < |top|
    ensures LeftJoin(top[..k], df) + JoinOne(top[k], df) <= LeftJoin(top, df)
    decreases |top|
  {
    var init := top[..|top| - 1];
    assert top == init + [top[|top| - 1]];
    if k < |top| - 1 {
      assert top[..k] == init[..k] && top[k] == init[k];
      LeftJoinPrefix(init, df, k);
    } else {
      assert top[..k] == init;
    }
  }

  /** Appending a count row's block keeps the join's properties. */
  lemma LeftJoinStep(init: seq<NameCount>, c: NameCount, df: seq<Row>, rest: seq<Ranked>)
    requires Keys(rest, RankedName) == Keys(init, CountName)
    requires forall t :: t in rest ==> t.RankedAthlete? && NameCount(t.Name, t.Medal_Count) in init
    requires forall t :: t in rest && t.Sport.Some? ==> (t.Sport.value, t.region) in Matches(df, t.Name)
    requires forall t :: t in rest && t.Sport.None? ==> t.region.None? && t.Name !in Keys(df, NameOf)
    requires forall n, x :: n in init && x in df && x.Name == n.Name ==>
               RankedAthlete(n.Name, n.Medal_Count, Some(x.Sport), x.region) in rest
    requires forall n :: n in init && n.Name !in Keys(df, NameOf) ==> RankedAthlete(n.Name, n.Medal_Count, None, None) in rest
    ensures var top, r := init + [c], rest + JoinOne(c, df);
            && Keys(r, RankedName) == Keys(top, CountName)
            && (forall t :: t in r ==> t.RankedAthlete? && NameCount(t.Name, t.Medal_Count) in top)
            && (forall t :: t in r && t.Sport.Some? ==> (t.Sport.value, t.region) in Matches(df, t.Name))
            && (forall t :: t in r && t.Sport.None? ==> t.region.None? && t.Name !in Keys(df, NameOf))
            && (forall n, x :: n in top && x in df && x.Name == n.Name ==>
                  RankedAthlete(n.Name, n.Medal_Count, Some(x.Sport), x.region) in r)
            && (forall n :: n in top && n.Name !in Keys(df, NameOf) ==> RankedAthlete(n.Name, n.Medal_Count, None, None) in r)
  {
    var block := JoinOne(c, df);
    KeysAppend(rest, block, RankedName);
    KeysSnoc(init, c, CountName);
    assert Keys(block, RankedName) == {c.Name} by {
      assert RankedName(block[0]) == c.Name;
    }
  }

  /** The row that the join followed by keep-first on Name leaves for a count row. */
  function Enrich(c: NameCount, df: seq<Row>): Ranked {
    match First(df, NameOf, c.Name)
    case None => RankedAthlete(c.Name, c.Medal_Count, None, None)
    case Some(x) => RankedAthlete(c.Name, c.Medal_Count, Some(x.Sport), x.region)
  }

  /** `Enrich` applied to every count row. */
  function EnrichAll(top: seq<NameCount>, df: seq<Row>): (r: seq<Ranked>)
    ensures |r| == |top|
    ensures forall i :: 0 <= i < |top| ==> r[i] == Enrich(top[i], df)
    decreases |top|
  {
    if top == [] then [] else EnrichAll(top[..|top| - 1], df) + [Enrich(top[|top| - 1], df)]
  }

  /** The block a count row contributes to the join is headed by its enriched row. */
  lemma JoinOneBlock(c: NameCount, df: seq<Row>)
    ensures JoinOne(c, df)[0] == Enrich(c, df)
  {
    FirstIsHeadOfWhere(df, NameOf, c.Name);
  }

  /**
   * The left join followed by keep-first on Name gives back one row per count
   * row, in order, carrying the Sport and region of the athlete's first row
   * in the whole table.
   */
  lemma {:induction false} JoinThenDedup(top: seq<NameCount>, df: seq<Row>)
    requires DistinctKeys(top, CountName)
    ensures Dedup(LeftJoin(top, df), RankedName) == EnrichAll(top, df)
    decreases |top|
  {
    if top != [] {
      var init, c := top[..|top| - 1], top[|top| - 1];
      assert DistinctKeys(init, CountName);
      JoinThenDedup(init, df);
      assert c.Name !in Keys(init, CountName) by {
        forall y | y in init ensures y.Name != c.Name {
          var i :| 0 <= i < |init| && init[i] == y;
          assert CountName(top[i]) != CountName(top[|top| - 1]);
        }
      }
      JoinOneBlock(c, df);
      DedupAppendBlock(LeftJoin(init, df), JoinOne(c, df), c.Name, RankedName);
    }
  }

  /** The Sport and region attached to `t` are those of the first row of its name in `df`. */
  ghost predicate FromFirstRow(t: Ranked, df: seq<Row>) {
    var f := First(df, NameOf, t.Name);
    && f.Some?
    && t.Sport == Some(f.value.Sport)
    && (t.RankedAthlete? ==> t.region == f.value.region)
  }

  /**
   * `r` ranks the athletes of `medalRows`: at most `n` rows, distinct names,
   * each with its number of medal rows, most medals first, and no athlete
   * left out who has more medals than the last one shown.
   */
  ghost predicate IsTopAthletes(r: seq<Ranked>, medalRows: seq<Row>, n: nat) {
    && |r| <= n
    && DistinctKeys(r, RankedName)
    && (forall t :: t in r ==> t.Medal_Count == |Where(medalRows, NameOf, t.Name)| && t.Medal_Count >= 1)
    && (forall i, j :: 0 <= i < j < |r| ==> r[i].Medal_Count >= r[j].Medal_Count)
    && (forall x :: x in medalRows && x.Name !in Keys(r, RankedName) ==>
          0 < n == |r| && |Where(medalRows, NameOf, x.Name)| <= r[n - 1].Medal_Count)
  }

  /** `value_counts().head(n)`, left-joined to `df` and deduplicated on Name. */
  function TopAthletes(medalRows: seq<Row>, df: seq<Row>, n: nat): (r: seq<Ranked>)
    ensures |r| == |Take(ValueCounts(medalRows), n)|
    ensures forall i :: 0 <= i < |r| ==>
              && r[i] == Enrich(ValueCounts(medalRows)[i], df)
              && r[i].Name == ValueCounts(medalRows)[i].Name
              && r[i].Medal_Count == ValueCounts(medalRows)[i].Medal_Count
  {
    var top := Take(ValueCounts(medalRows), n);
    assert DistinctKeys(top, CountName);
    JoinThenDedup(top, df);
    TopEnriched(medalRows, df, n);
    Dedup(LeftJoin(top, df), RankedName)
  }

  /** Enriching the first n value counts keeps each one's name and count at its index. */
  lemma TopEnriched(medalRows: seq<Row>, df: seq<Row>, n: nat)
    ensures var vc := ValueCounts(medalRows);
            var e := EnrichAll(Take(vc, n), df);
            && |e| == |Take(vc, n)|
            && forall i :: 0 <= i < |e| ==>
                 && e[i] == Enrich(vc[i], df)
                 && e[i].Name == vc[i].Name
                 && e[i].Medal_Count == vc[i].Medal_Count
  {
    var vc := ValueCounts(medalRows);
    var top := Take(vc, n);
    assert forall i :: 0 <= i < |top| ==> top[i] == vc[i];
  }

  /** Rows that copy names and counts from a prefix of `vc` keep its counts and its order. */
  lemma RankedCounts(r: seq<Ranked>, vc: seq<NameCount>, medalRows: seq<Row>)
    requires |r| <= |vc|
    requires forall i :: 0 <= i < |r| ==> r[i].Name == vc[i].Name && r[i].Medal_Count == vc[i].Medal_Count
    requires forall c :: c in vc ==> c.Medal_Count == |Where(medalRows, NameOf, c.Name)| && c.Medal_Count >= 1
    requires forall i, j :: 0 <= i < j < |vc| ==> vc[i].Medal_Count >= vc[j].Medal_Count
    ensures forall t :: t in r ==> t.Medal_Count == |Where(medalRows, NameOf, t.Name)| && t.Medal_Count >= 1
    ensures forall i, j :: 0 <= i < j < |r| ==> r[i].Medal_Count >= r[j].Medal_Count
  {
    forall t | t in r ensures t.Medal_Count == |Where(medalRows, NameOf, t.Name)| && t.Medal_Count >= 1 {
      var i :| 0 <= i < |r| && r[i] == t;
      assert vc[i] in vc;
    }
  }

  /** Rows that copy names from a prefix of `vc` keep its names distinct. */
  lemma RankedDistinct(r: seq<Ranked>, vc: seq<NameCount>)
    requires |r| <= |vc|
    requires forall i :: 0 <= i < |r| ==> r[i].Name == vc[i].Name
    requires DistinctKeys(vc, CountName)
    ensures DistinctKeys(r, RankedName)
  {
    forall i, j | 0 <= i < j < |r| ensures RankedName(r[i]) != RankedName(r[j]) {
      assert CountName(vc[i]) != CountName(vc[j]);
    }
  }

  /** A name not shown is past the cut: the ranking is full and its last count is no smaller. */
  lemma RankedCut(r: seq<Ranked>, vc: seq<NameCount>, medalRows: seq<Row>, n: nat)
    requires n > 0
    requires |r| == if |vc| < n then |vc| else n
    requires forall i :: 0 <= i < |r| ==> r[i].Name == vc[i].Name && r[i].Medal_Count == vc[i].Medal_Count
    requires forall m :: m in Keys(vc, CountName) <==> m in Keys(medalRows, NameOf)
    requires forall c :: c in vc ==> c.Medal_Count == |Where(medalRows, NameOf, c.Name)|
    requires forall i, j :: 0 <= i < j < |vc| ==> vc[i].Medal_Count >= vc[j].Medal_Count
    ensures forall x :: x in medalRows && x.Name !in Keys(r, RankedName) ==>
              0 < n == |r| && |Where(medalRows, NameOf, x.Name)| <= r[n - 1].Medal_Count
  {
    forall x | x in medalRows && x.Name !in Keys(r, RankedName)
      ensures 0 < n == |r| && |Where(medalRows, NameOf, x.Name)| <= r[n - 1].Medal_Count
    {
      assert x.Name in Keys(vc, CountName);
      var c :| c in vc && c.Name == x.Name;
      var k :| 0 <= k < |vc| && vc[k] == c;
      assert forall i :: 0 <= i < |r| ==> r[i] in r;
    }
  }

  /**
   * Any sequence that lists, row by row, the names and counts of the first
   * `n` entries of `ValueCounts(medalRows)` ranks the athletes of `medalRows`.
   */
  lemma RankedFromTop(r: seq<Ranked>, medalRows: seq<Row>, n: nat)
    requires n > 0
    requires |r| == |Take(ValueCounts(medalRows), n)|
    requires forall i :: 0 <= i < |r| ==>
               r[i].Name == ValueCounts(medalRows)[i].Name && r[i].Medal_Count == ValueCounts(medalRows)[i].Medal_Count
    ensures IsTopAthletes(r, medalRows, n)
  {
    var vc := ValueCounts(medalRows);
    RankedCounts(r, vc, medalRows);
    RankedDistinct(r, vc);
    RankedCut(r, vc, medalRows, n);
  }

  /** Every name counted in `ValueCounts(medalRows)` has a first row in `df`. */
  lemma CountedNamesInTable(medalRows: seq<Row>, df: seq<Row>, c: NameCount)
    requires forall x :: x in medalRows ==> x in df
    requires c in ValueCounts(medalRows)
    ensures First(df, NameOf, c.Name).Some?
  {
    assert c.Name in Keys(ValueCounts(medalRows), CountName);
    var x :| x in medalRows && x.Name == c.Name;
    assert c.Name in Keys(df, NameOf);
  }

  lemma TopAthletesCorrect(medalRows: seq<Row>, df: seq<Row>, n: nat)
    requires n > 0
    requires forall x :: x in medalRows ==> x in df
    ensures IsTopAthletes(TopAthletes(medalRows, df, n), medalRows, n)
    ensures forall t :: t in TopAthletes(medalRows, df, n) ==> t.RankedAthlete? && FromFirstRow(t, df)
  {
    var vc := ValueCounts(medalRows);
    var r := TopAthletes(medalRows, df, n);
    RankedFromTop(r, medalRows, n);
    forall t | t in r ensures t.RankedAthlete? && FromFirstRow(t, df) {
      var i :| 0 <= i < |r| && r[i] == t;
      CountedNamesInTable(medalRows, df, vc[i]);
    }
  }

  /**
   * The 15 athletes with the most medal rows in `sport` ('Overall': in every
   * sport), with the Sport and region of each one's first row in the table,
   * which need not be `sport`.
   */
  function MostSuccessful(df: seq<Row>, sport: Filter<string>): (r: seq<Ranked>)
    ensures IsTopAthletes(r, SportMedalRows(df, sport), 15)
    ensures forall t :: t in r ==> t.RankedAthlete? && FromFirstRow(t, df)
  {
    TopAthletesCorrect(SportMedalRows(df, sport), df, 15);
    TopAthletes(SportMedalRows(df, sport), df, 15)
  }

  /** `t` without its region column. */
  function DropRegion(t: Ranked): Ranked {
    RankedInCountry(t.Name, t.Medal_Count, t.Sport)
  }

  function DropRegions(ts: seq<Ranked>): seq<Ranked> {
    seq(|ts|, i requires 0 <= i < |ts| => DropRegion(ts[i]))
  }

  /** Dropping the region column keeps the names and counts, so the ranking properties. */
  lemma DropRegionsRanked(top: seq<Ranked>, medalRows: seq<Row>, n: nat)
    requires n > 0
    requires |top| == |Take(ValueCounts(medalRows), n)|
    requires forall i :: 0 <= i < |top| ==>
               top[i].Name == ValueCounts(medalRows)[i].Name && top[i].Medal_Count == ValueCounts(medalRows)[i].Medal_Count
    ensures IsTopAthletes(DropRegions(top), medalRows, n)
  {
    var r := DropRegions(top);
    assert forall i :: 0 <= i < |r| ==> r[i].Name == top[i].Name && r[i].Medal_Count == top[i].Medal_Count;
    RankedFromTop(r, medalRows, n);
  }

  /** Dropping the region column keeps the Sport taken from the first row. */
  lemma DropRegionsFromFirst(top: seq<Ranked>, df: seq<Row>)
    requires forall t :: t in top ==> FromFirstRow(t, df)
    ensures forall t :: t in DropRegions(top) ==> t.RankedInCountry? && FromFirstRow(t, df)
  {
    var r := DropRegions(top);
    forall t | t in r ensures t.RankedInCountry? && FromFirstRow(t, df) {
      var i :| 0 <= i < |r| && r[i] == t;
      assert top[i] in top;
    }
  }

  lemma CountryRankingCorrect(df: seq<Row>, country: string)
    ensures IsTopAthletes(DropRegions(TopAthletes(CountryMedalRows(df, country), df, 10)), CountryMedalRows(df, country), 10)
    ensures forall t :: t in DropRegions(TopAthletes(CountryMedalRows(df, country), df, 10)) ==>
              t.RankedInCountry? && FromFirstRow(t, df)
  {
    var medalRows := CountryMedalRows(df, country);
    var top := TopAthletes(medalRows, df, 10);
    TopAthletesCorrect(medalRows, df, 10);
    DropRegionsRanked(top, medalRows, 10);
    DropRegionsFromFirst(top, df);
  }

  /** The 10 athletes of one region with the most medal rows, without the region column. */
  function MostSuccessfulAthletesCountry(df: seq<Row>, country: string): (r: seq<Ranked>)
    ensures IsTopAthletes(r, CountryMedalRows(df, country), 10)
    ensures forall t :: t in r ==> t.RankedInCountry? && FromFirstRow(t, df)
  {
    CountryRankingCorrect(df, country);
    DropRegions(TopAthletes(CountryMedalRows(df, country), df, 10))
  }
}
