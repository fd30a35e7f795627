/**
 * Athlete-level views (helper.py `weight_vs_height` and `men_vs_women`).  An
 * athlete is a (Name, region) pair and is represented by the first row of
 * that pair in the table: later rows of the same athlete (other events, other
 * editions) are dropped.
 */
module Demographics {
  import opened Wrappers
  import opened Sequences
  import opened Deduplication
  import opened Sorting
  import opened Grouping
  import opened Dataset
  import opened YearGroups

  /** The Medal column after `fillna('No Medal')`. */
  datatype MedalLabel = Won(kind: MedalKind) | NoMedal

  /** An athlete's representative row with its medal label. */
  datatype AthleteRow = AthleteRow(athlete: Row, Medal: MedalLabel)

  function AthleteOf(a: AthleteRow): (string, Option<string>) { AthleteKey(a.athlete) }
  function AthleteSport(a: AthleteRow): string { a.athlete.Sport }

  /** The label agrees with the row's medal, and a row without one is marked 'No Medal'. */
  predicate Labelled(a: AthleteRow) {
    match a.athlete.Medal
    case None => a.Medal == NoMedal
    case Some(k) => a.Medal == Won(k)
  }

  function Label(x: Row): (r: AthleteRow)
    ensures r.athlete == x && Labelled(r)
  {
    AthleteRow(x, if x.Medal.Some? then Won(x.Medal.value) else NoMedal)
  }

  function LabelAll(s: seq<Row>): seq<AthleteRow> {
    seq(|s|, i requires 0 <= i < |s| => Label(s[i]))
  }

  /**
   * The first row of each athlete, labelled: every athlete of the table
   * exactly once.
   */
  function AthleteTable(df: seq<Row>): (r: seq<AthleteRow>)
    ensures forall a :: a in r ==> Labelled(a) && First(df, AthleteKey, AthleteOf(a)) == Some(a.athlete)
    ensures DistinctKeys(r, AthleteOf)
    ensures forall k :: k in Keys(r, AthleteOf) <==> First(df, AthleteKey, k).Some?
  {
    FirstRowsLabelled(df);
    LabelAll(Dedup(df, AthleteKey))
  }

  /**
   * One row per athlete, the first of that athlete in the table, with its
   * medal label; for a sport, only the athletes whose first row is of that
   * sport.
   */
  function WeightVsHeight(df: seq<Row>, sport: Filter<string>): (r: seq<AthleteRow>)
    ensures forall a :: a in r ==> Labelled(a) && First(df, AthleteKey, AthleteOf(a)) == Some(a.athlete)
    ensures forall a :: a in r ==> sport.Only? ==> a.athlete.Sport == sport.value
    ensures DistinctKeys(r, AthleteOf)
    ensures forall k :: k in Keys(r, AthleteOf) <==>
              (First(df, AthleteKey, k).Some? && (sport.Only? ==> First(df, AthleteKey, k).value.Sport == sport.value))
  {
    if sport.Overall? then AthleteTable(df)
    else
      WhereKeepsDistinct(AthleteTable(df), AthleteSport, sport.value, AthleteOf);
      Where(AthleteTable(df), AthleteSport, sport.value)
  }

  lemma FirstRowsLabelled(df: seq<Row>)
    ensures var t := LabelAll(Dedup(df, AthleteKey));
            && (forall a :: a in t ==> Labelled(a) && First(df, AthleteKey, AthleteOf(a)) == Some(a.athlete))
            && DistinctKeys(t, AthleteOf)
            && (forall k :: k in Keys(t, AthleteOf) <==> First(df, AthleteKey, k).Some?)
  {
    var d := Dedup(df, AthleteKey);
    var t := LabelAll(d);
    forall a | a in t ensures Labelled(a) && First(df, AthleteKey, AthleteOf(a)) == Some(a.athlete) {
      var i :| 0 <= i < |t| && t[i] == a;
      DedupKeepsFirst(df, AthleteKey, d[i]);
    }
    forall i, j | 0 <= i < j < |t| ensures AthleteOf(t[i]) != AthleteOf(t[j]) {
      assert AthleteKey(d[i]) != AthleteKey(d[j]);
    }
    forall k ensures k in Keys(t, AthleteOf) <==> k in Keys(d, AthleteKey) {
      if k in Keys(d, AthleteKey) {
        var x :| x in d && AthleteKey(x) == k;
        var i :| 0 <= i < |d| && d[i] == x;
        assert AthleteOf(t[i]) == k;
      }
    }
  }

  /** Without a sport filter, the table has exactly one row per distinct athlete. */
  lemma AthleteCount(df: seq<Row>)
    ensures |WeightVsHeight(df, Overall)| == |Keys(df, AthleteKey)|
  {
    DistinctKeysCard(AthleteTable(df), AthleteOf);
    assert Keys(AthleteTable(df), AthleteOf) == Keys(df, AthleteKey);
  }

  /** `[Year, Male, Female]`: how many athletes of each sex took part in an edition. */
  datatype Participation = Participation(Year: int, Male: nat, Female: nat)

  function ParticipationYear(p: Participation): int { p.Year }

  /** The athletes of one sex, each by the first row of that athlete. */
  function AthletesOfSex(df: seq<Row>, sex: SexCode): (r: seq<Row>)
    ensures forall x :: x in r ==> x.Sex == sex && First(df, AthleteKey, AthleteKey(x)) == Some(x)
    ensures DistinctKeys(r, AthleteKey)
    ensures forall k :: k in Keys(r, AthleteKey) <==>
              First(df, AthleteKey, k).Some? && First(df, AthleteKey, k).value.Sex == sex
  {
    FirstRowsOfSex(df, sex);
    Where(Dedup(df, AthleteKey), SexOf, sex)
  }

  lemma FirstRowsOfSex(df: seq<Row>, sex: SexCode)
    ensures var r := Where(Dedup(df, AthleteKey), SexOf, sex);
            && (forall x :: x in r ==> x.Sex == sex && First(df, AthleteKey, AthleteKey(x)) == Some(x))
            && DistinctKeys(r, AthleteKey)
            && (forall k :: k in Keys(r, AthleteKey) <==>
                  First(df, AthleteKey, k).Some? && First(df, AthleteKey, k).value.Sex == sex)
  {
    var d := Dedup(df, AthleteKey);
    var r := Where(d, SexOf, sex);
    forall x | x in r ensures First(df, AthleteKey, AthleteKey(x)) == Some(x) {
      DedupKeepsFirst(df, AthleteKey, x);
    }
    WhereKeepsDistinct(d, SexOf, sex, AthleteKey);
    forall k | First(df, AthleteKey, k).Some? && First(df, AthleteKey, k).value.Sex == sex
      ensures k in Keys(r, AthleteKey)
    {
      assert k in Keys(d, AthleteKey);
      var z :| z in d && AthleteKey(z) == k;
      DedupKeepsFirst(df, AthleteKey, z);
      assert z in r;
    }
  }

  /** The count of `year` in a per-year table, or 0 when the year is absent (`fillna(0)`). */
  function CountOr0(groups: seq<Group<int>>, year: int): nat {
    match First(groups, GroupKeyOf, year)
    case None => 0
    case Some(g) => g.count
  }

  /**
   * `merge(..., on='Year', how='left')` followed by `fillna(0)`: one row per
   * men's edition, keeping the men's years and counts, with the women's count
   * of the same year.
   */
  function JoinOnYear(men: seq<Group<int>>, women: seq<Group<int>>): (r: seq<Participation>)
    ensures |r| == |men|
    ensures Keys(r, ParticipationYear) == Keys(men, GroupKeyOf)
    ensures forall p :: p in r ==> Group(p.Year, p.Male) in men
  {
    var r := seq(|men|, i requires 0 <= i < |men| => Participation(men[i].key, men[i].count, CountOr0(women, men[i].key)));
    JoinYears(men, r);
    assert forall p :: p in r ==> Group(p.Year, p.Male) in men by {
      forall p | p in r ensures Group(p.Year, p.Male) in men {
        var i :| 0 <= i < |r| && r[i] == p;
        assert men[i] == Group(p.Year, p.Male);
      }
    }
    r
  }

  /**
   * The men's per-year counts, left-joined on Year with the women's: one row
   * per edition with male athletes, ascending, and the number of female
   * athletes of that edition (0 if none).  An edition with female athletes
   * but no male ones does not appear.
   */
  function MenVsWomen(df: seq<Row>): (r: seq<Participation>)
    ensures forall i, j :: 0 <= i < j < |r| ==> r[i].Year < r[j].Year
    ensures forall y :: y in Keys(r, ParticipationYear) <==> y in Keys(AthletesOfSex(df, M), YearOf)
    ensures forall p :: p in r ==>
              && p.Male == |Where(AthletesOfSex(df, M), YearOf, p.Year)| && p.Male >= 1
              && p.Female == |Where(AthletesOfSex(df, F), YearOf, p.Year)|
  {
    JoinCorrect(AthletesOfSex(df, M), AthletesOfSex(df, F));
    JoinOnYear(YearCounts(AthletesOfSex(df, M)), YearCounts(AthletesOfSex(df, F)))
  }

  lemma JoinCorrect(menRows: seq<Row>, womenRows: seq<Row>)
    ensures var r := JoinOnYear(YearCounts(menRows), YearCounts(womenRows));
            && (forall i, j :: 0 <= i < j < |r| ==> r[i].Year < r[j].Year)
            && (forall y :: y in Keys(r, ParticipationYear) <==> y in Keys(menRows, YearOf))
            && (forall p :: p in r ==> p.Male == |Where(menRows, YearOf, p.Year)| && p.Male >= 1)
            && (forall p :: p in r ==> p.Female == |Where(womenRows, YearOf, p.Year)|)
  {
    var men := YearCounts(menRows);
    var r := JoinOnYear(men, YearCounts(womenRows));
    JoinMale(menRows, r);
    JoinFemale(womenRows, men, r);
  }

  /** The Male column is the men's per-year count, and the rows stay in ascending year order. */
  lemma JoinMale(menRows: seq<Row>, r: seq<Participation>)
    requires |r| == |YearCounts(menRows)|
    requires forall i :: 0 <= i < |r| ==> r[i].Year == YearCounts(menRows)[i].key && r[i].Male == YearCounts(menRows)[i].count
    ensures forall i, j :: 0 <= i < j < |r| ==> r[i].Year < r[j].Year
    ensures forall p :: p in r ==> p.Male == |Where(menRows, YearOf, p.Year)| && p.Male >= 1
  {
    var men := YearCounts(menRows);
    forall p | p in r ensures p.Male == |Where(menRows, YearOf, p.Year)| && p.Male >= 1 {
      var i :| 0 <= i < |r| && r[i] == p;
      assert men[i] in men;
    }
  }

  /** The Female column is the women's count of the same edition, 0 when there are none. */
  lemma JoinFemale(womenRows: seq<Row>, men: seq<Group<int>>, r: seq<Participation>)
    requires r == JoinOnYear(men, YearCounts(womenRows))
    ensures forall p :: p in r ==> p.Female == |Where(womenRows, YearOf, p.Year)|
  {
    forall p | p in r ensures p.Female == |Where(womenRows, YearOf, p.Year)| {
      CountOr0Correct(womenRows, p.Year);
    }
  }


  /** Looking an edition up in a per-year count gives that edition's rows, 0 when there are none. */
  lemma CountOr0Correct(rows: seq<Row>, year: int)
    ensures CountOr0(YearCounts(rows), year) == |Where(rows, YearOf, year)|
  {
    var g := YearCounts(rows);
    var f := First(g, GroupKeyOf, year);
    if f.Some? {
      assert f.value in g;
    } else {
      assert year !in Keys(rows, YearOf);
      WhereNone(rows, YearOf, year);
    }
  }


  /** The left join on Year keeps exactly the men's editions. */
  lemma JoinYears(men: seq<Group<int>>, r: seq<Participation>)
    requires |r| == |men|
    requires forall i :: 0 <= i < |men| ==> r[i].Year == men[i].key
    ensures Keys(r, ParticipationYear) == Keys(men, GroupKeyOf)
  {
    forall y | y in Keys(men, GroupKeyOf) ensures y in Keys(r, ParticipationYear) {
      var g :| g in men && g.key == y;
      var i :| 0 <= i < |men| && men[i] == g;
      assert ParticipationYear(r[i]) == y;
    }
    forall y | y in Keys(r, ParticipationYear) ensures y in Keys(men, GroupKeyOf) {
      var p :| p in r && p.Year == y;
      var i :| 0 <= i < |r| && r[i] == p;
      assert GroupKeyOf(men[i]) == y;
    }
  }

  /** The Male column. */
  function Males(r: seq<Participation>): seq<nat> {
    seq(|r|, i requires 0 <= i < |r| => r[i].Male)
  }

  /** The Female column. */
  function Females(r: seq<Participation>): seq<nat> {
    seq(|r|, i requires 0 <= i < |r| => r[i].Female)
  }

  /** Every male athlete is counted in exactly one edition. */
  lemma MaleTotal(df: seq<Row>)
    ensures Total(Males(MenVsWomen(df))) == |AthletesOfSex(df, M)|
  {
    var men := YearCounts(AthletesOfSex(df, M));
    assert MenVsWomen(df) == JoinOnYear(men, YearCounts(AthletesOfSex(df, F)));
    MaleColumn(men, YearCounts(AthletesOfSex(df, F)));
  }

  /** Joined on the men's editions, the Male column is the men's count column. */
  lemma MaleColumn(men: seq<Group<int>>, women: seq<Group<int>>)
    ensures Males(JoinOnYear(men, women)) == Counts(men)
  {
    var r := JoinOnYear(men, women);
    assert forall i :: 0 <= i < |r| ==> r[i].Male == men[i].count;
  }

  /**
   * When every edition with female athletes also has male ones, every female
   * athlete is counted in exactly one edition; otherwise the left join drops
   * the editions without men.
   */
  lemma FemaleTotal(df: seq<Row>)
    requires Keys(AthletesOfSex(df, F), YearOf) <= Keys(AthletesOfSex(df, M), YearOf)
    ensures Total(Females(MenVsWomen(df))) == |AthletesOfSex(df, F)|
  {
    var menRows, women := AthletesOfSex(df, M), AthletesOfSex(df, F);
    var years := SortedKeys(menRows, YearOf, IntLt);
    YearGroupKeys(menRows, years);
    var men := YearCounts(menRows);
    assert men == GroupBy(menRows, YearOf, years);
    assert MenVsWomen(df) == JoinOnYear(men, YearCounts(women));
    FemaleColumn(men, women, years);
    forall x | x in women ensures x.Year in years {
      assert x.Year in Keys(women, YearOf);
    }
    CountsPartition(women, YearOf, years);
  }

  /** Joined on the men's editions, the Female column counts the women of each of those editions. */
  lemma FemaleColumn(men: seq<Group<int>>, womenRows: seq<Row>, years: seq<int>)
    requires |men| == |years| && forall i :: 0 <= i < |men| ==> men[i].key == years[i]
    ensures Females(JoinOnYear(men, YearCounts(womenRows))) == CountsBy(womenRows, YearOf, years)
  {
    var r := JoinOnYear(men, YearCounts(womenRows));
    forall i | 0 <= i < |r| ensures Females(r)[i] == CountsBy(womenRows, YearOf, years)[i] {
      assert r[i].Female == CountOr0(YearCounts(womenRows), years[i]);
      CountOr0Correct(womenRows, years[i]);
    }
  }
}
