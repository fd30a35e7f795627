/**
 * The choices offered for the tally filters (helper.py `country_year_list`):
 * 'Overall' followed by every year, and 'Overall' followed by every region,
 * each list sorted and without repeats.
 */
module Selections {
  import opened Wrappers
  import opened Sequences
  import opened Sorting
  import opened Dataset

  /** 'Overall' in front of the given values. */
  function Choices<T>(xs: seq<T>): seq<Filter<T>> {
    [Overall] + seq(|xs|, i requires 0 <= i < |xs| => Only(xs[i]))
  }

  /** The year list and the country list; absent regions are not offered. */
  function CountryYearList(df: seq<Row>): (r: (seq<Filter<int>>, seq<Filter<string>>))
    ensures |r.0| >= 1 && r.0[0] == Overall
    ensures forall i :: 1 <= i < |r.0| ==> r.0[i].Only?
    ensures forall i, j :: 1 <= i < j < |r.0| ==> r.0[i].value < r.0[j].value
    ensures forall y :: Only(y) in r.0 <==> y in Keys(df, YearOf)
    ensures |r.1| >= 1 && r.1[0] == Overall
    ensures forall i :: 1 <= i < |r.1| ==> r.1[i].Only?
    ensures forall i, j :: 1 <= i < j < |r.1| ==> StrLt(r.1[i].value, r.1[j].value)
    ensures forall g :: Only(g) in r.1 <==> Some(g) in Keys(df, RegionOf)
  {
    var years := SortedKeys(df, YearOf, IntLt);
    var countries := SortedSet(PresentRegions(df), StrLt);
    IntLtIsStrictTotalOrder();
    StrLtIsStrictTotalOrder();
    ChoicesOf(years);
    ChoicesOf(countries);
    (Choices(years), Choices(countries))
  }

  lemma ChoicesOf<T>(xs: seq<T>)
    ensures |Choices(xs)| == |xs| + 1 && Choices(xs)[0] == Overall
    ensures forall i :: 1 <= i < |Choices(xs)| ==> Choices(xs)[i] == Only(xs[i - 1])
    ensures forall x :: Only(x) in Choices(xs) <==> x in xs
  {
    var c := Choices(xs);
    forall x ensures Only(x) in c <==> x in xs {
      if x in xs {
        var i :| 0 <= i < |xs| && xs[i] == x;
        assert c[i + 1] == Only(x);
      }
    }
  }
}
