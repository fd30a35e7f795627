# Olympic history analysis — query layer

This project models the query layer of an Olympic-history dashboard. The
layer is `helper.py`. It takes the cleaned athlete-event table and
computes the tables the dashboard shows:

- the medal tally by region, by year or for one country;
- the year and country choices for the filters;
- participation per edition, for a chosen column;
- the most successful athletes, overall, in one sport or in one country;
- one country's medals per edition and per sport and edition;
- the athlete table behind the weight/height view;
- male and female participation per edition.

The table is a `seq<Row>`. Pandas operations become functions over it:

- `drop_duplicates(subset=..., keep='first')` is `Deduplication.Dedup`. It is generic in the key, so each subset of columns is a key function in `Dataset`.
- Boolean-mask filters are `Sequences.Where`.
- `dropna(subset=['Medal'])` is `Dataset.MedalRows`.
- `groupby(...).count()` / `value_counts()` are `Grouping.GroupBy`, `YearGroups.YearCounts` and `Rankings.ValueCounts`.
- `sort_values` is `Sorting.SortBy` (a stable insertion sort on an integer rank) or `Sorting.SortedSet` (a sorted list of distinct values, under a strict total order passed as a parameter).
- The sentinel `'Overall'` is the `Overall` case of `Dataset.Filter<T>`, next to `Only(value)`.

Each query is a function whose `ensures` says what its rows mean in terms of the input table. Lemmas connect the queries to each other. For example:

- a duplicated medal unit never changes a tally;
- the heatmap's columns add up to the year-by-year tally;
- the male counts add up to the number of male athletes.

The model is built in these layers:

- `Wrappers`
- `Sequences`
- `Deduplication`
- `Sorting`
- `Grouping`
- `Dataset`
- `YearGroups`
- one module per family of queries: `Tallies`, `Selections`, `OverTime`, `Rankings`, `CountryAnalysis` and `Demographics`.

Conventions that follow the pandas semantics the code relies on:

- A missing region is `None`.
- `drop_duplicates` treats two missing regions as equal.
- `groupby` drops rows whose key is missing.
- `region == country` never holds for a missing region.
- Where pandas leaves the order of equal sort keys open, the model keeps the table order, because `SortBy` is stable. The contracts promise only what holds for every tie order: descending Gold, descending count, ascending year.

## Model

| member | source | states |
|---|---|---|
| Deduplication.Dedup | helper.py:5 | keep-first deduplication keeps only rows of the input, no two with the same key, and every key of the input |
| Deduplication.DedupIsSubseq | helper.py:5 | the surviving rows keep their original relative order |
| Deduplication.DedupKeepsFirst | helper.py:32 | every surviving row is the first row of the table with its key |
| Deduplication.DedupOfDistinct | helper.py:59 | a table whose keys are already distinct is returned unchanged |
| Deduplication.DedupIdempotent | helper.py:93 | deduplicating twice on the same key is the same as deduplicating once |
| Deduplication.DedupDropsLaterDuplicate | helper.py:135 | a row whose key occurred earlier can be removed from anywhere after that without changing the result |
| Deduplication.DedupAppendBlock | helper.py:86 | appending a block of rows that share one key adds exactly the block's first row if the key is new, and nothing otherwise |
| Sequences.Where | helper.py:11 | a boolean-mask filter keeps the rows with the key and no others, as a subsequence in table order |
| Sequences.WhereMultiset | helper.py:11 | the filter keeps every copy of each row with the key and no copy of any other row |
| Sequences.WhereCommute | helper.py:15 | the two masks of the year-and-country case give the same rows in either order |
| Sequences.First | helper.py:86 | the first row with a key exists exactly when the key occurs; it is the row at the least index with that key |
| Sequences.FirstIsHeadOfWhere | helper.py:86 | the first row with a key is the head of the filtered table |
| Sequences.Take | helper.py:80 | `head(n)` is the prefix of length min(n, length) |
| Sorting.SortBy | helper.py:20 | sorting gives a permutation (same multiset, same length) that is non-decreasing in the rank |
| Sorting.InsertBySorted | helper.py:20 | inserting into a sorted sequence keeps it sorted |
| Sorting.SortByKeepsDistinct | helper.py:76 | sorting keeps keys pairwise distinct |
| Sorting.SortedSet | helper.py:47-48 | the sorted unique values are exactly the input's values, strictly ascending under a strict total order |
| Sorting.StrLtIsStrictTotalOrder | helper.py:52 | lexicographic order on strings is irreflexive, transitive and total |
| Grouping.CountsPartition | helper.py:96 | when every row's key is listed, the per-key counts add up to the number of rows |
| Grouping.DistinctKeysCard | helper.py:59-60 | a table with distinct keys has as many rows as distinct keys |
| Grouping.TotalOfRowTotals | helper.py:106 | the row totals of a grid add up to its grand total |
| Dataset.MedalRows | helper.py:69 | dropping rows without a medal keeps the medal rows and no others, in table order |
| Dataset.MedalRowsKeepsCopies | helper.py:69 | every copy of a medal row is kept, and no copy of any other row |
| Dataset.PresentRegions | helper.py:51 | `dropna` on region yields exactly the regions present in the table |
| YearGroups.YearCounts | helper.py:96 | one group per edition, ascending, each counting that edition's rows (at least one), the counts adding up to all rows |
| Tallies.SelectUnits | helper.py:7-15 | the four filter cases keep every copy of each unit of the chosen year and/or region and nothing else, in table order, with 'Overall' meaning no filter |
| Tallies.TallyUnits | helper.py:5-15 | the selected units are exactly the table rows that are the first row of their medal-award unit and match the filters, no unit twice; without a country filter every unit of the chosen years is present |
| Tallies.RegionTally | helper.py:20-21 | grouping by region then sorting by Gold gives one row per present region, each summing that region's medals with Total = G+S+B, Gold descending |
| Tallies.YearTally | helper.py:18 | grouping by year gives one row per year present, ascending, each summing that year's medals |
| Tallies.TallyOf | helper.py:17-20 | the timeline flag selects the per-year tally, otherwise the per-region ranking; no units give no rows |
| Tallies.FetchMedalTally | helper.py:4-28 | on the medal units of the selection: all years of one country gives the per-year timeline, any other case gives the per-region ranking; Total is G+S+B; an empty selection gives an empty table |
| Tallies.MedalTally | helper.py:31-42 | the overall tally is the per-region ranking of the units deduplicated on the key that also lists Sport |
| Tallies.TallyNonNegative | helper.py:21-26 | with 0/1 medal indicators, every Gold, Silver, Bronze and Total entry is non-negative |
| Tallies.DuplicateUnitCountedOnce | helper.py:5 | a row repeating an earlier medal unit changes no tally, for every filter |
| Tallies.TeamGoldCountsOnce | helper.py:5-21 | a team gold shared by any number of athlete rows is one Gold and Total 1 on the country's timeline |
| Selections.CountryYearList | helper.py:45-55 | both lists start with 'Overall' followed by the years (resp. present regions) of the table, strictly ascending, each exactly once |
| OverTime.DataOverTime | helper.py:58-64 | one row per edition, ascending, counting the distinct values of the column in that edition; the counts add up to the distinct (edition, value) pairs |
| OverTime.DistinctCount | helper.py:59-60 | after deduplication on (Year, column), an edition's row count equals its number of distinct column values |
| Rankings.SportMedalRows | helper.py:69-73 | the rows counted are the medal rows of the chosen sport (all sports for 'Overall'), every copy kept, and no others |
| Rankings.CountryMedalRows | helper.py:112-116 | the rows counted are the medal rows of the region, every copy kept, and no others |
| Rankings.NameCounts | helper.py:76 | one entry per distinct name, with that name's row count (at least one) |
| Rankings.ValueCounts | helper.py:76-77 | `value_counts()` has every name once, with its row count, most first |
| Rankings.JoinOne | helper.py:83 | the merge of one count row gives one row per table row of that name, in table order, the i-th carrying the Sport and region of the name's i-th table row, or one row with neither when the name has no table row |
| Rankings.LeftJoin | helper.py:83 | the left merge of the count rows keeps exactly their names; every row carries a count row's name and count; every table row of a counted name appears with its Sport and region; a count row whose name has no table row gives a row with neither; the order of the blocks is stated by `LeftJoinPrefix` |
| Rankings.LeftJoinPrefix | helper.py:83 | the merge keeps the count rows' order with each count row's rows contiguous: the join of the first k count rows followed by the k-th count row's block is a prefix of the whole join |
| Rankings.JoinThenDedup | helper.py:83-86 | left-joining the top names to the table and deduplicating on Name gives each top name once, in rank order, with the Sport and region of its first row in the table |
| Rankings.TopAthletes | helper.py:76-86 | row i of the result is the i-th of the first n value counts, with the Sport and region of that athlete's first row in the table |
| Rankings.TopAthletesCorrect | helper.py:76-86 | the top-n table has at most n rows and distinct names with their counts, most first; nobody left out has more medals than the last row shown; each row carries the Sport and region of its first row |
| Rankings.MostSuccessful | helper.py:67-88 | the top 15 of the sport's medal rows, with the cut property, each with the Sport and region of the athlete's first row in the whole table |
| Rankings.CountryRankingCorrect | helper.py:119-131 | dropping the region column keeps the ranking properties and the Sport of the first row |
| Rankings.MostSuccessfulAthletesCountry | helper.py:110-131 | the top 10 of the region's medal rows, with the cut property, each with the Sport of the athlete's first row, without region |
| CountryAnalysis.CountryUnits | helper.py:92-95 | the units are medal rows of the table belonging to the region, with distinct unit keys |
| CountryAnalysis.CountryUnitsFirst | helper.py:93-95 | a unit is kept exactly when its first medal row in the table belongs to the region |
| CountryAnalysis.CountryUnitsCover | helper.py:93-95 | when the region is a function of the NOC, the units are exactly the unit keys of the region's medal rows |
| CountryAnalysis.YearwiseMedalTally | helper.py:91-98 | one row per edition with a unit of the region, ascending, counting its units; the counts add up to all units |
| CountryAnalysis.CountryEventHeatmap | helper.py:101-108 | sports and years are the sorted distinct values of the units; each cell counts the units of that sport and year (0 when none); the grid adds up to all units |
| CountryAnalysis.HeatmapRowMargins | helper.py:106 | each sport row adds up to the region's units of that sport |
| CountryAnalysis.HeatmapColumnsAreYearwise | helper.py:91-108 | the heatmap's years are the year-by-year tally's editions in the same order, and each column adds up to that edition's count |
| Demographics.AthleteTable | helper.py:135-136 | every athlete (name, region) of the table exactly once, by its first row, with its medal or 'No Medal' |
| Demographics.WeightVsHeight | helper.py:134-141 | one row per athlete (name, region), the first of that athlete in the table, medal labelled or 'No Medal'; with a sport, exactly the athletes whose first row is of that sport |
| Demographics.AthleteCount | helper.py:135 | without a sport filter, the table has exactly one row per distinct athlete |
| Demographics.AthletesOfSex | helper.py:145-147 | the first rows of the athletes whose first row has the given sex, each athlete once |
| Demographics.JoinOnYear | helper.py:148-150 | the left merge on Year has one row per men's edition, with exactly the men's years and each edition's men's count |
| Demographics.MenVsWomen | helper.py:144-151 | one row per edition with male athletes, ascending, with the number of male athletes (at least one) and of female athletes (0 when none) |
| Demographics.JoinCorrect | helper.py:148-150 | the left join on Year keeps the men's editions and order and fills the women's count with 0 where absent |
| Demographics.MaleTotal | helper.py:146 | the Male column adds up to the number of male athletes |
| Demographics.FemaleColumn | helper.py:147-150 | on the men's editions, the Female column is the women's count of each edition |
| Demographics.FemaleTotal | helper.py:147-150 | when every edition with women also has men, the Female column adds up to the number of female athletes |

## Left out

- The dashboard (`app.py`), the CSV loading and the preprocessing step that joins regions and adds the medal indicators. The model takes the cleaned table as input. `Dataset.IndicatorsAgree` states what the preprocessing step guarantees, and lemmas that need it require it.
- Plotting (`plotly.express` is imported but not used in the queries) and the column renames (`Edition`, `Medal_Count`, `Name_x`/`Name_y`, the `total` column of `medal_tally`). Output rows are datatypes with named fields instead.
- Age, Height and Weight are floats in the table. The model carries them as `Option<real>` payload; no query computes with them.
- The `int(year)` conversion in the year-only case of `fetch_medal_tally` has no counterpart. Years are `int` throughout, as the dashboard passes them, so all four cases compare years the same way.
- 'Overall' is a datatype case rather than a string. A region literally named "Overall" therefore cannot clash with it.
- The order of rows with equal sort keys: pandas does not fix it, and the model keeps table order. `Tallies.FetchMedalTally`, `Rankings.ValueCounts` and the rankings promise only what holds for every tie order.
- `Demographics.MenVsWomen` follows the code's left join (`how='left'`), not a full outer join. Editions with female athletes but no male ones are dropped. `Demographics.FemaleTotal` therefore requires that every women's edition also has men.
- `Demographics.MenVsWomen`: when some men's edition has no female athletes, the left join leaves a missing value there and pandas makes the Female column a float before `fillna(0)`. The model keeps it a `nat` throughout.
- `Demographics.WeightVsHeight` does not model the chained `fillna(..., inplace=True)` on a column of a copy. The model assumes the label is applied, as intended.
- `CountryAnalysis.CountryUnits` deduplicates before the region filter, as the code does. A unit whose first row belongs to another region is lost. `CountryAnalysis.CountryUnitsCover` states the condition under which nothing is lost.
- Mutation of the input (`inplace=True` on a filtered copy) and pandas' copy warnings are not modelled; every query is a function of its input table.
