# Olympic gender-representation dashboard: the selection and counting layer

`olympic_data.py` is a Dash dashboard over a table of Olympic athlete-event
rows (year, season, sport, team, sex, optional medal). Around its UI and
plotly code sits a small data layer, and this project models that layer as
pure Dafny functions over an immutable `seq<Record>`:

- the start-up derivation of the Summer rows, the distinct years and sports,
  the sport dropdown options, the slider marks and the slider's range
  (`Controls`);
- `calculate_team_stats`: per team, the number of selected rows, the number
  with sex `F`, and the female percentage, held as an exact real
  (`TeamStats`);
- the two `idxmax` picks of `update_map` (`Choropleth`);
- reading the hovered team out of the hover payload, guarded differently by
  the two callbacks (`Hover`);
- the filter and `groupby(['year', 'sex']).size()` step of
  `update_line_chart`, split into the Female and the Male line (`LineChart`);
- the filter and `groupby(['sex', 'medal']).size()` step of
  `update_sunburst` (`Sunburst`).

Shared modules:

- `Table`: records and boolean-mask selection (`df[mask]`).
- `GroupBy`: pandas `groupby(...).size()` with `sort=True` and `dropna=True`. Keys come out in ascending order. A row whose key has a missing value falls out.
- `Sequences`: `unique()`, `sorted()`, `min`, `max`.
- `Decimal`: `str(int)` and `int(str)`.
- `Wrappers`: `Option` and `Result`.

Python exceptions become `Err` values of a `Result`. These are `ValueError`
from `idxmax`, `min` or `max` on an empty column, and `KeyError` or
`IndexError` from the hover lookup.

The model follows the code, including where the code evidently misbehaves.
The controls can select a year and a sport with no row in common: a sport
offered by the dropdown need not have been held in the year the slider
shows, and the step-1 slider also stops at years without Summer Games. On
such a selection `update_map` calls `idxmax` on the empty aggregate, which
raises, so the map callback fails. `Choropleth.UpdateMap` models the raise.
`Choropleth.GuardedUpdateMap` models what a callback that does not fail
would show, an empty map without annotations; this is the model's own
judgement of the intent (see Findings).

## Model

| member | source | states |
|---|---|---|
| Table.Where | olympic_data.py:38 | `df[mask]` keeps exactly the rows satisfying the mask, each with its multiplicity, and its length is the count of such rows |
| Table.WhereConcat | olympic_data.py:38 | selection keeps the table's order: the rows kept from `a + b` are the rows kept from `a` followed by the rows kept from `b` |
| Table.WhereCons | olympic_data.py:38 | a leading row is kept, ahead of the selection of the rest, exactly when it satisfies the mask |
| Table.WhereThen | olympic_data.py:49-51 | applying an optional filter after a mask (skipping it when absent) selects the same rows as one combined mask |
| Table.WhereBoth | olympic_data.py:49-51 | filtering by one mask and then another is filtering once by both |
| Table.CountWhereBoth | olympic_data.py:54-57 | counting a mask among already-filtered rows counts the table rows satisfying both masks |
| Table.CountWherePositive | olympic_data.py:54-57 | a count is positive exactly when some row satisfies the mask |
| Table.CountWhereBothLe | olympic_data.py:297 | narrowing a selection by a second mask never adds rows |
| Sequences.Unique | olympic_data.py:39-40 | `unique()`: no repeats, exactly the elements of the input, in the order of their first occurrence |
| Sequences.Min | olympic_data.py:82 | `min` of a non-empty sequence: an element of it, at most every element |
| Sequences.Max | olympic_data.py:83 | `max` of a non-empty sequence: an element of it, at least every element |
| Controls.ValidYears | olympic_data.py:38-39 | the distinct years of the Summer rows, no repeats, a year listed iff some Summer row has it, empty iff there are no Summer rows |
| Controls.ValidSports | olympic_data.py:38-40 | the distinct Summer sports, no repeats, a sport listed iff some Summer row has it, in order of first appearance |
| Controls.SportsOptions | olympic_data.py:43 | option i carries the i-th of `valid_sports` as both label and value, so the options follow `valid_sports`' order, repeat no value, and offer exactly the Summer sports |
| Controls.SortedYears | olympic_data.py:44 | the Summer years in strictly ascending order, a year listed iff some Summer row has it |
| Controls.YearMarks | olympic_data.py:44 | every mark maps a year's decimal string to itself, every mark parses back to a Summer year, every Summer year has a mark, and the marks ascend by year with no repeated key |
| Controls.YearSlider | olympic_data.py:82-85 | fails iff there are no Summer rows (`min` of an empty sequence); otherwise min and max are Summer years bounding every Summer year, step is 1, the start value is the minimum, and the marks are `year_marks` |
| Controls.SliderEndsAreMarks | olympic_data.py:44-86 | the first mark labels the slider's minimum and the last mark its maximum |
| Decimal.IntToString | olympic_data.py:44 | `str(n)`: a leading '-' exactly for negative n, then decimal digits with no leading zero except for 0 itself; `Decimal.IntRoundTrip` is its inverse |
| Decimal.IntRoundTrip | olympic_data.py:44 | parsing `str(year)` gives the year back, so a mark key identifies its year |
| Decimal.IntToStringInjective | olympic_data.py:44 | distinct years have distinct mark keys |
| GroupBy.Tally | olympic_data.py:54-57 | a one-pass count per key: every key present maps to its positive row count, and every key with rows is present |
| GroupBy.GroupKeys | olympic_data.py:54-57 | the distinct keys of the grouped rows, strictly ascending, a key listed iff some row has it |
| GroupBy.GroupCount | olympic_data.py:54-57 | `groupby(cols).size()`: groups in ascending key order, each of the key's shape, sized by the number of its rows and non-empty; every key with rows has a group; the sizes sum to the number of rows with a complete key |
| GroupBy.GroupCountOfSelection | olympic_data.py:223 | grouping a filtered frame counts, per key, the table rows matching both the filter and the key; no such key is lost; the sizes sum to the filtered rows with a complete key |
| TeamStats.SelectTeamRows | olympic_data.py:49-51 | the rows of the chosen year with season Summer, restricted to the sport only when one is given (truthy) |
| TeamStats.StatsMaskMeans | olympic_data.py:49-51 | a row is selected iff its season is Summer, its year is the chosen year, and, when a sport is given, its sport is that sport |
| TeamStats.FemalePercentage | olympic_data.py:60 | for a non-empty group the percentage lies in [0, 100] and times the total equals 100 times the female count |
| TeamStats.TeamRow | olympic_data.py:54-60 | one aggregate row: the team's group size, its number of `F` rows (at most the size), and the percentage of the two |
| TeamStats.CalculateTeamStats | olympic_data.py:47-61 | teams in strictly ascending name order; a team appears iff some selected row has it; each row's total and female count equal the selected rows of that team (and with sex F); 0 <= female <= total and total >= 1; the totals sum to the number of selected rows |
| TeamStats.EmptySelectionEmptyStats | olympic_data.py:54-57 | the aggregate is empty iff no row is selected (and building it raises nothing) |
| TeamStats.TeamTotalsConserve | olympic_data.py:54-57 | every selected row is counted in exactly one team's total: the totals sum to the selection's size |
| TeamStats.PercentageInRange | olympic_data.py:60 | every team's percentage is in [0, 100] and equals female * 100 / total exactly |
| TeamStats.TeamCountsOfSelection | olympic_data.py:49-56 | counting a team (and its women) among the selected rows equals counting them in the table under the combined mask |
| TeamStats.TeamPresent | olympic_data.py:54-57 | a team has an aggregate row iff some selected row belongs to it |
| TeamStats.TeamStatsSorted | olympic_data.py:54-57 | team groups in key order give aggregate rows in ascending team-name order |
| Choropleth.ArgMax | olympic_data.py:146-149 | the position of a maximum of a non-empty column, with every earlier value strictly smaller (the first maximum) |
| Choropleth.IdxMax | olympic_data.py:146-149 | `idxmax`: an error iff the column is empty, otherwise the first position holding the maximum |
| Choropleth.MapPicks | olympic_data.py:146-149 | fails iff the aggregate is empty; otherwise the first pick is the first row with the most women and the second the first row with the highest percentage |
| Choropleth.UpdateMap | olympic_data.py:128-149 | raises iff no row is selected for the year and sport; otherwise its aggregate is `calculate_team_stats` of them, the first annotated team is the first row with the most women and the second is the first row with the highest female percentage |
| Choropleth.FirstMaxLeadsTies | olympic_data.py:146-149 | in an aggregate sorted by team, a first maximum is a row that beats or ties every row, and every tied row sorts after it |
| Choropleth.PicksPreferFirstTeam | olympic_data.py:146-149 | each pick is a row of the aggregate holding the column's maximum, and any other team tied with it has a later name |
| Choropleth.GuardedUpdateMap | olympic_data.py:128-149 | the same aggregate, with no picks iff no row is selected, and otherwise exactly the picks `update_map` makes |
| Choropleth.AbsentSportRaises | olympic_data.py:146 | on a table where Baseball was played in 2008 and only Swimming in 2012, the controls offer both Baseball and 2012, and choosing them makes `update_map` raise while the guarded version returns an empty aggregate without picks |
| Hover.LineChartTeam | olympic_data.py:213 | raises IndexError iff the payload has 'points' with an empty list; a team iff 'points' is non-empty, and then it is the first point's location; otherwise no team |
| Hover.SunburstTeam | olympic_data.py:287 | raises KeyError iff the payload is non-empty and lacks 'points', IndexError iff 'points' is empty; a team iff 'points' is non-empty, and then it is the first point's location |
| Hover.ExtractionsAgree | olympic_data.py:213-287 | the two lookups agree whenever the sunburst's succeeds, and where it raises KeyError the line chart sees no team |
| LineChart.LineRows | olympic_data.py:216-220 | the Summer rows, restricted to the hovered team and the sport only when given; the slider's year does not restrict them |
| LineChart.AthleteCounts | olympic_data.py:223 | groups in ascending (year, sex) order; each is non-empty and counts the narrowed rows of its year and sex; every (year, sex) with rows has a group; the sizes sum to the narrowed rows |
| LineChart.SexGroups | olympic_data.py:228 | `athlete_counts[athlete_counts['sex'] == gender]`: no longer than the groups, and every kept group is a (year, sex) group of that sex |
| LineChart.SexGroupsMembers | olympic_data.py:228 | `athlete_counts[athlete_counts['sex'] == gender]` keeps exactly the groups of that sex |
| LineChart.SexGroupsAscend | olympic_data.py:228-231 | the groups of one sex keep ascending year order |
| LineChart.SexGroupsPartition | olympic_data.py:227-228 | the Female and Male selections together hold every counted row |
| LineChart.Sizes | olympic_data.py:231 | the y values are the group sizes and sum to the groups' total |
| LineChart.GenderTrace | olympic_data.py:227-236 | the line is named Female or Male; each point is a group of that sex; every group of that sex is a point; its counts sum to that sex's groups |
| LineChart.LineOfSex | olympic_data.py:216-236 | a sex's line plots every year with narrowed rows of that sex, in strictly ascending order, at the number of such rows |
| LineChart.UpdateLineChart | olympic_data.py:211-240 | raises iff the payload's 'points' is empty; otherwise a Female then a Male line, each counting its sex per year as above, the marker at the slider's year, and the two lines together count every narrowed row |
| Sunburst.SunburstRows | olympic_data.py:290-294 | the rows of the chosen year with season Summer, restricted to the hovered team and the sport only when given |
| Sunburst.SunburstMaskMeans | olympic_data.py:290-294 | a row is selected iff its year and season match and the given team and sport match |
| Sunburst.MedalCounts | olympic_data.py:297 | groups in ascending (sex, medal) order, one per pair won by a selected row, sized by those rows; medal-less rows form no group and are not counted; at most six groups |
| Sunburst.MedalGroups | olympic_data.py:297 | grouping the selected rows by (sex, medal) yields those counts |
| Sunburst.SlotOrder | olympic_data.py:297 | the key order of (sex, medal) pairs is the order of their six slots |
| Sunburst.AtMostSixGroups | olympic_data.py:297 | strictly ascending (sex, medal) groups number at most six |
| Sunburst.UpdateSunburst | olympic_data.py:285-297 | raises KeyError or IndexError exactly as the hover lookup does; otherwise the medal counts of the team it yields, at most six groups |

## Left out

- Loading the CSV from its URL (olympic_data.py:23, 32-35) is network I/O. The table is a parameter of every function instead.
- The Dash app, its layout, the markdown text, the callback wiring and `app.run` (olympic_data.py:63-127, 203-209, 278-284, 350-352) are UI framework plumbing.
- The plotly figures are left out because they are calls into a charting library. This covers the choropleth's locations, colour scale and colour axis, the annotation text and its position, the hover templates, the geos, the titles and the layout (olympic_data.py:133-199, 242-274, 299-346). The model keeps only the data the figures are given. For the line chart that is the two traces' names, years and counts and the marked year. For the map and the sunburst it is the aggregate and the picks or counts.
- The in-place rewrite of the sunburst's hover templates (olympic_data.py:326-333) only formats text. The parent nodes plotly derives for the sunburst are not modelled either.
- The `:.1f` formatting (olympic_data.py:153) and IEEE floating point are not modelled. The percentage is an exact real.
- Missing values in the sex column are not modelled: every record has a sex `F` or `M`. The only missing value is the medal. `TeamStats.CalculateTeamStats` therefore counts every selected row in `total_athletes`, whereas pandas' `count` skips a missing sex.
- A hover point without a 'location' key is not modelled: a point always carries a location.
- Decimal.IntRoundTrip: `ParseInt` accepts only an optional '-' followed by digits. It is not the whole of Python's `int()`, which also takes '+', surrounding whitespace and underscores. Only strings produced by `str(year)` are parsed.
- Hover payload values other than the 'points' list are not modelled.

## Findings

| source | as written | input that shows it | evidently intended | confidence | as-written member | corrected member |
|---|---|---|---|---|---|---|
| olympic_data.py:146 | `team_stats_df['female_athletes'].idxmax()` runs on the aggregate even when the selection is empty, and raises `ValueError`, so the map callback fails | the table `[(2008, Summer, Baseball, Cuba, M, Gold), (2012, Summer, Swimming, United States, F, Gold)]`: the dropdown offers Baseball and the slider offers 2012, and year 2012 with sport Baseball selects no row | an empty map with no annotation rather than a failing callback, since the controls themselves produce such selections | not executed | Choropleth.AbsentSportRaises | Choropleth.GuardedUpdateMap |
