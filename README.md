# Premier League dashboard: selection and aggregation layer

This project models the only logic in a Streamlit dashboard of Premier League
statistics (`app.py`). Each page function selects rows from in-memory tables
loaded from eight CSV files. It filters them, sorts them, looks up single rows
and counts results. Then it hands the values to charts and tables. The model
covers that selection layer as pure Dafny functions over sequences of row
records, and proves lemmas about them:

- `Tables`: one row datatype per CSV file and the bundle of all eight tables.
  It also names each table's key column: `team`, `name`, `player` or `Player`.
  Every lookup is an exact, case-sensitive string equality on that column.
- `Query`: the four pandas operations the pages use, over `seq`:
  - `Keep` is the boolean mask `frame[mask]`.
  - `FirstWhere` and `FirstWithKey` are `frame[mask].iloc[0]`.
  - `SortBy` is `sort_values`.
  - `Unique` is `Series.unique()`.
- `Fixtures`: the fixtures page. It has the "All Teams" sentinel, the team
  filter, the inclusive date filter, the date-sorted display and the
  home-win / away-win / draw tally.
- `TeamAnalysis`: the team page. It looks up the team's stats row, its salary
  rows and its possession row, and projects the touches by zone.
- `PlayerAnalysis`: the player page. It looks up one row in each of three
  tables and catches any failure.
- `Standings`: the standings page. It has the table by rank, the team options
  and the form-comparison subset.

Dates are integer timestamps that are already parsed. The two range bounds
are the timestamps of the chosen days at midnight. So a fixture at 15:00 on
the end day lies after the end bound and is filtered out. Only a fixture
stamped exactly at a bound is kept "at the bound". A missing score is `None`.
pandas compares NaN as neither greater, smaller nor equal. So a fixture with a
missing score is counted as a home win, an away win or a draw in no count.

Behaviours of `app.py` the model follows:

- `.iloc[0]` takes the first matching row. It fails only when nothing matches.
  Several matches are not an error.
- The player page catches every failure and shows one generic message. The
  message does not say which table lacked the player.
- A failed lookup on the team page is not caught. `ShowTeamAnalysis` returns
  `None` in that case. A missing possession row is therefore an error, not a
  quiet absence.
- The team page does not look up the standings table.
- `sort_values('Date')` uses pandas' default sort, which is not stable. The
  model promises only date order and the same rows, not an order among equal
  dates. `DisplayedDatesDetermined` shows that the date in each row is still
  fixed.
- A missing score is not an error. It simply falls in no bucket of the tally.
- Dates are compared as full timestamps, not as calendar days.
- The tally is computed only when the filtered fixtures are not empty.

## Model

| member | source | states |
|---|---|---|
| `Query.KeepSelects` | app.py:189-194 | a boolean-mask selection holds exactly the rows satisfying the mask, each as often as in the table, as a subsequence in table order |
| `Query.KeepCounts` | app.py:189-194 | a row occurs in the selection as often as in the table when it satisfies the mask, and never otherwise |
| `Query.KeepIsSubsequence` | app.py:189-194 | the selected rows keep the table's order |
| `Query.KeepSatisfies` | app.py:189-194 | every selected row satisfies the mask |
| `Query.KeepAll` | app.py:189-194 | a mask that every row satisfies selects the whole table unchanged |
| `Query.KeepNone` | app.py:189-194 | a mask that no row satisfies yields the empty selection, not an error |
| `Query.KeepIdempotent` | app.py:189-194 | applying the same mask to its own selection returns that selection unchanged |
| `Query.KeepPreservesSorted` | app.py:75 | a mask applied to a table sorted by a key yields rows still sorted by that key |
| `Query.FirstWhere` | app.py:88 | `.iloc[0]` on a selection fails exactly when no row matches; otherwise it is the first matching row of the table |
| `Query.FirstWithKey` | app.py:134-136 | a key lookup fails exactly when no row has the key; otherwise it is the first row with that key |
| `Query.RowsWithKey` | app.py:108 | the rows whose key column equals the name, all of them, in table order; empty exactly when no row has the key |
| `Query.InsertBySorted` | app.py:197 | helper of `SortBy`, the model's own insertion sort standing for `sort_values`: inserting a row into a key-sorted sequence keeps it sorted |
| `Query.SortBy` | app.py:197 | `sort_values` output is in non-decreasing key order and is a permutation of its input |
| `Query.SortedPermutationsAgreeOnKeys` | app.py:197 | any two key-sorted permutations of the same rows have the same key at every position |
| `Query.Unique` | app.py:84-85 | `unique()` holds every value of the column exactly once, in order of first appearance |
| `Query.UniqueCharacterized` | app.py:84-85 | a sequence equals `unique()` of a column iff it has the same values, no duplicates, and first-appearance order |
| `Query.Column` | app.py:130 | a column projection has one entry per row, entry i being row i's key, and so holds exactly the key values of the table |
| `Fixtures.FilterByTeam` | app.py:189-191 | "All Teams" leaves the fixtures unchanged; otherwise a fixture is kept iff the team is its Home or its Away side |
| `Fixtures.FilterByDate` | app.py:193-194 | a fixture is kept iff `from <= Date <= to`, bounds included |
| `Fixtures.FilterFixtures` | app.py:186-194 | a fixture survives, as often as it occurs, iff it passes both the team and the date predicate |
| `Fixtures.FilterFixturesIsSubsequence` | app.py:186-194 | the filtered fixtures are a subsequence of the input, in original order |
| `Fixtures.FilterFixturesIdempotent` | app.py:189-194 | re-applying the same team and date filters to the result returns it unchanged |
| `Fixtures.FilterFixturesKeepsBounds` | app.py:193-194 | a fixture dated exactly at either bound of a non-empty range is kept |
| `Fixtures.EmptyRangeSelectsNothing` | app.py:193-194 | a range with `from > to` yields the empty sequence, not an error |
| `Fixtures.DisplayFixtures` | app.py:197 | the displayed fixtures are a permutation of the filtered fixtures, non-decreasing by Date |
| `Fixtures.DisplayedDatesDetermined` | app.py:197 | every date-sorted permutation of the filtered fixtures shows the same Date in each row as the displayed table |
| `Fixtures.TallyPartition` | app.py:202-204 | home wins, away wins, draws and unscored fixtures are disjoint and together count every fixture |
| `Fixtures.ResultTally` | app.py:201-204 | the tally is absent exactly for no fixtures; otherwise each count is the size of the selection by HomeScore > AwayScore, AwayScore > HomeScore or equal scores, and the three counts plus the unscored fixtures equal the number of fixtures |
| `Fixtures.TallyExhaustive` | app.py:201-204 | when every score is present, home wins + away wins + draws equals the number of filtered fixtures |
| `Fixtures.ShowFixtures` | app.py:172-209 | the page shows the selected fixtures, each as often as it occurs, in date order, and shows the tally of exactly those fixtures iff that table is non-empty |
| `Fixtures.FixtureTeamOptions` | app.py:178-179 | the team selector is "All Teams" followed by each home team once, in order of first appearance in the Home column |
| `Fixtures.ArsenalExampleSelection` | app.py:189-197 | two Arsenal fixtures on the bounds of the range are both selected and shown in date order |
| `Fixtures.ArsenalExampleTally` | app.py:202-204 | those two fixtures tally as one home win, no away win and one draw |
| `TeamAnalysis.TeamOptions` | app.py:84-85 | the team selector offers each team of team_stats exactly once, in order of first appearance |
| `TeamAnalysis.SalaryRows` | app.py:108 | the salary selection is exactly the team_salary rows of the team, in table order; empty iff the team has none |
| `TeamAnalysis.SalaryTotalMatchesTable` | app.py:108-111 | the weekly total of the salary selection equals the weekly sum over the raw table restricted to the team |
| `TeamAnalysis.ShowTeamAnalysis` | app.py:80-123 | the page fails iff team_stats or team_possession lacks the team; otherwise it shows the first stats row, all salary rows (chart iff non-empty) and the three touch counts of the first possession row |
| `TeamAnalysis.SelectableTeamFailsOnlyOnPossession` | app.py:84-88 | every offered team has a stats row, so the page fails iff team_possession lacks it |
| `PlayerAnalysis.PlayerOptions` | app.py:129-130 | the player selector offers each name of player_stats exactly once, in order of first appearance |
| `PlayerAnalysis.ShowPlayerAnalysis` | app.py:132-171 | the profile is shown iff all three tables match the name, made of the first match of each; otherwise the caught error is reported |
| `PlayerAnalysis.SelectablePlayerFailsOnlyOnOtherTables` | app.py:129-136 | for an offered player the error is reported iff player_possession or player_salaries lacks the name |
| `Standings.LeagueTable` | app.py:55 | the standings are shown in non-decreasing rank order, as a permutation of the table |
| `Standings.FormComparison` | app.py:72-75 | no comparison without a selection; otherwise exactly the rows of the selected teams, in the ranked table's order and hence in rank order |
| `Standings.ShowStandings` | app.py:50-78 | the page shows the table by rank, each team once as an option in order of first appearance in the ranked table, and the compared rows in rank order, as a subsequence of the displayed table |

## Left out

- Streamlit page setup, navigation and widgets (`main`, `st.*`). The selected team, player, date range and compared teams are plain arguments.
- Plotly charts. The model stops at the values each chart is drawn from. Each chart is either a field or a flag on the page result.
- `load_data` and its CSV reading and caching. The tables are given as sequences. Malformed files and missing columns are not modelled.
- Date parsing (`pd.to_datetime`). Dates are integer timestamps.
- The default date range, the minimum and maximum of the raw `Date` column, is left out. It is taken over the unparsed strings, which the integer dates cannot represent.
- A date widget that returns fewer than two dates is not modelled.
- Rounding of expected goals and currency or percentage formatting. These are floats and text rendering.
- The optional player columns (`expected_goals`, `progressive_carries`, `progressive_passes`, `minutes`) and the checks for them. These only decide what is displayed, so `PlayerStats` omits them.
- `PlayerAnalysis.ShowPlayerAnalysis`: a failure while displaying the player, such as a missing `Weekly` or `Annual` column, is caught by the same handler. Rows are typed here, so only lookup failures are modelled.
- `TeamAnalysis.ShowTeamAnalysis`: output drawn before the uncaught lookup failure is not modelled. This covers the overview and salary chart drawn before a missing possession row fails the page. The failed page is `None` as a whole.
- `Query.SortBy`: the concrete order it gives to rows with equal keys (stable insertion) is a choice of the model. pandas' default sort promises no order there, and the contract promises none either.
