# Football results ETL: cleaning and integration, modelled in Dafny

This project models the two row-level stages of a pipeline that prepares
international football results for analysis.

- **Cleaning** (`src/clean_data.py`) derives five columns for every match from
  its two scores and its year: the outcome code (`H`, `A` or `D`), the winning
  team, the losing team, the total goals and the decade. It also normalises the
  nation names of the rankings table with a fixed chain of replace-all
  rewrites.
- **Integration** (`src/integrate_data.py`) works in five steps:
  1. It left-merges the cleaned results with the penalty-shootout table.
  2. It gives a draw decided on penalties its winner, then recomputes the
     loser.
  3. It keeps the matches played on or after 2009-09-02.
  4. For every match it picks the ranking snapshot date closest to the match
     date, as Python's `min` with a key does.
  5. It left-merges the home rank and the away rank on (nation, that date),
     then flags the matches in which both sides have a rank and at least one
     of them is within a threshold.

Conventions of the model:

- A table is a sequence of records (`Common.Match`, `Common.Ranking`,
  `IntegrateData.Shootout`).
- A date is a day number counted from 1970-01-01, so 2009-09-02 is day 14489.
- A missing pandas value (NaN) is `Common.Option.None`.
- pandas assigns a column as `df[col] = df.apply(f)`. This replaces the whole
  column with `f` applied to every row, so the model maps `f` over the
  sequence.
- A pandas left merge is `Joins.LeftJoin`. Every left row is kept, in order.
  A left row is repeated once for each right row that has its key, and
  appears once with a missing value when no right row has its key.
- The rank threshold is a parameter. In the source it is a floating-point
  quantile of the home ranks.
- The calendar year of a match date is a parameter (`yearOf`). It comes from
  the date parser, which is not part of this model.
- `find_closest_ranking_date` is a method with a loop
  (`IntegrateData.FindClosestRankingDate`). It is proved equal to the function
  `IntegrateData.ClosestRankingDate`, which the table-level functions use.
  That function is a left-to-right scan that replaces the best date only by a
  strictly closer one, so among equally close dates the first one listed
  wins. An empty list of ranking dates is the error `EmptyDomain` (Python
  raises `ValueError`). It is not a precondition.

Three behaviours of the code are worth stating outright:

- The code recomputes `losing_team` only on a draw whose reconciled winner
  is one of its two teams. Otherwise the loser is kept
  (`IntegrateData.ReconcileLoserRule`).
- The rank merges use the exact key (nation, closest date). A nation that
  is absent from that one snapshot gets a missing rank, even when other
  snapshots list it (`IntegrateData.RanksOnFinds`).
- The candidate dates are the whole `date` column of the rankings table,
  duplicates included (`IntegrateData.RankingDates`). Duplicates do not
  change which date is closest.

## Model

| member | source | states |
|---|---|---|
| `Common.Outcome.Code` | src/clean_data.py:37 | the stored codes 'H', 'A' and 'D' stand for home win, away win and draw, one code each |
| `CleanData.OutcomeOf` | src/clean_data.py:36-39 | the outcome is Home iff home score > away score, Away iff home score < away score, Draw iff the scores are equal (so exactly one holds) |
| `CleanData.WinningTeamAgreesWithScores` | src/clean_data.py:40-44 | `CleanData.WinningTeam` (winning_team) is missing exactly when the scores are equal; it is the home team when home scores more and the away team when away scores more |
| `CleanData.WinnerLoserMirror` | src/clean_data.py:40-49 | `CleanData.WinningTeam` and `CleanData.LosingTeam` are missing together, non-missing exactly when the outcome is not Draw, and then {winner, loser} = {home, away}; the loser is away on a home win and home on an away win |
| `CleanData.TotalGoalsBounds` | src/clean_data.py:50 | with non-negative scores, total_goals is at least each score |
| `CleanData.Decade` | src/clean_data.py:52 | the decade is a multiple of 10 and decade <= year < decade + 10, for every year (Python's `%` by 10 is never negative) |
| `CleanData.CleanMatch` | src/clean_data.py:36-52 | the derived cells of one row are well formed (outcome agrees with scores, winner/loser agree with outcome, total is the sum, decade brackets year) and the raw cells and year are kept |
| `CleanData.CleanResults` | src/clean_data.py:36-52 | one cleaned row per raw row, in order, keeping date, teams and scores, with the year from the date; every row is well formed (outcome agrees with scores, winner/loser agree with outcome, total is the sum, decade brackets year) |
| `CleanData.NormaliseRankings` | src/clean_data.py:18-24 | one row per rankings row, in order; only the nation changes, to its normalised name |
| `CleanData.NormaliseNationUnchanged` | src/clean_data.py:18-24 | `CleanData.NormaliseNation`, the chain of `Strings.ReplaceAll` steps, returns a nation name containing none of the thirteen patterns unchanged |
| `CleanData.NormaliseIreland` | src/clean_data.py:22 | `CleanData.NormaliseNation` maps "Ireland" to "Republic of Ireland" |
| `CleanData.NormaliseNorthernIreland` | src/clean_data.py:18-24 | `CleanData.NormaliseNation` maps "N. Ireland" to "Northern Ireland": the later "Northern Republic of Ireland" step undoes the "Ireland" step |
| `CleanData.ApplyRewritesAppend` | src/clean_data.py:18-24 | applying two chains of rewrites one after the other equals applying their concatenation |
| `CleanData.NormaliseNationWithoutBrazil` | src/clean_data.py:23 | the "Brazil" step of `CleanData.NormaliseNation` is a no-op: the chain without it normalises every name the same way |
| `Strings.ReplaceAllAbsent` | src/clean_data.py:18-24 | `Strings.ReplaceAll`, Python's literal `str.replace`, of a non-empty pattern that does not occur leaves the string unchanged |
| `Strings.ReplaceAllSelf` | src/clean_data.py:23 | `Strings.ReplaceAll` rewriting a pattern to itself (the "Brazil" step) changes nothing |
| `Joins.LookupFinds` | src/integrate_data.py:20 | a value is found for a key exactly when some right row has that key and that value |
| `Joins.LookupUnique` | src/integrate_data.py:20 | with unique right keys a key finds at most one value |
| `Joins.LeftJoinRows` | src/integrate_data.py:20 | every row of `Joins.LeftJoin` (the left merge) comes from a left row and carries either a value found for it or a missing value, the latter only when nothing was found |
| `Joins.LeftJoinKeepsRows` | src/integrate_data.py:20 | no left row is dropped by `Joins.LeftJoin`, and a row whose key finds nothing appears with a missing value |
| `Joins.LeftJoinOneToOne` | src/integrate_data.py:77-80 | when every left row finds at most one value, `Joins.LeftJoin` has exactly one row per left row, in order, with that value or a missing one |
| `IntegrateData.ReconcileWinnerRule` | src/integrate_data.py:21-24 | `IntegrateData.Reconcile` changes winning_team exactly when a shootout winner exists and winning_team was missing, and then becomes the shootout winner; no other cell but winner and loser changes |
| `IntegrateData.ReconcileLoserRule` | src/integrate_data.py:25-29 | `IntegrateData.Reconcile` leaves losing_team unchanged on a non-draw; on a draw it becomes home when the winner is away and away when the winner is home; it is unchanged when the winner is neither team |
| `IntegrateData.ReconcileKeepsDecided` | src/integrate_data.py:21-29 | `IntegrateData.Reconcile` never changes a decided match of the cleaned table, so a non-draw winner is never overwritten |
| `IntegrateData.ReconcileKeepsUnresolvedDraw` | src/integrate_data.py:20-29 | `IntegrateData.Reconcile` leaves a cleaned draw with no shootout row unchanged, with winner and loser both missing |
| `IntegrateData.ReconcileResolvesDraw` | src/integrate_data.py:21-29 | under `IntegrateData.Reconcile` a cleaned draw won on penalties by one of its teams gets that team as winner and the other team as loser |
| `IntegrateData.ReconcileIsResolved` | src/integrate_data.py:21-29 | `IntegrateData.Reconcile` of a cleaned row whose shootout winner (if any) is one of its teams keeps it consistent: a draw has both or neither of winner and loser, and then they are its two teams |
| `IntegrateData.FilterFrom` | src/integrate_data.py:36 | a row is kept exactly when it is in the input and dated on or after the cutoff; the output is no longer than the input |
| `IntegrateData.FilterFromAppend` | src/integrate_data.py:36 | the filter preserves order: filtering a concatenation concatenates the filtered parts |
| `IntegrateData.CutoffBoundary` | src/integrate_data.py:36 | a match on 2009-09-02 is kept; one on 2009-09-01 is dropped |
| `IntegrateData.LoadDataOneToOne` | src/integrate_data.py:19-36 | with unique (home, away, date) shootout keys, `IntegrateData.LoadData` (load_data) is the date filter of the results, each reconciled with the one shootout winner its key finds (or none) |
| `IntegrateData.LoadDataRows` | src/integrate_data.py:19-36 | every row of `IntegrateData.LoadData` is dated on or after the cutoff and is a results row reconciled with a winner found for its own key (or none when its key finds nothing); every results row on or after the cutoff is loaded, whatever the shootout keys |
| `IntegrateData.ClosestRankingDateSpec` | src/integrate_data.py:43-45 | `IntegrateData.ClosestRankingDate` (Python's `min` with key `abs(x - match_date)`) is missing exactly when there are no ranking dates; otherwise it is a ranking date, no date is strictly closer, and it is the first of the closest ones in order; conversely the first closest date is always the result |
| `IntegrateData.FindClosestRankingDate` | src/integrate_data.py:43-45 | the loop returns the closest-date function's result: missing exactly on no dates, otherwise the first date at the least distance |
| `IntegrateData.ClosestDateExample` | src/integrate_data.py:44 | under `IntegrateData.ClosestRankingDate` a match on 2020-06-15 with snapshots on 2020-06-01 and 2020-07-01 resolves to 2020-06-01 |
| `IntegrateData.ClosestDateTieGoesToFirst` | src/integrate_data.py:44 | of two equally distant dates `IntegrateData.ClosestRankingDate` chooses the one listed first |
| `IntegrateData.HighRankingNeedsBothRanks` | src/integrate_data.py:47-53 | a missing home or away rank makes `IntegrateData.CalculateProportion` false, whatever the other rank |
| `IntegrateData.HighRankingByBetterRank` | src/integrate_data.py:55-58 | with both ranks known, `IntegrateData.CalculateProportion` is true exactly when the smaller rank is at most the threshold |
| `IntegrateData.HighRankingSymmetricMonotone` | src/integrate_data.py:47-58 | `IntegrateData.CalculateProportion` does not depend on which side is home, and raising the threshold never clears it |
| `IntegrateData.IntegrateFails` | src/integrate_data.py:72-74 | `IntegrateData.Integrate`, the main block, fails (empty `min`) exactly when there are matches but no ranking rows |
| `IntegrateData.IntegrateOneToOne` | src/integrate_data.py:72-93 | with unique (nation, date) ranking keys, `IntegrateData.Integrate` gives one output row per loaded match, in order; home and away ranks are both looked up on the same closest ranking date, a function of the match date alone; a missing key gives a missing rank; the flag is computed from the two ranks |
| `IntegrateData.RanksOnFinds` | src/integrate_data.py:77-80 | a rank `IntegrateData.RanksOn` finds for (nation, date) comes from a rankings row with that nation and date; a rank is missing exactly when no such row exists |
| `IntegrateData.IntegrateKeepsMatches` | src/integrate_data.py:77-80 | whatever the ranking keys, no loaded match is dropped by the two rank merges of `IntegrateData.Integrate` |
| `IntegrateData.ShootoutAndRankScenario` | src/integrate_data.py:20-93 | through `IntegrateData.LoadData` and `IntegrateData.Integrate`, a 2-2 draw won on penalties by the home side, with ranks 1 and 5 on the nearest snapshot, comes out with that winner, the away side as loser, and ranks 1 and 5 |

## Left out

- `src/get_data.py` is not part of this model. It downloads web pages,
  extracts tables from HTML and writes CSV files, which is all I/O.
- CSV reading and writing, `print`, and the `try`/`except` that turns any
  exception into `(None, None)` are left out because they are I/O. The model
  starts from the tables as sequences.
- The team-names table is loaded and written back unchanged, so it has no
  model.
- Date parsing (`pd.to_datetime`) and the year of a date are left out. A
  date is a day number and the year comes from the `yearOf` parameter.
- The threshold `quantile(0.1)` of the home ranks is floating-point linear
  interpolation, so it is left out and the threshold is a parameter. That
  only home ranks feed it is therefore outside the model.
- Column renaming, reordering and dropping are schema bookkeeping with no
  effect on row values, so they are left out. This includes the
  `_x`/`_y` suffixes of the merges and the second `date` column the two rank
  merges leave in the output.
- Only the rank is kept from the ranking columns that the rank merges carry
  along (confederation, points, nation, snapshot date).
- The results columns the derivations never read (tournament, city, country,
  neutral) are not modelled.
- Each rewrite of the nation chain is a literal replace-all. Whether a
  given pandas version reads a pattern such as "U. A. E." as a regular
  expression is not modelled.
- Scores are never missing in the model. In the source an empty score cell
  reads as NaN. Every comparison with NaN is false, so such a row gets
  outcome 'D' with no winner and no loser, and its total_goals is NaN.
  That row still passes the date filter and gets ranks.
- A shootout row with an empty `winner` cell is not modelled: a shootout
  winner is always a team name.
- The in-place updates of the data frames are modelled as new sequence
  values. This is exact for whole-column assignment, but aliasing between
  frame objects is not modelled.
- `IntegrateData.ReconcileIsResolved` requires a shootout winner to be one of
  the match's two teams. For any other winner the code sets the winner and
  leaves the loser missing; `IntegrateData.ReconcileLoserRule` states that
  case.
