/** The integration stage: the shootout merge and the reconciliation of
    winner and loser, the date filter, the nearest ranking date of every
    match, the home and away rank merges and the high-ranking flag. */
module IntegrateData {
  import opened Common
  import opened Joins
  import CleanData

  // ---------------------------------------------------------------------------
  // Shootout merge and reconciliation
  // ---------------------------------------------------------------------------

  /** One row of the shootouts table. */
  datatype Shootout = Shootout(date: Day, homeTeam: Team, awayTeam: Team, winner: Team)

  /** The merge key (home_team, away_team, date) on either side. */
  function ShootoutKey(s: Shootout): (Team, Team, Day) { (s.homeTeam, s.awayTeam, s.date) }
  function MatchKey(m: Match): (Team, Team, Day) { (m.homeTeam, m.awayTeam, m.date) }
  function ShootoutWinner(s: Shootout): Team { s.winner }

  /** The `winner` cells the shootout merge finds for a match. */
  function ShootoutWinners(shootouts: seq<Shootout>): Match -> seq<Team>
  {
    m => Lookup(shootouts, ShootoutKey, MatchKey(m), ShootoutWinner)
  }

  /** The overwritten `winning_team`: the shootout winner when there is one
      and the match had no winner, otherwise the old value. */
  function ReconciledWinner(m: Match, winner: Option<Team>): Option<Team>
  {
    if winner.Some? && m.winningTeam.None? then winner else m.winningTeam
  }

  /** The overwritten `losing_team`, computed from the row whose winner has
      already been overwritten; the draw test reads the stored code 'D'. A
      missing winner equals no team. */
  function RecomputedLoser(m: Match): Option<Team>
  {
    if m.winningTeam == Some(m.awayTeam) && m.outcome.Code() == 'D' then Some(m.homeTeam)
    else if m.winningTeam == Some(m.homeTeam) && m.outcome.Code() == 'D' then Some(m.awayTeam)
    else m.losingTeam
  }

  /** Both overwrites, in source order, on one merged row; the `winner`
      column is dropped afterwards. */
  function Reconcile(m: Match, winner: Option<Team>): Match
  {
    var w := m.(winningTeam := ReconciledWinner(m, winner));
    w.(losingTeam := RecomputedLoser(w))
  }

  /** The reconciled results table. */
  function ReconcileAll(merged: seq<(Match, Option<Team>)>): (r: seq<Match>)
    ensures |r| == |merged|
    ensures forall i :: 0 <= i < |r| ==> r[i] == Reconcile(merged[i].0, merged[i].1)
  {
    seq(|merged|, i requires 0 <= i < |merged| => Reconcile(merged[i].0, merged[i].1))
  }

  /** The winner changes exactly when a shootout winner exists and the match
      had none, and then it becomes the shootout winner; the scores, teams
      and outcome never change. */
  lemma ReconcileWinnerRule(m: Match, winner: Option<Team>)
    ensures Reconcile(m, winner).winningTeam != m.winningTeam <==> winner.Some? && m.winningTeam.None?
    ensures winner.Some? && m.winningTeam.None? ==> Reconcile(m, winner).winningTeam == winner
    ensures Reconcile(m, winner).(winningTeam := m.winningTeam, losingTeam := m.losingTeam) == m
  {
  }

  /** The loser is recomputed only on a draw whose (reconciled) winner is
      one of the two teams, and then it is the other team. */
  lemma ReconcileLoserRule(m: Match, winner: Option<Team>)
    ensures var r := Reconcile(m, winner);
      && (m.outcome != Draw ==> r.losingTeam == m.losingTeam)
      && (m.outcome == Draw && r.winningTeam == Some(m.awayTeam) ==> r.losingTeam == Some(m.homeTeam))
      && (m.outcome == Draw && r.winningTeam == Some(m.homeTeam) ==> r.losingTeam == Some(m.awayTeam))
      && (r.winningTeam != Some(m.homeTeam) && r.winningTeam != Some(m.awayTeam) ==> r.losingTeam == m.losingTeam)
  {
  }

  /** A decided match of the cleaned table is never touched. */
  lemma ReconcileKeepsDecided(m: Match, winner: Option<Team>)
    requires CleanData.WellFormed(m) && m.outcome != Draw
    ensures Reconcile(m, winner) == m
  {
  }

  /** A draw of the cleaned table without a shootout keeps both teams missing. */
  lemma ReconcileKeepsUnresolvedDraw(m: Match)
    requires CleanData.WellFormed(m) && m.outcome == Draw
    ensures Reconcile(m, None) == m
    ensures Reconcile(m, None).winningTeam == None && Reconcile(m, None).losingTeam == None
  {
  }

  /** A draw of the cleaned table decided by a shootout that one of its two
      teams won gets that team as winner and the other as loser. */
  lemma ReconcileResolvesDraw(m: Match, t: Team)
    requires CleanData.WellFormed(m) && m.outcome == Draw
    requires t == m.homeTeam || t == m.awayTeam
    ensures Reconcile(m, Some(t)).winningTeam == Some(t)
    ensures Reconcile(m, Some(t)).losingTeam == Some(if t == m.awayTeam then m.homeTeam else m.awayTeam)
    ensures {Reconcile(m, Some(t)).winningTeam.value, Reconcile(m, Some(t)).losingTeam.value}
         == {m.homeTeam, m.awayTeam}
  {
  }

  /** The consistency of a reconciled row: the cleaned table's, except that
      a draw may carry a winner and a loser, which are then its two teams. */
  predicate Resolved(m: Match)
  {
    && CleanData.DecidedConsistent(m)
    && (m.outcome == Draw ==>
         || (m.winningTeam == None && m.losingTeam == None)
         || (m.winningTeam.Some? && m.losingTeam.Some? &&
             {m.winningTeam.value, m.losingTeam.value} == {m.homeTeam, m.awayTeam}))
  }

  /** Reconciling a cleaned row with no shootout winner, or with one of its
      own teams as shootout winner, yields a consistent row. */
  lemma ReconcileIsResolved(m: Match, winner: Option<Team>)
    requires CleanData.WellFormed(m)
    requires winner.Some? ==> winner.value == m.homeTeam || winner.value == m.awayTeam
    ensures Resolved(Reconcile(m, winner))
  {
    if m.outcome == Draw && winner.Some? {
      ReconcileResolvesDraw(m, winner.value);
    }
  }

  // ---------------------------------------------------------------------------
  // Date filter
  // ---------------------------------------------------------------------------

  /** 2009-09-02, the first match day kept. */
  const Cutoff: Day := 14489

  /** The rows dated on or after `cutoff`, in their original order. */
  function FilterFrom(rows: seq<Match>, cutoff: Day): (r: seq<Match>)
    ensures |r| <= |rows|
    ensures forall m :: m in r <==> m in rows && m.date >= cutoff
    decreases |rows|
  {
    if rows == [] then []
    else (if rows[0].date >= cutoff then [rows[0]] else []) + FilterFrom(rows[1..], cutoff)
  }

  /** The filter keeps order: filtering a concatenation concatenates the
      filtered parts, so together with its one-row behaviour it is
      determined completely. */
  lemma {:induction false} FilterFromAppend(a: seq<Match>, b: seq<Match>, cutoff: Day)
    ensures FilterFrom(a + b, cutoff) == FilterFrom(a, cutoff) + FilterFrom(b, cutoff)
    decreases |a|
  {
    if a == [] {
      assert a + b == b;
    } else {
      assert (a + b)[1..] == a[1..] + b;
      FilterFromAppend(a[1..], b, cutoff);
    }
  }

  /** A match on the cutoff day is kept and one on the day before is dropped. */
  lemma CutoffBoundary(m: Match)
    ensures m.date == Cutoff ==> FilterFrom([m], Cutoff) == [m]
    ensures m.date == Cutoff - 1 ==> FilterFrom([m], Cutoff) == []
  {
  }

  /** The results table `load_data` returns: merged with the shootouts,
      reconciled, and filtered from the cutoff day on. */
  function LoadData(results: seq<Match>, shootouts: seq<Shootout>): seq<Match>
  {
    FilterFrom(ReconcileAll(LeftJoin(results, ShootoutWinners(shootouts))), Cutoff)
  }

  /** With unique shootout keys, the loaded table is the filter of the
      results, each reconciled with the one shootout winner its key finds. */
  lemma LoadDataOneToOne(results: seq<Match>, shootouts: seq<Shootout>)
    requires UniqueKeys(shootouts, ShootoutKey)
    ensures LoadData(results, shootouts) ==
      FilterFrom(seq(|results|, i requires 0 <= i < |results| =>
                   Reconcile(results[i], First(ShootoutWinners(shootouts)(results[i])))), Cutoff)
  {
    var hits := ShootoutWinners(shootouts);
    forall i | 0 <= i < |results| ensures |hits(results[i])| <= 1 {
      LookupUnique(shootouts, ShootoutKey, MatchKey(results[i]), ShootoutWinner);
    }
    LeftJoinOneToOne(results, hits);
    assert ReconcileAll(LeftJoin(results, hits)) ==
      seq(|results|, i requires 0 <= i < |results| => Reconcile(results[i], First(hits(results[i]))));
  }

  /** `w` is what the shootout merge can carry for a match whose key finds
      `found`: one of the winners found, or missing when none was found. */
  predicate MergedFrom(w: Option<Team>, found: seq<Team>)
  {
    (w.Some? ==> w.value in found) && (w.None? ==> found == [])
  }

  /** Every loaded row is dated on or after the cutoff and is a results row
      reconciled with a winner found for its own key; every results row on or
      after the cutoff is loaded in that form. */
  lemma LoadDataRows(results: seq<Match>, shootouts: seq<Shootout>)
    ensures forall m :: m in LoadData(results, shootouts) ==> m.date >= Cutoff
    ensures forall m :: m in LoadData(results, shootouts) ==>
      exists i, w :: 0 <= i < |results| && MergedFrom(w, ShootoutWinners(shootouts)(results[i]))
                     && m == Reconcile(results[i], w)
    ensures forall i :: 0 <= i < |results| && results[i].date >= Cutoff ==>
      exists w :: MergedFrom(w, ShootoutWinners(shootouts)(results[i]))
                  && Reconcile(results[i], w) in LoadData(results, shootouts)
  {
    var hits := ShootoutWinners(shootouts);
    var merged := LeftJoin(results, hits);
    var rec := ReconcileAll(merged);
    forall m | m in LoadData(results, shootouts)
      ensures exists i, w :: 0 <= i < |results| && MergedFrom(w, hits(results[i]))
                             && m == Reconcile(results[i], w)
    {
      var j :| 0 <= j < |rec| && rec[j] == m;
      LeftJoinRows(results, hits, j);
      var i :| 0 <= i < |results| && results[i] == merged[j].0;
      assert MergedFrom(merged[j].1, hits(results[i]));
      assert m == Reconcile(results[i], merged[j].1);
    }
    forall i | 0 <= i < |results| && results[i].date >= Cutoff
      ensures exists w :: MergedFrom(w, hits(results[i]))
                          && Reconcile(results[i], w) in LoadData(results, shootouts)
    {
      LeftJoinKeepsRows(results, hits, i);
      var j :| 0 <= j < |merged| && merged[j].0 == results[i];
      LeftJoinRows(results, hits, j);
      assert MergedFrom(merged[j].1, hits(results[i]));
      assert rec[j] == Reconcile(results[i], merged[j].1);
      assert rec[j] in rec;
    }
  }

  // ---------------------------------------------------------------------------
  // Nearest ranking date
  // ---------------------------------------------------------------------------

  /** The absolute distance in days between two dates. */
  function Distance(d: Day, c: Day): nat
  {
    if c >= d then c - d else d - c
  }

  /** Index `k` holds a date at the least distance from `d`, and no earlier
      index does. */
  predicate IsFirstClosest(d: Day, dates: seq<Day>, k: int)
  {
    && 0 <= k < |dates|
    && (forall j :: 0 <= j < |dates| ==> Distance(d, dates[k]) <= Distance(d, dates[j]))
    && (forall j :: 0 <= j < k ==> Distance(d, dates[k]) < Distance(d, dates[j]))
  }

  /** Python's `min` with a key: scan left to right and replace the best so
      far only by a strictly closer date. */
  function ClosestFrom(d: Day, best: Day, rest: seq<Day>): Day
    decreases |rest|
  {
    if rest == [] then best
    else ClosestFrom(d, if Distance(d, rest[0]) < Distance(d, best) then rest[0] else best, rest[1..])
  }

  /** The ranking date closest to `d`, or missing (the empty-sequence error)
      when there is no ranking date at all. */
  function ClosestRankingDate(d: Day, dates: seq<Day>): Option<Day>
  {
    if dates == [] then None else Some(ClosestFrom(d, dates[0], dates[1..]))
  }

  /** One step of the scan: the first-closest index of a prefix, compared
      with the next date, gives the first-closest index of the longer prefix. */
  lemma FirstClosestStep(d: Day, dates: seq<Day>, i: int, k: int)
    requires 1 <= i < |dates| && IsFirstClosest(d, dates[..i], k)
    ensures IsFirstClosest(d, dates[..i + 1],
      if Distance(d, dates[i]) < Distance(d, dates[k]) then i else k)
  {
    assert dates[..i + 1][..i] == dates[..i];
  }

  /** Carrying the scan on from a first-closest index of a prefix ends at the
      first-closest date of the whole sequence. */
  lemma {:induction false} ClosestFromFinds(d: Day, dates: seq<Day>, i: int, k: int)
    requires 1 <= i <= |dates| && IsFirstClosest(d, dates[..i], k)
    ensures exists k' :: IsFirstClosest(d, dates, k') && dates[k'] == ClosestFrom(d, dates[k], dates[i..])
    decreases |dates| - i
  {
    if i == |dates| {
      assert dates[..i] == dates;
      assert dates[i..] == [];
    } else {
      var k' := if Distance(d, dates[i]) < Distance(d, dates[k]) then i else k;
      FirstClosestStep(d, dates, i, k);
      assert dates[i..][1..] == dates[i + 1..];
      ClosestFromFinds(d, dates, i + 1, k');
    }
  }

  /** The nearest ranking date is missing exactly when there are no ranking
      dates; otherwise it is one of them, no date is closer, and it is the
      first of the closest ones in sequence order. Conversely, the first
      closest date is the result. */
  lemma ClosestRankingDateSpec(d: Day, dates: seq<Day>)
    ensures ClosestRankingDate(d, dates).None? <==> dates == []
    ensures ClosestRankingDate(d, dates).Some? ==>
      exists k :: IsFirstClosest(d, dates, k) && dates[k] == ClosestRankingDate(d, dates).value
    ensures forall k :: IsFirstClosest(d, dates, k) ==> ClosestRankingDate(d, dates) == Some(dates[k])
  {
    if dates != [] {
      assert IsFirstClosest(d, dates[..1], 0);
      ClosestFromFinds(d, dates, 1, 0);
    }
  }

  /** `find_closest_ranking_date`: the loop Python's `min` performs. */
  method FindClosestRankingDate(matchDate: Day, rankingDates: seq<Day>) returns (closest: Option<Day>)
    ensures closest == ClosestRankingDate(matchDate, rankingDates)
    ensures closest.None? <==> rankingDates == []
    ensures closest.Some? ==>
      exists k :: IsFirstClosest(matchDate, rankingDates, k) && rankingDates[k] == closest.value
  {
    if rankingDates == [] {
      return None;
    }
    var k := 0;
    var i := 1;
    while i < |rankingDates|
      invariant 1 <= i <= |rankingDates|
      invariant IsFirstClosest(matchDate, rankingDates[..i], k)
      invariant ClosestFrom(matchDate, rankingDates[k], rankingDates[i..])
             == ClosestFrom(matchDate, rankingDates[0], rankingDates[1..])
    {
      FirstClosestStep(matchDate, rankingDates, i, k);
      assert rankingDates[i..][1..] == rankingDates[i + 1..];
      if Distance(matchDate, rankingDates[i]) < Distance(matchDate, rankingDates[k]) {
        k := i;
      }
      i := i + 1;
    }
    assert rankingDates[..i] == rankingDates;
    assert rankingDates[i..] == [];
    closest := Some(rankingDates[k]);
  }

  /** A match on 2020-06-15 with snapshots on 2020-06-01 and 2020-07-01
      resolves to 2020-06-01 (14 days against 16). */
  lemma ClosestDateExample()
    ensures ClosestRankingDate(18428, [18414, 18444]) == Some(18414)
  {
  }

  /** Two equally distant dates: the one listed first wins. */
  lemma ClosestDateTieGoesToFirst()
    ensures ClosestRankingDate(10, [12, 8]) == Some(12)
    ensures ClosestRankingDate(10, [8, 12]) == Some(8)
  {
  }

  // ---------------------------------------------------------------------------
  // Rank merges and the high-ranking flag
  // ---------------------------------------------------------------------------

  /** The error `min` raises on an empty sequence of ranking dates. */
  datatype Error = EmptyDomain

  datatype Result<T> = Ok(value: T) | Err(error: Error)

  /** A row of the integrated table (the ranking columns other than the rank
      that the merges carry along are not modelled). */
  datatype IntegratedMatch = IntegratedMatch(m: Match, homeRank: Option<int>, awayRank: Option<int>, highRanking: bool)

  /** `calculate_proportion`: a missing rank on either side gives false;
      otherwise true when either rank is at most the threshold. */
  function CalculateProportion(homeRank: Option<int>, awayRank: Option<int>, threshold: real): bool
  {
    if homeRank.None? || awayRank.None? then false
    else homeRank.value as real <= threshold || awayRank.value as real <= threshold
  }

  /** A missing rank on either side rules the match out, whatever the other
      side's rank. */
  lemma HighRankingNeedsBothRanks(homeRank: Option<int>, awayRank: Option<int>, threshold: real)
    requires homeRank.None? || awayRank.None?
    ensures !CalculateProportion(homeRank, awayRank, threshold)
  {
  }

  /** With both ranks known, the match is high-ranking exactly when the
      better (smaller) rank is within the threshold. */
  lemma HighRankingByBetterRank(h: int, a: int, threshold: real)
    ensures CalculateProportion(Some(h), Some(a), threshold) <==>
      (if h <= a then h else a) as real <= threshold
  {
  }

  /** The flag does not depend on which side is home, and raising the
      threshold never clears it. */
  lemma HighRankingSymmetricMonotone(homeRank: Option<int>, awayRank: Option<int>, t1: real, t2: real)
    requires t1 <= t2
    ensures CalculateProportion(homeRank, awayRank, t1) == CalculateProportion(awayRank, homeRank, t1)
    ensures CalculateProportion(homeRank, awayRank, t1) ==> CalculateProportion(homeRank, awayRank, t2)
  {
  }

  /** The `date` column of the rankings table, in table order. */
  function RankingDates(rankings: seq<Ranking>): (ds: seq<Day>)
    ensures |ds| == |rankings|
    ensures forall i :: 0 <= i < |ds| ==> ds[i] == rankings[i].date
  {
    seq(|rankings|, i requires 0 <= i < |rankings| => rankings[i].date)
  }

  /** A loaded match with its `closest_ranking_date` column. */
  datatype DatedMatch = DatedMatch(m: Match, closest: Day)

  /** The `closest_ranking_date` column; the error when there are matches
      but no ranking dates (no match, no call of `min`, no error). */
  function AddClosestRankingDates(rows: seq<Match>, dates: seq<Day>): Result<seq<DatedMatch>>
  {
    if rows != [] && dates == [] then Err(EmptyDomain)
    else Ok(seq(|rows|, i requires 0 <= i < |rows| => DatedMatch(rows[i], ClosestRankingDate(rows[i].date, dates).value)))
  }

  /** The rank merge key (nation, date). */
  function NationKey(r: Ranking): (Team, Day) { (r.nation, r.date) }
  function RankOf(r: Ranking): int { r.rank }

  /** The ranks the rankings table holds for `nation` on `day`. */
  function RanksOn(rankings: seq<Ranking>, nation: Team, day: Day): seq<int>
  {
    Lookup(rankings, NationKey, (nation, day), RankOf)
  }

  /** The home-rank merge on (home_team, closest_ranking_date). */
  function HomeRanks(rankings: seq<Ranking>): DatedMatch -> seq<int>
  {
    (row: DatedMatch) => RanksOn(rankings, row.m.homeTeam, row.closest)
  }

  /** The away-rank merge on (away_team, closest_ranking_date). */
  function AwayRanks(rankings: seq<Ranking>): ((DatedMatch, Option<int>)) -> seq<int>
  {
    (row: (DatedMatch, Option<int>)) => RanksOn(rankings, row.0.m.awayTeam, row.0.closest)
  }

  /** One integrated row: the match, its two ranks and its flag. */
  function Finish(row: ((DatedMatch, Option<int>), Option<int>), threshold: real): IntegratedMatch
  {
    IntegratedMatch(row.0.0.m, row.0.1, row.1, CalculateProportion(row.0.1, row.1, threshold))
  }

  /** The main block on the loaded results and the rankings table. */
  function Integrate(filtered: seq<Match>, rankings: seq<Ranking>, threshold: real): Result<seq<IntegratedMatch>>
  {
    match AddClosestRankingDates(filtered, RankingDates(rankings))
    case Err(e) => Err(e)
    case Ok(dated) =>
      var withHome := LeftJoin(dated, HomeRanks(rankings));
      var withBoth := LeftJoin(withHome, AwayRanks(rankings));
      Ok(seq(|withBoth|, i requires 0 <= i < |withBoth| => Finish(withBoth[i], threshold)))
  }

  /** The main block fails exactly when there are matches but no rankings. */
  lemma IntegrateFails(filtered: seq<Match>, rankings: seq<Ranking>, threshold: real)
    ensures Integrate(filtered, rankings, threshold).Err? <==> filtered != [] && rankings == []
  {
  }

  /** With unique (nation, date) keys there is one integrated row per match,
      in order; both of its ranks are looked up on the same closest ranking
      date, which depends on the match date alone; a missing key gives a
      missing rank; and the flag is computed from the two ranks. */
  lemma IntegrateOneToOne(filtered: seq<Match>, rankings: seq<Ranking>, threshold: real)
    requires UniqueKeys(rankings, NationKey)
    requires filtered != [] ==> rankings != []
    ensures Integrate(filtered, rankings, threshold).Ok?
    ensures |Integrate(filtered, rankings, threshold).value| == |filtered|
    ensures forall i :: 0 <= i < |filtered| ==>
      var r := Integrate(filtered, rankings, threshold).value[i];
      var c := ClosestRankingDate(filtered[i].date, RankingDates(rankings));
      && c.Some?
      && r.m == filtered[i]
      && r.homeRank == First(RanksOn(rankings, filtered[i].homeTeam, c.value))
      && r.awayRank == First(RanksOn(rankings, filtered[i].awayTeam, c.value))
      && r.highRanking == CalculateProportion(r.homeRank, r.awayRank, threshold)
  {
    var dates := RankingDates(rankings);
    var dated := AddClosestRankingDates(filtered, dates).value;
    forall i | 0 <= i < |dated| ensures |HomeRanks(rankings)(dated[i])| <= 1 {
      LookupUnique(rankings, NationKey, (dated[i].m.homeTeam, dated[i].closest), RankOf);
    }
    LeftJoinOneToOne(dated, HomeRanks(rankings));
    var withHome := LeftJoin(dated, HomeRanks(rankings));
    forall i | 0 <= i < |withHome| ensures |AwayRanks(rankings)(withHome[i])| <= 1 {
      LookupUnique(rankings, NationKey, (withHome[i].0.m.awayTeam, withHome[i].0.closest), RankOf);
    }
    LeftJoinOneToOne(withHome, AwayRanks(rankings));
  }

  /** A rank found for a nation on a day comes from a rankings row of that
      nation and day; a missing rank means there is no such row. */
  lemma RanksOnFinds(rankings: seq<Ranking>, nation: Team, day: Day)
    ensures forall k :: First(RanksOn(rankings, nation, day)) == Some(k) ==>
      exists i :: 0 <= i < |rankings| && rankings[i].nation == nation && rankings[i].date == day && rankings[i].rank == k
    ensures First(RanksOn(rankings, nation, day)) == None <==>
      forall i :: 0 <= i < |rankings| ==> !(rankings[i].nation == nation && rankings[i].date == day)
  {
    var vs := RanksOn(rankings, nation, day);
    if vs != [] {
      LookupFinds(rankings, NationKey, (nation, day), RankOf, vs[0]);
    } else {
      forall i | 0 <= i < |rankings| ensures !(rankings[i].nation == nation && rankings[i].date == day) {
        LookupFinds(rankings, NationKey, (nation, day), RankOf, rankings[i].rank);
      }
    }
  }

  /** Whatever the keys, no match is dropped: every loaded match appears in
      the integrated table. */
  lemma IntegrateKeepsMatches(filtered: seq<Match>, rankings: seq<Ranking>, threshold: real, i: int)
    requires Integrate(filtered, rankings, threshold).Ok?
    requires 0 <= i < |filtered|
    ensures |Integrate(filtered, rankings, threshold).value| >= |filtered|
    ensures exists j :: (0 <= j < |Integrate(filtered, rankings, threshold).value|
                         && Integrate(filtered, rankings, threshold).value[j].m == filtered[i])
  {
    var dates := RankingDates(rankings);
    var dated := AddClosestRankingDates(filtered, dates).value;
    var withHome := LeftJoin(dated, HomeRanks(rankings));
    var withBoth := LeftJoin(withHome, AwayRanks(rankings));
    LeftJoinKeepsRows(dated, HomeRanks(rankings), i);
    var j :| 0 <= j < |withHome| && withHome[j].0 == dated[i];
    LeftJoinKeepsRows(withHome, AwayRanks(rankings), j);
    var j' :| 0 <= j' < |withBoth| && withBoth[j'].0 == withHome[j];
    assert Integrate(filtered, rankings, threshold).value[j'].m == filtered[i];
  }

  /** A 2-2 draw on 2010-01-10 between `a` (home) and `b` (away), won by `a`
      on penalties, with both nations ranked (1 and 5) in the 2010-01-01
      snapshot: `a` wins, `b` loses, the ranks are 1 and 5. */
  lemma ShootoutAndRankScenario(a: Team, b: Team, threshold: real)
    requires a != b
    ensures var m := Match(14619, a, b, 2, 2, Draw, None, None, 4, 2010, 2010);
      var resolved := m.(winningTeam := Some(a), losingTeam := Some(b));
      var rankings := [Ranking(1, a, "UEFA", 1800.0, 14610), Ranking(5, b, "UEFA", 1600.0, 14610)];
      && LoadData([m], [Shootout(14619, a, b, a)]) == [resolved]
      && Integrate([resolved], rankings, threshold)
         == Ok([IntegratedMatch(resolved, Some(1), Some(5), 1.0 <= threshold || 5.0 <= threshold)])
  {
    var m := Match(14619, a, b, 2, 2, Draw, None, None, 4, 2010, 2010);
    var resolved := m.(winningTeam := Some(a), losingTeam := Some(b));
    var shootouts := [Shootout(14619, a, b, a)];
    var rankings := [Ranking(1, a, "UEFA", 1800.0, 14610), Ranking(5, b, "UEFA", 1600.0, 14610)];
    assert shootouts[1..] == [];
    assert Lookup(shootouts, ShootoutKey, MatchKey(m), ShootoutWinner) == [a];
    assert ShootoutWinners(shootouts)(m) == [a];
    assert LeftJoin([m], ShootoutWinners(shootouts)) == [(m, Some(a))];
    assert ReconcileAll([(m, Some(a))]) == [resolved];
    assert RankingDates(rankings) == [14610, 14610];
    assert ClosestRankingDate(14619, [14610, 14610]) == Some(14610);
    var dated := DatedMatch(resolved, 14610);
    var withDates := AddClosestRankingDates([resolved], [14610, 14610]).value;
    assert |withDates| == 1 && withDates[0] == dated;
    assert withDates == [dated];
    assert AddClosestRankingDates([resolved], [14610, 14610]) == Ok([dated]);
    assert rankings[1..][1..] == [];
    assert Lookup(rankings[1..], NationKey, (a, 14610), RankOf) == [];
    assert RanksOn(rankings, a, 14610) == [1];
    assert HomeRanks(rankings)(dated) == [1];
    assert LeftJoin([dated], HomeRanks(rankings)) == [(dated, Some(1))];
    assert Lookup(rankings[1..], NationKey, (b, 14610), RankOf) == [5];
    assert RanksOn(rankings, b, 14610) == [5];
    assert AwayRanks(rankings)((dated, Some(1))) == [5];
    assert LeftJoin([(dated, Some(1))], AwayRanks(rankings)) == [((dated, Some(1)), Some(5))];
    var finished := IntegratedMatch(resolved, Some(1), Some(5), 1.0 <= threshold || 5.0 <= threshold);
    assert Finish(((dated, Some(1)), Some(5)), threshold) == finished;
    var out := Integrate([resolved], rankings, threshold).value;
    assert |out| == 1 && out[0] == finished;
    assert out == [finished];
  }
}
