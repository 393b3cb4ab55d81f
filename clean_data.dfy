/** The cleaning stage: the columns derived for every match (outcome, winner,
    loser, total goals, decade) and the normalisation of ranking nation names
    by a fixed chain of literal replacements. */
module CleanData {
  import opened Common
  import opened Strings

  /** A row of the raw results table, before the derived columns exist. */
  datatype RawMatch = RawMatch(date: Day, homeTeam: Team, awayTeam: Team, homeScore: int, awayScore: int)

  // ---------------------------------------------------------------------------
  // Derived match columns
  // ---------------------------------------------------------------------------

  /** The `outcome` column: exactly one of home win, away win or draw. */
  function OutcomeOf(homeScore: int, awayScore: int): (o: Outcome)
    ensures o == Home <==> homeScore > awayScore
    ensures o == Away <==> homeScore < awayScore
    ensures o == Draw <==> homeScore == awayScore
  {
    if homeScore > awayScore then Home
    else if homeScore < awayScore then Away
    else Draw
  }

  /** The `winning_team` column: missing on a draw. */
  function WinningTeam(m: RawMatch): Option<Team>
  {
    if m.homeScore > m.awayScore then Some(m.homeTeam)
    else if m.homeScore < m.awayScore then Some(m.awayTeam)
    else None
  }

  /** The `losing_team` column: missing on a draw. */
  function LosingTeam(m: RawMatch): Option<Team>
  {
    if m.homeScore > m.awayScore then Some(m.awayTeam)
    else if m.homeScore < m.awayScore then Some(m.homeTeam)
    else None
  }

  /** The `decade` column: the year minus its remainder modulo 10. Python's
      `%` with a positive divisor never returns a negative remainder, like
      Dafny's, so the two agree on every year. */
  function Decade(year: int): (d: int)
    ensures d % 10 == 0
    ensures d <= year < d + 10
  {
    year - year % 10
  }

  /** The outcome agrees with the scores, and a decided match has the side
      with more goals as winner and the other as loser. */
  predicate DecidedConsistent(m: Match)
  {
    && (m.outcome == Home <==> m.homeScore > m.awayScore)
    && (m.outcome == Away <==> m.homeScore < m.awayScore)
    && (m.outcome == Draw <==> m.homeScore == m.awayScore)
    && (m.outcome == Home ==> m.winningTeam == Some(m.homeTeam) && m.losingTeam == Some(m.awayTeam))
    && (m.outcome == Away ==> m.winningTeam == Some(m.awayTeam) && m.losingTeam == Some(m.homeTeam))
  }

  /** The consistency the cleaned results table promises, stated without
      reference to how the columns are computed: the outcome agrees with the
      scores, the winner and loser agree with the outcome, the total is the
      sum and the decade brackets the year. */
  predicate WellFormed(m: Match)
  {
    && DecidedConsistent(m)
    && (m.outcome == Draw ==> m.winningTeam == None && m.losingTeam == None)
    && m.totalGoals == m.homeScore + m.awayScore
    && m.decade % 10 == 0 && m.decade <= m.year < m.decade + 10
  }

  /** Every derived column of one cleaned results row, given the year of its
      date (the date parser that extracts the year is not part of this model). */
  function CleanMatch(m: RawMatch, year: int): (r: Match)
    ensures WellFormed(r)
    ensures r.date == m.date && r.homeTeam == m.homeTeam && r.awayTeam == m.awayTeam
    ensures r.homeScore == m.homeScore && r.awayScore == m.awayScore && r.year == year
  {
    Match(m.date, m.homeTeam, m.awayTeam, m.homeScore, m.awayScore,
          OutcomeOf(m.homeScore, m.awayScore), WinningTeam(m), LosingTeam(m),
          m.homeScore + m.awayScore, year, Decade(year))
  }

  /** The winner is missing exactly on a draw; otherwise it is the side with
      the higher score. */
  lemma WinningTeamAgreesWithScores(m: RawMatch)
    ensures WinningTeam(m) == None <==> m.homeScore == m.awayScore
    ensures m.homeScore > m.awayScore ==> WinningTeam(m) == Some(m.homeTeam)
    ensures m.homeScore < m.awayScore ==> WinningTeam(m) == Some(m.awayTeam)
  {
  }

  /** The loser mirrors the winner: both missing together, exactly on a draw,
      and on a decided match winner and loser are the two participants. */
  lemma WinnerLoserMirror(m: RawMatch)
    ensures (WinningTeam(m) == None) == (LosingTeam(m) == None)
    ensures WinningTeam(m).Some? <==> OutcomeOf(m.homeScore, m.awayScore) != Draw
    ensures WinningTeam(m).Some? ==>
      {WinningTeam(m).value, LosingTeam(m).value} == {m.homeTeam, m.awayTeam}
    ensures m.homeScore > m.awayScore ==> LosingTeam(m) == Some(m.awayTeam)
    ensures m.homeScore < m.awayScore ==> LosingTeam(m) == Some(m.homeTeam)
  {
  }

  /** With non-negative scores the total is at least either score. */
  lemma TotalGoalsBounds(m: RawMatch, year: int)
    requires m.homeScore >= 0 && m.awayScore >= 0
    ensures CleanMatch(m, year).totalGoals >= m.homeScore
    ensures CleanMatch(m, year).totalGoals >= m.awayScore
  {
  }

  /** The cleaned results table: the raw rows in order, each extended with
      its derived columns; every row is well formed and keeps its raw cells. */
  function CleanResults(rows: seq<RawMatch>, yearOf: Day -> int): (r: seq<Match>)
    ensures |r| == |rows|
    ensures forall i :: 0 <= i < |r| ==> WellFormed(r[i])
    ensures forall i :: 0 <= i < |r| ==>
      && r[i].date == rows[i].date
      && r[i].homeTeam == rows[i].homeTeam && r[i].awayTeam == rows[i].awayTeam
      && r[i].homeScore == rows[i].homeScore && r[i].awayScore == rows[i].awayScore
      && r[i].year == yearOf(rows[i].date)
  {
    var r := seq(|rows|, i requires 0 <= i < |rows| => CleanMatch(rows[i], yearOf(rows[i].date)));
    assert forall i | 0 <= i < |r| :: r[i] == CleanMatch(rows[i], yearOf(rows[i].date));
    r
  }

  // ---------------------------------------------------------------------------
  // Nation-name normalisation
  // ---------------------------------------------------------------------------

  /** The replacements applied to the `Nation` column, in order. The
      "Brazil" step rewrites a name to itself, and the "Northern Republic of
      Ireland" step undoes what the "Ireland" step does to "Northern Ireland". */
  const NationRewrites: seq<(string, string)> := [
    ("Türkiye", "Turkey"),
    ("N. Ireland", "Northern Ireland"),
    ("Czechia", "Czech Republic"),
    ("Bosnia", "Bosnia and Herzegovina"),
    ("USA", "United States"),
    ("Trinidad", "Trinidad and Tobago"),
    ("St. Kitts/Nevis", "Saint Kitts and Nevis"),
    ("St. Vincent", "Saint Vincent and the Grenadines"),
    ("Ireland", "Republic of Ireland"),
    ("China", "China PR"),
    ("Brazil", "Brazil"),
    ("Northern Republic of Ireland", "Northern Ireland"),
    ("U. A. E.", "United Arab Emirates")
  ]

  /** Apply each replacement of `rws` to the whole string, first to last. */
  function ApplyRewrites(s: string, rws: seq<(string, string)>): string
    decreases |rws|
  {
    if rws == [] then s else ApplyRewrites(ReplaceAll(s, rws[0].0, rws[0].1), rws[1..])
  }

  /** The normalised nation name. */
  function NormaliseNation(s: string): string
  {
    ApplyRewrites(s, NationRewrites)
  }

  /** The cleaned rankings table: the nation of every row normalised, every
      other cell and the row order kept. */
  function NormaliseRankings(rows: seq<Ranking>): (r: seq<Ranking>)
    ensures |r| == |rows|
    ensures forall i :: 0 <= i < |r| ==>
      r[i] == rows[i].(nation := NormaliseNation(rows[i].nation))
  {
    seq(|rows|, i requires 0 <= i < |rows| => rows[i].(nation := NormaliseNation(rows[i].nation)))
  }

  /** Running two chains of replacements one after the other is running
      their concatenation. */
  lemma {:induction false} ApplyRewritesAppend(s: string, a: seq<(string, string)>, b: seq<(string, string)>)
    ensures ApplyRewrites(s, a + b) == ApplyRewrites(ApplyRewrites(s, a), b)
    decreases |a|
  {
    if a == [] {
      assert a + b == b;
    } else {
      assert (a + b)[1..] == a[1..] + b;
      ApplyRewritesAppend(ReplaceAll(s, a[0].0, a[0].1), a[1..], b);
    }
  }

  /** A chain of non-empty patterns none of which occurs in `s` leaves `s` unchanged. */
  lemma {:induction false} ApplyRewritesAbsent(s: string, rws: seq<(string, string)>)
    requires forall k :: 0 <= k < |rws| ==> rws[k].0 != [] && !Occurs(s, rws[k].0)
    ensures ApplyRewrites(s, rws) == s
    decreases |rws|
  {
    if rws != [] {
      ReplaceAllAbsent(s, rws[0].0, rws[0].1);
      ApplyRewritesAbsent(s, rws[1..]);
    }
  }

  /** A name in which no pattern of the chain occurs is returned unchanged. */
  lemma NormaliseNationUnchanged(s: string)
    requires forall k :: 0 <= k < |NationRewrites| ==> !Occurs(s, NationRewrites[k].0)
    ensures NormaliseNation(s) == s
  {
    ApplyRewritesAbsent(s, NationRewrites);
  }

  /** The "Brazil" step rewrites every name to itself, so the chain without
      it normalises every name the same way. */
  lemma NormaliseNationWithoutBrazil(s: string)
    ensures NormaliseNation(s) == ApplyRewrites(s, NationRewrites[..10] + NationRewrites[11..])
  {
    var r := NationRewrites;
    assert r == r[..10] + ([r[10]] + r[11..]);
    ApplyRewritesAppend(s, r[..10], [r[10]] + r[11..]);
    var t := ApplyRewrites(s, r[..10]);
    ReplaceAllSelf(t, r[10].0);
    assert ([r[10]] + r[11..])[1..] == r[11..];
    ApplyRewritesAppend(s, r[..10], r[11..]);
  }

  /** The chain from step `k` on is step `k` followed by the rest. */
  lemma ApplyRewritesStep(s: string, rws: seq<(string, string)>, k: nat)
    requires k < |rws|
    ensures ApplyRewrites(s, rws[k..]) ==
      ApplyRewrites(ReplaceAll(s, rws[k].0, rws[k].1), rws[k + 1..])
  {
    assert rws[k..][1..] == rws[k + 1..];
  }

  /** Steps `i` up to `j` leave `s` alone when none of their patterns starts
      with a character of `s`. */
  lemma {:induction false} ApplyRewritesSkipRange(s: string, rws: seq<(string, string)>, i: nat, j: nat)
    requires i <= j <= |rws|
    requires forall k | i <= k < j :: rws[k].0 != [] && rws[k].0[0] !in s
    ensures ApplyRewrites(s, rws[i..]) == ApplyRewrites(s, rws[j..])
    decreases j - i
  {
    if i < j {
      ApplyRewritesStep(s, rws, i);
      FirstCharAbsent(s, rws[i].0);
      ReplaceAllAbsent(s, rws[i].0, rws[i].1);
      ApplyRewritesSkipRange(s, rws, i + 1, j);
    }
  }

  // The two names below are followed through the chain in two halves: a
  // lemma over any chain of the same shape, free of string literals, and a
  // lemma checking that `NationRewrites` and the literal names have that
  // shape. Keeping literals and replacements apart keeps the verifier from
  // evaluating the replacements character by character.

  /** In a 13-step chain whose step 8 rewrites `s` to `t`, whose earlier
      patterns miss `s` and whose later patterns miss `t`, `s` ends as `t`. */
  lemma IrelandPath(s: string, t: string, rws: seq<(string, string)>)
    requires |rws| == 13 && s != [] && rws[8] == (s, t)
    requires forall k | 0 <= k < 8 :: rws[k].0 != [] && rws[k].0[0] !in s
    requires forall k | 9 <= k < 13 :: rws[k].0 != [] && rws[k].0[0] !in t
    ensures ApplyRewrites(s, rws) == t
  {
    assert rws[0..] == rws;
    ApplyRewritesSkipRange(s, rws, 0, 8);
    ApplyRewritesStep(s, rws, 8);
    ReplaceAllWhole(s, t);
    ApplyRewritesSkipRange(t, rws, 9, 13);
    assert rws[13..] == [];
  }

  /** `NationRewrites` has the shape `IrelandPath` needs for "Ireland". */
  lemma IrelandShape(s: string, t: string)
    requires s == "Ireland" && t == "Republic of Ireland"
    ensures |NationRewrites| == 13 && s != [] && NationRewrites[8] == (s, t)
    ensures forall k | 0 <= k < 8 :: NationRewrites[k].0 != [] && NationRewrites[k].0[0] !in s
    ensures forall k | 9 <= k < 13 :: NationRewrites[k].0 != [] && NationRewrites[k].0[0] !in t
  {
  }

  /** "Ireland" becomes "Republic of Ireland". */
  lemma NormaliseIreland(s: string, t: string)
    requires s == "Ireland" && t == "Republic of Ireland"
    ensures NormaliseNation(s) == t
  {
    IrelandShape(s, t);
    IrelandPath(s, t, NationRewrites);
  }

  /** In a 13-step chain where step 1 rewrites `s` to `ni`, step 8 rewrites
      the `ireland` ending `ni` so that it becomes `nri`, step 11 rewrites
      `nri` back to `ni`, and every other step misses the name it meets,
      `s` ends as `ni`. */
  lemma NorthernIrelandPath(s: string, ni: string, nri: string, prefix: string,
                            ireland: string, rep: string, rws: seq<(string, string)>)
    requires |rws| == 13 && s != [] && nri != []
    requires rws[1] == (s, ni) && rws[8] == (ireland, rep) && rws[11] == (nri, ni)
    requires ni == prefix + ireland && nri == prefix + rep
    requires ireland != [] && ireland[0] !in prefix
    requires rws[0].0 != [] && rws[0].0[0] !in s
    requires forall k | 2 <= k < 8 :: rws[k].0 != [] && rws[k].0[0] !in ni
    requires forall k | 9 <= k < 11 :: rws[k].0 != [] && rws[k].0[0] !in nri
    requires rws[12].0 != [] && rws[12].0[0] !in ni
    ensures ApplyRewrites(s, rws) == ni
  {
    assert rws[0..] == rws;
    ApplyRewritesSkipRange(s, rws, 0, 1);
    ApplyRewritesStep(s, rws, 1);
    ReplaceAllWhole(s, ni);
    ApplyRewritesSkipRange(ni, rws, 2, 8);
    ApplyRewritesStep(ni, rws, 8);
    ReplaceAfterPrefix(prefix, ireland, rep);
    ApplyRewritesSkipRange(nri, rws, 9, 11);
    ApplyRewritesStep(nri, rws, 11);
    ReplaceAllWhole(nri, ni);
    ApplyRewritesSkipRange(ni, rws, 12, 13);
    assert rws[13..] == [];
  }

  /** "Northern Ireland" and "Northern Republic of Ireland" share the prefix
      "Northern ", which holds no capital I. */
  lemma NorthernParts(ni: string, nri: string, prefix: string, ireland: string, rep: string)
    requires ni == "Northern Ireland" && nri == "Northern Republic of Ireland"
    requires prefix == "Northern " && ireland == "Ireland" && rep == "Republic of Ireland"
    ensures ni == prefix + ireland && nri == prefix + rep
    ensures ireland != [] && ireland[0] !in prefix
  {
  }

  /** The steps of `NationRewrites` that rewrite "N. Ireland" on its way. */
  lemma NorthernIrelandSteps(s: string, ni: string, nri: string, prefix: string,
                             ireland: string, rep: string)
    requires s == "N. Ireland" && ni == "Northern Ireland"
    requires nri == "Northern Republic of Ireland" && prefix == "Northern "
    requires ireland == "Ireland" && rep == "Republic of Ireland"
    ensures |NationRewrites| == 13 && s != [] && nri != []
    ensures NationRewrites[1] == (s, ni) && NationRewrites[8] == (ireland, rep)
    ensures NationRewrites[11] == (nri, ni)
  {
  }

  /** The steps of `NationRewrites` that "N. Ireland" passes untouched miss
      the name it has reached there. */
  lemma NorthernIrelandMisses(s: string, ni: string)
    requires s == "N. Ireland" && ni == "Northern Ireland"
    ensures NationRewrites[0].0 != [] && NationRewrites[0].0[0] !in s
    ensures forall k | 2 <= k < 8 :: NationRewrites[k].0 != [] && NationRewrites[k].0[0] !in ni
    ensures NationRewrites[12].0 != [] && NationRewrites[12].0[0] !in ni
  {
  }

  /** The "China" and "Brazil" steps miss "Northern Republic of Ireland". */
  lemma NorthernRepublicMisses(nri: string)
    requires nri == "Northern Republic of Ireland"
    ensures forall k | 9 <= k < 11 :: NationRewrites[k].0 != [] && NationRewrites[k].0[0] !in nri
  {
  }

  /** "N. Ireland" ends as "Northern Ireland": the "Ireland" step turns it
      into "Northern Republic of Ireland" and a later step turns that back. */
  lemma NormaliseNorthernIreland(s: string, ni: string)
    requires s == "N. Ireland" && ni == "Northern Ireland"
    ensures NormaliseNation(s) == ni
  {
    var nri, prefix, ireland, rep := "Northern Republic of Ireland", "Northern ", "Ireland", "Republic of Ireland";
    NorthernParts(ni, nri, prefix, ireland, rep);
    NorthernIrelandSteps(s, ni, nri, prefix, ireland, rep);
    NorthernIrelandMisses(s, ni);
    NorthernRepublicMisses(nri);
    NorthernIrelandPath(s, ni, nri, prefix, ireland, rep, NationRewrites);
  }
}
