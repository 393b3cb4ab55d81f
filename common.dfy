/** Record types shared by the cleaning and the integration stages: the
    columns of the cleaned results table and of the cleaned rankings table,
    as the two scripts read and write them. */
module Common {

  /** A cell that may hold pandas' missing value (NaN). */
  datatype Option<T> = None | Some(value: T)

  /** A calendar date, as a count of days since 1970-01-01. */
  type Day = int

  /** A team or nation name. */
  type Team = string

  /** The value of the `outcome` column. */
  datatype Outcome = Home | Away | Draw {
    /** The one-letter code the cleaned results table stores. */
    function Code(): (c: char)
      ensures c in "HAD"
      ensures c == 'H' <==> this == Home
      ensures c == 'A' <==> this == Away
      ensures c == 'D' <==> this == Draw
    {
      match this
      case Home => 'H'
      case Away => 'A'
      case Draw => 'D'
    }
  }

  /** One row of the cleaned results table. */
  datatype Match = Match(
    date: Day,
    homeTeam: Team,
    awayTeam: Team,
    homeScore: int,
    awayScore: int,
    outcome: Outcome,
    winningTeam: Option<Team>,
    losingTeam: Option<Team>,
    totalGoals: int,
    year: int,
    decade: int)

  /** One row of the cleaned rankings table: one nation in one published snapshot. */
  datatype Ranking = Ranking(rank: int, nation: Team, confederation: string, points: real, date: Day)
}
