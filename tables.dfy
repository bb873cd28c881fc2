/**
 * The eight tables the dashboard loads from its CSV files, one row datatype
 * per file, and the column each table is keyed by when an entity is looked up.
 * A table is an ordered `seq` of rows; row order is the file's order.
 */
module Tables {
  import opened Wrappers

  /** standings.csv: the league table. */
  datatype Standing = Standing(team: string, rank: int, points: int, last5: string)

  /**
   * fixtures.csv. `date` is the already-parsed timestamp as an integer
   * ordinal. A score the file leaves empty (NaN in the frame) is `None`.
   */
  datatype Fixture = Fixture(
    home: string,
    away: string,
    date: int,
    homeScore: Option<int>,
    awayScore: Option<int>)

  /** team_stats.csv. */
  datatype TeamStats = TeamStats(
    team: string,
    goals: int,
    expectedGoals: real,
    possession: real,
    progressivePasses: int,
    yellows: int,
    reds: int)

  /** team_possession_stats.csv; `defensiveTouches` is the column spelled `deffensive_touches`. */
  datatype TeamPossession = TeamPossession(
    team: string,
    defensiveTouches: int,
    middleTouches: int,
    attackingTouches: int)

  /** team_salary.csv: one row per player of a team. */
  datatype TeamSalary = TeamSalary(team: string, players: string, weekly: int)

  /** player_stats.csv (the columns the page always reads). */
  datatype PlayerStats = PlayerStats(
    name: string,
    team: string,
    position: string,
    age: int,
    goals: int,
    assists: int)

  /** player_possession_stats.csv. */
  datatype PlayerPossession = PlayerPossession(player: string, successfulTakeOns: int)

  /** player_salaries.csv. */
  datatype PlayerSalary = PlayerSalary(player: string, weekly: int, annual: int)

  /** Everything `load_data` returns, one field per file. */
  datatype Bundle = Bundle(
    fixtures: seq<Fixture>,
    playerPossession: seq<PlayerPossession>,
    playerSalaries: seq<PlayerSalary>,
    playerStats: seq<PlayerStats>,
    standings: seq<Standing>,
    teamPossession: seq<TeamPossession>,
    teamSalary: seq<TeamSalary>,
    teamStats: seq<TeamStats>)

  // The key column of each table an entity is looked up in. Every lookup is
  // an exact, case-sensitive string equality on this column.

  /** team_stats['team'] */
  function TeamStatsKey(r: TeamStats): string { r.team }

  /** team_possession['team'] */
  function TeamPossessionKey(r: TeamPossession): string { r.team }

  /** team_salary['team'] */
  function TeamSalaryKey(r: TeamSalary): string { r.team }

  /** player_stats['name'] */
  function PlayerStatsKey(r: PlayerStats): string { r.name }

  /** player_possession['player'] */
  function PlayerPossessionKey(r: PlayerPossession): string { r.player }

  /** player_salaries['Player'] */
  function PlayerSalaryKey(r: PlayerSalary): string { r.player }
}
