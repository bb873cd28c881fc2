/**
 * The "Team Performance Analysis" page (`show_team_analysis`): the overview
 * row from team_stats, the team's salary rows, and the touches-by-zone
 * projection of its team_possession row.
 */
module TeamAnalysis {
  import opened Wrappers
  import opened Tables
  import opened Query

  /** The team selector's options: the distinct teams of team_stats, in table order. */
  function TeamOptions(stats: seq<TeamStats>): (r: seq<string>)
    ensures forall t :: t in r <==> HasKey(stats, TeamStatsKey, t)
    ensures Distinct(r)
    ensures InFirstAppearanceOrder(Column(stats, TeamStatsKey), r)
  {
    Unique(Column(stats, TeamStatsKey))
  }

  /** The three bars of the "Touches by Zone" chart. */
  datatype ZoneTouches = ZoneTouches(defensive: int, middle: int, attacking: int)

  /** The team's salary rows: every team_salary row of that team, in table order. */
  function SalaryRows(salaries: seq<TeamSalary>, team: string): (r: seq<TeamSalary>)
    ensures forall i :: 0 <= i < |r| ==> r[i].team == team
    ensures forall x :: multiset(r)[x] == if x.team == team then multiset(salaries)[x] else 0
    ensures IsSubsequence(r, salaries)
    ensures r == [] <==> !HasKey(salaries, TeamSalaryKey, team)
  {
    RowsWithKey(salaries, TeamSalaryKey, team)
  }

  /** The sum of `weekly` over some salary rows: the whole of the salary pie. */
  function WeeklyTotal(rows: seq<TeamSalary>): int {
    if rows == [] then 0 else rows[0].weekly + WeeklyTotal(rows[1..])
  }

  /** The same sum taken directly over the raw table, restricted to one team. */
  function TeamWeeklyTotal(salaries: seq<TeamSalary>, team: string): int {
    if salaries == [] then 0
    else (if salaries[0].team == team then salaries[0].weekly else 0) + TeamWeeklyTotal(salaries[1..], team)
  }

  /** The salary pie adds up to the team's total over the raw table. */
  lemma {:induction false} SalaryTotalMatchesTable(salaries: seq<TeamSalary>, team: string)
    ensures WeeklyTotal(SalaryRows(salaries, team)) == TeamWeeklyTotal(salaries, team)
  {
    if salaries != [] {
      SalaryTotalMatchesTable(salaries[1..], team);
      var rest := SalaryRows(salaries[1..], team);
      if salaries[0].team == team {
        assert SalaryRows(salaries, team) == [salaries[0]] + rest;
        assert ([salaries[0]] + rest)[1..] == rest;
      } else {
        assert SalaryRows(salaries, team) == rest;
      }
    }
  }

  /** What the page shows once every lookup has succeeded. */
  datatype TeamPage = TeamPage(
    overview: TeamStats,
    salaries: seq<TeamSalary>,
    salaryChart: bool,
    touches: ZoneTouches)

  /**
   * The page for one team. Both `.iloc[0]` lookups take the first matching
   * row and fail only when there is none; that IndexError is not caught on
   * this page, and `None` stands for it. The salary chart is drawn exactly
   * when the team has a salary row.
   */
  function ShowTeamAnalysis(b: Bundle, team: string): (r: Option<TeamPage>)
    ensures r.Some? <==>
      HasKey(b.teamStats, TeamStatsKey, team) && HasKey(b.teamPossession, TeamPossessionKey, team)
    ensures r.Some? ==> IsFirstWithKey(b.teamStats, TeamStatsKey, team, r.value.overview)
    ensures r.Some? ==>
      forall x :: multiset(r.value.salaries)[x] == if x.team == team then multiset(b.teamSalary)[x] else 0
    ensures r.Some? ==> IsSubsequence(r.value.salaries, b.teamSalary)
    ensures r.Some? ==> (r.value.salaryChart <==> HasKey(b.teamSalary, TeamSalaryKey, team))
    ensures r.Some? ==> exists p ::
              && IsFirstWithKey(b.teamPossession, TeamPossessionKey, team, p)
              && r.value.touches == ZoneTouches(p.defensiveTouches, p.middleTouches, p.attackingTouches)
  {
    match FirstWithKey(b.teamStats, TeamStatsKey, team)
    case None => None
    case Some(overview) =>
      var salaries := SalaryRows(b.teamSalary, team);
      match FirstWithKey(b.teamPossession, TeamPossessionKey, team)
      case None => None
      case Some(p) =>
        Some(TeamPage(overview, salaries, salaries != [],
                      ZoneTouches(p.defensiveTouches, p.middleTouches, p.attackingTouches)))
  }

  /**
   * Every team the selector offers has its overview row; the page fails
   * only when team_possession has no row for it.
   */
  lemma SelectableTeamFailsOnlyOnPossession(b: Bundle, team: string)
    requires team in TeamOptions(b.teamStats)
    ensures FirstWithKey(b.teamStats, TeamStatsKey, team).Some?
    ensures ShowTeamAnalysis(b, team).None? <==> !HasKey(b.teamPossession, TeamPossessionKey, team)
  {
  }
}
