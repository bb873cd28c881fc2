/**
 * The "Player Performance Analysis" page (`show_player_analysis`): one row
 * for the selected player from each of player_stats, player_possession and
 * player_salaries, each found by `.iloc[0]` on a differently named key
 * column. Any failure inside the page's try block is caught and reported
 * with one generic message.
 */
module PlayerAnalysis {
  import opened Wrappers
  import opened Tables
  import opened Query

  /** The player selector's options: the distinct names of player_stats, in table order. */
  function PlayerOptions(stats: seq<PlayerStats>): (r: seq<string>)
    ensures forall n :: n in r <==> HasKey(stats, PlayerStatsKey, n)
    ensures Distinct(r)
    ensures InFirstAppearanceOrder(Column(stats, PlayerStatsKey), r)
  {
    Unique(Column(stats, PlayerStatsKey))
  }

  /**
   * What the page shows: the three rows of the player, or the caught error.
   * The error does not say which table lacked the player.
   */
  datatype PlayerPage =
    | PlayerProfile(stats: PlayerStats, possession: PlayerPossession, salary: PlayerSalary)
    | ErrorReported

  /**
   * The page for one player: a profile exactly when each of the three tables
   * has a row for the name, made of the first such row of each; otherwise
   * the caught and reported error.
   */
  function ShowPlayerAnalysis(b: Bundle, name: string): (r: PlayerPage)
    ensures r.PlayerProfile? <==>
      && HasKey(b.playerStats, PlayerStatsKey, name)
      && HasKey(b.playerPossession, PlayerPossessionKey, name)
      && HasKey(b.playerSalaries, PlayerSalaryKey, name)
    ensures r.PlayerProfile? ==>
      && IsFirstWithKey(b.playerStats, PlayerStatsKey, name, r.stats)
      && IsFirstWithKey(b.playerPossession, PlayerPossessionKey, name, r.possession)
      && IsFirstWithKey(b.playerSalaries, PlayerSalaryKey, name, r.salary)
  {
    match (FirstWithKey(b.playerStats, PlayerStatsKey, name),
           FirstWithKey(b.playerPossession, PlayerPossessionKey, name),
           FirstWithKey(b.playerSalaries, PlayerSalaryKey, name))
    case (Some(stats), Some(possession), Some(salary)) => PlayerProfile(stats, possession, salary)
    case _ => ErrorReported
  }

  /**
   * A player the selector offers always has a player_stats row, so the page
   * reports an error exactly when player_possession or player_salaries has
   * no row for the name.
   */
  lemma SelectablePlayerFailsOnlyOnOtherTables(b: Bundle, name: string)
    requires name in PlayerOptions(b.playerStats)
    ensures ShowPlayerAnalysis(b, name).ErrorReported? <==>
      !HasKey(b.playerPossession, PlayerPossessionKey, name) || !HasKey(b.playerSalaries, PlayerSalaryKey, name)
  {
  }
}
