/**
 * The "League Standings" page (`show_standings`): the table ordered by rank,
 * the team options of the form comparison, and the rows of the teams chosen
 * for it.
 */
module Standings {
  import opened Wrappers
  import opened Tables
  import opened Query

  function RankOf(s: Standing): int { s.rank }

  function StandingTeam(s: Standing): string { s.team }

  /** `sort_values('rank')`: the standings in non-decreasing rank order. */
  function LeagueTable(standings: seq<Standing>): (r: seq<Standing>)
    ensures SortedBy(r, RankOf)
    ensures multiset(r) == multiset(standings)
  {
    SortBy(standings, RankOf)
  }

  /**
   * `standings[standings['team'].isin(selected)]`, drawn only when at least
   * one team is selected: the rows of the selected teams, in the order of
   * `ranked`.
   */
  function FormComparison(ranked: seq<Standing>, selected: seq<string>): (r: Option<seq<Standing>>)
    ensures r.None? <==> selected == []
    ensures r.Some? ==>
      forall x :: multiset(r.value)[x] == if x.team in selected then multiset(ranked)[x] else 0
    ensures r.Some? ==> IsSubsequence(r.value, ranked)
    ensures r.Some? && SortedBy(ranked, RankOf) ==> SortedBy(r.value, RankOf)
  {
    if selected == [] then None
    else
      var chosen := (s: Standing) => s.team in selected;
      KeepSelects(ranked, chosen);
      assert SortedBy(ranked, RankOf) ==> SortedBy(Keep(ranked, chosen), RankOf) by {
        if SortedBy(ranked, RankOf) {
          KeepPreservesSorted(ranked, chosen, RankOf);
        }
      }
      Some(Keep(ranked, chosen))
  }

  /** What the page shows. */
  datatype StandingsPage = StandingsPage(
    table: seq<Standing>,
    teamOptions: seq<string>,
    form: Option<seq<Standing>>)

  /**
   * The page for a choice of teams to compare: the table in rank order, each
   * team of the table offered once, and the compared rows, also in rank order.
   */
  function ShowStandings(standings: seq<Standing>, selected: seq<string>): (page: StandingsPage)
    ensures SortedBy(page.table, RankOf)
    ensures multiset(page.table) == multiset(standings)
    ensures forall t :: t in page.teamOptions <==> HasKey(standings, StandingTeam, t)
    ensures Distinct(page.teamOptions)
    ensures InFirstAppearanceOrder(Column(page.table, StandingTeam), page.teamOptions)
    ensures page.form.None? <==> selected == []
    ensures page.form.Some? ==> SortedBy(page.form.value, RankOf)
    ensures page.form.Some? ==> IsSubsequence(page.form.value, page.table)
    ensures page.form.Some? ==> forall x ::
      multiset(page.form.value)[x] == if x.team in selected then multiset(standings)[x] else 0
  {
    var table := LeagueTable(standings);
    var options := Unique(Column(table, StandingTeam));
    assert forall t :: HasKey(table, StandingTeam, t) <==> HasKey(standings, StandingTeam, t) by {
      forall t ensures HasKey(table, StandingTeam, t) ==> HasKey(standings, StandingTeam, t) {
        if HasKey(table, StandingTeam, t) {
          var i :| 0 <= i < |table| && table[i].team == t;
          assert table[i] in multiset(standings);
        }
      }
      forall t ensures HasKey(standings, StandingTeam, t) ==> HasKey(table, StandingTeam, t) {
        if HasKey(standings, StandingTeam, t) {
          var i :| 0 <= i < |standings| && standings[i].team == t;
          assert standings[i] in multiset(table);
        }
      }
    }
    StandingsPage(table, options, FormComparison(table, selected))
  }
}
