/**
 * The "Match Fixtures and Results" page (`show_fixtures`): the team and
 * date-range filter over the fixtures table, the date-ordered display copy,
 * and the home-win / away-win / draw tally over the filtered fixtures.
 */
module Fixtures {
  import opened Wrappers
  import opened Tables
  import opened Query

  /** The first entry of the team selector, meaning "no team predicate". */
  const AllTeams: string := "All Teams"

  /** The team took part in the fixture, at home or away. */
  predicate InvolvesTeam(f: Fixture, team: string) {
    f.home == team || f.away == team
  }

  /** The fixture's timestamp lies in the closed range `[dateFrom, dateTo]`. */
  predicate InDateRange(f: Fixture, dateFrom: int, dateTo: int) {
    dateFrom <= f.date <= dateTo
  }

  /** The fixture passes both filters of the page. */
  predicate Selected(f: Fixture, team: string, dateFrom: int, dateTo: int) {
    (team == AllTeams || InvolvesTeam(f, team)) && InDateRange(f, dateFrom, dateTo)
  }

  function FixtureDate(f: Fixture): int { f.date }

  /** The team filter; the sentinel "All Teams" applies no predicate. */
  function FilterByTeam(fs: seq<Fixture>, team: string): (r: seq<Fixture>)
    ensures team == AllTeams ==> r == fs
    ensures forall f ::
              multiset(r)[f] == if team == AllTeams || InvolvesTeam(f, team) then multiset(fs)[f] else 0
    ensures IsSubsequence(r, fs)
  {
    if team == AllTeams then
      SubsequenceReflexive(fs);
      fs
    else
      var plays := (f: Fixture) => InvolvesTeam(f, team);
      KeepSelects(fs, plays);
      Keep(fs, plays)
  }

  /** The inclusive date-range filter. */
  function FilterByDate(fs: seq<Fixture>, dateFrom: int, dateTo: int): (r: seq<Fixture>)
    ensures forall f ::
              multiset(r)[f] == if InDateRange(f, dateFrom, dateTo) then multiset(fs)[f] else 0
    ensures forall i :: 0 <= i < |r| ==> InDateRange(r[i], dateFrom, dateTo)
    ensures IsSubsequence(r, fs)
  {
    var inRange := (f: Fixture) => InDateRange(f, dateFrom, dateTo);
    KeepSelects(fs, inRange);
    Keep(fs, inRange)
  }

  /**
   * The fixtures the page works on: the team filter, then the date filter.
   * Each fixture is kept, as often as it occurs, exactly when it passes both.
   */
  function FilterFixtures(fs: seq<Fixture>, team: string, dateFrom: int, dateTo: int): (r: seq<Fixture>)
    ensures forall f ::
              multiset(r)[f] == if Selected(f, team, dateFrom, dateTo) then multiset(fs)[f] else 0
    ensures forall f :: f in r <==> f in fs && Selected(f, team, dateFrom, dateTo)
  {
    var r := FilterByDate(FilterByTeam(fs, team), dateFrom, dateTo);
    assert forall f :: f in r <==> multiset(r)[f] > 0;
    assert forall f :: f in fs <==> multiset(fs)[f] > 0;
    r
  }

  /** The filtered fixtures are the input's, in the input's order. */
  lemma FilterFixturesIsSubsequence(fs: seq<Fixture>, team: string, dateFrom: int, dateTo: int)
    ensures IsSubsequence(FilterFixtures(fs, team, dateFrom, dateTo), fs)
  {
    var byTeam := FilterByTeam(fs, team);
    SubsequenceTransitive(FilterByDate(byTeam, dateFrom, dateTo), byTeam, fs);
  }

  /** Filtering the filtered fixtures again with the same selection changes nothing. */
  lemma FilterFixturesIdempotent(fs: seq<Fixture>, team: string, dateFrom: int, dateTo: int)
    ensures FilterFixtures(FilterFixtures(fs, team, dateFrom, dateTo), team, dateFrom, dateTo)
         == FilterFixtures(fs, team, dateFrom, dateTo)
  {
    var r := FilterFixtures(fs, team, dateFrom, dateTo);
    assert forall i :: 0 <= i < |r| ==> Selected(r[i], team, dateFrom, dateTo) by {
      forall i | 0 <= i < |r| ensures Selected(r[i], team, dateFrom, dateTo) {
        assert r[i] in r;
      }
    }
    if team != AllTeams {
      KeepAll(r, (f: Fixture) => InvolvesTeam(f, team));
    }
    KeepAll(r, (f: Fixture) => InDateRange(f, dateFrom, dateTo));
  }

  /** Both ends of the date range are inclusive. */
  lemma FilterFixturesKeepsBounds(fs: seq<Fixture>, team: string, dateFrom: int, dateTo: int, f: Fixture)
    requires f in fs && (team == AllTeams || InvolvesTeam(f, team))
    requires dateFrom <= dateTo && (f.date == dateFrom || f.date == dateTo)
    ensures f in FilterFixtures(fs, team, dateFrom, dateTo)
  {
  }

  /** A range whose start lies after its end selects nothing, and is not an error. */
  lemma EmptyRangeSelectsNothing(fs: seq<Fixture>, team: string, dateFrom: int, dateTo: int)
    requires dateFrom > dateTo
    ensures FilterFixtures(fs, team, dateFrom, dateTo) == []
  {
    var r := FilterFixtures(fs, team, dateFrom, dateTo);
    assert forall i :: 0 <= i < |r| ==> r[i] in r;
  }

  /**
   * `fixtures.sort_values('Date')`: the table shown on the page, the filtered
   * fixtures rearranged into non-decreasing date order. Rows with the same
   * date may come in any order.
   */
  function DisplayFixtures(fs: seq<Fixture>, team: string, dateFrom: int, dateTo: int): (r: seq<Fixture>)
    ensures SortedBy(r, FixtureDate)
    ensures multiset(r) == multiset(FilterFixtures(fs, team, dateFrom, dateTo))
  {
    SortBy(FilterFixtures(fs, team, dateFrom, dateTo), FixtureDate)
  }

  /**
   * The order among fixtures of equal date is not promised, but the date in
   * every row of the displayed table is: any date-sorted arrangement of the
   * filtered fixtures has the same date at each position.
   */
  lemma DisplayedDatesDetermined(fs: seq<Fixture>, team: string, dateFrom: int, dateTo: int, other: seq<Fixture>)
    requires SortedBy(other, FixtureDate)
    requires multiset(other) == multiset(FilterFixtures(fs, team, dateFrom, dateTo))
    ensures |other| == |DisplayFixtures(fs, team, dateFrom, dateTo)|
    ensures forall i :: 0 <= i < |other| ==> other[i].date == DisplayFixtures(fs, team, dateFrom, dateTo)[i].date
  {
    SortedPermutationsAgreeOnKeys(other, DisplayFixtures(fs, team, dateFrom, dateTo), FixtureDate);
  }

  // ---------------------------------------------------------------------
  // Results tally

  // pandas compares a missing score (NaN) as neither greater, smaller nor
  // equal, so a fixture with a missing score is a home win, an away win and
  // a draw in no count.

  predicate HomeWin(f: Fixture) {
    f.homeScore.Some? && f.awayScore.Some? && f.homeScore.value > f.awayScore.value
  }

  predicate AwayWin(f: Fixture) {
    f.homeScore.Some? && f.awayScore.Some? && f.awayScore.value > f.homeScore.value
  }

  predicate Draw(f: Fixture) {
    f.homeScore.Some? && f.awayScore.Some? && f.homeScore.value == f.awayScore.value
  }

  predicate Unscored(f: Fixture) {
    f.homeScore.None? || f.awayScore.None?
  }

  datatype Tally = Tally(homeWins: nat, awayWins: nat, draws: nat)

  /** Each fixture lands in exactly one of the four classes. */
  lemma {:induction false} TallyPartition(fs: seq<Fixture>)
    ensures |Keep(fs, HomeWin)| + |Keep(fs, AwayWin)| + |Keep(fs, Draw)| + |Keep(fs, Unscored)| == |fs|
  {
    if fs != [] {
      TallyPartition(fs[1..]);
      var f := fs[0];
      assert |Keep(fs, HomeWin)| == (if HomeWin(f) then 1 else 0) + |Keep(fs[1..], HomeWin)| by {
        KeepLength(fs, HomeWin);
      }
      assert |Keep(fs, AwayWin)| == (if AwayWin(f) then 1 else 0) + |Keep(fs[1..], AwayWin)| by {
        KeepLength(fs, AwayWin);
      }
      assert |Keep(fs, Draw)| == (if Draw(f) then 1 else 0) + |Keep(fs[1..], Draw)| by {
        KeepLength(fs, Draw);
      }
      assert |Keep(fs, Unscored)| == (if Unscored(f) then 1 else 0) + |Keep(fs[1..], Unscored)| by {
        KeepLength(fs, Unscored);
      }
      assert (if HomeWin(f) then 1 else 0) + (if AwayWin(f) then 1 else 0)
           + (if Draw(f) then 1 else 0) + (if Unscored(f) then 1 else 0) == 1;
    }
  }

  /**
   * The results tally, computed only when the filtered fixtures are not
   * empty: the three counts are of disjoint sets of fixtures, and together
   * with the unscored ones they account for every fixture.
   */
  function ResultTally(fs: seq<Fixture>): (r: Option<Tally>)
    ensures r.None? <==> fs == []
    ensures r.Some? ==>
      && r.value.homeWins == |Keep(fs, HomeWin)|
      && r.value.awayWins == |Keep(fs, AwayWin)|
      && r.value.draws == |Keep(fs, Draw)|
    ensures r.Some? ==>
      r.value.homeWins + r.value.awayWins + r.value.draws + |Keep(fs, Unscored)| == |fs|
  {
    if fs == [] then None
    else
      TallyPartition(fs);
      Some(Tally(|Keep(fs, HomeWin)|, |Keep(fs, AwayWin)|, |Keep(fs, Draw)|))
  }

  /** When every score is present the three counts add up to the number of fixtures. */
  lemma TallyExhaustive(fs: seq<Fixture>)
    requires fs != []
    requires forall i :: 0 <= i < |fs| ==> !Unscored(fs[i])
    ensures ResultTally(fs).Some?
    ensures ResultTally(fs).value.homeWins + ResultTally(fs).value.awayWins
            + ResultTally(fs).value.draws == |fs|
  {
    KeepNone(fs, Unscored);
  }

  /** What the page shows: the sorted table and, when there is any fixture, the tally. */
  datatype FixturesPage = FixturesPage(table: seq<Fixture>, results: Option<Tally>)

  function ShowFixtures(fs: seq<Fixture>, team: string, dateFrom: int, dateTo: int): (page: FixturesPage)
    ensures SortedBy(page.table, FixtureDate)
    ensures forall f :: f in page.table <==> f in fs && Selected(f, team, dateFrom, dateTo)
    ensures multiset(page.table) == multiset(FilterFixtures(fs, team, dateFrom, dateTo))
    ensures page.results == ResultTally(FilterFixtures(fs, team, dateFrom, dateTo))
    ensures page.results.None? <==> page.table == []
  {
    var filtered := FilterFixtures(fs, team, dateFrom, dateTo);
    var table := DisplayFixtures(fs, team, dateFrom, dateTo);
    assert forall f :: f in table <==> f in multiset(table);
    assert forall f :: f in filtered <==> f in multiset(filtered);
    assert table == [] <==> filtered == [] by {
      if table == [] { assert |multiset(filtered)| == 0; }
      if filtered == [] { assert |multiset(table)| == 0; }
    }
    FixturesPage(table, ResultTally(filtered))
  }

  function HomeTeam(f: Fixture): string { f.home }

  /**
   * The team selector's options: the sentinel followed by the distinct home
   * teams in table order. A team that only ever plays away is not offered.
   */
  function FixtureTeamOptions(fs: seq<Fixture>): (r: seq<string>)
    ensures |r| >= 1 && r[0] == AllTeams
    ensures forall t :: t in r[1..] <==> HasKey(fs, HomeTeam, t)
    ensures Distinct(r[1..])
    ensures InFirstAppearanceOrder(Column(fs, HomeTeam), r[1..])
  {
    var r := [AllTeams] + Unique(Column(fs, HomeTeam));
    assert r[1..] == Unique(Column(fs, HomeTeam));
    r
  }

  /** Two example fixtures: Arsenal win at home, then draw away. */
  function ArsenalFixtures(jan1: int, feb1: int): seq<Fixture> {
    [Fixture("Arsenal", "Chelsea", jan1, Some(2), Some(1)),
     Fixture("Chelsea", "Arsenal", feb1, Some(0), Some(0))]
  }

  /**
   * Both example fixtures are selected for Arsenal over the closed range of
   * their two dates and are shown in date order.
   */
  lemma ArsenalExampleSelection(jan1: int, feb1: int)
    requires jan1 < feb1
    ensures FilterFixtures(ArsenalFixtures(jan1, feb1), "Arsenal", jan1, feb1) == ArsenalFixtures(jan1, feb1)
    ensures DisplayFixtures(ArsenalFixtures(jan1, feb1), "Arsenal", jan1, feb1) == ArsenalFixtures(jan1, feb1)
  {
    var fs := ArsenalFixtures(jan1, feb1);
    assert "Arsenal" != AllTeams;
    assert FilterByTeam(fs, "Arsenal") == fs by {
      KeepAll(fs, (f: Fixture) => InvolvesTeam(f, "Arsenal"));
    }
    assert FilterByDate(fs, jan1, feb1) == fs by {
      KeepAll(fs, (f: Fixture) => InDateRange(f, jan1, feb1));
    }
    assert SortBy(fs, FixtureDate) == fs by {
      assert fs[1..] == [fs[1]] && [fs[1]][1..] == [];
      assert SortBy([fs[1]], FixtureDate) == [fs[1]];
    }
  }

  /** The example fixtures are tallied as one home win, no away win and one draw. */
  lemma ArsenalExampleTally(jan1: int, feb1: int)
    ensures ResultTally(ArsenalFixtures(jan1, feb1)) == Some(Tally(1, 0, 1))
  {
    var fs := ArsenalFixtures(jan1, feb1);
    var c := fs[1];
    KeepLength(fs, HomeWin);
    KeepLength(fs, AwayWin);
    KeepLength(fs, Draw);
    assert fs[1..] == [c] && [c][1..] == [];
    KeepLength([c], HomeWin);
    KeepLength([c], AwayWin);
    KeepLength([c], Draw);
  }
}
