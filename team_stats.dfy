/**
 * `calculate_team_stats`: the per-team athlete totals, female counts and
 * female percentage for one Summer year and an optional sport.
 */
module TeamStats {
  import opened Wrappers
  import opened Sequences
  import opened Table
  import opened GroupBy

  /** One row of the aggregate frame; `percentage` is exact (a rational). */
  datatype TeamStat = TeamStat(team: string, total: nat, female: nat, percentage: real)

  /** The rows the aggregate counts: Summer rows of `year`, and of `sport` when one is given. */
  function StatsMask(year: int, sport: Option<string>): Mask {
    Both(Both(YearIs(year), SeasonIs(Summer)), SportFilter(sport))
  }

  lemma StatsMaskMeans(year: int, sport: Option<string>, r: Record)
    ensures Holds(StatsMask(year, sport), r) <==>
      r.season == Summer && r.year == year && (Given(sport) ==> r.sport == sport.value)
  {
    assert Holds(Both(YearIs(year), SeasonIs(Summer)), r) <==> r.year == year && r.season == Summer;
  }

  /** The year and season mask, then the sport mask only when a sport is given. */
  function SelectTeamRows(df: seq<Record>, year: int, sport: Option<string>): (rows: seq<Record>)
    ensures rows == Where(df, StatsMask(year, sport))
  {
    var rows := Where(df, Both(YearIs(year), SeasonIs(Summer)));
    WhereThen(df, Both(YearIs(year), SeasonIs(Summer)), SportFilter(sport));
    if Given(sport) then Where(rows, SportIs(sport.value)) else rows
  }

  /** `female / total * 100`, for a non-empty group. */
  function FemalePercentage(female: nat, total: nat): (p: real)
    requires 0 < total && female <= total
    ensures 0.0 <= p <= 100.0
    ensures p * total as real == female as real * 100.0
  {
    (female as real / total as real) * 100.0
  }

  /** The aggregate row of one team group: its size, and the number of its rows with sex F. */
  function TeamRow(rows: seq<Record>, g: Group): (s: TeamStat)
    requires g.key.Team? && 0 < g.size == CountWhere(rows, TeamIs(g.key.team))
    ensures s.team == g.key.team && s.total == g.size
    ensures s.female == CountWhere(rows, Both(TeamIs(g.key.team), SexIs(F)))
    ensures s.female <= s.total
    ensures s.percentage == FemalePercentage(s.female, s.total)
  {
    var members := Where(rows, TeamIs(g.key.team));
    var female := CountWhere(members, SexIs(F));
    CountWhereBoth(rows, TeamIs(g.key.team), SexIs(F));
    TeamStat(g.key.team, g.size, female, FemalePercentage(female, g.size))
  }

  predicate HasTeam(stats: seq<TeamStat>, t: string) {
    exists i :: 0 <= i < |stats| && stats[i].team == t
  }

  function SumTotals(stats: seq<TeamStat>): nat {
    if |stats| == 0 then 0 else stats[0].total + SumTotals(stats[1..])
  }

  /** The number of selected rows of team `t`. */
  function TeamTotal(df: seq<Record>, year: int, sport: Option<string>, t: string): nat {
    CountWhere(df, Both(StatsMask(year, sport), TeamIs(t)))
  }

  /** The number of selected rows of team `t` with sex F. */
  function TeamFemale(df: seq<Record>, year: int, sport: Option<string>, t: string): nat {
    CountWhere(df, Both(Both(StatsMask(year, sport), TeamIs(t)), SexIs(F)))
  }

  /**
   * `calculate_team_stats(df, year, sport)`: one row per team among the
   * selected rows, in ascending team order, with the team's total, its
   * female count and the female percentage.
   */
  function CalculateTeamStats(df: seq<Record>, year: int, sport: Option<string>): (stats: seq<TeamStat>)
    ensures forall i, j :: 0 <= i < j < |stats| ==> StringLt(stats[i].team, stats[j].team)
    ensures forall t :: HasTeam(stats, t) <==> TeamTotal(df, year, sport, t) > 0
    ensures forall i :: 0 <= i < |stats| ==>
      && stats[i].total == TeamTotal(df, year, sport, stats[i].team)
      && stats[i].female == TeamFemale(df, year, sport, stats[i].team)
      && 0 <= stats[i].female <= stats[i].total
      && 1 <= stats[i].total
      && stats[i].percentage == FemalePercentage(stats[i].female, stats[i].total)
    ensures SumTotals(stats) == CountWhere(df, StatsMask(year, sport))
  {
    var rows := SelectTeamRows(df, year, sport);
    var groups := GroupCount(rows, TeamCol);
    var stats := seq(|groups|, i requires 0 <= i < |groups| => TeamRow(rows, groups[i]));
    TeamStatsSpec(df, year, sport, rows, groups, stats);
    TeamTotalsConserve(df, year, sport, rows, groups, stats);
    stats
  }

  /** An empty selection gives an empty aggregate, and only an empty selection does. */
  lemma EmptySelectionEmptyStats(df: seq<Record>, year: int, sport: Option<string>)
    ensures CalculateTeamStats(df, year, sport) == [] <==> CountWhere(df, StatsMask(year, sport)) == 0
  {
    var stats := CalculateTeamStats(df, year, sport);
    if stats != [] {
      assert SumTotals(stats) >= stats[0].total >= 1;
    }
  }

  lemma {:induction false} SumTotalsIsSumSizes(stats: seq<TeamStat>, groups: seq<Group>)
    requires |stats| == |groups|
    requires forall i :: 0 <= i < |groups| ==> stats[i].total == groups[i].size
    ensures SumTotals(stats) == SumSizes(groups)
  {
    if |stats| > 0 {
      SumTotalsIsSumSizes(stats[1..], groups[1..]);
    }
  }

  /** Every selected row is counted in exactly one team's total. */
  lemma TeamTotalsConserve(
    df: seq<Record>, year: int, sport: Option<string>,
    rows: seq<Record>, groups: seq<Group>, stats: seq<TeamStat>)
    requires rows == Where(df, StatsMask(year, sport))
    requires groups == GroupCount(rows, TeamCol)
    requires |stats| == |groups|
    requires forall i :: 0 <= i < |groups| ==> stats[i].total == groups[i].size
    ensures SumTotals(stats) == CountWhere(df, StatsMask(year, sport))
  {
    var m := StatsMask(year, sport);
    SumTotalsIsSumSizes(stats, groups);
    assert KeyedMask(TeamCol) == All;
    CountWhereBoth(df, m, All);
    CountWhereAll(df, m);
  }

  /** Every team's female percentage is exact and lies between 0 and 100. */
  lemma PercentageInRange(df: seq<Record>, year: int, sport: Option<string>)
    ensures forall s :: s in CalculateTeamStats(df, year, sport) ==>
      && 0.0 <= s.percentage <= 100.0
      && s.percentage * s.total as real == s.female as real * 100.0
  {
    var stats := CalculateTeamStats(df, year, sport);
    forall s | s in stats
      ensures 0.0 <= s.percentage <= 100.0
      ensures s.percentage * s.total as real == s.female as real * 100.0
    {
      var i :| 0 <= i < |stats| && stats[i] == s;
      PercentageOfRow(s);
    }
  }

  lemma PercentageOfRow(s: TeamStat)
    requires 1 <= s.total && s.female <= s.total
    requires s.percentage == FemalePercentage(s.female, s.total)
    ensures 0.0 <= s.percentage <= 100.0
    ensures s.percentage * s.total as real == s.female as real * 100.0
  {
  }

  /** Counting team `t` (and its women) among the selected rows counts them in the table. */
  lemma TeamCountsOfSelection(df: seq<Record>, year: int, sport: Option<string>, t: string)
    ensures CountWhere(Where(df, StatsMask(year, sport)), TeamIs(t)) == TeamTotal(df, year, sport, t)
    ensures CountWhere(Where(df, StatsMask(year, sport)), Both(TeamIs(t), SexIs(F)))
         == TeamFemale(df, year, sport, t)
  {
    var m := StatsMask(year, sport);
    CountWhereBoth(df, m, TeamIs(t));
    CountWhereBoth(df, m, Both(TeamIs(t), SexIs(F)));
    CountWhereEquiv(df, Both(m, Both(TeamIs(t), SexIs(F))), Both(Both(m, TeamIs(t)), SexIs(F)));
  }

  lemma TeamStatsSpec(
    df: seq<Record>, year: int, sport: Option<string>,
    rows: seq<Record>, groups: seq<Group>, stats: seq<TeamStat>)
    requires rows == Where(df, StatsMask(year, sport))
    requires groups == GroupCount(rows, TeamCol)
    requires |stats| == |groups|
    requires forall i :: 0 <= i < |groups| ==>
      && stats[i].team == groups[i].key.team && stats[i].total == groups[i].size
      && stats[i].female == CountWhere(rows, Both(TeamIs(stats[i].team), SexIs(F)))
    ensures forall i, j :: 0 <= i < j < |stats| ==> StringLt(stats[i].team, stats[j].team)
    ensures forall t :: HasTeam(stats, t) <==> TeamTotal(df, year, sport, t) > 0
    ensures forall i :: 0 <= i < |stats| ==>
      && stats[i].total == TeamTotal(df, year, sport, stats[i].team)
      && stats[i].female == TeamFemale(df, year, sport, stats[i].team)
  {
    TeamStatsCounts(df, year, sport, rows, stats);
    TeamStatsKeys(df, year, sport, rows, groups, stats);
  }

  lemma TeamStatsCounts(df: seq<Record>, year: int, sport: Option<string>, rows: seq<Record>, stats: seq<TeamStat>)
    requires rows == Where(df, StatsMask(year, sport))
    requires forall i :: 0 <= i < |stats| ==>
      && stats[i].total == CountWhere(rows, TeamIs(stats[i].team))
      && stats[i].female == CountWhere(rows, Both(TeamIs(stats[i].team), SexIs(F)))
    ensures forall i :: 0 <= i < |stats| ==>
      && stats[i].total == TeamTotal(df, year, sport, stats[i].team)
      && stats[i].female == TeamFemale(df, year, sport, stats[i].team)
  {
    forall i | 0 <= i < |stats|
      ensures stats[i].total == TeamTotal(df, year, sport, stats[i].team)
      ensures stats[i].female == TeamFemale(df, year, sport, stats[i].team)
    {
      TeamCountsOfSelection(df, year, sport, stats[i].team);
    }
  }

  lemma TeamStatsKeys(
    df: seq<Record>, year: int, sport: Option<string>,
    rows: seq<Record>, groups: seq<Group>, stats: seq<TeamStat>)
    requires rows == Where(df, StatsMask(year, sport))
    requires groups == GroupCount(rows, TeamCol)
    requires |stats| == |groups|
    requires forall i :: 0 <= i < |groups| ==> stats[i].team == groups[i].key.team
    ensures forall i, j :: 0 <= i < j < |stats| ==> StringLt(stats[i].team, stats[j].team)
    ensures forall t :: HasTeam(stats, t) <==> TeamTotal(df, year, sport, t) > 0
  {
    TeamStatsSorted(groups, stats);
    forall t
      ensures HasTeam(stats, t) <==> TeamTotal(df, year, sport, t) > 0
    {
      TeamCountsOfSelection(df, year, sport, t);
      TeamPresent(rows, groups, stats, t);
    }
  }

  /** A team has an aggregate row exactly when some row of it is selected. */
  lemma TeamPresent(rows: seq<Record>, groups: seq<Group>, stats: seq<TeamStat>, t: string)
    requires forall i :: 0 <= i < |groups| ==>
      groups[i].key.Team? && 0 < groups[i].size == CountWhere(rows, KeyMask(groups[i].key))
    requires Fits(TeamCol, Team(t)) && CountWhere(rows, KeyMask(Team(t))) > 0 ==> HasKey(groups, Team(t))
    requires |stats| == |groups|
    requires forall i :: 0 <= i < |groups| ==> stats[i].team == groups[i].key.team
    ensures HasTeam(stats, t) <==> CountWhere(rows, TeamIs(t)) > 0
  {
    if CountWhere(rows, TeamIs(t)) > 0 {
      assert KeyMask(Team(t)) == TeamIs(t);
      var i :| 0 <= i < |groups| && groups[i].key == Team(t);
      assert stats[i].team == t;
    }
    if HasTeam(stats, t) {
      var i :| 0 <= i < |stats| && stats[i].team == t;
      assert groups[i].key == Team(t);
    }
  }

  /** Team groups in key order give team rows in ascending name order. */
  lemma TeamStatsSorted(groups: seq<Group>, stats: seq<TeamStat>)
    requires forall i, j :: 0 <= i < j < |groups| ==> KeyLt(groups[i].key, groups[j].key)
    requires forall i :: 0 <= i < |groups| ==> groups[i].key.Team?
    requires |stats| == |groups|
    requires forall i :: 0 <= i < |groups| ==> stats[i].team == groups[i].key.team
    ensures forall i, j :: 0 <= i < j < |stats| ==> StringLt(stats[i].team, stats[j].team)
  {
    forall i, j | 0 <= i < j < |stats|
      ensures StringLt(stats[i].team, stats[j].team)
    {
      assert KeyLt(groups[i].key, groups[j].key);
    }
  }
}
