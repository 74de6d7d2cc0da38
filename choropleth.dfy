/**
 * The data side of `update_map`: the team aggregate for the selected year
 * and sport, and the two annotated teams picked with pandas `idxmax`, which
 * returns the first row holding the column's maximum and raises on an
 * empty column.
 */
module Choropleth {
  import opened Wrappers
  import opened Sequences
  import opened Table
  import opened TeamStats
  import opened Controls

  /** The first position of the largest value of a non-empty column. */
  function ArgMax(xs: seq<real>): (k: nat)
    requires |xs| > 0
    ensures k < |xs|
    ensures forall j :: 0 <= j < |xs| ==> xs[j] <= xs[k]
    ensures forall j :: 0 <= j < k ==> xs[j] < xs[k]
  {
    if |xs| == 1 then 0
    else
      var k := ArgMax(xs[..|xs| - 1]);
      if xs[|xs| - 1] > xs[k] then |xs| - 1 else k
  }

  /** `ValueError: attempt to get argmax of an empty sequence`. */
  datatype PickError = EmptyArgMax

  /** `Series.idxmax()` on a column indexed 0, 1, ... (the frame after `reset_index`). */
  function IdxMax(xs: seq<real>): (r: Result<nat, PickError>)
    ensures r.Err? <==> |xs| == 0
    ensures r.Ok? ==> r.value < |xs|
    ensures r.Ok? ==> forall j :: 0 <= j < |xs| ==> xs[j] <= xs[r.value]
    ensures r.Ok? ==> forall j :: 0 <= j < r.value ==> xs[j] < xs[r.value]
  {
    if |xs| == 0 then Err(EmptyArgMax) else Ok(ArgMax(xs))
  }

  function FemaleColumn(stats: seq<TeamStat>): (xs: seq<real>)
    ensures |xs| == |stats|
    ensures forall i :: 0 <= i < |stats| ==> xs[i] == stats[i].female as real
  {
    seq(|stats|, i requires 0 <= i < |stats| => stats[i].female as real)
  }

  function PercentageColumn(stats: seq<TeamStat>): (xs: seq<real>)
    ensures |xs| == |stats|
    ensures forall i :: 0 <= i < |stats| ==> xs[i] == stats[i].percentage
  {
    seq(|stats|, i requires 0 <= i < |stats| => stats[i].percentage)
  }

  /** Row `i` has the most women, and every earlier row strictly fewer. */
  predicate FirstMostFemale(stats: seq<TeamStat>, i: int) {
    && 0 <= i < |stats|
    && (forall j :: 0 <= j < |stats| ==> stats[j].female <= stats[i].female)
    && (forall j :: 0 <= j < i ==> stats[j].female < stats[i].female)
  }

  /** Row `i` has the highest female percentage, and every earlier row a strictly lower one. */
  predicate FirstHighestPercentage(stats: seq<TeamStat>, i: int) {
    && 0 <= i < |stats|
    && (forall j :: 0 <= j < |stats| ==> stats[j].percentage <= stats[i].percentage)
    && (forall j :: 0 <= j < i ==> stats[j].percentage < stats[i].percentage)
  }

  /** The two annotated rows of the map. */
  datatype Picks = Picks(mostFemale: TeamStat, highestPercentage: TeamStat)

  /** Lines 146 and 149: `team_stats_df.loc[team_stats_df[column].idxmax()]` for both columns. */
  function MapPicks(stats: seq<TeamStat>): (r: Result<Picks, PickError>)
    ensures r.Err? <==> |stats| == 0
    ensures r.Ok? ==> exists i :: FirstMostFemale(stats, i) && stats[i] == r.value.mostFemale
    ensures r.Ok? ==> exists i :: FirstHighestPercentage(stats, i) && stats[i] == r.value.highestPercentage
  {
    var i :- IdxMax(FemaleColumn(stats));
    var j := ArgMax(PercentageColumn(stats));
    assert FirstMostFemale(stats, i);
    assert FirstHighestPercentage(stats, j);
    Ok(Picks(stats[i], stats[j]))
  }

  /** What `update_map` computes before drawing: the aggregate and the annotated rows. */
  datatype MapView = MapView(stats: seq<TeamStat>, picks: Picks)

  /**
   * `update_map(year, sport)`, which raises exactly when no row is selected;
   * otherwise it annotates the first team with the most women and the first
   * team with the highest female percentage.
   */
  function UpdateMap(df: seq<Record>, year: int, sport: Option<string>): (r: Result<MapView, PickError>)
    ensures r.Err? <==> CountWhere(df, StatsMask(year, sport)) == 0
    ensures r.Ok? ==> r.value.stats == CalculateTeamStats(df, year, sport)
    ensures r.Ok? ==> exists i :: FirstMostFemale(r.value.stats, i) && r.value.stats[i] == r.value.picks.mostFemale
    ensures r.Ok? ==> exists i :: FirstHighestPercentage(r.value.stats, i)
                              && r.value.stats[i] == r.value.picks.highestPercentage
  {
    var stats := CalculateTeamStats(df, year, sport);
    EmptySelectionEmptyStats(df, year, sport);
    var picks :- MapPicks(stats);
    Ok(MapView(stats, picks))
  }

  /** `p` is a team of the aggregate, every team has at most `p`'s women, and a team tied with `p` is `p` or sorts after it. */
  predicate LeadsFemaleTies(stats: seq<TeamStat>, p: TeamStat) {
    && p in stats
    && forall s :: s in stats ==>
      && s.female <= p.female
      && (s.female == p.female ==> s == p || StringLt(p.team, s.team))
  }

  /** `p` is a team of the aggregate, every team has at most `p`'s percentage, and a team tied with `p` is `p` or sorts after it. */
  predicate LeadsPercentageTies(stats: seq<TeamStat>, p: TeamStat) {
    && p in stats
    && forall s :: s in stats ==>
      && s.percentage <= p.percentage
      && (s.percentage == p.percentage ==> s == p || StringLt(p.team, s.team))
  }

  predicate TeamsAscending(stats: seq<TeamStat>) {
    forall i, j :: 0 <= i < j < |stats| ==> StringLt(stats[i].team, stats[j].team)
  }

  lemma FirstMaxLeadsTies(stats: seq<TeamStat>, i: int, j: int)
    requires TeamsAscending(stats)
    requires FirstMostFemale(stats, i)
    requires FirstHighestPercentage(stats, j)
    ensures LeadsFemaleTies(stats, stats[i])
    ensures LeadsPercentageTies(stats, stats[j])
  {
    forall s | s in stats
      ensures s.female == stats[i].female ==> s == stats[i] || StringLt(stats[i].team, s.team)
      ensures s.percentage == stats[j].percentage ==> s == stats[j] || StringLt(stats[j].team, s.team)
    {
      var k :| 0 <= k < |stats| && stats[k] == s;
      assert k < i ==> stats[k].female < stats[i].female;
      assert k < j ==> stats[k].percentage < stats[j].percentage;
    }
  }

  /**
   * Among teams tied for a maximum, each pick is the one whose name sorts
   * first, because the aggregate is ordered by team name.
   */
  lemma PicksPreferFirstTeam(df: seq<Record>, year: int, sport: Option<string>)
    requires UpdateMap(df, year, sport).Ok?
    ensures LeadsFemaleTies(UpdateMap(df, year, sport).value.stats, UpdateMap(df, year, sport).value.picks.mostFemale)
    ensures LeadsPercentageTies(UpdateMap(df, year, sport).value.stats,
                                UpdateMap(df, year, sport).value.picks.highestPercentage)
  {
    var v := UpdateMap(df, year, sport).value;
    var i :| FirstMostFemale(v.stats, i) && v.stats[i] == v.picks.mostFemale;
    var j :| FirstHighestPercentage(v.stats, j) && v.stats[j] == v.picks.highestPercentage;
    FirstMaxLeadsTies(v.stats, i, j);
  }

  /** The map data with the empty-selection guard: no annotation instead of an exception. */
  datatype GuardedMapView = GuardedMapView(stats: seq<TeamStat>, picks: Option<Picks>)

  function GuardedUpdateMap(df: seq<Record>, year: int, sport: Option<string>): (v: GuardedMapView)
    ensures v.stats == CalculateTeamStats(df, year, sport)
    ensures v.picks.None? <==> CountWhere(df, StatsMask(year, sport)) == 0
    ensures v.picks.Some? ==> UpdateMap(df, year, sport) == Ok(MapView(v.stats, v.picks.value))
  {
    var stats := CalculateTeamStats(df, year, sport);
    EmptySelectionEmptyStats(df, year, sport);
    match MapPicks(stats)
    case Ok(picks) => GuardedMapView(stats, Some(picks))
    case Err(_) => GuardedMapView(stats, None)
  }

  /** The table of `AbsentSportRaises`: Baseball was played in 2008, and 2012 had only Swimming. */
  function TwoGames(): seq<Record> {
    [Record(2008, Summer, "Baseball", "Cuba", M, Some(Gold)),
     Record(2012, Summer, "Swimming", "United States", F, Some(Gold))]
  }

  /**
   * The controls offer Baseball (a Summer sport of the table) and 2012 (a
   * Summer year of the table), yet choosing both makes `update_map` raise,
   * while the guarded version draws an empty map without annotations.
   */
  lemma AbsentSportRaises()
    ensures IsSummerSport(TwoGames(), "Baseball") && IsSummerYear(TwoGames(), 2012)
    ensures UpdateMap(TwoGames(), 2012, Some("Baseball")) == Err(EmptyArgMax)
    ensures GuardedUpdateMap(TwoGames(), 2012, Some("Baseball")) == GuardedMapView([], None)
  {
    var df := TwoGames();
    var m := StatsMask(2012, Some("Baseball"));
    assert "Swimming"[0] != "Baseball"[0];
    assert !Holds(m, df[0]) && !Holds(m, df[1]);
    assert CountWhere(df[1..], m) == 0 by {
      assert CountWhere(df[1..][1..], m) == 0;
    }
    assert CountWhere(df, m) == 0;
    EmptySelectionEmptyStats(df, 2012, Some("Baseball"));
    assert Holds(Both(SeasonIs(Summer), SportIs("Baseball")), df[0]);
    assert Holds(Both(SeasonIs(Summer), YearIs(2012)), df[1]);
    assert Holds(Both(SeasonIs(Summer), YearIs(2012)), df[1..][0]);
  }
}
