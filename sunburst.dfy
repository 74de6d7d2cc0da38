/**
 * The data side of `update_sunburst`: the Summer rows of the slider's year,
 * narrowed to the hovered team and the chosen sport, counted per sex and
 * medal. Rows without a medal have a missing medal value and fall out of
 * the grouping.
 */
module Sunburst {
  import opened Wrappers
  import opened Table
  import opened GroupBy
  import opened Hover

  /** The rows the sunburst counts, medal or not. */
  function SunburstMask(year: int, team: Option<string>, sport: Option<string>): Mask {
    Both(Both(Both(YearIs(year), SeasonIs(Summer)), TeamFilter(team)), SportFilter(sport))
  }

  /** The rows of the year's Summer Games, then the team filter, then the sport filter, each when given. */
  function SunburstRows(df: seq<Record>, year: int, team: Option<string>, sport: Option<string>): (rows: seq<Record>)
    ensures rows == Where(df, SunburstMask(year, team, sport))
    ensures forall r :: r in rows <==>
      && r in df
      && r.year == year
      && r.season == Summer
      && (Given(team) ==> r.team == team.value)
      && (Given(sport) ==> r.sport == sport.value)
  {
    var games := Both(YearIs(year), SeasonIs(Summer));
    var inYear := Where(df, games);
    var byTeam := if Given(team) then Where(inYear, TeamIs(team.value)) else inYear;
    var bySport := if Given(sport) then Where(byTeam, SportIs(sport.value)) else byTeam;
    WhereThen(df, games, TeamFilter(team));
    WhereThen(df, Both(games, TeamFilter(team)), SportFilter(sport));
    forall r
      ensures Holds(SunburstMask(year, team, sport), r) <==>
        && r.year == year
        && r.season == Summer
        && (Given(team) ==> r.team == team.value)
        && (Given(sport) ==> r.sport == sport.value)
    {
      SunburstMaskMeans(year, team, sport, r);
    }
    bySport
  }

  lemma SunburstMaskMeans(year: int, team: Option<string>, sport: Option<string>, r: Record)
    ensures Holds(SunburstMask(year, team, sport), r) <==>
      && r.year == year
      && r.season == Summer
      && (Given(team) ==> r.team == team.value)
      && (Given(sport) ==> r.sport == sport.value)
  {
    assert Holds(Both(YearIs(year), SeasonIs(Summer)), r) <==> r.year == year && r.season == Summer;
    assert Holds(TeamFilter(team), r) <==> (Given(team) ==> r.team == team.value);
    assert Holds(SportFilter(sport), r) <==> (Given(sport) ==> r.sport == sport.value);
  }

  /**
   * `gs` holds one group per (sex, medal) pair won by a row selected by
   * `m`, in key order, sized by the number of such rows; the groups
   * together count the selected rows that carry a medal.
   */
  ghost predicate CountsMedals(df: seq<Record>, m: Mask, gs: seq<Group>) {
    && (forall i, j :: 0 <= i < j < |gs| ==> KeyLt(gs[i].key, gs[j].key))
    && (forall g :: g in gs ==>
          && g.key.SexMedal?
          && g.size > 0
          && g.size == CountWhere(df, Both(m, Both(SexIs(g.key.sex), MedalIs(g.key.medal)))))
    && (forall s, md :: CountWhere(df, Both(m, Both(SexIs(s), MedalIs(md)))) > 0 ==> HasKey(gs, SexMedal(s, md)))
    && SumSizes(gs) == CountWhere(df, Both(m, HasMedal))
  }

  /** `groupby(['sex', 'medal']).size()` of the narrowed rows: at most the six (sex, medal) pairs. */
  function MedalCounts(df: seq<Record>, year: int, team: Option<string>, sport: Option<string>): (counts: seq<Group>)
    ensures CountsMedals(df, SunburstMask(year, team, sport), counts)
    ensures SumSizes(counts) <= CountWhere(df, SunburstMask(year, team, sport))
    ensures |counts| <= 6
  {
    var counts := GroupCount(SunburstRows(df, year, team, sport), SexMedalCols);
    MedalGroups(df, SunburstMask(year, team, sport), counts);
    counts
  }

  lemma MedalGroups(df: seq<Record>, m: Mask, counts: seq<Group>)
    requires counts == GroupCount(Where(df, m), SexMedalCols)
    ensures CountsMedals(df, m, counts)
    ensures SumSizes(counts) <= CountWhere(df, m)
    ensures |counts| <= 6
  {
    SexMedalSizes(df, m, counts);
    SexMedalCover(df, m, counts);
    SexMedalTotal(df, m, counts);
    assert forall i, j :: 0 <= i < j < |counts| ==> KeyLt(counts[i].key, counts[j].key);
    assert forall g :: g in counts ==> g.key.SexMedal? && 0 <= Slot(g.key) < 6;
    AtMostSixGroups(counts, 0);
  }

  lemma SexMedalSizes(df: seq<Record>, m: Mask, counts: seq<Group>)
    requires counts == GroupCount(Where(df, m), SexMedalCols)
    ensures forall g :: g in counts ==>
      && g.key.SexMedal?
      && g.size > 0
      && g.size == CountWhere(df, Both(m, Both(SexIs(g.key.sex), MedalIs(g.key.medal))))
  {
    GroupCountOfSelection(df, m, SexMedalCols);
    forall g | g in counts
      ensures g.key.SexMedal? && g.size > 0
      ensures g.size == CountWhere(df, Both(m, Both(SexIs(g.key.sex), MedalIs(g.key.medal))))
    {
      var i :| 0 <= i < |counts| && counts[i] == g;
      assert Fits(SexMedalCols, g.key);
      assert KeyMask(g.key) == Both(SexIs(g.key.sex), MedalIs(g.key.medal));
    }
  }

  lemma SexMedalCover(df: seq<Record>, m: Mask, counts: seq<Group>)
    requires counts == GroupCount(Where(df, m), SexMedalCols)
    ensures forall s, md :: CountWhere(df, Both(m, Both(SexIs(s), MedalIs(md)))) > 0 ==>
      HasKey(counts, SexMedal(s, md))
  {
    GroupCountOfSelection(df, m, SexMedalCols);
    forall s, md | CountWhere(df, Both(m, Both(SexIs(s), MedalIs(md)))) > 0
      ensures HasKey(counts, SexMedal(s, md))
    {
      assert KeyMask(SexMedal(s, md)) == Both(SexIs(s), MedalIs(md));
    }
  }

  lemma SexMedalTotal(df: seq<Record>, m: Mask, counts: seq<Group>)
    requires counts == GroupCount(Where(df, m), SexMedalCols)
    ensures SumSizes(counts) == CountWhere(df, Both(m, HasMedal))
    ensures SumSizes(counts) <= CountWhere(df, m)
  {
    assert SumSizes(counts) == CountWhere(df, Both(m, KeyedMask(SexMedalCols))) by {
      GroupCountOfSelection(df, m, SexMedalCols);
    }
    assert KeyedMask(SexMedalCols) == HasMedal;
    CountWhereBothLe(df, m, HasMedal);
  }

  /** The position of a (sex, medal) key among the six, in the order `groupby` sorts them. */
  function Slot(k: GroupKey): (n: nat)
    ensures n < 6
  {
    match k
    case SexMedal(s, md) =>
      (if s == F then 0 else 3) + (match md case Bronze => 0 case Gold => 1 case Silver => 2)
    case _ => 0
  }

  lemma SlotOrder(a: GroupKey, b: GroupKey)
    requires a.SexMedal? && b.SexMedal? && KeyLt(a, b)
    ensures Slot(a) < Slot(b) < 6
  {
    SexOrderFacts();
    MedalOrderFacts();
  }

  lemma {:induction false} AtMostSixGroups(gs: seq<Group>, lo: nat)
    requires forall i, j :: 0 <= i < j < |gs| ==> KeyLt(gs[i].key, gs[j].key)
    requires lo <= 6
    requires forall g :: g in gs ==> g.key.SexMedal? && lo <= Slot(g.key) < 6
    ensures |gs| + lo <= 6
  {
    if |gs| > 0 {
      assert gs[0] in gs;
      forall g | g in gs[1..]
        ensures g.key.SexMedal? && Slot(gs[0].key) + 1 <= Slot(g.key) < 6
      {
        var k :| 0 <= k < |gs[1..]| && gs[1..][k] == g;
        assert gs[k + 1] == g && g in gs;
        SlotOrder(gs[0].key, g.key);
      }
      AtMostSixGroups(gs[1..], Slot(gs[0].key) + 1);
    }
  }

  /** `update_sunburst(hover_data, selected_year, selected_sport)`: the medal counts, or the lookup's exception. */
  function UpdateSunburst(df: seq<Record>, h: HoverData, year: int, sport: Option<string>)
    : (r: Result<seq<Group>, HoverError>)
    ensures r == Err(KeyError) <==> h.Some? && |h.value| > 0 && PointsKey !in h.value
    ensures r == Err(IndexError) <==> h.Some? && PointsKey in h.value && |h.value[PointsKey]| == 0
    ensures r.Ok? ==>
      && SunburstTeam(h).Ok?
      && CountsMedals(df, SunburstMask(year, SunburstTeam(h).value, sport), r.value)
      && |r.value| <= 6
  {
    var team :- SunburstTeam(h);
    Ok(MedalCounts(df, year, team, sport))
  }
}
