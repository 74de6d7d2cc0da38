/**
 * The data side of `update_line_chart`: the Summer rows narrowed to the
 * hovered team and the chosen sport (the slider's year does not narrow
 * them), counted per year and sex, and split into one line per sex.
 */
module LineChart {
  import opened Wrappers
  import opened Table
  import opened GroupBy
  import opened Hover

  /** The rows the line chart counts. */
  function LineMask(team: Option<string>, sport: Option<string>): Mask {
    Both(Both(SeasonIs(Summer), TeamFilter(team)), SportFilter(sport))
  }

  /** The Summer rows, then the team filter when a team is hovered, then the sport filter when a sport is chosen. */
  function LineRows(df: seq<Record>, team: Option<string>, sport: Option<string>): (rows: seq<Record>)
    ensures rows == Where(df, LineMask(team, sport))
    ensures forall r :: r in rows <==>
      && r in df
      && r.season == Summer
      && (Given(team) ==> r.team == team.value)
      && (Given(sport) ==> r.sport == sport.value)
  {
    var summer := Where(df, SeasonIs(Summer));
    var byTeam := if Given(team) then Where(summer, TeamIs(team.value)) else summer;
    var bySport := if Given(sport) then Where(byTeam, SportIs(sport.value)) else byTeam;
    WhereThen(df, SeasonIs(Summer), TeamFilter(team));
    WhereThen(df, Both(SeasonIs(Summer), TeamFilter(team)), SportFilter(sport));
    bySport
  }

  /** `groupby(['year', 'sex']).size()` of the narrowed rows. */
  function AthleteCounts(df: seq<Record>, team: Option<string>, sport: Option<string>): (counts: seq<Group>)
    ensures forall i, j :: 0 <= i < j < |counts| ==> KeyLt(counts[i].key, counts[j].key)
    ensures forall g :: g in counts ==>
      && g.key.YearSex?
      && g.size > 0
      && g.size == CountWhere(df, Both(LineMask(team, sport), Both(YearIs(g.key.year), SexIs(g.key.sex))))
    ensures forall y, s :: CountWhere(df, Both(LineMask(team, sport), Both(YearIs(y), SexIs(s)))) > 0 ==>
      HasKey(counts, YearSex(y, s))
    ensures SumSizes(counts) == CountWhere(df, LineMask(team, sport))
  {
    var counts := GroupCount(LineRows(df, team, sport), YearSexCols);
    YearSexCounts(df, LineMask(team, sport), counts);
    counts
  }

  lemma YearSexCounts(df: seq<Record>, m: Mask, counts: seq<Group>)
    requires counts == GroupCount(Where(df, m), YearSexCols)
    ensures forall g :: g in counts ==>
      && g.key.YearSex?
      && g.size > 0
      && g.size == CountWhere(df, Both(m, Both(YearIs(g.key.year), SexIs(g.key.sex))))
    ensures forall y, s :: CountWhere(df, Both(m, Both(YearIs(y), SexIs(s)))) > 0 ==> HasKey(counts, YearSex(y, s))
    ensures SumSizes(counts) == CountWhere(df, m)
  {
    YearSexSizes(df, m, counts);
    YearSexCover(df, m, counts);
    YearSexTotal(df, m, counts);
  }

  lemma YearSexTotal(df: seq<Record>, m: Mask, counts: seq<Group>)
    requires counts == GroupCount(Where(df, m), YearSexCols)
    ensures SumSizes(counts) == CountWhere(df, m)
  {
    assert SumSizes(counts) == CountWhere(df, Both(m, KeyedMask(YearSexCols))) by {
      GroupCountOfSelection(df, m, YearSexCols);
    }
    assert KeyedMask(YearSexCols) == All;
    CountWhereAll(df, m);
  }

  lemma YearSexSizes(df: seq<Record>, m: Mask, counts: seq<Group>)
    requires counts == GroupCount(Where(df, m), YearSexCols)
    ensures forall g :: g in counts ==>
      && g.key.YearSex?
      && g.size > 0
      && g.size == CountWhere(df, Both(m, Both(YearIs(g.key.year), SexIs(g.key.sex))))
  {
    GroupCountOfSelection(df, m, YearSexCols);
    forall g | g in counts
      ensures g.key.YearSex? && g.size > 0
    {
      var i :| 0 <= i < |counts| && counts[i] == g;
    }
  }

  lemma YearSexCover(df: seq<Record>, m: Mask, counts: seq<Group>)
    requires counts == GroupCount(Where(df, m), YearSexCols)
    ensures forall y, s :: CountWhere(df, Both(m, Both(YearIs(y), SexIs(s)))) > 0 ==> HasKey(counts, YearSex(y, s))
  {
    GroupCountOfSelection(df, m, YearSexCols);
    forall y, s | CountWhere(df, Both(m, Both(YearIs(y), SexIs(s)))) > 0
      ensures HasKey(counts, YearSex(y, s))
    {
      assert KeyMask(YearSex(y, s)) == Both(YearIs(y), SexIs(s));
    }
  }

  /** The rows of `athlete_counts` whose sex is `s`, in their order. */
  function SexGroups(gs: seq<Group>, s: Sex): (r: seq<Group>)
    ensures |r| <= |gs|
    ensures forall i :: 0 <= i < |r| ==> r[i].key.YearSex? && r[i].key.sex == s
  {
    if |gs| == 0 then []
    else (if gs[0].key.YearSex? && gs[0].key.sex == s then [gs[0]] else []) + SexGroups(gs[1..], s)
  }

  /** The kept rows are exactly the rows of sex `s`. */
  lemma {:induction false} SexGroupsMembers(gs: seq<Group>, s: Sex)
    ensures forall g :: g in SexGroups(gs, s) <==> g in gs && g.key.YearSex? && g.key.sex == s
  {
    if |gs| > 0 {
      SexGroupsMembers(gs[1..], s);
      assert gs == [gs[0]] + gs[1..];
    }
  }

  /** Within `gs`, the groups of sex `s` come in strictly ascending year order. */
  predicate YearsAscend(gs: seq<Group>, s: Sex) {
    forall i, j :: 0 <= i < j < |gs| && gs[i].key.YearSex? && gs[i].key.sex == s && gs[j].key.YearSex? && gs[j].key.sex == s ==>
      gs[i].key.year < gs[j].key.year
  }

  lemma KeyOrderAscends(gs: seq<Group>, s: Sex)
    requires forall i, j :: 0 <= i < j < |gs| ==> KeyLt(gs[i].key, gs[j].key)
    ensures YearsAscend(gs, s)
  {
    SexOrderFacts();
  }

  lemma {:induction false} SexGroupsAscend(gs: seq<Group>, s: Sex)
    requires YearsAscend(gs, s)
    ensures YearsAscend(SexGroups(gs, s), s)
  {
    if |gs| > 0 {
      var rest := SexGroups(gs[1..], s);
      YearsAscendTail(gs, s);
      SexGroupsAscend(gs[1..], s);
      if gs[0].key.YearSex? && gs[0].key.sex == s {
        var r := [gs[0]] + rest;
        assert SexGroups(gs, s) == r;
        RestAbove(gs, s);
        forall i, j | 0 <= i < j < |r| && r[i].key.YearSex? && r[i].key.sex == s && r[j].key.YearSex? && r[j].key.sex == s
          ensures r[i].key.year < r[j].key.year
        {
          assert r[j] == rest[j - 1];
          if i == 0 {
            assert rest[j - 1] in rest;
          } else {
            assert r[i] == rest[i - 1];
            assert YearsAscend(rest, s);
          }
        }
        assert YearsAscend(r, s);
      } else {
        assert SexGroups(gs, s) == rest;
      }
    }
  }

  lemma YearsAscendTail(gs: seq<Group>, s: Sex)
    requires |gs| > 0 && YearsAscend(gs, s)
    ensures YearsAscend(gs[1..], s)
  {
    forall i, j | 0 <= i < j < |gs[1..]|
      ensures gs[1..][i] == gs[i + 1] && gs[1..][j] == gs[j + 1]
    {
    }
  }

  lemma RestAbove(gs: seq<Group>, s: Sex)
    requires |gs| > 0 && YearsAscend(gs, s) && gs[0].key.YearSex? && gs[0].key.sex == s
    ensures forall g :: g in SexGroups(gs[1..], s) ==> g.key.YearSex? && gs[0].key.year < g.key.year
  {
    SexGroupsMembers(gs[1..], s);
    forall g | g in SexGroups(gs[1..], s)
      ensures g.key.YearSex? && gs[0].key.year < g.key.year
    {
      var k :| 0 <= k < |gs[1..]| && gs[1..][k] == g;
      assert gs[k + 1] == g;
    }
  }

  lemma {:induction false} SexGroupsPartition(gs: seq<Group>)
    requires forall g :: g in gs ==> g.key.YearSex?
    ensures SumSizes(SexGroups(gs, F)) + SumSizes(SexGroups(gs, M)) == SumSizes(gs)
  {
    if |gs| > 0 {
      SexGroupsPartition(gs[1..]);
      var head := [gs[0]];
      assert gs[0] in gs;
      if gs[0].key.sex == F {
        assert SexGroups(gs, F) == head + SexGroups(gs[1..], F);
        assert (head + SexGroups(gs[1..], F))[1..] == SexGroups(gs[1..], F);
        assert SexGroups(gs, M) == SexGroups(gs[1..], M);
      } else {
        assert SexGroups(gs, M) == head + SexGroups(gs[1..], M);
        assert (head + SexGroups(gs[1..], M))[1..] == SexGroups(gs[1..], M);
        assert SexGroups(gs, F) == SexGroups(gs[1..], F);
      }
    }
  }

  /** One `go.Scatter` line: its legend name and its x (year) and y (count) values. */
  datatype Trace = Trace(name: string, years: seq<int>, counts: seq<nat>)

  function Total(xs: seq<nat>): nat {
    if |xs| == 0 then 0 else xs[0] + Total(xs[1..])
  }

  function Years(gs: seq<Group>): (ys: seq<int>)
    requires forall g :: g in gs ==> g.key.YearSex?
    ensures |ys| == |gs|
    ensures forall i :: 0 <= i < |gs| ==> ys[i] == gs[i].key.year
  {
    if |gs| == 0 then [] else [gs[0].key.year] + Years(gs[1..])
  }

  function Sizes(gs: seq<Group>): (ns: seq<nat>)
    ensures |ns| == |gs|
    ensures forall i :: 0 <= i < |gs| ==> ns[i] == gs[i].size
    ensures Total(ns) == SumSizes(gs)
  {
    if |gs| == 0 then [] else [gs[0].size] + Sizes(gs[1..])
  }

  /** The line of sex `s`: `athlete_counts[athlete_counts['sex'] == s]`, named 'Female' or 'Male'. */
  function GenderTrace(counts: seq<Group>, s: Sex): (t: Trace)
    ensures t.name == if s == F then "Female" else "Male"
    ensures |t.years| == |t.counts|
    ensures forall i :: 0 <= i < |t.years| ==> Group(YearSex(t.years[i], s), t.counts[i]) in counts
    ensures forall y, n :: Group(YearSex(y, s), n) in counts ==>
      exists i :: 0 <= i < |t.years| && t.years[i] == y && t.counts[i] == n
    ensures Total(t.counts) == SumSizes(SexGroups(counts, s))
  {
    var gs := SexGroups(counts, s);
    SexGroupsMembers(counts, s);
    var t := Trace(if s == F then "Female" else "Male", Years(gs), Sizes(gs));
    PointsOfGroups(counts, s, gs, t.years, t.counts);
    t
  }

  lemma PointsOfGroups(counts: seq<Group>, s: Sex, gs: seq<Group>, years: seq<int>, sizes: seq<nat>)
    requires forall g :: g in gs <==> g in counts && g.key.YearSex? && g.key.sex == s
    requires |years| == |sizes| == |gs|
    requires forall i :: 0 <= i < |gs| ==> years[i] == gs[i].key.year && sizes[i] == gs[i].size
    ensures forall i :: 0 <= i < |years| ==> Group(YearSex(years[i], s), sizes[i]) in counts
    ensures forall y, n :: Group(YearSex(y, s), n) in counts ==>
      exists i :: 0 <= i < |years| && years[i] == y && sizes[i] == n
  {
    forall i | 0 <= i < |years|
      ensures Group(YearSex(years[i], s), sizes[i]) in counts
    {
      assert gs[i] in gs;
      assert gs[i] == Group(YearSex(years[i], s), sizes[i]);
    }
    forall y, n | Group(YearSex(y, s), n) in counts
      ensures exists i :: 0 <= i < |years| && years[i] == y && sizes[i] == n
    {
      var i :| 0 <= i < |gs| && gs[i] == Group(YearSex(y, s), n);
      assert years[i] == y && sizes[i] == n;
    }
  }

  /**
   * Line `t` plots, for sex `s`, every year in which some row selected by
   * `m` has that sex, in ascending year order, at the number of such rows.
   */
  ghost predicate CountsLine(df: seq<Record>, m: Mask, s: Sex, t: Trace) {
    && |t.years| == |t.counts|
    && (forall i, j :: 0 <= i < j < |t.years| ==> t.years[i] < t.years[j])
    && (forall i :: 0 <= i < |t.years| ==>
          t.counts[i] == CountWhere(df, Both(m, Both(YearIs(t.years[i]), SexIs(s)))) && t.counts[i] > 0)
    && (forall y :: CountWhere(df, Both(m, Both(YearIs(y), SexIs(s)))) > 0 ==> y in t.years)
  }

  lemma LineOfSex(df: seq<Record>, team: Option<string>, sport: Option<string>, s: Sex)
    ensures CountsLine(df, LineMask(team, sport), s, GenderTrace(AthleteCounts(df, team, sport), s))
  {
    var counts := AthleteCounts(df, team, sport);
    TraceAscending(counts, s);
    TracePoints(df, LineMask(team, sport), counts, s);
  }

  lemma TracePoints(df: seq<Record>, m: Mask, counts: seq<Group>, s: Sex)
    requires forall g :: g in counts ==>
      && g.key.YearSex?
      && g.size > 0
      && g.size == CountWhere(df, Both(m, Both(YearIs(g.key.year), SexIs(g.key.sex))))
    requires forall y, x :: CountWhere(df, Both(m, Both(YearIs(y), SexIs(x)))) > 0 ==> HasKey(counts, YearSex(y, x))
    ensures forall i :: 0 <= i < |GenderTrace(counts, s).years| ==>
      && GenderTrace(counts, s).counts[i]
         == CountWhere(df, Both(m, Both(YearIs(GenderTrace(counts, s).years[i]), SexIs(s))))
      && GenderTrace(counts, s).counts[i] > 0
    ensures forall y :: CountWhere(df, Both(m, Both(YearIs(y), SexIs(s)))) > 0 ==> y in GenderTrace(counts, s).years
  {
    var t := GenderTrace(counts, s);
    forall i | 0 <= i < |t.years|
      ensures t.counts[i] == CountWhere(df, Both(m, Both(YearIs(t.years[i]), SexIs(s)))) && t.counts[i] > 0
    {
      assert Group(YearSex(t.years[i], s), t.counts[i]) in counts;
    }
    forall y | CountWhere(df, Both(m, Both(YearIs(y), SexIs(s)))) > 0
      ensures y in t.years
    {
      var k :| 0 <= k < |counts| && counts[k].key == YearSex(y, s);
      assert counts[k] in counts;
      assert Group(YearSex(y, s), counts[k].size) == counts[k];
    }
  }

  /** A line drawn from groups in key order visits its years in ascending order. */
  lemma TraceAscending(counts: seq<Group>, s: Sex)
    requires forall i, j :: 0 <= i < j < |counts| ==> KeyLt(counts[i].key, counts[j].key)
    ensures forall i, j :: 0 <= i < j < |GenderTrace(counts, s).years| ==>
      GenderTrace(counts, s).years[i] < GenderTrace(counts, s).years[j]
  {
    var gs := SexGroups(counts, s);
    var t := GenderTrace(counts, s);
    SexGroupsMembers(counts, s);
    KeyOrderAscends(counts, s);
    SexGroupsAscend(counts, s);
    assert t.years == Years(gs);
    forall i, j | 0 <= i < j < |t.years|
      ensures t.years[i] < t.years[j]
    {
      assert gs[i] in gs && gs[j] in gs;
      assert t.years[i] == gs[i].key.year && t.years[j] == gs[j].key.year;
    }
  }

  /** The figure's data: the female line, then the male line, and the dashed marker at the slider's year. */
  datatype LineView = LineView(traces: seq<Trace>, markedYear: int)

  /**
   * `update_line_chart(hover_data, selected_year, selected_sport)`. The two
   * lines together count every narrowed row once.
   */
  function UpdateLineChart(df: seq<Record>, h: HoverData, selectedYear: int, sport: Option<string>)
    : (r: Result<LineView, HoverError>)
    ensures r.Err? <==> h.Some? && PointsKey in h.value && |h.value[PointsKey]| == 0
    ensures r.Ok? ==>
      && |r.value.traces| == 2
      && r.value.traces[0].name == "Female" && r.value.traces[1].name == "Male"
      && r.value.markedYear == selectedYear
      && CountsLine(df, LineMask(LineChartTeam(h).value, sport), F, r.value.traces[0])
      && CountsLine(df, LineMask(LineChartTeam(h).value, sport), M, r.value.traces[1])
      && Total(r.value.traces[0].counts) + Total(r.value.traces[1].counts)
         == CountWhere(df, LineMask(LineChartTeam(h).value, sport))
  {
    var team :- LineChartTeam(h);
    var counts := AthleteCounts(df, team, sport);
    LineOfSex(df, team, sport, F);
    LineOfSex(df, team, sport, M);
    SexGroupsPartition(counts);
    Ok(LineView([GenderTrace(counts, F), GenderTrace(counts, M)], selectedYear))
  }
}
