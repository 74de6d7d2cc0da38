/**
 * The control ranges derived once at start-up from the Summer rows: the
 * sport dropdown's options, the year slider's marks, and the slider's
 * minimum, maximum and starting value.
 */
module Controls {
  import opened Wrappers
  import opened Sequences
  import opened Decimal
  import opened Table

  /** `df[df['season'] == 'Summer']`. */
  function SummerData(df: seq<Record>): seq<Record> {
    Where(df, SeasonIs(Summer))
  }

  /** Some Summer row of the table has year `y`. */
  predicate IsSummerYear(df: seq<Record>, y: int) {
    CountWhere(df, Both(SeasonIs(Summer), YearIs(y))) > 0
  }

  /** Some Summer row of the table has sport `s`. */
  predicate IsSummerSport(df: seq<Record>, s: string) {
    CountWhere(df, Both(SeasonIs(Summer), SportIs(s))) > 0
  }

  function YearColumn(rows: seq<Record>): (ys: seq<int>)
    ensures |ys| == |rows|
  {
    seq(|rows|, i requires 0 <= i < |rows| => rows[i].year)
  }

  function SportColumn(rows: seq<Record>): (ss: seq<string>)
    ensures |ss| == |rows|
  {
    seq(|rows|, i requires 0 <= i < |rows| => rows[i].sport)
  }

  lemma InYearColumn(df: seq<Record>, y: int)
    ensures y in YearColumn(SummerData(df)) <==> IsSummerYear(df, y)
  {
    var rows := SummerData(df);
    CountWhereBoth(df, SeasonIs(Summer), YearIs(y));
    CountWherePositive(rows, YearIs(y));
    if y in YearColumn(rows) {
      var i :| 0 <= i < |rows| && YearColumn(rows)[i] == y;
      assert Holds(YearIs(y), rows[i]);
    }
    if IsSummerYear(df, y) {
      var i :| 0 <= i < |rows| && Holds(YearIs(y), rows[i]);
      assert YearColumn(rows)[i] == y;
    }
  }

  lemma InSportColumn(df: seq<Record>, s: string)
    ensures s in SportColumn(SummerData(df)) <==> IsSummerSport(df, s)
  {
    var rows := SummerData(df);
    CountWhereBoth(df, SeasonIs(Summer), SportIs(s));
    CountWherePositive(rows, SportIs(s));
    if s in SportColumn(rows) {
      var i :| 0 <= i < |rows| && SportColumn(rows)[i] == s;
      assert Holds(SportIs(s), rows[i]);
    }
    if IsSummerSport(df, s) {
      var i :| 0 <= i < |rows| && Holds(SportIs(s), rows[i]);
      assert SportColumn(rows)[i] == s;
    }
  }

  /** `summer_data['year'].unique()`: each Summer year once, in order of first appearance. */
  function ValidYears(df: seq<Record>): (ys: seq<int>)
    ensures Distinct(ys)
    ensures forall y :: y in ys <==> IsSummerYear(df, y)
    ensures |ys| == 0 <==> CountWhere(df, SeasonIs(Summer)) == 0
  {
    var column := YearColumn(SummerData(df));
    forall y | true
      ensures y in column <==> IsSummerYear(df, y)
    {
      InYearColumn(df, y);
    }
    var ys := Unique(column);
    assert |column| > 0 ==> column[0] in ys;
    ys
  }

  /** `summer_data['sport'].unique()`: each Summer sport once, in order of first appearance. */
  function ValidSports(df: seq<Record>): (ss: seq<string>)
    ensures Distinct(ss)
    ensures forall s :: s in ss <==> IsSummerSport(df, s)
    ensures forall s :: s in ss ==> s in SportColumn(SummerData(df))
    ensures forall i, j :: 0 <= i < j < |ss| ==>
      IndexOf(SportColumn(SummerData(df)), ss[i]) < IndexOf(SportColumn(SummerData(df)), ss[j])
  {
    var column := SportColumn(SummerData(df));
    forall s | true
      ensures s in column <==> IsSummerSport(df, s)
    {
      InSportColumn(df, s);
    }
    Unique(column)
  }

  datatype DropdownOption = DropdownOption(labelText: string, value: string)

  /** The sport dropdown's options: one per Summer sport, labelled by the sport itself. */
  function SportsOptions(df: seq<Record>): (opts: seq<DropdownOption>)
    ensures |opts| == |ValidSports(df)|
    ensures forall i :: 0 <= i < |opts| ==> opts[i].value == ValidSports(df)[i]
    ensures forall i :: 0 <= i < |opts| ==> opts[i].labelText == opts[i].value
    ensures forall i, j :: 0 <= i < j < |opts| ==> opts[i].value != opts[j].value
    ensures forall s :: IsSummerSport(df, s) <==> exists i :: 0 <= i < |opts| && opts[i].value == s
  {
    var sports := ValidSports(df);
    var opts := seq(|sports|, i requires 0 <= i < |sports| => DropdownOption(sports[i], sports[i]));
    assert forall s :: s in sports ==> exists i :: 0 <= i < |sports| && sports[i] == s && opts[i].value == s;
    opts
  }

  /** `sorted(valid_years)`. */
  function SortedYears(df: seq<Record>): (ys: seq<int>)
    ensures forall i, j :: 0 <= i < j < |ys| ==> ys[i] < ys[j]
    ensures forall y :: y in ys <==> IsSummerYear(df, y)
  {
    var valid := ValidYears(df);
    IntLtIsStrictTotal();
    SortSorted(valid, IntLt);
    var ys := Sort(valid, IntLt);
    assert forall y :: y in ys <==> y in multiset(valid);
    ys
  }

  /**
   * The slider marks `{str(year): str(year) for year in sorted(valid_years)}`,
   * in insertion order. Each mark labels a Summer year with its own decimal
   * string, every Summer year has a mark, and the marks run in strictly
   * ascending year order, so no key repeats.
   */
  function YearMarks(df: seq<Record>): (marks: seq<(string, string)>)
    ensures forall i :: 0 <= i < |marks| ==>
      && marks[i].0 == marks[i].1
      && ParseInt(marks[i].0).Some?
      && IsSummerYear(df, ParseInt(marks[i].0).value)
    ensures forall y {:trigger IntToString(y)} :: IsSummerYear(df, y) ==> exists i :: 0 <= i < |marks| && marks[i].0 == IntToString(y)
    ensures forall i, j :: 0 <= i < j < |marks| ==> ParseInt(marks[i].0).value < ParseInt(marks[j].0).value
    ensures forall i, j :: 0 <= i < j < |marks| ==> marks[i].0 != marks[j].0
  {
    var ys := SortedYears(df);
    var marks := seq(|ys|, i requires 0 <= i < |ys| => (IntToString(ys[i]), IntToString(ys[i])));
    MarksParse(ys, marks);
    MarksCover(df, ys, marks);
    marks
  }

  lemma MarksCover(df: seq<Record>, ys: seq<int>, marks: seq<(string, string)>)
    requires |marks| == |ys|
    requires forall y :: y in ys <==> IsSummerYear(df, y)
    requires forall i :: 0 <= i < |ys| ==> marks[i].0 == IntToString(ys[i]) && ParseInt(marks[i].0) == Some(ys[i])
    ensures forall i :: 0 <= i < |marks| ==> ParseInt(marks[i].0).Some? && IsSummerYear(df, ParseInt(marks[i].0).value)
    ensures forall y {:trigger IntToString(y)} :: IsSummerYear(df, y) ==> exists i :: 0 <= i < |marks| && marks[i].0 == IntToString(y)
  {
    forall i | 0 <= i < |marks|
      ensures IsSummerYear(df, ParseInt(marks[i].0).value)
    {
      assert ys[i] in ys;
    }
    forall y | IsSummerYear(df, y)
      ensures exists i :: 0 <= i < |marks| && marks[i].0 == IntToString(y)
    {
      var i :| 0 <= i < |ys| && ys[i] == y;
      assert marks[i].0 == IntToString(y);
    }
  }

  lemma MarksParse(ys: seq<int>, marks: seq<(string, string)>)
    requires |marks| == |ys|
    requires forall i :: 0 <= i < |ys| ==> marks[i] == (IntToString(ys[i]), IntToString(ys[i]))
    requires forall i, j :: 0 <= i < j < |ys| ==> ys[i] < ys[j]
    ensures forall i :: 0 <= i < |marks| ==> marks[i].0 == marks[i].1 && ParseInt(marks[i].0) == Some(ys[i])
    ensures forall i, j :: 0 <= i < j < |marks| ==> ParseInt(marks[i].0).value < ParseInt(marks[j].0).value
    ensures forall i, j :: 0 <= i < j < |marks| ==> marks[i].0 != marks[j].0
  {
    forall i | 0 <= i < |marks|
      ensures ParseInt(marks[i].0) == Some(ys[i])
    {
      IntRoundTrip(ys[i]);
    }
  }

  datatype Slider = Slider(min: int, max: int, step: int, value: int, marks: seq<(string, string)>)

  /** `min()`/`max()` of an empty sequence raise ValueError. */
  datatype ControlError = EmptySequence

  /** The year slider: from the earliest to the latest Summer year, starting at the earliest. */
  function YearSlider(df: seq<Record>): (r: Result<Slider, ControlError>)
    ensures r.Err? <==> CountWhere(df, SeasonIs(Summer)) == 0
    ensures r.Ok? ==>
      && r.value.value == r.value.min <= r.value.max
      && r.value.step == 1
      && IsSummerYear(df, r.value.min) && IsSummerYear(df, r.value.max)
      && forall y :: IsSummerYear(df, y) ==> r.value.min <= y <= r.value.max
    ensures r.Ok? ==> r.value.marks == YearMarks(df)
  {
    var valid := ValidYears(df);
    if |valid| == 0 then Err(EmptySequence)
    else Ok(Slider(Min(valid), Max(valid), 1, Min(valid), YearMarks(df)))
  }

  /** The slider's ends carry the first and the last mark. */
  lemma SliderEndsAreMarks(df: seq<Record>)
    requires YearSlider(df).Ok?
    ensures |YearMarks(df)| > 0
    ensures YearMarks(df)[0].0 == IntToString(YearSlider(df).value.min)
    ensures YearMarks(df)[|YearMarks(df)| - 1].0 == IntToString(YearSlider(df).value.max)
  {
    var marks := YearMarks(df);
    var s := YearSlider(df).value;
    var i :| 0 <= i < |marks| && marks[i].0 == IntToString(s.min);
    var j :| 0 <= j < |marks| && marks[j].0 == IntToString(s.max);
    var last := |marks| - 1;
    IntRoundTrip(s.min);
    IntRoundTrip(s.max);
    assert ParseInt(marks[i].0).value == s.min && ParseInt(marks[j].0).value == s.max;
    assert s.min <= ParseInt(marks[0].0).value by {
      assert IsSummerYear(df, ParseInt(marks[0].0).value);
    }
    assert ParseInt(marks[last].0).value <= s.max by {
      assert IsSummerYear(df, ParseInt(marks[last].0).value);
    }
    assert i == 0;
    assert j == last;
  }
}
