/**
 * The athlete table and the boolean-mask row selection the dashboard's
 * callbacks are built from. The table is an immutable sequence of records
 * passed in explicitly; `Where(df, m)` is pandas' `df[m]`, which keeps the
 * rows satisfying the mask in their original order.
 */
module Table {
  import opened Wrappers

  datatype Sex = F | M

  datatype Medal = Gold | Silver | Bronze

  /** One athlete-event row of the CSV; `medal` is missing for non-medallists. */
  datatype Record = Record(
    year: int,
    season: string,
    sport: string,
    team: string,
    sex: Sex,
    medal: Option<Medal>)

  const Summer: string := "Summer"

  /** Python truthiness of an optional string (`if sport:`): present and non-empty. */
  predicate Given(o: Option<string>) {
    o.Some? && o.value != ""
  }

  /** A row predicate built from column comparisons, as in `df['year'] == year`. */
  datatype Mask =
    | All
    | SeasonIs(season: string)
    | YearIs(year: int)
    | TeamIs(team: string)
    | SportIs(sport: string)
    | SexIs(sex: Sex)
    | MedalIs(medal: Medal)
    | HasMedal
    | Both(left: Mask, right: Mask)

  predicate Holds(m: Mask, r: Record) {
    match m
    case All => true
    case SeasonIs(s) => r.season == s
    case YearIs(y) => r.year == y
    case TeamIs(t) => r.team == t
    case SportIs(s) => r.sport == s
    case SexIs(x) => r.sex == x
    case MedalIs(md) => r.medal == Some(md)
    case HasMedal => r.medal.Some?
    case Both(a, b) => Holds(a, r) && Holds(b, r)
  }

  /** The number of rows of `s` satisfying `m`. */
  function CountWhere(s: seq<Record>, m: Mask): (n: nat)
    ensures n <= |s|
  {
    if |s| == 0 then 0
    else (if Holds(m, s[0]) then 1 else 0) + CountWhere(s[1..], m)
  }

  /** `df[m]`: the rows satisfying `m`, each with its multiplicity, in order. */
  function Where(s: seq<Record>, m: Mask): (r: seq<Record>)
    ensures |r| == CountWhere(s, m)
    ensures forall x :: multiset(r)[x] == if Holds(m, x) then multiset(s)[x] else 0
    ensures forall x :: x in r <==> x in s && Holds(m, x)
  {
    if |s| == 0 then []
    else
      assert s == [s[0]] + s[1..];
      if Holds(m, s[0]) then [s[0]] + Where(s[1..], m) else Where(s[1..], m)
  }

  /** Selection keeps order: the rows kept from `a + b` are those kept from `a`, then those kept from `b`. */
  lemma {:induction false} WhereConcat(a: seq<Record>, b: seq<Record>, m: Mask)
    ensures Where(a + b, m) == Where(a, m) + Where(b, m)
  {
    if |a| > 0 {
      var x, rest := a[0], a[1..];
      assert a == [x] + rest;
      assert a + b == [x] + (rest + b);
      WhereCons(x, rest + b, m);
      WhereCons(x, rest, m);
      WhereConcat(rest, b, m);
      ConcatAssoc(if Holds(m, x) then [x] else [], Where(rest, m), Where(b, m));
    } else {
      assert a + b == b;
    }
  }

  lemma ConcatAssoc(p: seq<Record>, q: seq<Record>, r: seq<Record>)
    ensures p + (q + r) == (p + q) + r
  {
  }

  /** A row placed in front is kept, ahead of the rest's selection, exactly when it satisfies the mask. */
  lemma WhereCons(x: Record, s: seq<Record>, m: Mask)
    ensures Where([x] + s, m) == (if Holds(m, x) then [x] else []) + Where(s, m)
  {
    assert ([x] + s)[0] == x;
    assert ([x] + s)[1..] == s;
  }

  /** Filtering by `a` and then by `b` is filtering once by both. */
  lemma {:induction false} WhereBoth(s: seq<Record>, a: Mask, b: Mask)
    ensures Where(Where(s, a), b) == Where(s, Both(a, b))
  {
    if |s| > 0 {
      WhereBoth(s[1..], a, b);
      if Holds(a, s[0]) {
        assert ([s[0]] + Where(s[1..], a))[1..] == Where(s[1..], a);
      }
    }
  }

  /** Masks that agree on every row select the same rows. */
  lemma {:induction false} WhereEquiv(s: seq<Record>, a: Mask, b: Mask)
    requires forall r :: Holds(a, r) == Holds(b, r)
    ensures Where(s, a) == Where(s, b)
  {
    if |s| > 0 {
      WhereEquiv(s[1..], a, b);
    }
  }

  /** Counting `b` among the rows selected by `a` counts the rows satisfying both. */
  lemma CountWhereBoth(s: seq<Record>, a: Mask, b: Mask)
    ensures CountWhere(Where(s, a), b) == CountWhere(s, Both(a, b))
  {
    WhereBoth(s, a, b);
  }

  lemma CountWhereEquiv(s: seq<Record>, a: Mask, b: Mask)
    requires forall r :: Holds(a, r) == Holds(b, r)
    ensures CountWhere(s, a) == CountWhere(s, b)
  {
    CountWhereAgree(s, a, b);
  }

  /** Masks that agree on every row of `s` count the same rows of `s`. */
  lemma {:induction false} CountWhereAgree(s: seq<Record>, a: Mask, b: Mask)
    requires forall i :: 0 <= i < |s| ==> Holds(a, s[i]) == Holds(b, s[i])
    ensures CountWhere(s, a) == CountWhere(s, b)
  {
    if |s| > 0 {
      var hit := Holds(a, s[0]);
      assert hit == Holds(b, s[0]);
      CountWhereAgree(s[1..], a, b);
      assert CountWhere(s, a) == (if hit then 1 else 0) + CountWhere(s[1..], a);
      assert CountWhere(s, b) == (if hit then 1 else 0) + CountWhere(s[1..], b);
    }
  }

  /** Narrowing by `All` keeps every row. */
  lemma {:induction false} CountWhereAll(s: seq<Record>, m: Mask)
    ensures CountWhere(s, Both(m, All)) == CountWhere(s, m)
  {
    if |s| > 0 {
      assert Holds(Both(m, All), s[0]) == Holds(m, s[0]);
      CountWhereAll(s[1..], m);
    }
  }

  /** Narrowing by a second mask never adds rows. */
  lemma {:induction false} CountWhereBothLe(s: seq<Record>, a: Mask, b: Mask)
    ensures CountWhere(s, Both(a, b)) <= CountWhere(s, a)
  {
    if |s| > 0 {
      assert Holds(Both(a, b), s[0]) ==> Holds(a, s[0]);
      CountWhereBothLe(s[1..], a, b);
    }
  }

  /** The count is positive exactly when some row satisfies the mask. */
  lemma {:induction false} CountWherePositive(s: seq<Record>, m: Mask)
    ensures CountWhere(s, m) > 0 <==> exists i :: 0 <= i < |s| && Holds(m, s[i])
  {
    if |s| > 0 {
      CountWherePositive(s[1..], m);
      if CountWhere(s[1..], m) > 0 {
        var i :| 0 <= i < |s[1..]| && Holds(m, s[1..][i]);
        assert Holds(m, s[i + 1]);
      }
      if exists i :: 0 <= i < |s| && Holds(m, s[i]) {
        var i :| 0 <= i < |s| && Holds(m, s[i]);
        if i > 0 {
          assert Holds(m, s[1..][i - 1]);
        }
      }
    }
  }

  /** The optional team filter: `df['team'] == team` when a team is given, no restriction otherwise. */
  function TeamFilter(team: Option<string>): Mask {
    if Given(team) then TeamIs(team.value) else All
  }

  /** The optional sport filter: `df['sport'] == sport` when a sport is given, no restriction otherwise. */
  function SportFilter(sport: Option<string>): Mask {
    if Given(sport) then SportIs(sport.value) else All
  }

  /** Applying the optional filter `f` (`All` meaning skip it) after `m` filters by both. */
  lemma WhereThen(s: seq<Record>, m: Mask, f: Mask)
    ensures (if f == All then Where(s, m) else Where(Where(s, m), f)) == Where(s, Both(m, f))
  {
    if f == All {
      WhereEquiv(s, m, Both(m, All));
    } else {
      WhereBoth(s, m, f);
    }
  }
}
