/**
 * pandas `groupby(columns).size()` / `.agg(count)` on the athlete table.
 * A group key is the tuple of the grouping columns' values; a row whose
 * key has a missing value belongs to no group (`dropna=True`). Groups come
 * out in ascending key order (`sort=True`), comparing strings by code point
 * and tuples lexicographically.
 */
module GroupBy {
  import opened Wrappers
  import opened Sequences
  import opened Table

  /** The grouping columns used by the dashboard. */
  datatype Columns = TeamCol | YearSexCols | SexMedalCols

  datatype GroupKey =
    | Team(team: string)
    | YearSex(year: int, sex: Sex)
    | SexMedal(sex: Sex, medal: Medal)

  /** The row's key under `cols`; None when a key column is missing. */
  function KeyOf(cols: Columns, r: Record): Option<GroupKey> {
    match cols
    case TeamCol => Some(Team(r.team))
    case YearSexCols => Some(YearSex(r.year, r.sex))
    case SexMedalCols => if r.medal.Some? then Some(SexMedal(r.sex, r.medal.value)) else None
  }

  /** `k` has the shape of a key under `cols`. */
  predicate Fits(cols: Columns, k: GroupKey) {
    match cols
    case TeamCol => k.Team?
    case YearSexCols => k.YearSex?
    case SexMedalCols => k.SexMedal?
  }

  /** The mask selecting exactly the rows of group `k`. */
  function KeyMask(k: GroupKey): Mask {
    match k
    case Team(t) => TeamIs(t)
    case YearSex(y, s) => Both(YearIs(y), SexIs(s))
    case SexMedal(s, md) => Both(SexIs(s), MedalIs(md))
  }

  /** The mask selecting the rows that belong to some group under `cols`. */
  function KeyedMask(cols: Columns): Mask {
    if cols == SexMedalCols then HasMedal else All
  }

  lemma KeyOfMask(cols: Columns, r: Record)
    ensures forall k :: KeyOf(cols, r) == Some(k) <==> Fits(cols, k) && Holds(KeyMask(k), r)
    ensures Holds(KeyedMask(cols), r) <==> KeyOf(cols, r).Some?
  {
  }

  function SexName(s: Sex): string {
    match s
    case F => "F"
    case M => "M"
  }

  function MedalName(md: Medal): string {
    match md
    case Gold => "Gold"
    case Silver => "Silver"
    case Bronze => "Bronze"
  }

  /** Sexes and medals sort by their names in the table. */
  predicate SexLt(a: Sex, b: Sex) {
    StringLt(SexName(a), SexName(b))
  }

  predicate MedalLt(a: Medal, b: Medal) {
    StringLt(MedalName(a), MedalName(b))
  }

  lemma SexOrderFacts()
    ensures SexLt(F, M) && !SexLt(M, F) && !SexLt(F, F) && !SexLt(M, M)
  {
    assert "F"[0] < "M"[0];
    StringLtIrreflexive("F");
    StringLtIrreflexive("M");
  }

  lemma MedalOrderFacts()
    ensures MedalLt(Bronze, Gold) && MedalLt(Gold, Silver) && MedalLt(Bronze, Silver)
    ensures !MedalLt(Gold, Bronze) && !MedalLt(Silver, Gold) && !MedalLt(Silver, Bronze)
    ensures forall md :: !MedalLt(md, md)
  {
    assert "Bronze"[0] < "Gold"[0] < "Silver"[0];
    StringLtIrreflexive("Bronze");
    StringLtIrreflexive("Gold");
    StringLtIrreflexive("Silver");
  }

  function Rank(k: GroupKey): nat {
    match k
    case Team(_) => 0
    case YearSex(_, _) => 1
    case SexMedal(_, _) => 2
  }

  /** The order in which groups come out of `groupby`. */
  predicate KeyLt(a: GroupKey, b: GroupKey) {
    if Rank(a) != Rank(b) then Rank(a) < Rank(b)
    else match a
      case Team(s) => StringLt(s, b.team)
      case YearSex(y, s) => y < b.year || (y == b.year && SexLt(s, b.sex))
      case SexMedal(s, md) => SexLt(s, b.sex) || (s == b.sex && MedalLt(md, b.medal))
  }

  lemma KeyLtTransitive(a: GroupKey, b: GroupKey, c: GroupKey)
    requires KeyLt(a, b) && KeyLt(b, c)
    ensures KeyLt(a, c)
  {
    SexOrderFacts();
    MedalOrderFacts();
    if Rank(a) == Rank(b) == Rank(c) && a.Team? {
      StringLtTransitive(a.team, b.team, c.team);
    }
  }

  lemma KeyLtConnected(a: GroupKey, b: GroupKey)
    requires a != b
    ensures KeyLt(a, b) || KeyLt(b, a)
  {
    SexOrderFacts();
    MedalOrderFacts();
    if a.Team? && b.Team? {
      StringLtConnected(a.team, b.team);
    }
  }

  lemma KeyLtIsStrictTotal()
    ensures StrictTotalOrder(KeyLt)
  {
    SexOrderFacts();
    MedalOrderFacts();
    forall a | true
      ensures !KeyLt(a, a)
    {
      if a.Team? {
        StringLtIrreflexive(a.team);
      }
    }
    forall a, b, c | KeyLt(a, b) && KeyLt(b, c)
      ensures KeyLt(a, c)
    {
      KeyLtTransitive(a, b, c);
    }
    forall a, b | a != b
      ensures KeyLt(a, b) || KeyLt(b, a)
    {
      KeyLtConnected(a, b);
    }
  }

  /**
   * The group sizes computed in one pass over the rows, as a hash
   * aggregation does: every present key maps to the number of its rows.
   */
  function Tally(rows: seq<Record>, cols: Columns): (m: map<GroupKey, nat>)
    ensures forall k :: k in m ==> Fits(cols, k) && m[k] == CountWhere(rows, KeyMask(k)) && m[k] > 0
    ensures forall k :: Fits(cols, k) && CountWhere(rows, KeyMask(k)) > 0 ==> k in m
  {
    if |rows| == 0 then map[]
    else
      var m := Tally(rows[1..], cols);
      KeyOfMask(cols, rows[0]);
      match KeyOf(cols, rows[0])
      case None => m
      case Some(k) => m[k := if k in m then m[k] + 1 else 1]
  }

  /** The keys of the rows that belong to a group, in row order, with repeats. */
  function PresentKeys(rows: seq<Record>, cols: Columns): (ks: seq<GroupKey>)
    ensures forall k :: k in ks <==> Fits(cols, k) && CountWhere(rows, KeyMask(k)) > 0
  {
    if |rows| == 0 then []
    else
      var ks := PresentKeys(rows[1..], cols);
      KeyOfMask(cols, rows[0]);
      match KeyOf(cols, rows[0])
      case None => ks
      case Some(k) => [k] + ks
  }

  /** One output row of `groupby(...).size()`. */
  datatype Group = Group(key: GroupKey, size: nat)

  function SizeOf(tally: map<GroupKey, nat>, k: GroupKey): nat {
    if k in tally then tally[k] else 0
  }

  predicate HasKey(gs: seq<Group>, k: GroupKey) {
    exists i :: 0 <= i < |gs| && gs[i].key == k
  }

  function SumSizes(gs: seq<Group>): nat {
    if |gs| == 0 then 0 else gs[0].size + SumSizes(gs[1..])
  }

  /** The sorted distinct keys of the grouped rows. */
  function GroupKeys(rows: seq<Record>, cols: Columns): (keys: seq<GroupKey>)
    ensures StrictlySorted(keys, KeyLt) && Distinct(keys)
    ensures forall k :: k in keys <==> Fits(cols, k) && CountWhere(rows, KeyMask(k)) > 0
  {
    var u := Unique(PresentKeys(rows, cols));
    KeyLtIsStrictTotal();
    SortSorted(u, KeyLt);
    var keys := Sort(u, KeyLt);
    assert forall k :: k in keys <==> k in multiset(u);
    StrictlySortedIsDistinct(keys, KeyLt);
    keys
  }

  /**
   * `rows.groupby(cols).size()`: one group per distinct key, in ascending
   * key order, each sized by the number of its rows.
   */
  function GroupCount(rows: seq<Record>, cols: Columns): (gs: seq<Group>)
    ensures forall i, j :: 0 <= i < j < |gs| ==> KeyLt(gs[i].key, gs[j].key)
    ensures forall i :: 0 <= i < |gs| ==>
      && Fits(cols, gs[i].key)
      && gs[i].size == CountWhere(rows, KeyMask(gs[i].key))
      && gs[i].size > 0
    ensures forall k :: Fits(cols, k) && CountWhere(rows, KeyMask(k)) > 0 ==> HasKey(gs, k)
    ensures SumSizes(gs) == CountWhere(rows, KeyedMask(cols))
  {
    var keys := GroupKeys(rows, cols);
    var tally := Tally(rows, cols);
    var gs := seq(|keys|, i requires 0 <= i < |keys| => Group(keys[i], SizeOf(tally, keys[i])));
    GroupsOfKeys(rows, cols, keys, gs);
    gs
  }

  /** What `GroupCount` promises, for groups built over the sorted distinct keys. */
  lemma GroupsOfKeys(rows: seq<Record>, cols: Columns, keys: seq<GroupKey>, gs: seq<Group>)
    requires StrictlySorted(keys, KeyLt) && Distinct(keys)
    requires forall k :: k in keys <==> Fits(cols, k) && CountWhere(rows, KeyMask(k)) > 0
    requires |gs| == |keys|
    requires forall i :: 0 <= i < |gs| ==> gs[i].key == keys[i] && gs[i].size == CountWhere(rows, KeyMask(keys[i]))
    ensures forall i, j :: 0 <= i < j < |gs| ==> KeyLt(gs[i].key, gs[j].key)
    ensures forall i :: 0 <= i < |gs| ==>
      && Fits(cols, gs[i].key)
      && gs[i].size == CountWhere(rows, KeyMask(gs[i].key))
      && gs[i].size > 0
    ensures forall k :: Fits(cols, k) && CountWhere(rows, KeyMask(k)) > 0 ==> HasKey(gs, k)
    ensures SumSizes(gs) == CountWhere(rows, KeyedMask(cols))
  {
    forall i | 0 <= i < |gs|
      ensures Fits(cols, gs[i].key) && gs[i].size > 0
    {
      assert keys[i] in keys;
    }
    forall k | Fits(cols, k) && CountWhere(rows, KeyMask(k)) > 0
      ensures HasKey(gs, k)
    {
      var i :| 0 <= i < |keys| && keys[i] == k;
      assert gs[i].key == k;
    }
    SumSizesIsSumCounts(gs, rows, keys);
    forall i | 0 <= i < |rows| && KeyOf(cols, rows[i]).Some?
      ensures KeyOf(cols, rows[i]).value in keys
    {
      KeyOfMask(cols, rows[i]);
      CountWherePositive(rows, KeyMask(KeyOf(cols, rows[i]).value));
    }
    SumCountsCovers(rows, cols, keys);
  }

  /** The sizes of the groups of `keys`, summed. */
  function SumCounts(rows: seq<Record>, keys: seq<GroupKey>): nat {
    if |keys| == 0 then 0 else CountWhere(rows, KeyMask(keys[0])) + SumCounts(rows, keys[1..])
  }

  /** The number of keys of `keys` whose group contains `r`. */
  function Hits(keys: seq<GroupKey>, r: Record): nat {
    if |keys| == 0 then 0 else (if Holds(KeyMask(keys[0]), r) then 1 else 0) + Hits(keys[1..], r)
  }

  lemma {:induction false} SumSizesIsSumCounts(gs: seq<Group>, rows: seq<Record>, keys: seq<GroupKey>)
    requires |gs| == |keys|
    requires forall i :: 0 <= i < |gs| ==> gs[i].size == CountWhere(rows, KeyMask(keys[i]))
    ensures SumSizes(gs) == SumCounts(rows, keys)
  {
    if |gs| > 0 {
      SumSizesIsSumCounts(gs[1..], rows, keys[1..]);
    }
  }

  lemma {:induction false} SumCountsEmpty(keys: seq<GroupKey>)
    ensures SumCounts([], keys) == 0
  {
    if |keys| > 0 {
      SumCountsEmpty(keys[1..]);
    }
  }

  lemma {:induction false} SumCountsCons(rows: seq<Record>, keys: seq<GroupKey>)
    requires |rows| > 0
    ensures SumCounts(rows, keys) == Hits(keys, rows[0]) + SumCounts(rows[1..], keys)
  {
    if |keys| > 0 {
      SumCountsCons(rows, keys[1..]);
    }
  }

  /** A row lies in exactly one group of a distinct key list covering its key, else in none. */
  lemma {:induction false} HitsAtMostOne(keys: seq<GroupKey>, cols: Columns, r: Record)
    requires Distinct(keys)
    requires forall k :: k in keys ==> Fits(cols, k)
    ensures Hits(keys, r) == if KeyOf(cols, r).Some? && KeyOf(cols, r).value in keys then 1 else 0
  {
    if |keys| > 0 {
      KeyOfMask(cols, r);
      assert keys[0] in keys;
      assert Distinct(keys[1..]) by {
        forall i, j | 0 <= i < j < |keys[1..]|
          ensures keys[1..][i] != keys[1..][j]
        {
          assert keys[1..][i] == keys[i + 1] && keys[1..][j] == keys[j + 1];
        }
      }
      HitsAtMostOne(keys[1..], cols, r);
      if Holds(KeyMask(keys[0]), r) {
        assert keys[0] !in keys[1..] by {
          forall i | 0 <= i < |keys[1..]|
            ensures keys[1..][i] != keys[0]
          {
            assert keys[1..][i] == keys[i + 1];
          }
        }
      }
      assert keys == [keys[0]] + keys[1..];
    }
  }

  /**
   * Summing the group sizes over a distinct key list that covers every
   * grouped row counts every grouped row exactly once.
   */
  lemma {:induction false} SumCountsCovers(rows: seq<Record>, cols: Columns, keys: seq<GroupKey>)
    requires Distinct(keys)
    requires forall k :: k in keys ==> Fits(cols, k)
    requires forall i :: 0 <= i < |rows| && KeyOf(cols, rows[i]).Some? ==> KeyOf(cols, rows[i]).value in keys
    ensures SumCounts(rows, keys) == CountWhere(rows, KeyedMask(cols))
  {
    if |rows| == 0 {
      SumCountsEmpty(keys);
    } else {
      SumCountsCons(rows, keys);
      HitsAtMostOne(keys, cols, rows[0]);
      KeyOfMask(cols, rows[0]);
      assert KeyOf(cols, rows[0]).Some? ==> KeyOf(cols, rows[0]).value in keys;
      forall i | 0 <= i < |rows[1..]| && KeyOf(cols, rows[1..][i]).Some?
        ensures KeyOf(cols, rows[1..][i]).value in keys
      {
        assert rows[1..][i] == rows[i + 1];
      }
      SumCountsCovers(rows[1..], cols, keys);
    }
  }

  /**
   * Grouping the rows that mask `m` selects: each group counts the table's
   * rows matching both `m` and its key, and nothing matching both is lost.
   */
  lemma GroupCountOfSelection(df: seq<Record>, m: Mask, cols: Columns)
    ensures forall g :: g in GroupCount(Where(df, m), cols) ==>
      g.size == CountWhere(df, Both(m, KeyMask(g.key)))
    ensures forall k :: Fits(cols, k) && CountWhere(df, Both(m, KeyMask(k))) > 0 ==>
      HasKey(GroupCount(Where(df, m), cols), k)
    ensures SumSizes(GroupCount(Where(df, m), cols)) == CountWhere(df, Both(m, KeyedMask(cols)))
  {
    forall k
      ensures CountWhere(Where(df, m), KeyMask(k)) == CountWhere(df, Both(m, KeyMask(k)))
    {
      CountWhereBoth(df, m, KeyMask(k));
    }
    CountWhereBoth(df, m, KeyedMask(cols));
  }
}
