/** Month winner selection and the year summary of the monthly best-friend
    card: the eligibility gate, the lexicographic tie key, the champion and
    the twelve-month report.  The floating-point score is not modelled: the
    caller supplies it as `score(record, monthMaxInteraction, monthMaxDays)`. */
module BestFriendsWall {
  import opened Wrappers
  import opened Text
  import opened MonthAgg
  import opened ConversationFold

  const MinTotalMessages: nat := 8
  const MinInteraction: nat := 3
  const MinReplyCount: nat := 1
  const MinActiveDays: nat := 2
  const InsufficientData: string := "insufficient_data"

  /** The final score of a record given its month's maxima over the eligible
      records (interaction, active days). */
  type Scorer = (Agg, nat, nat) -> real

  predicate Eligible(a: Agg) {
    && Total(a) >= MinTotalMessages
    && Interaction(a) >= MinInteraction
    && a.replies >= MinReplyCount
    && ActiveDaysCount(a) >= MinActiveDays
  }

  /** The eligible records of a pool, in pool order. */
  function EligibleOf(pool: seq<Agg>): (r: seq<Agg>)
    ensures forall x :: x in r <==> x in pool && Eligible(x)
    ensures DistinctNames(pool) ==> DistinctNames(r)
  {
    if |pool| == 0 then []
    else
      var rest := EligibleOf(pool[1..]);
      assert DistinctNames(pool) ==> DistinctNames(pool[1..]);
      assert DistinctNames(pool) ==> forall x :: x in pool[1..] ==> x.username != pool[0].username;
      if Eligible(pool[0]) then [pool[0]] + rest else rest
  }

  function MaxOf(xs: seq<Agg>, f: Agg -> nat): (m: nat)
    requires |xs| > 0
    ensures forall i :: 0 <= i < |xs| ==> f(xs[i]) <= m
    ensures exists i :: 0 <= i < |xs| && f(xs[i]) == m
  {
    if |xs| == 1 then f(xs[0])
    else
      var rest := MaxOf(xs[1..], f);
      assert forall i :: 1 <= i < |xs| ==> xs[i] == xs[1..][i - 1];
      if f(xs[0]) >= rest then f(xs[0]) else rest
  }

  /** The month maxima the score is normalised with: largest interaction and
      largest active-day count among the eligible records. */
  function Maxima(pool: seq<Agg>): (nat, nat) {
    var el := EligibleOf(pool);
    if |el| == 0 then (0, 0) else (MaxOf(el, Interaction), MaxOf(el, ActiveDaysCount))
  }

  /** `avg_reply_seconds_capped`, as an exact rational. */
  function AvgGapCapped(a: Agg): real {
    if a.replies <= 0 then 0.0 else a.sumGapCapped as real / a.replies as real
  }

  datatype Ranked = Ranked(final: real, agg: Agg)

  function Scored(pool: seq<Agg>, score: Scorer, a: Agg): Ranked {
    var mx := Maxima(pool);
    Ranked(score(a, mx.0, mx.1), a)
  }

  /** Strict order of the tie key
      (-final, -interaction, avgCappedGap, -activeDays, username). */
  predicate KeyLess(x: Ranked, y: Ranked) {
    if x.final != y.final then x.final > y.final
    else if Interaction(x.agg) != Interaction(y.agg) then Interaction(x.agg) > Interaction(y.agg)
    else if AvgGapCapped(x.agg) != AvgGapCapped(y.agg) then AvgGapCapped(x.agg) < AvgGapCapped(y.agg)
    else if ActiveDaysCount(x.agg) != ActiveDaysCount(y.agg) then ActiveDaysCount(x.agg) > ActiveDaysCount(y.agg)
    else Less(x.agg.username, y.agg.username)
  }

  predicate SameKey(x: Ranked, y: Ranked) {
    && x.final == y.final
    && Interaction(x.agg) == Interaction(y.agg)
    && AvgGapCapped(x.agg) == AvgGapCapped(y.agg)
    && ActiveDaysCount(x.agg) == ActiveDaysCount(y.agg)
    && x.agg.username == y.agg.username
  }

  lemma KeyLessIrreflexive(x: Ranked)
    ensures !KeyLess(x, x)
  {
    LessIrreflexive(x.agg.username);
  }

  lemma KeyLessTransitive(x: Ranked, y: Ranked, z: Ranked)
    requires KeyLess(x, y) && KeyLess(y, z)
    ensures KeyLess(x, z)
  {
    if SameKeyPrefix(x, y) && SameKeyPrefix(y, z) {
      LessTransitive(x.agg.username, y.agg.username, z.agg.username);
    }
  }

  predicate SameKeyPrefix(x: Ranked, y: Ranked) {
    && x.final == y.final
    && Interaction(x.agg) == Interaction(y.agg)
    && AvgGapCapped(x.agg) == AvgGapCapped(y.agg)
    && ActiveDaysCount(x.agg) == ActiveDaysCount(y.agg)
  }

  lemma SameKeyRight(x: Ranked, y: Ranked, z: Ranked)
    requires SameKey(y, z)
    ensures KeyLess(x, y) == KeyLess(x, z)
  {
  }

  /** The tie key is total: two keys are equal or one precedes the other. */
  lemma KeyLessTotal(x: Ranked, y: Ranked)
    ensures KeyLess(x, y) || KeyLess(y, x) || SameKey(x, y)
  {
    LessTotal(x.agg.username, y.agg.username);
  }

  /** The head of a stable ascending sort by the tie key: no entry precedes
      it, and it strictly precedes every entry before it. */
  function ArgBest(rs: seq<Ranked>): (w: nat)
    requires |rs| > 0
    ensures w < |rs|
    ensures forall j :: 0 <= j < |rs| ==> !KeyLess(rs[j], rs[w])
    ensures forall j :: 0 <= j < w ==> KeyLess(rs[w], rs[j])
  {
    if |rs| == 1 then
      KeyLessIrreflexive(rs[0]);
      0
    else
      var n := |rs| - 1;
      var w := ArgBest(rs[..n]);
      assert forall j :: 0 <= j < n ==> rs[..n][j] == rs[j];
      if KeyLess(rs[n], rs[w]) then
        forall j | 0 <= j < |rs| ensures !KeyLess(rs[j], rs[n]) {
          if j == n {
            KeyLessIrreflexive(rs[n]);
          } else if KeyLess(rs[j], rs[n]) {
            KeyLessTransitive(rs[j], rs[n], rs[w]);
          }
        }
        forall j | 0 <= j < n ensures KeyLess(rs[n], rs[j]) {
          KeyLessTotal(rs[w], rs[j]);
          if KeyLess(rs[w], rs[j]) {
            KeyLessTransitive(rs[n], rs[w], rs[j]);
          } else if SameKey(rs[w], rs[j]) {
            SameKeyRight(rs[n], rs[w], rs[j]);
          }
        }
        n
      else
        w
  }

  datatype Winner = Winner(username: string, score: real, raw: Agg)

  /** One entry of the twelve-month array. */
  datatype MonthResult = MonthResult(month: int, winner: Option<Winner>, reason: Option<string>)

  /** The winner decision of one month from that month's pool alone. */
  function DecideMonth(month: int, pool: seq<Agg>, score: Scorer): (r: MonthResult)
    ensures r.month == month
    ensures r.winner.None? <==> forall a :: a in pool ==> !Eligible(a)
    ensures r.winner.None? ==> r.reason == Some(InsufficientData)
    ensures r.winner.Some? ==>
      && r.reason.None?
      && r.winner.value.raw in pool
      && Eligible(r.winner.value.raw)
      && r.winner.value.username == r.winner.value.raw.username
      && Ranked(r.winner.value.score, r.winner.value.raw) == Scored(pool, score, r.winner.value.raw)
      && forall a :: a in pool && Eligible(a) ==> !KeyLess(Scored(pool, score, a), Scored(pool, score, r.winner.value.raw))
  {
    var el := EligibleOf(pool);
    if |el| == 0 then
      MonthResult(month, None, Some(InsufficientData))
    else
      var rs := RankAll(pool, score, el);
      var w := ArgBest(rs);
      BestCoversPool(pool, score, el, rs, w);
      MonthResult(month, Some(Winner(el[w].username, rs[w].final, el[w])), None)
  }

  function RankAll(pool: seq<Agg>, score: Scorer, el: seq<Agg>): (rs: seq<Ranked>)
    ensures |rs| == |el|
    ensures forall i :: 0 <= i < |el| ==> rs[i] == Scored(pool, score, el[i])
  {
    seq(|el|, i requires 0 <= i < |el| => Scored(pool, score, el[i]))
  }

  lemma BestCoversPool(pool: seq<Agg>, score: Scorer, el: seq<Agg>, rs: seq<Ranked>, w: nat)
    requires el == EligibleOf(pool) && rs == RankAll(pool, score, el) && w < |rs|
    requires forall j :: 0 <= j < |rs| ==> !KeyLess(rs[j], rs[w])
    ensures forall a :: a in pool && Eligible(a) ==> !KeyLess(Scored(pool, score, a), Scored(pool, score, el[w]))
  {
    forall a | a in pool && Eligible(a) ensures !KeyLess(Scored(pool, score, a), Scored(pool, score, el[w])) {
      var j :| 0 <= j < |el| && el[j] == a;
      assert rs[j] == Scored(pool, score, a);
    }
  }

  /** With distinct conversations in the pool, the tie key picks exactly one
      winner: any eligible record that no other eligible record precedes is
      the winner. */
  lemma WinnerUnique(month: int, pool: seq<Agg>, score: Scorer, a: Agg)
    requires DistinctNames(pool)
    requires a in pool && Eligible(a)
    requires forall b :: b in pool && Eligible(b) ==> !KeyLess(Scored(pool, score, b), Scored(pool, score, a))
    ensures DecideMonth(month, pool, score).winner.Some?
    ensures DecideMonth(month, pool, score).winner.value.raw == a
  {
    var w := DecideMonth(month, pool, score).winner.value.raw;
    if w != a {
      var i :| 0 <= i < |pool| && pool[i] == a;
      var j :| 0 <= j < |pool| && pool[j] == w;
      assert a.username != w.username;
      KeyLessTotal(Scored(pool, score, a), Scored(pool, score, w));
    }
  }

  // ---------------------------------------------------------------------
  // Year summary

  /** Number of months won by `u`. */
  function WinCount(names: seq<string>, u: string): nat {
    if |names| == 0 then 0
    else WinCount(names[..|names| - 1], u) + (if names[|names| - 1] == u then 1 else 0)
  }

  /** `u` ranks before `v` on (-months won, username). */
  predicate Beats(names: seq<string>, u: string, v: string) {
    WinCount(names, u) > WinCount(names, v) || (WinCount(names, u) == WinCount(names, v) && Less(u, v))
  }

  lemma BeatsTransitive(names: seq<string>, u: string, v: string, w: string)
    requires Beats(names, u, v) && Beats(names, v, w)
    ensures Beats(names, u, w)
  {
    if WinCount(names, u) == WinCount(names, v) == WinCount(names, w) {
      LessTransitive(u, v, w);
    }
  }

  /** The best non-blank name among `names[i..]`, counting wins over all of
      `names`. */
  function ChampionFrom(names: seq<string>, i: nat): (c: Option<string>)
    requires i <= |names|
    ensures c.None? <==> forall j :: i <= j < |names| ==> names[j] == ""
    ensures c.Some? ==> c.value != "" && exists j :: i <= j < |names| && names[j] == c.value
    ensures c.Some? ==> forall j :: i <= j < |names| && names[j] != "" ==> !Beats(names, names[j], c.value)
    decreases |names| - i
  {
    if i == |names| then None
    else
      var rest := ChampionFrom(names, i + 1);
      if names[i] == "" then rest
      else if rest.None? then
        LessIrreflexive(names[i]);
        Some(names[i])
      else if Beats(names, names[i], rest.value) then
        forall j | i <= j < |names| && names[j] != "" ensures !Beats(names, names[j], names[i]) {
          LessIrreflexive(names[i]);
          if j > i && Beats(names, names[j], names[i]) {
            BeatsTransitive(names, names[j], names[i], rest.value);
          }
        }
        Some(names[i])
      else
        rest
  }

  datatype Champion = Champion(username: string, monthsWon: nat)

  datatype Summary = Summary(monthsWithWinner: nat, topChampion: Option<Champion>, filledMonths: seq<int>)

  datatype Report = Report(months: seq<MonthResult>, summary: Summary, usedIndex: bool)

  /** Winner names in month order. */
  function WinnerNames(months: seq<MonthResult>): (names: seq<string>)
    ensures |names| <= |months|
  {
    if |months| == 0 then []
    else
      var rest := WinnerNames(months[..|months| - 1]);
      var last := months[|months| - 1];
      if last.winner.Some? then rest + [last.winner.value.username] else rest
  }

  /** The `month` fields of the entries with a winner, in order. */
  function Filled(months: seq<MonthResult>): seq<int> {
    if |months| == 0 then []
    else
      var rest := Filled(months[..|months| - 1]);
      var last := months[|months| - 1];
      if last.winner.Some? then rest + [last.month] else rest
  }

  lemma {:induction false} FilledLength(months: seq<MonthResult>)
    ensures |Filled(months)| == |WinnerNames(months)|
  {
    if |months| > 0 {
      FilledLength(months[..|months| - 1]);
    }
  }

  /** With entries numbered 1..n, the filled list is exactly the months
      that have a winner, in increasing order. */
  lemma {:induction false} FilledExact(months: seq<MonthResult>)
    requires forall i :: 0 <= i < |months| ==> months[i].month == i + 1
    ensures forall k :: 0 <= k < |Filled(months)| ==> 1 <= Filled(months)[k] <= |months|
    ensures forall m :: m in Filled(months) <==> 1 <= m <= |months| && months[m - 1].winner.Some?
    ensures forall k1, k2 :: 0 <= k1 < k2 < |Filled(months)| ==> Filled(months)[k1] < Filled(months)[k2]
  {
    if |months| > 0 {
      var init := months[..|months| - 1];
      FilledExact(init);
      assert forall i :: 0 <= i < |init| ==> init[i] == months[i];
    }
  }

  /** The month `m` was won by `u`. */
  predicate WonBy(m: MonthResult, u: string) {
    m.winner.Some? && m.winner.value.username == u
  }

  /** The indices of the months `u` won. */
  function MonthsWon(months: seq<MonthResult>, u: string): set<int> {
    set i | 0 <= i < |months| && WonBy(months[i], u)
  }

  /** Extending the months by one adds its index exactly when `u` won it. */
  lemma MonthsWonSnoc(months: seq<MonthResult>, u: string)
    requires |months| > 0
    ensures var n := |months| - 1;
      MonthsWon(months, u) == MonthsWon(months[..n], u) + (if WonBy(months[n], u) then {n} else {})
  {
    var n := |months| - 1;
    assert forall i :: 0 <= i < n ==> months[..n][i] == months[i];
  }

  /** A winner name appears in the list for each month it won. */
  lemma {:induction false} WinCountIsMonthsWon(months: seq<MonthResult>, u: string)
    ensures WinCount(WinnerNames(months), u) == |MonthsWon(months, u)|
  {
    if |months| == 0 {
      assert MonthsWon(months, u) == {};
    } else {
      var n := |months| - 1;
      var init := months[..n];
      WinCountIsMonthsWon(init, u);
      MonthsWonSnoc(months, u);
      assert n !in MonthsWon(init, u);
      var names := WinnerNames(months);
      if months[n].winner.Some? {
        assert names[..|names| - 1] == WinnerNames(init);
      }
    }
  }

  function Summarize(months: seq<MonthResult>): Summary {
    var names := WinnerNames(months);
    var filled := Filled(months);
    var champ := ChampionFrom(names, 0);
    var top := if champ.Some? then Some(Champion(champ.value, WinCount(names, champ.value))) else None;
    Summary(|filled|, top, filled)
  }

  /** The pools the selector reads: empty unless the index was usable and
      the account name is known. */
  function MonthPools(events: seq<Event>, me: string, indexReady: bool, keep: string -> bool): (p: seq<seq<Agg>>)
    ensures |p| == 12
  {
    if indexReady && me != "" then Pools(events, me, keep) else EmptyPools()
  }

  /** `compute_monthly_best_friends_wall_stats` without presentation fields:
      twelve independent month decisions and the year summary. */
  function Compute(events: seq<Event>, me: string, indexReady: bool, keep: string -> bool, score: Scorer): (r: Report)
    requires Ordered(events)
    ensures |r.months| == 12
    ensures r.usedIndex <==> indexReady && me != ""
    ensures forall i :: 0 <= i < 12 ==> r.months[i] == DecideMonth(i + 1, MonthPools(events, me, indexReady, keep)[i], score)
    ensures forall i :: 0 <= i < 12 ==> DistinctNames(MonthPools(events, me, indexReady, keep)[i])
    ensures !r.usedIndex ==> forall i :: 0 <= i < 12 ==> r.months[i].winner.None?
    ensures forall m :: m in r.summary.filledMonths <==> 1 <= m <= 12 && r.months[m - 1].winner.Some?
    ensures forall k1, k2 :: 0 <= k1 < k2 < |r.summary.filledMonths| ==> r.summary.filledMonths[k1] < r.summary.filledMonths[k2]
    ensures r.summary.monthsWithWinner == |r.summary.filledMonths|
    ensures r.summary.topChampion.None? <==> r.summary.filledMonths == []
    ensures r.summary.topChampion.Some? ==>
      var c := r.summary.topChampion.value;
      && c.monthsWon == |MonthsWon(r.months, c.username)|
      && c.monthsWon >= 1
      && forall i :: 0 <= i < 12 && r.months[i].winner.Some? && r.months[i].winner.value.username != "" ==>
           !Beats(WinnerNames(r.months), r.months[i].winner.value.username, c.username)
  {
    var pools := MonthPools(events, me, indexReady, keep);
    MonthPoolsFacts(events, me, indexReady, keep);
    var months := DecideAll(pools, score);
    WinnersNamed(pools, score, months);
    FilledExact(months);
    FilledLength(months);
    ChampionSummary(months, pools);
    Report(months, Summarize(months), indexReady && me != "")
  }

  function DecideAll(pools: seq<seq<Agg>>, score: Scorer): (months: seq<MonthResult>)
    requires |pools| == 12
    ensures |months| == 12
    ensures forall i :: 0 <= i < 12 ==> months[i] == DecideMonth(i + 1, pools[i], score)
    ensures forall i :: 0 <= i < 12 ==> months[i].month == i + 1
  {
    seq(12, i requires 0 <= i < 12 => DecideMonth(i + 1, pools[i], score))
  }

  lemma WinnersNamed(pools: seq<seq<Agg>>, score: Scorer, months: seq<MonthResult>)
    requires |pools| == 12 && months == DecideAll(pools, score)
    requires forall i, k :: 0 <= i < 12 && 0 <= k < |pools[i]| ==> pools[i][k].username != ""
    ensures forall i :: 0 <= i < 12 ==> months[i].winner.Some? ==> months[i].winner.value.username != ""
  {
    forall i | 0 <= i < 12 && months[i].winner.Some? ensures months[i].winner.value.username != "" {
      var w := months[i].winner.value;
      assert w.raw in pools[i];
    }
  }

  /** A month's winner name is never blank when pools hold only named
      records; so a champion exists exactly when some month has a winner. */
  lemma ChampionSummary(months: seq<MonthResult>, pools: seq<seq<Agg>>)
    requires |months| == |pools| == 12
    requires forall i :: 0 <= i < 12 ==> months[i].winner.Some? ==> months[i].winner.value.username != ""
    ensures Summarize(months).topChampion.None? <==> Filled(months) == []
    ensures Summarize(months).topChampion.Some? ==>
      var c := Summarize(months).topChampion.value;
      && c.monthsWon == |MonthsWon(months, c.username)|
      && c.monthsWon >= 1
      && forall i :: 0 <= i < 12 && months[i].winner.Some? && months[i].winner.value.username != "" ==>
           !Beats(WinnerNames(months), months[i].winner.value.username, c.username)
  {
    var names := WinnerNames(months);
    WinnerNamesMembers(months);
    FilledLength(months);
    var champ := ChampionFrom(names, 0);
    if |names| > 0 {
      assert names[0] in names;
    }
    if champ.Some? {
      var c := champ.value;
      WinCountIsMonthsWon(months, c);
      assert c in names;
      WinCountPositive(names, c);
      forall i | 0 <= i < 12 && months[i].winner.Some? && months[i].winner.value.username != ""
        ensures !Beats(names, months[i].winner.value.username, c)
      {
        var u := months[i].winner.value.username;
        assert u in names;
        var j :| 0 <= j < |names| && names[j] == u;
      }
    }
  }

  lemma MonthPoolsFacts(events: seq<Event>, me: string, indexReady: bool, keep: string -> bool)
    requires Ordered(events)
    ensures forall i, k :: 0 <= i < 12 && 0 <= k < |MonthPools(events, me, indexReady, keep)[i]| ==>
      MonthPools(events, me, indexReady, keep)[i][k].username != ""
    ensures forall i :: 0 <= i < 12 ==> DistinctNames(MonthPools(events, me, indexReady, keep)[i])
  {
    if indexReady && me != "" {
      OrderedIsGrouped(events);
      PoolsDistinct(events, me, keep);
      PoolsWellFormed(events, me, keep);
    }
  }

  lemma {:induction false} WinnerNamesMembers(months: seq<MonthResult>)
    ensures forall x :: x in WinnerNames(months) <==>
      exists i :: 0 <= i < |months| && months[i].winner.Some? && months[i].winner.value.username == x
  {
    if |months| > 0 {
      var init := months[..|months| - 1];
      WinnerNamesMembers(init);
      assert forall i :: 0 <= i < |init| ==> init[i] == months[i];
    }
  }

  lemma {:induction false} WinCountPositive(names: seq<string>, u: string)
    requires u in names
    ensures WinCount(names, u) >= 1
  {
    var n := |names| - 1;
    if names[n] != u {
      assert u in names[..n];
      WinCountPositive(names[..n], u);
    }
  }

  // ---------------------------------------------------------------------
  // Display-name masking

  /** `_mask_name`: the stripped name with every character starred except the
      first (two or more characters) and the last (three or more). */
  function MaskName(name: string): (r: string)
    ensures |r| == |Strip(name)|
    ensures forall i :: 0 <= i < |r| ==>
      r[i] == if (i == 0 && |r| >= 2) || (i == |r| - 1 && |r| >= 3) then Strip(name)[i] else '*'
  {
    var s := Strip(name);
    if |s| == 0 then ""
    else if |s| == 1 then "*"
    else if |s| == 2 then [s[0]] + "*"
    else [s[0]] + Stars(|s| - 2) + [s[|s| - 1]]
  }

  function Stars(n: nat): (r: string)
    ensures |r| == n && forall i :: 0 <= i < n ==> r[i] == '*'
  {
    if n == 0 then [] else "*" + Stars(n - 1)
  }
}
