/** The single forward pass of the monthly best-friend card over message
    events grouped by conversation (`compute_monthly_best_friends_wall_stats`,
    the row loop and `flush_conv`).  The calendar conversion is not modelled:
    every event already carries its local month, day and hour. */
module ConversationFold {
  import opened Wrappers
  import opened Text
  import opened MonthAgg

  /** One decoded index row: conversation id and sender (both already
      stripped), epoch seconds and the local calendar fields. */
  datatype Event = Event(username: string, sender: string, ts: int, month: int, day: int, hour: int)

  /** Conversation-scoped state: the conversation being read, its month
      records, and the timestamp of the latest unanswered incoming message. */
  datatype Conv = Conv(cur: string, aggs: map<int, Agg>, pending: Option<int>)

  /** `pools[m - 1]` is the global list of finished records of month `m`. */
  datatype FoldState = FoldState(conv: Conv, pools: seq<seq<Agg>>)

  function EmptyPools(): (p: seq<seq<Agg>>)
    ensures |p| == 12 && forall i :: 0 <= i < 12 ==> p[i] == []
  {
    seq(12, _ => [])
  }

  function Start(): FoldState {
    FoldState(Conv("", map[], None), EmptyPools())
  }

  /** Rows with a non-positive timestamp or an empty conversation id are
      skipped without any other effect. */
  predicate Valid(e: Event) {
    e.ts > 0 && e.username != ""
  }

  /** The input order the query promises: conversation id ascending, then
      timestamp ascending. */
  predicate Ordered(events: seq<Event>) {
    forall i, j :: 0 <= i < j < |events| ==>
      && LessEq(events[i].username, events[j].username)
      && (events[i].username == events[j].username ==> events[i].ts <= events[j].ts)
  }

  /** The events of one conversation are contiguous. */
  predicate Grouped(events: seq<Event>) {
    forall i, j, k :: 0 <= i < j < k < |events| && events[i].username == events[k].username ==>
      events[j].username == events[i].username
  }

  lemma OrderedIsGrouped(events: seq<Event>)
    requires Ordered(events)
    ensures Grouped(events)
  {
    forall i, j, k | 0 <= i < j < k < |events| && events[i].username == events[k].username
      ensures events[j].username == events[i].username
    {
      LessAsymmetric(events[i].username, events[j].username);
    }
  }

  /** Every record of the conversation with at least one message joins its
      month's pool. */
  function AppendMonths(pools: seq<seq<Agg>>, aggs: map<int, Agg>): (r: seq<seq<Agg>>)
    requires |pools| == 12
    ensures |r| == 12
  {
    seq(12, i requires 0 <= i < 12 =>
      if i + 1 in aggs && Total(aggs[i + 1]) > 0 then pools[i] + [aggs[i + 1]] else pools[i])
  }

  /** `flush_conv`: a no-op before the first conversation; otherwise the
      conversation's records go to the pools and its state is cleared. */
  function Flush(st: FoldState): (r: FoldState)
    requires |st.pools| == 12
    ensures |r.pools| == 12
  {
    if st.conv.cur == "" then st
    else FoldState(Conv(st.conv.cur, map[], None), AppendMonths(st.pools, st.conv.aggs))
  }

  function PendingBit(p: Option<int>): nat {
    if p.Some? then 1 else 0
  }

  /** The reply-tracking state machine for one observed message.  An incoming
      message counts and becomes the pending timestamp; an outgoing message
      counts and, when a pending timestamp `p <= ts` exists, earns one reply
      with gap `ts - p` (capped at six hours in the capped sum) and clears it.
      It keeps the record's bounds, adds exactly one message, and never lets
      replies plus the pending mark outgrow the incoming messages. */
  function Record(a: Agg, ts: int, isMe: bool, pending: Option<int>): (r: (Agg, Option<int>))
    ensures WellFormed(a) ==> WellFormed(r.0)
    ensures Total(r.0) == Total(a) + 1
    ensures r.0.activeDays == a.activeDays && r.0.bucketMask == a.bucketMask
    ensures r.0.username == a.username && r.0.month == a.month
    ensures r.0.replies + PendingBit(r.1) + a.incoming <= a.replies + PendingBit(pending) + r.0.incoming
    ensures r.0 == a.(incoming := r.0.incoming, outgoing := r.0.outgoing, replies := r.0.replies,
                      sumGap := r.0.sumGap, sumGapCapped := r.0.sumGapCapped)
    ensures !isMe ==>
      && r.1 == Some(ts)
      && r.0.incoming == a.incoming + 1 && r.0.outgoing == a.outgoing
      && r.0.replies == a.replies && r.0.sumGap == a.sumGap && r.0.sumGapCapped == a.sumGapCapped
    ensures isMe ==> r.0.incoming == a.incoming && r.0.outgoing == a.outgoing + 1
    ensures isMe && pending.Some? && pending.value <= ts ==>
      && r.1.None? && r.0.replies == a.replies + 1 && r.0.sumGap == a.sumGap + (ts - pending.value)
      && r.0.sumGapCapped == a.sumGapCapped + CappedGap(ts - pending.value)
    ensures isMe && !(pending.Some? && pending.value <= ts) ==>
      r.1 == pending && r.0.replies == a.replies && r.0.sumGap == a.sumGap && r.0.sumGapCapped == a.sumGapCapped
  {
    if isMe then
      var out := a.(outgoing := a.outgoing + 1);
      if pending.Some? && ts >= pending.value then
        var gap := ts - pending.value;
        (out.(replies := out.replies + 1, sumGap := out.sumGap + gap, sumGapCapped := out.sumGapCapped + CappedGap(gap)), None)
      else
        (out, pending)
    else
      (a.(incoming := a.incoming + 1), Some(ts))
  }

  /** One row of the loop (lines 196-235). */
  function Step(st: FoldState, e: Event, me: string, keep: string -> bool): (r: FoldState)
    requires |st.pools| == 12
    ensures |r.pools| == 12
  {
    if !Valid(e) then st
    else
      var st1 := if e.username != st.conv.cur then
        var f := Flush(st); f.(conv := f.conv.(cur := e.username))
      else st;
      if !keep(e.username) || e.month < 1 || e.month > 12 then st1
      else
        var prior := if e.month in st1.conv.aggs then st1.conv.aggs[e.month] else NewAgg(e.username, e.month);
        var seen := Observe(prior, e.day, e.hour);
        var rec := Record(seen, e.ts, e.sender == me, st1.conv.pending);
        st1.(conv := Conv(st1.conv.cur, st1.conv.aggs[e.month := rec.0], rec.1))
  }

  /** The state after reading `events` from the start. */
  function Fold(events: seq<Event>, me: string, keep: string -> bool): (r: FoldState)
    ensures |r.pools| == 12
  {
    if |events| == 0 then Start()
    else Step(Fold(events[..|events| - 1], me, keep), events[|events| - 1], me, keep)
  }

  /** The month pools once the last conversation has been flushed. */
  function Pools(events: seq<Event>, me: string, keep: string -> bool): (p: seq<seq<Agg>>)
    ensures |p| == 12
  {
    Flush(Fold(events, me, keep)).pools
  }

  // ---------------------------------------------------------------------
  // Counter bounds kept by the pass

  /** Sum of a per-record figure over the months 1..n of a conversation. */
  function SumMonths(aggs: map<int, Agg>, proj: Agg -> nat, n: nat): nat {
    if n == 0 then 0 else SumMonths(aggs, proj, n - 1) + (if n in aggs then proj(aggs[n]) else 0)
  }

  lemma {:induction false} SumMonthsUpdate(aggs: map<int, Agg>, proj: Agg -> nat, n: nat, k: int, a: Agg)
    requires 1 <= k
    ensures SumMonths(aggs[k := a], proj, n) + (if k <= n && k in aggs then proj(aggs[k]) else 0)
         == SumMonths(aggs, proj, n) + (if k <= n then proj(a) else 0)
  {
    if n > 0 {
      SumMonthsUpdate(aggs, proj, n - 1, k, a);
    }
  }

  lemma {:induction false} SumMonthsEmpty(proj: Agg -> nat, n: nat)
    ensures SumMonths(map[], proj, n) == 0
  {
    if n > 0 {
      SumMonthsEmpty(proj, n - 1);
    }
  }

  function Replies(a: Agg): nat {
    a.replies
  }

  function Incoming(a: Agg): nat {
    a.incoming
  }

  /** Conversation state: its records are keyed by their own month, belong to
      the current conversation and are well formed; across the whole
      conversation the replies plus a pending mark never exceed the incoming
      messages (a reply needs its own incoming message, possibly in an
      earlier month). */
  predicate ConvInv(c: Conv) {
    && (c.cur == "" ==> c.aggs == map[] && c.pending.None?)
    && (forall m :: m in c.aggs ==>
          1 <= m <= 12 && c.aggs[m].month == m && c.aggs[m].username == c.cur && WellFormed(c.aggs[m]))
    && SumMonths(c.aggs, Replies, 12) + PendingBit(c.pending) <= SumMonths(c.aggs, Incoming, 12)
  }

  /** Pool `m - 1` only holds non-empty, well-formed records of month `m`. */
  predicate PoolsInv(pools: seq<seq<Agg>>) {
    && |pools| == 12
    && forall i, k :: 0 <= i < 12 && 0 <= k < |pools[i]| ==>
         && pools[i][k].month == i + 1
         && Total(pools[i][k]) > 0
         && WellFormed(pools[i][k])
         && pools[i][k].username != ""
  }

  predicate Inv(st: FoldState) {
    ConvInv(st.conv) && PoolsInv(st.pools)
  }

  lemma FlushKeepsInv(st: FoldState)
    requires Inv(st)
    ensures Inv(Flush(st))
    ensures Flush(st).conv.cur == st.conv.cur
    ensures Flush(st).conv.aggs == map[] && Flush(st).conv.pending.None?
  {
    if st.conv.cur != "" {
      SumMonthsEmpty(Replies, 12);
      SumMonthsEmpty(Incoming, 12);
    }
  }

  lemma StepKeepsInv(st: FoldState, e: Event, me: string, keep: string -> bool)
    requires Inv(st)
    ensures Inv(Step(st, e, me, keep))
  {
    if Valid(e) {
      var st1 := if e.username != st.conv.cur then
        var f := Flush(st); f.(conv := f.conv.(cur := e.username))
      else st;
      if e.username != st.conv.cur {
        SwitchKeepsInv(st, e.username);
      }
      if keep(e.username) && 1 <= e.month <= 12 {
        RecordKeepsInv(st1, e, me);
      }
    }
  }

  /** Moving to a new conversation flushes the old one and starts empty. */
  lemma SwitchKeepsInv(st: FoldState, u: string)
    requires Inv(st) && u != ""
    ensures var f := Flush(st); Inv(f.(conv := f.conv.(cur := u)))
  {
    FlushKeepsInv(st);
    SumMonthsEmpty(Replies, 12);
    SumMonthsEmpty(Incoming, 12);
  }

  /** Recording one message of the current conversation into its month. */
  lemma RecordKeepsInv(st1: FoldState, e: Event, me: string)
    requires Inv(st1) && Valid(e) && st1.conv.cur == e.username && 1 <= e.month <= 12
    ensures var aggs := st1.conv.aggs;
      var prior := if e.month in aggs then aggs[e.month] else NewAgg(e.username, e.month);
      var rec := Record(Observe(prior, e.day, e.hour), e.ts, e.sender == me, st1.conv.pending);
      Inv(st1.(conv := Conv(st1.conv.cur, aggs[e.month := rec.0], rec.1)))
  {
    var aggs := st1.conv.aggs;
    var prior := if e.month in aggs then aggs[e.month] else NewAgg(e.username, e.month);
    var seen := Observe(prior, e.day, e.hour);
    var rec := Record(seen, e.ts, e.sender == me, st1.conv.pending);
    SumMonthsUpdate(aggs, Replies, 12, e.month, rec.0);
    SumMonthsUpdate(aggs, Incoming, 12, e.month, rec.0);
  }

  lemma {:induction false} FoldKeepsInv(events: seq<Event>, me: string, keep: string -> bool)
    ensures Inv(Fold(events, me, keep))
  {
    if |events| > 0 {
      FoldKeepsInv(events[..|events| - 1], me, keep);
      StepKeepsInv(Fold(events[..|events| - 1], me, keep), events[|events| - 1], me, keep);
    }
  }

  /** Every pooled record satisfies replies <= outgoing,
      capped gap sum <= gap sum, capped gap sum <= replies * 6h, a mask within
      four bits, days within 1..31, a positive total and its pool's month. */
  lemma PoolsWellFormed(events: seq<Event>, me: string, keep: string -> bool)
    ensures PoolsInv(Pools(events, me, keep))
  {
    FoldKeepsInv(events, me, keep);
    FlushKeepsInv(Fold(events, me, keep));
  }

  // ---------------------------------------------------------------------
  // One record per (conversation, month) when the input is grouped

  /** Index of the last valid row, or -1. */
  function LastValid(es: seq<Event>): (r: int)
    ensures -1 <= r < |es|
    ensures r >= 0 ==> Valid(es[r])
    ensures forall j :: r < j < |es| ==> !Valid(es[j])
  {
    if |es| == 0 then -1
    else if Valid(es[|es| - 1]) then |es| - 1
    else LastValid(es[..|es| - 1])
  }

  /** The conversation the pass is reading after `es`. */
  function LastName(es: seq<Event>): string {
    var r := LastValid(es);
    if r < 0 then "" else es[r].username
  }

  predicate Seen(es: seq<Event>, u: string) {
    exists j :: 0 <= j < |es| && Valid(es[j]) && es[j].username == u
  }

  predicate DistinctNames(pool: seq<Agg>) {
    forall k1, k2 :: 0 <= k1 < k2 < |pool| ==> pool[k1].username != pool[k2].username
  }

  predicate TrackInv(st: FoldState, es: seq<Event>) {
    && |st.pools| == 12
    && st.conv.cur == LastName(es)
    && (forall i, k :: 0 <= i < 12 && 0 <= k < |st.pools[i]| ==>
          st.pools[i][k].username != st.conv.cur && Seen(es, st.pools[i][k].username))
    && (forall i :: 0 <= i < 12 ==> DistinctNames(st.pools[i]))
  }

  /** In grouped input, a conversation seen before the next row of the same
      conversation is still the one being read. */
  lemma GroupedLast(es: seq<Event>, e: Event, j: int)
    requires Grouped(es + [e])
    requires 0 <= j < |es| && Valid(es[j]) && es[j].username == e.username
    ensures LastName(es) == e.username
  {
    var r := LastValid(es);
    assert j <= r;
    if j < r {
      var all := es + [e];
      assert all[j] == es[j] && all[r] == es[r] && all[|es|] == e;
    }
  }

  lemma LastOfAppend(es: seq<Event>, e: Event)
    ensures LastName(es + [e]) == if Valid(e) then e.username else LastName(es)
    ensures forall u :: Seen(es, u) ==> Seen(es + [e], u)
  {
    assert (es + [e])[..|es|] == es;
    forall u | Seen(es, u) ensures Seen(es + [e], u) {
      var j :| 0 <= j < |es| && Valid(es[j]) && es[j].username == u;
      assert (es + [e])[j] == es[j];
    }
  }

  /** A row only touches the pools through the flush of a conversation
      switch, and a valid row makes its conversation the current one. */
  lemma StepShape(st: FoldState, e: Event, me: string, keep: string -> bool)
    requires |st.pools| == 12
    ensures Step(st, e, me, keep).pools ==
      if Valid(e) && e.username != st.conv.cur then Flush(st).pools else st.pools
    ensures Step(st, e, me, keep).conv.cur == if Valid(e) then e.username else st.conv.cur
  {
  }

  lemma SwitchFresh(st: FoldState, es: seq<Event>, e: Event)
    requires TrackInv(st, es)
    requires Grouped(es + [e])
    requires Valid(e) && e.username != st.conv.cur
    ensures forall i, k :: 0 <= i < 12 && 0 <= k < |st.pools[i]| ==> st.pools[i][k].username != e.username
  {
    forall i, k | 0 <= i < 12 && 0 <= k < |st.pools[i]| ensures st.pools[i][k].username != e.username {
      if st.pools[i][k].username == e.username {
        var j :| 0 <= j < |es| && Valid(es[j]) && es[j].username == e.username;
        GroupedLast(es, e, j);
      }
    }
  }

  /** Flushing the current conversation keeps every pool free of repeats and
      adds only that conversation's records. */
  lemma FlushTracks(st: FoldState, es: seq<Event>)
    requires Inv(st) && TrackInv(st, es)
    ensures forall i :: 0 <= i < 12 ==> DistinctNames(Flush(st).pools[i])
    ensures forall i, k :: 0 <= i < 12 && 0 <= k < |Flush(st).pools[i]| ==>
      Flush(st).pools[i][k].username == st.conv.cur || k < |st.pools[i]|
    ensures forall i, k :: 0 <= i < 12 && 0 <= k < |st.pools[i]| ==>
      k < |Flush(st).pools[i]| && Flush(st).pools[i][k] == st.pools[i][k]
  {
    var f := Flush(st);
    if st.conv.cur != "" {
      forall i | 0 <= i < 12
        ensures DistinctNames(f.pools[i])
        ensures forall k :: 0 <= k < |f.pools[i]| ==> f.pools[i][k].username == st.conv.cur || k < |st.pools[i]|
        ensures forall k :: 0 <= k < |st.pools[i]| ==> k < |f.pools[i]| && f.pools[i][k] == st.pools[i][k]
      {
        if i + 1 in st.conv.aggs && Total(st.conv.aggs[i + 1]) > 0 {
          assert f.pools[i] == st.pools[i] + [st.conv.aggs[i + 1]];
        } else {
          assert f.pools[i] == st.pools[i];
        }
      }
    }
  }

  lemma StepTracks(st: FoldState, es: seq<Event>, e: Event, me: string, keep: string -> bool)
    requires Inv(st) && TrackInv(st, es)
    requires Grouped(es + [e])
    ensures TrackInv(Step(st, e, me, keep), es + [e])
  {
    LastOfAppend(es, e);
    StepShape(st, e, me, keep);
    var r := Step(st, e, me, keep);
    if Valid(e) && e.username != st.conv.cur {
      SwitchFresh(st, es, e);
      FlushTracks(st, es);
      if st.conv.cur != "" {
        assert Seen(es, st.conv.cur) by {
          assert Valid(es[LastValid(es)]);
        }
      }
      forall i, k | 0 <= i < 12 && 0 <= k < |r.pools[i]|
        ensures r.pools[i][k].username != r.conv.cur && Seen(es + [e], r.pools[i][k].username)
      {
        if k >= |st.pools[i]| {
          assert r.pools[i][k].username == st.conv.cur;
        }
      }
    }
  }

  lemma {:induction false} FoldTracks(events: seq<Event>, me: string, keep: string -> bool)
    requires Grouped(events)
    ensures TrackInv(Fold(events, me, keep), events)
  {
    if |events| > 0 {
      var init := events[..|events| - 1];
      var last := events[|events| - 1];
      assert events == init + [last];
      assert Grouped(init);
      FoldTracks(init, me, keep);
      FoldKeepsInv(init, me, keep);
      StepTracks(Fold(init, me, keep), init, last, me, keep);
    }
  }

  /** With input grouped by conversation, no conversation appears twice in
      any month's pool. */
  lemma PoolsDistinct(events: seq<Event>, me: string, keep: string -> bool)
    requires Grouped(events)
    ensures forall i :: 0 <= i < 12 ==> DistinctNames(Pools(events, me, keep)[i])
  {
    var st := Fold(events, me, keep);
    FoldTracks(events, me, keep);
    FoldKeepsInv(events, me, keep);
    if st.conv.cur != "" {
      var p := Pools(events, me, keep);
      forall i | 0 <= i < 12 ensures DistinctNames(p[i]) {
        if i + 1 in st.conv.aggs && Total(st.conv.aggs[i + 1]) > 0 {
          assert p[i] == st.pools[i] + [st.conv.aggs[i + 1]];
        }
      }
    }
  }

  // ---------------------------------------------------------------------
  // The reply-gap scenario

  function KeepAll(u: string): bool {
    true
  }

  /** A kept row of the conversation being read, in a valid month, runs
      the reply state machine on that month's record and nothing else. */
  lemma StepWithinConversation(st: FoldState, e: Event, me: string, keep: string -> bool)
    requires |st.pools| == 12
    requires Valid(e) && keep(e.username) && 1 <= e.month <= 12
    requires st.conv.cur == e.username || (st.conv.cur == "" && st.conv.aggs == map[] && st.conv.pending.None?)
    ensures var prior := if e.month in st.conv.aggs then st.conv.aggs[e.month] else NewAgg(e.username, e.month);
            var rec := Record(Observe(prior, e.day, e.hour), e.ts, e.sender == me, st.conv.pending);
            Step(st, e, me, keep) == FoldState(Conv(e.username, st.conv.aggs[e.month := rec.0], rec.1), st.pools)
  {
  }

  function ScenarioEvents(t0: int): seq<Event> {
    [Event("u", "u", t0, 3, 5, 10), Event("u", "me", t0 + 60, 3, 5, 10), Event("u", "me", t0 + 120, 3, 5, 10)]
  }

  lemma ScenarioFirst(t0: int)
    requires t0 > 0
    ensures Fold(ScenarioEvents(t0)[..1], "me", KeepAll).conv.pending == Some(t0)
    ensures Fold(ScenarioEvents(t0)[..1], "me", KeepAll).conv.cur == "u"
    ensures Fold(ScenarioEvents(t0)[..1], "me", KeepAll).conv.aggs.Keys == {3}
    ensures Fold(ScenarioEvents(t0)[..1], "me", KeepAll).conv.aggs[3].replies == 0
    ensures Fold(ScenarioEvents(t0)[..1], "me", KeepAll).conv.aggs[3].sumGap == 0
    ensures Fold(ScenarioEvents(t0)[..1], "me", KeepAll).conv.aggs[3].outgoing == 0
    ensures Fold(ScenarioEvents(t0)[..1], "me", KeepAll).conv.aggs[3].incoming == 1
    ensures Fold(ScenarioEvents(t0)[..1], "me", KeepAll).pools == EmptyPools()
  {
    var es := ScenarioEvents(t0)[..1];
    assert es[..0] == [];
    StepWithinConversation(Start(), es[0], "me", KeepAll);
  }

  lemma ScenarioSecond(t0: int)
    requires t0 > 0
    ensures Fold(ScenarioEvents(t0)[..2], "me", KeepAll).conv.pending.None?
    ensures Fold(ScenarioEvents(t0)[..2], "me", KeepAll).conv.cur == "u"
    ensures Fold(ScenarioEvents(t0)[..2], "me", KeepAll).conv.aggs.Keys == {3}
    ensures Fold(ScenarioEvents(t0)[..2], "me", KeepAll).conv.aggs[3].replies == 1
    ensures Fold(ScenarioEvents(t0)[..2], "me", KeepAll).conv.aggs[3].sumGap == 60
    ensures Fold(ScenarioEvents(t0)[..2], "me", KeepAll).conv.aggs[3].sumGapCapped == 60
    ensures Fold(ScenarioEvents(t0)[..2], "me", KeepAll).conv.aggs[3].outgoing == 1
    ensures Fold(ScenarioEvents(t0)[..2], "me", KeepAll).conv.aggs[3].incoming == 1
    ensures Fold(ScenarioEvents(t0)[..2], "me", KeepAll).pools == EmptyPools()
  {
    var es := ScenarioEvents(t0)[..2];
    assert es[..1] == ScenarioEvents(t0)[..1];
    ScenarioFirst(t0);
    StepWithinConversation(Fold(es[..1], "me", KeepAll), es[1], "me", KeepAll);
  }

  lemma ScenarioThird(t0: int)
    requires t0 > 0
    ensures Fold(ScenarioEvents(t0), "me", KeepAll).conv.cur == "u"
    ensures Fold(ScenarioEvents(t0), "me", KeepAll).conv.aggs.Keys == {3}
    ensures Fold(ScenarioEvents(t0), "me", KeepAll).conv.aggs[3].replies == 1
    ensures Fold(ScenarioEvents(t0), "me", KeepAll).conv.aggs[3].sumGap == 60
    ensures Fold(ScenarioEvents(t0), "me", KeepAll).conv.aggs[3].sumGapCapped == 60
    ensures Fold(ScenarioEvents(t0), "me", KeepAll).conv.aggs[3].outgoing == 2
    ensures Fold(ScenarioEvents(t0), "me", KeepAll).conv.aggs[3].incoming == 1
    ensures Fold(ScenarioEvents(t0), "me", KeepAll).pools == EmptyPools()
  {
    var es := ScenarioEvents(t0);
    assert es[..2] == ScenarioEvents(t0)[..2];
    ScenarioSecond(t0);
    StepWithinConversation(Fold(es[..2], "me", KeepAll), es[2], "me", KeepAll);
  }

  /** incoming@t0, outgoing@t0+60, outgoing@t0+120 in one month: the second
      outgoing message is not credited, so the month has one reply with a
      summed gap of 60 seconds. */
  lemma ReplyScenario(t0: int)
    requires t0 > 0
    ensures var pool := Pools(ScenarioEvents(t0), "me", KeepAll)[2];
            && |pool| == 1
            && pool[0].incoming == 1 && pool[0].outgoing == 2
            && pool[0].replies == 1 && pool[0].sumGap == 60 && pool[0].sumGapCapped == 60
  {
    ScenarioThird(t0);
  }
}
