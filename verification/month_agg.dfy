/** The per-(conversation, month) statistics record of the monthly
    best-friend card (`_MonthConvAgg`): counters, the active-day set and the
    4-bit time-of-day mask (a `bv4`: the source only ever sets bits 0..3, so its `mask & 0xF` is the whole mask), with the derived figures the selector reads. */
module MonthAgg {

  /** Reply gaps count at most six hours towards the capped sum. */
  const GapCapSeconds: nat := 6 * 60 * 60

  /** `min(gap, gap_cap_seconds)`: the gap, or the cap when the gap is
      longer. */
  function CappedGap(gap: nat): (c: nat)
    ensures c <= gap && c <= GapCapSeconds
    ensures c == gap || c == GapCapSeconds
  {
    if gap < GapCapSeconds then gap else GapCapSeconds
  }

  datatype Agg = Agg(
    username: string,
    month: int,
    incoming: nat,
    outgoing: nat,
    replies: nat,
    sumGap: nat,
    sumGapCapped: nat,
    activeDays: set<int>,
    bucketMask: bv4)

  /** A fresh record, as created lazily on the first event of its month. */
  function NewAgg(username: string, month: int): Agg {
    Agg(username, month, 0, 0, 0, 0, 0, {}, 0)
  }

  function Total(a: Agg): nat {
    a.incoming + a.outgoing
  }

  function Interaction(a: Agg): nat {
    if a.incoming <= a.outgoing then a.incoming else a.outgoing
  }

  function ActiveDaysCount(a: Agg): nat {
    |a.activeDays|
  }

  /** Bit `b` of the mask. */
  predicate HasBucket(mask: bv4, b: int)
    requires 0 <= b < 4
  {
    (mask >> b) & 1 == 1
  }

  /** The buckets a mask records. */
  function Buckets(mask: bv4): set<int> {
    Singleton(mask, 0) + Singleton(mask, 1) + Singleton(mask, 2) + Singleton(mask, 3)
  }

  function Singleton(mask: bv4, b: int): set<int>
    requires 0 <= b < 4
  {
    if HasBucket(mask, b) then {b} else {}
  }

  function Bit(mask: bv4, b: int): nat
    requires 0 <= b < 4
  {
    if HasBucket(mask, b) then 1 else 0
  }

  /** Population count of the mask: the number of distinct six-hour windows
      the month touched. */
  function TimeBucketCount(a: Agg): (r: nat)
    ensures r <= 4
    ensures r == |Buckets(a.bucketMask)|
  {
    var m := a.bucketMask;
    BucketCountIsCardinality(m);
    Bit(m, 0) + Bit(m, 1) + Bit(m, 2) + Bit(m, 3)
  }

  lemma BucketCountIsCardinality(m: bv4)
    ensures Bit(m, 0) + Bit(m, 1) + Bit(m, 2) + Bit(m, 3) == |Buckets(m)|
  {
    var s0, s1, s2, s3 := Singleton(m, 0), Singleton(m, 1), Singleton(m, 2), Singleton(m, 3);
    assert |s0 + s1| == |s0| + |s1|;
    assert |s0 + s1 + s2| == |s0 + s1| + |s2|;
    assert |s0 + s1 + s2 + s3| == |s0 + s1 + s2| + |s3|;
  }

  /** The six-hour window of an hour: `max(0, min(3, hour // 6))`.  Python's
      floor division and Dafny's Euclidean division agree for the positive
      divisor 6. */
  function BucketOf(hour: int): (b: int)
    ensures 0 <= b < 4
    ensures 0 <= hour < 24 ==> b * 6 <= hour < b * 6 + 6
  {
    var q := hour / 6;
    if q < 0 then 0 else if q > 3 then 3 else q
  }

  /** `mask |= 1 << b`. */
  function SetBucket(mask: bv4, b: int): (r: bv4)
    requires 0 <= b < 4
    ensures Buckets(r) == Buckets(mask) + {b}
  {
    mask | (1 << b)
  }

  /** `observe(day=…, hour=…)`: a day of month 1..31 joins the active-day
      set (any other value is ignored) and the hour's window joins the mask;
      the counters do not change. */
  function Observe(a: Agg, day: int, hour: int): (r: Agg)
    ensures Buckets(r.bucketMask) == Buckets(a.bucketMask) + {BucketOf(hour)}
    ensures r.activeDays == if 1 <= day <= 31 then a.activeDays + {day} else a.activeDays
    ensures r == a.(activeDays := r.activeDays, bucketMask := r.bucketMask)
  {
    var days := if 1 <= day <= 31 then a.activeDays + {day} else a.activeDays;
    a.(activeDays := days, bucketMask := SetBucket(a.bucketMask, BucketOf(hour)))
  }

  /** The bounds every record produced by the reply state machine keeps. */
  predicate WellFormed(a: Agg) {
    && a.replies <= a.outgoing
    && a.sumGapCapped <= a.sumGap
    && a.sumGapCapped <= a.replies * GapCapSeconds
    && (forall d :: d in a.activeDays ==> 1 <= d <= 31)
  }
}
