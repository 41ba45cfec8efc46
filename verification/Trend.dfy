/** Trend points of the OAuth client statistics. Times are nanoseconds since the Unix epoch, in UTC. */
module Trend {
  const SECOND := 1_000_000_000
  const HOUR := 3600 * SECOND

  /** Any name but "day" means hours. */
  function Width(bucket: string): (w: int)
    ensures w > 0 && w % SECOND == 0
  {
    if bucket == "day" then 24 * HOUR else HOUR
  }

  /** Time.Unix: whole seconds, rounded down. */
  function Unix(t: int): int { t / SECOND }

  /** Both time.Date at midnight and Truncate(time.Hour) round down, since the zero time and the Unix epoch
      are whole days apart. */
  function TruncateTimeByBucket(t: int, bucket: string): int { t / Width(bucket) * Width(bucket) }

  function NextTimeBucketStart(t: int, bucket: string): int { t + Width(bucket) }

  predicate InRange(t: int, from: int, until: int) { !(t < from) && !(t > until) }

  // ---------- what is counted ----------

  function InRangeCount(times: seq<int>, from: int, until: int): nat {
    if times == [] then 0
    else InRangeCount(times[..|times| - 1], from, until) + if InRange(times[|times| - 1], from, until) then 1 else 0
  }

  /** An event that is counted under the bucket with this Unix time. */
  predicate LandsAt(t: int, from: int, until: int, bucket: string, unix: int) {
    InRange(t, from, until) && Unix(TruncateTimeByBucket(t, bucket)) == unix
  }

  function CountAt(times: seq<int>, from: int, until: int, bucket: string, unix: int): nat {
    if times == [] then 0
    else CountAt(times[..|times| - 1], from, until, bucket, unix) + if LandsAt(times[|times| - 1], from, until, bucket, unix) then 1 else 0
  }

  function Lookup(counts: map<int, nat>, k: int): nat { if k in counts then counts[k] else 0 }

  datatype Point = Point(bucketStart: int, authorizationCreated: nat, tokenIssued: nat)

  function Total(points: seq<Point>): nat {
    if points == [] then 0 else Total(points[..|points| - 1]) + points[|points| - 1].authorizationCreated
  }

  // ---------- the loops ----------

  method AggregateTrendCountsFromTimes(times: seq<int>, from: int, until: int, bucket: string) returns (counts: map<int, nat>)
    ensures forall unix :: Lookup(counts, unix) == CountAt(times, from, until, bucket, unix)
  {
    counts := map[];
    for i := 0 to |times|
      invariant forall unix :: Lookup(counts, unix) == CountAt(times[..i], from, until, bucket, unix)
    {
      var eventTime := times[i];
      assert times[..i + 1][..i] == times[..i];
      if eventTime < from || eventTime > until { continue; }
      var bucketStart := TruncateTimeByBucket(eventTime, bucket);
      counts := counts[Unix(bucketStart) := Lookup(counts, Unix(bucketStart)) + 1];
    }
    assert times[..|times|] == times;
  }

  /** The counter of the statistics handler. */
  method CountInRange(handled: seq<int>, from: int, until: int) returns (authorizationTimes: seq<int>, authorizationCreatedInRange: nat)
    ensures authorizationTimes == handled && authorizationCreatedInRange == InRangeCount(handled, from, until)
  {
    authorizationTimes, authorizationCreatedInRange := [], 0;
    for i := 0 to |handled|
      invariant authorizationTimes == handled[..i] && authorizationCreatedInRange == InRangeCount(handled[..i], from, until)
    {
      var handledAt := handled[i];
      assert handled[..i + 1][..i] == handled[..i];
      authorizationTimes := authorizationTimes + [handledAt];
      if !(handledAt < from) && !(handledAt > until) { authorizationCreatedInRange := authorizationCreatedInRange + 1; }
    }
    assert handled[..|handled|] == handled;
  }

  /** The start of point `i`. */
  function Start(from: int, bucket: string, i: nat): int { TruncateTimeByBucket(from, bucket) + i * Width(bucket) }

  function PointAt(from: int, bucket: string, i: nat, authorizationCounts: map<int, nat>, tokenCounts: map<int, nat>): Point {
    var unix := Unix(Start(from, bucket, i));
    Point(Start(from, bucket, i), Lookup(authorizationCounts, unix), Lookup(tokenCounts, unix))
  }

  /** One point for every bucket from the one that holds `from` to the last that starts by `until`. */
  ghost predicate PointsFor(points: seq<Point>, from: int, until: int, bucket: string, authorizationCounts: map<int, nat>, tokenCounts: map<int, nat>) {
    && (forall i | 0 <= i < |points| :: points[i] == PointAt(from, bucket, i, authorizationCounts, tokenCounts))
    && (|points| > 0 ==> Start(from, bucket, |points| - 1) <= until)
    && Start(from, bucket, |points|) > until
  }

  method BuildTrendPointsFromCounts(from: int, until: int, bucket: string, authorizationCounts: map<int, nat>, tokenCounts: map<int, nat>)
    returns (points: seq<Point>)
    ensures PointsFor(points, from, until, bucket, authorizationCounts, tokenCounts)
  {
    hide Start;
    points := [];
    var cursor := TruncateTimeByBucket(from, bucket);
    FirstStart(from, bucket);
    while cursor <= until
      invariant cursor == Start(from, bucket, |points|)
      invariant forall i | 0 <= i < |points| :: points[i] == PointAt(from, bucket, i, authorizationCounts, tokenCounts)
      invariant |points| > 0 ==> Start(from, bucket, |points| - 1) <= until
      decreases until - cursor
    {
      var bucketUnix := Unix(cursor);
      NextStart(from, bucket, |points|);
      points := points + [Point(cursor, Lookup(authorizationCounts, bucketUnix), Lookup(tokenCounts, bucketUnix))];
      cursor := NextTimeBucketStart(cursor, bucket);
    }
  }

  lemma FirstStart(from: int, bucket: string)
    ensures Start(from, bucket, 0) == TruncateTimeByBucket(from, bucket)
  {}

  lemma NextStart(from: int, bucket: string, i: nat)
    ensures Start(from, bucket, i + 1) == Start(from, bucket, i) + Width(bucket)
  {}

  /** The events of the range that fall between two times. */
  function Between(times: seq<int>, from: int, until: int, start: int, end: int): set<int> {
    set k | 0 <= k < |times| && from <= times[k] <= until && start <= times[k] < end
  }

  /** The points are the whole days, or hours, from the one that holds `from` to the one that holds `until`. */
  ghost predicate Covers(points: seq<Point>, from: int, until: int, span: int)
    requires span > 0
  {
    && (forall i | 0 <= i < |points| :: points[i].bucketStart % span == 0)
    && (forall i | 0 <= i < |points| - 1 :: points[i + 1].bucketStart == points[i].bucketStart + span)
    && (points == [] <==> until < from - from % span)
    && (points != [] ==>
          && points[0].bucketStart <= from < points[0].bucketStart + span
          && points[|points| - 1].bucketStart <= until < points[|points| - 1].bucketStart + span)
  }

  /** Each point counts the events of the range that fall into its day, or hour, and no tokens. */
  ghost predicate Counted(points: seq<Point>, from: int, until: int, span: int, times: seq<int>) {
    forall i | 0 <= i < |points| :: points[i].tokenIssued == 0
      && points[i].authorizationCreated == |Between(times, from, until, points[i].bucketStart, points[i].bucketStart + span)|
  }

  /** The trend of a client, and the count that the handler reports beside it: they agree, whatever the
      range; and for a range that is not empty the points fit the capacity they were given. */
  method BuildTrend(from: int, until: int, bucket: string, handled: seq<int>) returns (points: seq<Point>, inRange: nat)
    ensures Total(points) == inRange == InRangeCount(handled, from, until)
    ensures bucket == "day" ==> Covers(points, from, until, 86_400_000_000_000) && Counted(points, from, until, 86_400_000_000_000, handled)
    ensures bucket != "day" ==> Covers(points, from, until, 3_600_000_000_000) && Counted(points, from, until, 3_600_000_000_000, handled)
    ensures inRange == |Between(handled, from, until, from, until + 1)|
    ensures from <= until ==> |points| <= (until - from) / Width(bucket) + 2
    ensures forall t | t in handled && InRange(t, from, until) ::
      exists i :: 0 <= i < |points| && Holds(points[i], bucket, t) && forall j :: 0 <= j < |points| && Holds(points[j], bucket, t) ==> j == i
  {
    var authorizationTimes;
    authorizationTimes, inRange := CountInRange(handled, from, until);
    var counts := AggregateTrendCountsFromTimes(authorizationTimes, from, until, bucket);
    var tokenCounts := AggregateTrendCountsFromTimes([], from, until, bucket);
    points := BuildTrendPointsFromCounts(from, until, bucket, counts, tokenCounts);
    Conservation(points, from, until, bucket, counts, tokenCounts, handled);
    PointsCover(points, from, until, bucket, counts, tokenCounts);
    PointsCounted(points, from, until, bucket, counts, tokenCounts, handled);
    InRangeBetween(handled, from, until);
    WidthIs(bucket);
    if from <= until { PointCount(points, from, until, bucket, counts, tokenCounts); }
    forall t | t in handled && InRange(t, from, until)
      ensures exists i :: 0 <= i < |points| && Holds(points[i], bucket, t) && forall j :: 0 <= j < |points| && Holds(points[j], bucket, t) ==> j == i
    {
      OnePoint(points, from, until, bucket, counts, tokenCounts, t);
      assert Holds(points[IndexOf(t, from, bucket)], bucket, t);
    }
  }

  // ---------- conservation ----------

  /** The point's bucket holds time `t`. */
  predicate Holds(p: Point, bucket: string, t: int) { p.bucketStart <= t < p.bucketStart + Width(bucket) }

  /** The index of the bucket of `t`. */
  function IndexOf(t: int, from: int, bucket: string): int { t / Width(bucket) - from / Width(bucket) }

  lemma TimesMonotone(a: int, b: int, w: int)
    requires w > 0 && a <= b
    ensures a * w <= b * w
  {
    assert (b - a) * w >= 0;
  }

  lemma Multiples(a: int, b: int, w: int)
    requires w > 0
    ensures a * w <= b <==> a <= b / w
    ensures a < b ==> a * w + w <= b * w
  {
    Distribute(a, 1, w);
    Distribute(b / w, 1, w);
    assert b / w * w <= b < b / w * w + w;
    if a <= b / w { TimesMonotone(a, b / w, w); } else { TimesMonotone(b / w + 1, a, w); }
    if a < b { TimesMonotone(a + 1, b, w); }
  }

  /** Point `i` starts at a multiple of the width. */
  lemma StartAt(from: int, bucket: string, i: nat)
    ensures Start(from, bucket, i) == (from / Width(bucket) + i) * Width(bucket)
  {
    Distribute(from / Width(bucket), i, Width(bucket));
  }

  lemma Distribute(a: int, b: int, w: int)
    ensures (a + b) * w == a * w + b * w
  {}

  /** The number of points, from the two ends of the range. */
  lemma Count(points: seq<Point>, from: int, until: int, bucket: string, authorizationCounts: map<int, nat>, tokenCounts: map<int, nat>)
    requires PointsFor(points, from, until, bucket, authorizationCounts, tokenCounts)
    ensures |points| == if IndexOf(until, from, bucket) < 0 then 0 else IndexOf(until, from, bucket) + 1
  {
    hide Width, Start;
    var w, q, n := Width(bucket), from / Width(bucket), |points|;
    StartAt(from, bucket, n);
    Multiples(q + n, until, w);
    if n > 0 {
      StartAt(from, bucket, n - 1);
      Multiples(q + n - 1, until, w);
    }
  }

  lemma FloorDifference(a: int, b: int, w: int)
    requires w > 0
    ensures b / w - a / w <= (b - a) / w + 1
  {
    Multiples(b / w, b, w);
    Multiples(b / w - a / w - 1, b - a, w);
    Distribute(b / w, -(a / w) - 1, w);
    assert a == a / w * w + a % w;
    assert (b / w - a / w - 1) * w == b / w * w - a / w * w - w;
  }

  lemma PointCount(points: seq<Point>, from: int, until: int, bucket: string, authorizationCounts: map<int, nat>, tokenCounts: map<int, nat>)
    requires PointsFor(points, from, until, bucket, authorizationCounts, tokenCounts) && from <= until
    ensures |points| <= (until - from) / Width(bucket) + 2
  {
    Count(points, from, until, bucket, authorizationCounts, tokenCounts);
    FloorDifference(from, until, Width(bucket));
  }

  lemma HeldBy(from: int, bucket: string, i: nat, t: int)
    ensures Start(from, bucket, i) <= t < Start(from, bucket, i) + Width(bucket) <==> i == IndexOf(t, from, bucket)
  {
    var w, q := Width(bucket), from / Width(bucket);
    StartAt(from, bucket, i);
    Multiples(q + i, t, w);
    Multiples(q + i + 1, t, w);
    Distribute(q + i, 1, w);
  }

  /** Each event in the range lies in the bucket of exactly one point. */
  lemma OnePoint(points: seq<Point>, from: int, until: int, bucket: string, authorizationCounts: map<int, nat>, tokenCounts: map<int, nat>, t: int)
    requires PointsFor(points, from, until, bucket, authorizationCounts, tokenCounts) && InRange(t, from, until)
    ensures 0 <= IndexOf(t, from, bucket) < |points|
    ensures forall i | 0 <= i < |points| :: Holds(points[i], bucket, t) <==> i == IndexOf(t, from, bucket)
  {
    hide Width, Start;
    var w := Width(bucket);
    Count(points, from, until, bucket, authorizationCounts, tokenCounts);
    Multiples(from / w, from, w);
    Multiples(from / w, t, w);
    Multiples(t / w, t, w);
    Multiples(t / w, until, w);
    forall i | 0 <= i < |points| ensures Holds(points[i], bucket, t) <==> i == IndexOf(t, from, bucket) {
      HeldBy(from, bucket, i, t);
    }
  }

  lemma UnixOf(a: int, bucket: string)
    ensures Unix(a * Width(bucket)) == a * (Width(bucket) / SECOND) && Width(bucket) / SECOND > 0
  {}

  /** An event is counted under point `i` exactly if it is in range and `i` is the index of its bucket. */
  lemma LandsIff(t: int, from: int, until: int, bucket: string, i: nat)
    ensures LandsAt(t, from, until, bucket, Unix(Start(from, bucket, i))) <==> InRange(t, from, until) && i == IndexOf(t, from, bucket)
  {
    hide Width, Unix;
    var w, q := Width(bucket), from / Width(bucket);
    StartAt(from, bucket, i);
    UnixOf(t / w, bucket);
    UnixOf(q + i, bucket);
    Multiples(t / w, 0, w / SECOND);
    Multiples(q + i, 0, w / SECOND);
  }

  /** The counts of the first `n` points together. */
  function SumCounts(times: seq<int>, from: int, until: int, bucket: string, n: nat): nat {
    if n == 0 then 0
    else SumCounts(times, from, until, bucket, n - 1) + CountAt(times, from, until, bucket, Unix(Start(from, bucket, n - 1)))
  }

  lemma {:induction false} SumOne(times: seq<int>, from: int, until: int, bucket: string, n: nat)
    requires times != []
    ensures var last, t := |times| - 1, times[|times| - 1];
      SumCounts(times, from, until, bucket, n) == SumCounts(times[..last], from, until, bucket, n)
        + if InRange(t, from, until) && 0 <= IndexOf(t, from, bucket) < n then 1 else 0
  {
    if n > 0 {
      SumOne(times, from, until, bucket, n - 1);
      LandsIff(times[|times| - 1], from, until, bucket, n - 1);
    }
  }

  lemma {:induction false} SumNone(from: int, until: int, bucket: string, n: nat)
    ensures SumCounts([], from, until, bucket, n) == 0
  {
    if n > 0 { SumNone(from, until, bucket, n - 1); }
  }

  lemma {:induction false} SumIsInRange(times: seq<int>, from: int, until: int, bucket: string, n: nat)
    requires forall t :: InRange(t, from, until) ==> 0 <= IndexOf(t, from, bucket) < n
    ensures SumCounts(times, from, until, bucket, n) == InRangeCount(times, from, until)
  {
    if times == [] {
      SumNone(from, until, bucket, n);
    } else {
      SumOne(times, from, until, bucket, n);
      SumIsInRange(times[..|times| - 1], from, until, bucket, n);
    }
  }

  lemma {:induction false} TotalIsSum(points: seq<Point>, from: int, until: int, bucket: string, authorizationCounts: map<int, nat>, times: seq<int>)
    requires forall i | 0 <= i < |points| :: points[i].authorizationCreated == Lookup(authorizationCounts, Unix(Start(from, bucket, i)))
    requires forall unix :: Lookup(authorizationCounts, unix) == CountAt(times, from, until, bucket, unix)
    ensures Total(points) == SumCounts(times, from, until, bucket, |points|)
  {
    if points != [] { TotalIsSum(points[..|points| - 1], from, until, bucket, authorizationCounts, times); }
  }

  /** The points together count every event in the range once. */
  lemma Conservation(points: seq<Point>, from: int, until: int, bucket: string, authorizationCounts: map<int, nat>, tokenCounts: map<int, nat>, times: seq<int>)
    requires PointsFor(points, from, until, bucket, authorizationCounts, tokenCounts)
    requires forall unix :: Lookup(authorizationCounts, unix) == CountAt(times, from, until, bucket, unix)
    ensures Total(points) == InRangeCount(times, from, until)
  {
    hide Start, IndexOf;
    TotalIsSum(points, from, until, bucket, authorizationCounts, times);
    forall t | InRange(t, from, until) ensures 0 <= IndexOf(t, from, bucket) < |points| {
      OnePoint(points, from, until, bucket, authorizationCounts, tokenCounts, t);
    }
    SumIsInRange(times, from, until, bucket, |points|);
  }

  // ---------- the points, in whole days or hours ----------

  lemma WidthIs(bucket: string)
    ensures Width(bucket) == if bucket == "day" then 86_400_000_000_000 else 3_600_000_000_000
  {}

  lemma DivMod(x: int, w: int)
    requires w > 0
    ensures x == x / w * w + x % w && 0 <= x % w < w
  {}

  lemma WholeBy(x: int, a: int, w: int)
    requires w > 0 && x == a * w
    ensures x % w == 0
  {
    Multiples(a, x, w);
    Multiples(a + 1, x, w);
    Distribute(a, 1, w);
    DivMod(x, w);
  }

  lemma StartIsWhole(from: int, bucket: string, i: nat)
    ensures Start(from, bucket, i) % Width(bucket) == 0
  {
    hide Width, Start;
    StartAt(from, bucket, i);
    WholeBy(Start(from, bucket, i), from / Width(bucket) + i, Width(bucket));
  }

  lemma PointsCover(points: seq<Point>, from: int, until: int, bucket: string, authorizationCounts: map<int, nat>, tokenCounts: map<int, nat>)
    requires PointsFor(points, from, until, bucket, authorizationCounts, tokenCounts)
    ensures Covers(points, from, until, Width(bucket))
  {
    hide Width, Start;
    forall i | 0 <= i < |points| ensures points[i].bucketStart % Width(bucket) == 0 { StartIsWhole(from, bucket, i); }
    forall i | 0 <= i < |points| - 1 ensures points[i + 1].bucketStart == points[i].bucketStart + Width(bucket) {
      NextStart(from, bucket, i);
    }
    FirstStart(from, bucket);
    DivMod(from, Width(bucket));
    if points != [] {
      NextStart(from, bucket, |points| - 1);
      StartAt(from, bucket, |points| - 1);
      TimesMonotone(from / Width(bucket), from / Width(bucket) + |points| - 1, Width(bucket));
    }
  }

  /** One more event: one more index, if it is chosen. */
  lemma BetweenLast(times: seq<int>, from: int, until: int, start: int, end: int)
    requires times != []
    ensures var last, t := |times| - 1, times[|times| - 1];
      |Between(times, from, until, start, end)| == |Between(times[..last], from, until, start, end)|
        + if from <= t <= until && start <= t < end then 1 else 0
  {
    var last, t := |times| - 1, times[|times| - 1];
    var less := Between(times[..last], from, until, start, end);
    assert last !in less;
    assert Between(times, from, until, start, end) == if from <= t <= until && start <= t < end then less + {last} else less;
  }

  lemma {:induction false} InRangeBetween(times: seq<int>, from: int, until: int)
    ensures InRangeCount(times, from, until) == |Between(times, from, until, from, until + 1)|
  {
    if times != [] {
      InRangeBetween(times[..|times| - 1], from, until);
      BetweenLast(times, from, until, from, until + 1);
    }
  }

  lemma {:induction false} CountBetween(times: seq<int>, from: int, until: int, bucket: string, i: nat)
    ensures var start := Start(from, bucket, i);
      CountAt(times, from, until, bucket, Unix(start)) == |Between(times, from, until, start, start + Width(bucket))|
  {
    hide Width, Start, Unix, IndexOf, LandsAt, Between;
    var start := Start(from, bucket, i);
    if times == [] {
      assert |Between(times, from, until, start, start + Width(bucket))| == 0 by { NoneBetween(from, until, start, start + Width(bucket)); }
    } else {
      var t := times[|times| - 1];
      CountBetween(times[..|times| - 1], from, until, bucket, i);
      BetweenLast(times, from, until, start, start + Width(bucket));
      LandsIff(t, from, until, bucket, i);
      HeldBy(from, bucket, i, t);
    }
  }

  lemma NoneBetween(from: int, until: int, start: int, end: int)
    ensures |Between([], from, until, start, end)| == 0
  {}

  lemma PointsCounted(points: seq<Point>, from: int, until: int, bucket: string, authorizationCounts: map<int, nat>, tokenCounts: map<int, nat>, times: seq<int>)
    requires PointsFor(points, from, until, bucket, authorizationCounts, tokenCounts)
    requires forall unix :: Lookup(authorizationCounts, unix) == CountAt(times, from, until, bucket, unix)
    requires forall unix :: Lookup(tokenCounts, unix) == CountAt([], from, until, bucket, unix)
    ensures Counted(points, from, until, Width(bucket), times)
  {
    hide Width, Start, Unix, Between, Lookup;
    forall i | 0 <= i < |points| ensures points[i].tokenIssued == 0
      && points[i].authorizationCreated == |Between(times, from, until, points[i].bucketStart, points[i].bucketStart + Width(bucket))|
    {
      CountBetween(times, from, until, bucket, i);
    }
  }
}
