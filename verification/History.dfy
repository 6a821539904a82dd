/** The metrics history: rows averaged into buckets, and rates between buckets. Averages
    and rates are real numbers; how the program rounds them is not part of this model. */
module History {
  import opened Wrappers

  const MAX_POINTS := 300
  const MAX_MINUTES := 7 * 24 * 60

  function Clamp(x: int, low: int, high: int): int
    requires low <= high
  {
    if x < low then low else if x > high then high else x
  }

  function Minutes(asked: Option<int>): int {
    Clamp(if asked.Some? then asked.value else 60, 5, MAX_MINUTES)
  }

  function MaxPoints(asked: Option<int>): int {
    Clamp(if asked.Some? then asked.value else MAX_POINTS, 2, MAX_POINTS)
  }

  /** The bucket width, rounded up. */
  function BucketSecs(minutes: int, maxPoints: int): int
    requires maxPoints > 0
  {
    var width := (minutes * 60 + maxPoints - 1) / maxPoints;
    if width < 1 then 1 else width
  }

  /** What is asked for is what is used if and only if it is in range; anything else is
      taken to the nearer end, and a caller that names nothing gets an hour in 300 points. */
  lemma AskedIsUsed(x: int, y: int)
    ensures 5 <= Minutes(Some(x)) <= 10_080 && (Minutes(Some(x)) == x <==> 5 <= x <= 10_080)
    ensures 2 <= MaxPoints(Some(x)) <= 300 && (MaxPoints(Some(x)) == x <==> 2 <= x <= 300)
    ensures x <= y ==> Minutes(Some(x)) <= Minutes(Some(y)) && MaxPoints(Some(x)) <= MaxPoints(Some(y))
    ensures Minutes(None) == 60 && MaxPoints(None) == 300
  {
  }

  // ---------- How many buckets there can be ----------

  lemma WidthCovers(minutes: int, maxPoints: int)
    requires minutes > 0 && maxPoints > 0
    ensures BucketSecs(minutes, maxPoints) >= 1
    ensures minutes * 60 <= maxPoints * BucketSecs(minutes, maxPoints)
  {
    var n := minutes * 60 + maxPoints - 1;
    var width := n / maxPoints;
    assert n == maxPoints * width + n % maxPoints;
    assert n % maxPoints <= maxPoints - 1;
    MulLe(maxPoints, width, if width < 1 then 0 else width);
  }

  /** The width is the smallest with which the points asked for cover the window. */
  lemma WidthIsSmallest(minutes: int, maxPoints: int, width: int)
    requires minutes > 0 && maxPoints > 0 && width > 0
    ensures minutes * 60 <= maxPoints * width <==> BucketSecs(minutes, maxPoints) <= width
  {
    WidthCovers(minutes, maxPoints);
    var n := minutes * 60 + maxPoints - 1;
    var least := n / maxPoints;
    assert n == maxPoints * least + n % maxPoints;
    if BucketSecs(minutes, maxPoints) <= width {
      MulLe(maxPoints, BucketSecs(minutes, maxPoints), width);
    } else {
      MulLe(maxPoints, width, least - 1);
      assert maxPoints * (least - 1) == maxPoints * least - maxPoints;
    }
  }

  lemma MulLe(a: int, x: int, y: int)
    requires a >= 0 && x <= y
    ensures a * x <= a * y
  {
  }

  /** Times within `span` of each other are at most `k` buckets apart, when `k` buckets
      cover the span. */
  lemma BucketsApart(from: nat, to: nat, width: nat, k: nat)
    requires width >= 1 && from <= to <= from + k * width
    ensures from / width <= to / width <= from / width + k
  {
    var a, b := from / width, to / width;
    assert from == width * a + from % width && to == width * b + to % width;
    assert width * (a + k) == width * a + k * width;
    QuotientsOrdered(width, b, a + k, to % width);
    QuotientsOrdered(width, a, b, from % width);
  }

  /** A quotient is larger only where the dividend is larger by more than a remainder. */
  lemma QuotientsOrdered(width: nat, b: int, c: int, r: int)
    requires width >= 1 && 0 <= r
    ensures b > c ==> width * b + r >= width * c + width
  {
    if b > c {
      MulLe(width, c + 1, b);
      assert width * (c + 1) == width * c + width;
    }
  }

  /** Increasing numbers in a range of `k + 1` are at most `k + 1` many. */
  lemma {:induction false} FewInRange(s: seq<int>, low: int, k: nat)
    requires forall i, j :: 0 <= i < j < |s| ==> s[i] < s[j]
    requires forall i :: 0 <= i < |s| ==> low <= s[i] <= low + k
    ensures |s| <= k + 1
    decreases k
  {
    if |s| > 1 {
      var n := |s| - 1;
      assert s[n - 1] < s[n];
      assert s[n - 1] >= low && s[n] <= low + k;
      if k > 0 {
        forall i | 0 <= i < n
          ensures s[..n][i] <= low + (k - 1)
        {
          assert s[i] < s[n];
        }
        FewInRange(s[..n], low, k - 1);
      }
    }
  }

  /** For every window and point count a caller can ask for, rows in the window and not
      from the future fall into at most one bucket more than was asked for. */
  lemma FewBuckets(askedMinutes: Option<int>, askedPoints: Option<int>, now: nat, times: seq<nat>, buckets: seq<int>)
    requires now >= Minutes(askedMinutes) * 60
    requires InWindow(times, Minutes(askedMinutes), now)
    requires forall i, j :: 0 <= i < j < |buckets| ==> buckets[i] < buckets[j]
    requires forall b :: b in buckets ==>
               exists i :: 0 <= i < |times| && b == times[i] / BucketSecs(Minutes(askedMinutes), MaxPoints(askedPoints))
    ensures |buckets| <= MaxPoints(askedPoints) + 1
  {
    var minutes, points := Minutes(askedMinutes), MaxPoints(askedPoints);
    var width := BucketSecs(minutes, points);
    var from := now - minutes * 60;
    WidthCovers(minutes, points);
    forall k | 0 <= k < |buckets|
      ensures from / width <= buckets[k] <= from / width + points
    {
      assert buckets[k] in buckets;
      var i :| 0 <= i < |times| && buckets[k] == times[i] / width;
      BucketsApart(from, times[i], width, points);
    }
    FewInRange(buckets, from / width, points);
  }

  ghost predicate InWindow(times: seq<nat>, minutes: int, now: nat) {
    forall i :: 0 <= i < |times| ==> now - minutes * 60 <= times[i] <= now
  }

  ghost predicate BucketsIncrease(times: seq<nat>, width: nat)
    requires width >= 1
  {
    forall i, j :: 0 <= i < j < |times| ==> times[i] / width < times[j] / width
  }

  /** The two ends of the window are as many buckets apart as were asked for exactly when
      what its first bucket has before the window, and the window, together fill them. */
  lemma EndsApart(minutes: int, maxPoints: int, now: nat)
    requires minutes > 0 && maxPoints > 0 && now >= minutes * 60
    ensures var width, from := BucketSecs(minutes, maxPoints), now - minutes * 60;
            && width >= 1 && from / width <= now / width <= from / width + maxPoints
            && (now / width == from / width + maxPoints <==> from % width + minutes * 60 >= maxPoints * width)
  {
    WidthCovers(minutes, maxPoints);
    var width, from := BucketSecs(minutes, maxPoints), now - minutes * 60;
    BucketsApart(from, now, width, maxPoints);
    var a, b := from / width, now / width;
    assert from == width * a + from % width && now == width * b + now % width;
    assert width * (a + maxPoints) == width * a + maxPoints * width;
    QuotientsOrdered(width, b, a + maxPoints, now % width);
    QuotientsOrdered(width, a + maxPoints, b, 0);
  }

  lemma BucketStart(width: nat, b: nat)
    requires width >= 1
    ensures (b * width) / width == b
  {
    QuotientsOrdered(width, b, (b * width) / width, 0);
    QuotientsOrdered(width, (b * width) / width, b, (b * width) % width);
    assert b * width == width * ((b * width) / width) + (b * width) % width;
    assert width * b == b * width;
  }

  /** One time in each bucket from that of `from` on: `from` itself and then the starts. */
  function Spread(from: nat, width: nat, k: nat): (times: seq<nat>)
    requires width >= 1
  {
    seq(k + 1, i requires 0 <= i <= k => if i == 0 then from else (from / width + i) * width)
  }

  lemma SpreadInOrder(minutes: int, now: nat, width: nat, k: nat)
    requires minutes > 0 && now >= minutes * 60 && width >= 1
    requires now / width >= (now - minutes * 60) / width + k
    ensures InWindow(Spread(now - minutes * 60, width, k), minutes, now)
    ensures BucketsIncrease(Spread(now - minutes * 60, width, k), width)
  {
    var from := now - minutes * 60;
    var times := Spread(from, width, k);
    forall i | 0 <= i <= k
      ensures times[i] / width == from / width + i && from <= times[i] <= now
    {
      if i > 0 {
        LaterStart(from, now, width, i);
      }
    }
  }

  lemma LaterStart(from: nat, now: nat, width: nat, i: nat)
    requires width >= 1 && i > 0 && now / width >= from / width + i
    ensures var start := (from / width + i) * width; start / width == from / width + i && from <= start <= now
  {
    BucketStart(width, from / width + i);
    BucketHolds(from, width);
    BucketHolds(now, width);
    MulLe(width, from / width + i, now / width);
    MulLe(width, from / width + 1, from / width + i);
    Commute(from / width + i, width);
  }

  /** A time is between the start of its bucket and that of the next. */
  lemma BucketHolds(x: nat, width: nat)
    requires width >= 1
    ensures width * (x / width) <= x < width * (x / width + 1)
  {
    var q := x / width;
    assert x == width * q + x % width;
    assert width * (q + 1) == width * q + width;
  }

  lemma Commute(x: nat, y: nat)
    ensures x * y == y * x
  {
  }

  /** Rows in the window can fall into one bucket more than was asked for exactly when
      what its first bucket has before the window, and the window, fill all those. */
  lemma ExtraBucketIff(minutes: int, maxPoints: int, now: nat)
    requires minutes > 0 && maxPoints > 0 && now >= minutes * 60
    ensures var width := BucketSecs(minutes, maxPoints);
            && width >= 1
            && ((exists times: seq<nat> :: |times| == maxPoints + 1 && InWindow(times, minutes, now) && BucketsIncrease(times, width))
                <==> (now - minutes * 60) % width + minutes * 60 >= maxPoints * width)
  {
    var width, from := BucketSecs(minutes, maxPoints), now - minutes * 60;
    EndsApart(minutes, maxPoints, now);
    if now / width == from / width + maxPoints {
      SpreadInOrder(minutes, now, width, maxPoints);
    } else {
      forall times: seq<nat> | InWindow(times, minutes, now) && BucketsIncrease(times, width)
        ensures |times| <= maxPoints
      {
        FewTimes(times, minutes, now, width, maxPoints - 1);
      }
    }
  }

  lemma FewTimes(times: seq<nat>, minutes: int, now: nat, width: nat, k: nat)
    requires width >= 1 && now >= minutes * 60 && InWindow(times, minutes, now) && BucketsIncrease(times, width)
    requires now / width <= (now - minutes * 60) / width + k
    ensures |times| <= k + 1
  {
    var from := now - minutes * 60;
    var buckets := seq(|times|, i requires 0 <= i < |times| => times[i] / width);
    forall i | 0 <= i < |times|
      ensures from / width <= buckets[i] <= from / width + k
    {
      assert from <= times[i] <= now;
      DivOrder(from, times[i], width);
      DivOrder(times[i], now, width);
    }
    FewInRange(buckets, from / width, k);
  }

  lemma DivOrder(a: nat, b: nat, width: nat)
    requires width >= 1 && a <= b
    ensures a / width <= b / width
  {
    QuotientsOrdered(width, a / width, b / width, a % width);
    assert a == width * (a / width) + a % width && b == width * (b / width) + b % width;
  }

  /** With the counts a caller that names none gets, an hour in 300 points, that happens
      at every moment: 301 buckets of 12 seconds. */
  lemma DefaultReachesExtraBucket(now: nat)
    requires now >= 3600
    ensures Minutes(None) == 60 && MaxPoints(None) == 300 && BucketSecs(60, 300) == 12
    ensures exists times: seq<nat> :: |times| == 301 && InWindow(times, 60, now) && BucketsIncrease(times, 12)
  {
    ExtraBucketIff(60, 300, now);
  }

  // ---------- Rates ----------

  /** One bucket of the query: its number and its averaged counters, None where every
      sample was null. */
  datatype Row = Row(bucket: int, rx: Option<real>, tx: Option<real>, read: Option<real>, write: Option<real>)

  datatype Point = Point(bucket: int, rx: real, tx: real, read: real, write: real)

  function OrZero(x: Option<real>): real {
    if x.Some? then x.value else 0.0
  }

  function Positive(x: real): real {
    if x < 0.0 then 0.0 else x
  }

  function Gap(before: Row, row: Row, width: int): int {
    (row.bucket - before.bucket) * width
  }

  function Rate(before: Option<real>, after: Option<real>, gap: int): real
    requires gap != 0
  {
    Positive((OrZero(after) - OrZero(before)) / gap as real)
  }

  /** The point of one row, given the row before it. */
  function PointOf(prev: Option<Row>, row: Row, width: int): Point
    requires width >= 1
  {
    if prev.Some? && row.bucket > prev.value.bucket then
      var gap := Gap(prev.value, row, width);
      GapPositive(prev.value, row, width);
      Point(row.bucket, Rate(prev.value.rx, row.rx, gap), Rate(prev.value.tx, row.tx, gap),
            Rate(prev.value.read, row.read, gap), Rate(prev.value.write, row.write, gap))
    else Point(row.bucket, 0.0, 0.0, 0.0, 0.0)
  }

  lemma GapPositive(before: Row, row: Row, width: int)
    requires row.bucket > before.bucket && width >= 1
    ensures Gap(before, row, width) >= 1
  {
    MulLe(width, 1, row.bucket - before.bucket);
  }

  function Series(rows: seq<Row>, width: int): (points: seq<Point>)
    requires width >= 1
    ensures |points| == |rows|
  {
    seq(|rows|, i requires 0 <= i < |rows| => PointOf(if i == 0 then None else Some(rows[i - 1]), rows[i], width))
  }

  /** Every row has its point. A rate needs an earlier bucket before it: the first point has
      none, and neither has one whose bucket is not later than that of the row before. */
  lemma PointOfEachRow(rows: seq<Row>, width: int, i: nat)
    requires width >= 1 && i < |rows|
    ensures Series(rows, width)[i].bucket == rows[i].bucket
    ensures i == 0 || rows[i].bucket <= rows[i - 1].bucket ==>
              Series(rows, width)[i] == Point(rows[i].bucket, 0.0, 0.0, 0.0, 0.0)
  {
  }

  /** The last `n` points. */
  function Newest(points: seq<Point>, n: nat): (r: seq<Point>)
    ensures |r| <= n
  {
    if |points| > n then points[|points| - n..] else points
  }

  /** The endpoint's loop over the query's rows, and the cut that follows it. */
  method MetricsHistory(rows: seq<Row>, width: int, maxPoints: nat) returns (points: seq<Point>)
    requires width >= 1
    ensures points == Newest(Series(rows, width), maxPoints)
  {
    points := [];
    var prev: Option<Row> := None;
    for i := 0 to |rows|
      invariant points == Series(rows, width)[..i]
      invariant prev == if i == 0 then None else Some(rows[i - 1])
    {
      var row := rows[i];
      var point := PointOf(prev, row, width);
      prev := Some(row);
      points := points + [point];
    }
    if |points| > maxPoints {
      points := points[|points| - maxPoints..];
    }
  }

  ghost predicate InOrder(rows: seq<Row>) {
    forall i, j :: 0 <= i < j < |rows| ==> rows[i].bucket < rows[j].bucket
  }

  /** Whatever window and count a caller asks for, when the query's rows are the buckets of
      samples in the window, the endpoint answers the whole series or all of it but the
      oldest point; it drops that one exactly when there is one bucket too many. */
  lemma CutDropsAtMostOldest(askedMinutes: Option<int>, askedPoints: Option<int>, now: nat, times: seq<nat>, rows: seq<Row>)
    requires now >= Minutes(askedMinutes) * 60 && InWindow(times, Minutes(askedMinutes), now)
    requires InOrder(rows)
    requires forall k :: 0 <= k < |rows| ==>
               exists i :: 0 <= i < |times| && rows[k].bucket == times[i] / BucketSecs(Minutes(askedMinutes), MaxPoints(askedPoints))
    ensures var width, points := BucketSecs(Minutes(askedMinutes), MaxPoints(askedPoints)), MaxPoints(askedPoints);
            && |rows| <= points + 1
            && Newest(Series(rows, width), points) ==
               if |rows| == points + 1 then Series(rows, width)[1..] else Series(rows, width)
  {
    var buckets := seq(|rows|, k requires 0 <= k < |rows| => rows[k].bucket);
    forall b | b in buckets
      ensures exists i :: 0 <= i < |times| && b == times[i] / BucketSecs(Minutes(askedMinutes), MaxPoints(askedPoints))
    {
      var k :| 0 <= k < |rows| && b == rows[k].bucket;
    }
    FewBuckets(askedMinutes, askedPoints, now, times, buckets);
  }

  lemma RatesNonNegative(rows: seq<Row>, width: int, i: nat)
    requires width >= 1 && i < |rows|
    ensures var p := Series(rows, width)[i]; p.rx >= 0.0 && p.tx >= 0.0 && p.read >= 0.0 && p.write >= 0.0
  {
  }

  /** The four counters that rates are made of. */
  datatype Counter = Rx | Tx | Read | Write

  function Value(c: Counter, row: Row): real {
    match (match c case Rx => row.rx case Tx => row.tx case Read => row.read case Write => row.write)
    case Some(average) => average
    case None => 0.0
  }

  function Speed(c: Counter, p: Point): real {
    match c case Rx => p.rx case Tx => p.tx case Read => p.read case Write => p.write
  }

  function RateTimesGap(c: Counter, point: Point, before: Row, row: Row, width: int): real {
    Speed(c, point) * ((row.bucket - before.bucket) * width) as real
  }

  /** The rates times the gaps they span, over the first `n` rows. */
  function Carried(c: Counter, rows: seq<Row>, width: int, n: nat): real
    requires width >= 1 && n <= |rows|
  {
    if n <= 1 then 0.0
    else Carried(c, rows, width, n - 1)
         + RateTimesGap(c, Series(rows, width)[n - 1], rows[n - 2], rows[n - 1], width)
  }

  /** How much the averages fell, over the first `n` rows. */
  function Fallen(c: Counter, rows: seq<Row>, n: nat): (r: real)
    requires n <= |rows|
    ensures r >= 0.0
  {
    if n <= 1 then 0.0
    else Fallen(c, rows, n - 1) + Positive(Value(c, rows[n - 2]) - Value(c, rows[n - 1]))
  }

  ghost predicate NeverFalls(c: Counter, rows: seq<Row>, n: nat)
    requires n <= |rows|
  {
    forall i :: 1 <= i < n ==> Value(c, rows[i - 1]) <= Value(c, rows[i])
  }

  lemma PositiveQuotient(x: real, g: real)
    requires g > 0.0
    ensures Positive(x / g) * g == Positive(x)
  {
    var q := x / g;
    assert q * g == x;
  }

  lemma OneStep(c: Counter, before: Row, row: Row, width: int)
    requires row.bucket > before.bucket && width >= 1
    ensures RateTimesGap(c, PointOf(Some(before), row, width), before, row, width)
            == Positive(Value(c, row) - Value(c, before))
  {
    GapPositive(before, row, width);
    var grown, gap := Value(c, row) - Value(c, before), Gap(before, row, width);
    assert Speed(c, PointOf(Some(before), row, width)) == Positive(grown / gap as real);
    PositiveQuotient(grown, gap as real);
  }

  /** What the rates say was counted over the first `n` rows is the last average less the
      first, and besides that exactly what the averages fell on the way: so it is the
      growth of the counter if and only if its averages never fall. */
  lemma {:induction false} RatesConserveIff(c: Counter, rows: seq<Row>, width: int, n: nat)
    requires width >= 1 && InOrder(rows) && 1 <= n <= |rows|
    ensures Carried(c, rows, width, n) == Value(c, rows[n - 1]) - Value(c, rows[0]) + Fallen(c, rows, n)
    ensures Carried(c, rows, width, n) == Value(c, rows[n - 1]) - Value(c, rows[0]) <==> NeverFalls(c, rows, n)
  {
    if n > 1 {
      RatesConserveIff(c, rows, width, n - 1);
      CarriedStep(c, rows, width, n);
      FallenZeroIff(c, rows, n);
    }
  }

  lemma CarriedStep(c: Counter, rows: seq<Row>, width: int, n: nat)
    requires width >= 1 && InOrder(rows) && 2 <= n <= |rows|
    ensures Carried(c, rows, width, n)
            == Carried(c, rows, width, n - 1) + Positive(Value(c, rows[n - 1]) - Value(c, rows[n - 2]))
  {
    var before, row := rows[n - 2], rows[n - 1];
    assert Series(rows, width)[n - 1] == PointOf(Some(before), row, width);
    OneStep(c, before, row, width);
  }

  lemma {:induction false} FallenZeroIff(c: Counter, rows: seq<Row>, n: nat)
    requires n <= |rows|
    ensures Fallen(c, rows, n) == 0.0 <==> NeverFalls(c, rows, n)
  {
    if n > 1 {
      FallenZeroIff(c, rows, n - 1);
    }
  }

  // ---------- Where the rows come from ----------

  datatype Sample = Sample(time: nat, rx: real)

  function InBucket(samples: seq<Sample>, bucket: int, width: nat): seq<Sample>
    requires width >= 1
  {
    if samples == [] then []
    else (if samples[0].time / width == bucket then [samples[0]] else []) + InBucket(samples[1..], bucket, width)
  }

  function Sum(samples: seq<Sample>): real {
    if samples == [] then 0.0 else samples[0].rx + Sum(samples[1..])
  }

  function Average(samples: seq<Sample>): real
    requires samples != []
  {
    Sum(samples) / |samples| as real
  }

  lemma {:induction false} InBucketMembers(samples: seq<Sample>, bucket: int, width: nat)
    requires width >= 1
    ensures forall s :: s in InBucket(samples, bucket, width) <==> s in samples && s.time / width == bucket
  {
    if samples != [] {
      InBucketMembers(samples[1..], bucket, width);
      assert forall s :: s in samples <==> s == samples[0] || s in samples[1..];
    }
  }

  lemma DivBounds(x: real, n: real, low: real, high: real)
    requires n > 0.0 && low * n <= x <= high * n
    ensures low <= x / n <= high
  {
    var q := x / n;
    assert q * n == x;
    MulOrder(low, q, n);
    MulOrder(q, high, n);
  }

  lemma MulOrder(a: real, b: real, n: real)
    requires n > 0.0
    ensures a * n <= b * n ==> a <= b
  {
    if a > b {
      assert (a - b) * n > 0.0;
    }
  }

  /** The largest counter among some samples. */
  function Largest(samples: seq<Sample>): (r: real)
    requires samples != []
    ensures forall s :: s in samples ==> s.rx <= r
    ensures exists s :: s in samples && s.rx == r
  {
    if |samples| == 1 then samples[0].rx
    else
      var rest := Largest(samples[1..]);
      var r := if samples[0].rx < rest then rest else samples[0].rx;
      r
  }

  /** A counter that never falls has averages that never fall, so the conservation above
      applies to every monotone counter, whatever order its samples are stored in. */
  lemma AveragesDoNotFall(samples: seq<Sample>, width: nat, a: int, b: int)
    requires width >= 1 && a < b
    requires forall s, t :: s in samples && t in samples && s.time < t.time ==> s.rx <= t.rx
    requires InBucket(samples, a, width) != [] && InBucket(samples, b, width) != []
    ensures Average(InBucket(samples, a, width)) <= Average(InBucket(samples, b, width))
  {
    var before, after := InBucket(samples, a, width), InBucket(samples, b, width);
    InBucketMembers(samples, a, width);
    InBucketMembers(samples, b, width);
    var m := Largest(before);
    var top :| top in before && top.rx == m;
    forall s | s in after
      ensures m <= s.rx
    {
      EarlierBucket(top.time, s.time, width);
    }
    Bounded(before, m);
    BoundedBelow(after, m);
  }

  lemma EarlierBucket(s: nat, t: nat, width: nat)
    requires width >= 1 && s / width < t / width
    ensures s < t
  {
    if s >= t {
      BucketsApart(t, s, width, s - t + 1);
    }
  }

  lemma {:induction false} Bounded(samples: seq<Sample>, high: real)
    requires samples != [] && forall s :: s in samples ==> s.rx <= high
    ensures Average(samples) <= high
  {
    SumAtMost(samples, high);
    var n := |samples| as real;
    DivBounds(Sum(samples), n, Average(samples), high);
  }

  lemma {:induction false} BoundedBelow(samples: seq<Sample>, low: real)
    requires samples != [] && forall s :: s in samples ==> low <= s.rx
    ensures low <= Average(samples)
  {
    SumAtLeast(samples, low);
    var n := |samples| as real;
    DivBounds(Sum(samples), n, low, Average(samples));
  }

  lemma {:induction false} SumAtMost(samples: seq<Sample>, high: real)
    requires forall s :: s in samples ==> s.rx <= high
    ensures Sum(samples) <= high * |samples| as real
  {
    if samples != [] {
      assert samples[0] in samples;
      SumAtMost(samples[1..], high);
      var n := |samples[1..]|;
      assert high * (n as real + 1.0) == high * n as real + high;
      assert |samples| as real == n as real + 1.0;
    }
  }

  lemma {:induction false} SumAtLeast(samples: seq<Sample>, low: real)
    requires forall s :: s in samples ==> low <= s.rx
    ensures low * |samples| as real <= Sum(samples)
  {
    if samples != [] {
      assert samples[0] in samples;
      SumAtLeast(samples[1..], low);
      var n := |samples[1..]|;
      assert low * (n as real + 1.0) == low * n as real + low;
      assert |samples| as real == n as real + 1.0;
    }
  }
}
