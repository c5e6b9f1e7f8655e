/**
 * Time buckets (`calculate_time_buckets` in
 * trend_miner/processing/topic_aggregate.py, with `get_daily_bucket` and
 * `get_hourly_bucket` from trend_miner/utils/time.py).
 *
 * The source keys a bucket by the formatted UTC day (`YYYY-MM-DD`) or hour
 * (`YYYY-MM-DDTHH:00:00+00:00`) and sorts the keys as strings. Here a bucket
 * is keyed by the instant it starts, which identifies the same day or hour;
 * for four-digit years the string order of those labels is the time order.
 */
module TimeBuckets {
  import opened Wrappers
  import opened Models

  datatype Interval = Daily | Hourly

  const DailyName: string := "daily"
  const HourlyName: string := "hourly"

  /** The `bucket_interval` setting; any other name is unsupported. */
  function ParseInterval(name: string): (r: Option<Interval>)
    ensures r == Some(Daily) <==> name == DailyName
    ensures r == Some(Hourly) <==> name == HourlyName
    ensures r.None? <==> name != DailyName && name != HourlyName
  {
    if name == DailyName then Some(Daily)
    else if name == HourlyName then Some(Hourly)
    else None
  }

  function Width(interval: Interval): (r: int)
    ensures r > 0
  {
    match interval
    case Daily => MicrosPerDay
    case Hourly => MicrosPerHour
  }

  /** The start of the UTC day or hour containing `t` (truncation to the interval). */
  function BucketStart(t: Timestamp, interval: Interval): (r: Timestamp)
    ensures r % Width(interval) == 0
    ensures r <= t < r + Width(interval)
  {
    t - t % Width(interval)
  }

  predicate Ascending(buckets: seq<TopicBucket>) {
    forall i, j :: 0 <= i < j < |buckets| ==> buckets[i].bucketStart < buckets[j].bucketStart
  }

  /** The count recorded for the bucket starting at `start`, or 0 if there is none. */
  function CountAt(buckets: seq<TopicBucket>, start: Timestamp): nat
    decreases |buckets|
  {
    if |buckets| == 0 then 0
    else if buckets[0].bucketStart == start then buckets[0].count
    else CountAt(buckets[1..], start)
  }

  function Total(buckets: seq<TopicBucket>): nat
    decreases |buckets|
  {
    if |buckets| == 0 then 0 else buckets[0].count + Total(buckets[1..])
  }

  predicate AllNonEmpty(buckets: seq<TopicBucket>) {
    forall i :: 0 <= i < |buckets| ==> buckets[i].count > 0
  }

  /** `bucket_counts[key] += 1`, on a table kept in ascending order of start. */
  function Bump(buckets: seq<TopicBucket>, start: Timestamp): (r: seq<TopicBucket>)
    requires Ascending(buckets)
    ensures Ascending(r)
    ensures forall i :: 0 <= i < |r| ==> r[i].bucketStart == start || r[i] in buckets
    decreases |buckets|
  {
    if |buckets| == 0 then [TopicBucket(start, 1)]
    else if start < buckets[0].bucketStart then [TopicBucket(start, 1)] + buckets
    else if start == buckets[0].bucketStart then [buckets[0].(count := buckets[0].count + 1)] + buckets[1..]
    else
      var rest := Bump(buckets[1..], start);
      assert forall i :: 0 <= i < |rest| ==> buckets[0].bucketStart < rest[i].bucketStart by {
        forall i | 0 <= i < |rest|
          ensures buckets[0].bucketStart < rest[i].bucketStart
        {
          if rest[i] in buckets[1..] {
            var j :| 0 <= j < |buckets[1..]| && buckets[1..][j] == rest[i];
            assert buckets[1..][j] == buckets[j + 1];
          }
        }
      }
      assert forall x :: x in buckets[1..] ==> x in buckets;
      [buckets[0]] + rest
  }

  /** Bumping adds one to the bumped bucket's count and to the total, and empties no bucket. */
  lemma {:induction false} BumpCounts(buckets: seq<TopicBucket>, start: Timestamp)
    requires Ascending(buckets)
    ensures var r := Bump(buckets, start);
      && (AllNonEmpty(buckets) ==> AllNonEmpty(r))
      && Total(r) == Total(buckets) + 1
      && forall x :: CountAt(r, x) == CountAt(buckets, x) + (if x == start then 1 else 0)
    decreases |buckets|
  {
    if |buckets| == 0 || start < buckets[0].bucketStart {
      BumpFront(buckets, start);
    } else if start == buckets[0].bucketStart {
      BumpHit(buckets, start);
    } else {
      BumpCounts(buckets[1..], start);
      BumpLater(buckets, start, Bump(buckets[1..], start));
    }
  }

  lemma BumpFront(buckets: seq<TopicBucket>, start: Timestamp)
    requires Ascending(buckets)
    requires |buckets| == 0 || start < buckets[0].bucketStart
    ensures var r := [TopicBucket(start, 1)] + buckets;
      && (AllNonEmpty(buckets) ==> AllNonEmpty(r))
      && Total(r) == Total(buckets) + 1
      && forall x :: CountAt(r, x) == CountAt(buckets, x) + (if x == start then 1 else 0)
  {
    var r := [TopicBucket(start, 1)] + buckets;
    assert r[1..] == buckets;
    if |buckets| > 0 {
      AscendingAbsent(buckets);
    }
  }

  lemma BumpHit(buckets: seq<TopicBucket>, start: Timestamp)
    requires |buckets| > 0 && start == buckets[0].bucketStart
    ensures var r := [buckets[0].(count := buckets[0].count + 1)] + buckets[1..];
      && (AllNonEmpty(buckets) ==> AllNonEmpty(r))
      && Total(r) == Total(buckets) + 1
      && forall x :: CountAt(r, x) == CountAt(buckets, x) + (if x == start then 1 else 0)
  {
    var r := [buckets[0].(count := buckets[0].count + 1)] + buckets[1..];
    assert r[1..] == buckets[1..];
  }

  lemma BumpLater(buckets: seq<TopicBucket>, start: Timestamp, rest: seq<TopicBucket>)
    requires |buckets| > 0 && buckets[0].bucketStart < start
    requires AllNonEmpty(buckets[1..]) ==> AllNonEmpty(rest)
    requires Total(rest) == Total(buckets[1..]) + 1
    requires forall x :: CountAt(rest, x) == CountAt(buckets[1..], x) + (if x == start then 1 else 0)
    ensures var r := [buckets[0]] + rest;
      && (AllNonEmpty(buckets) ==> AllNonEmpty(r))
      && Total(r) == Total(buckets) + 1
      && forall x :: CountAt(r, x) == CountAt(buckets, x) + (if x == start then 1 else 0)
  {
    var r := [buckets[0]] + rest;
    assert r[1..] == rest;
    if AllNonEmpty(buckets) {
      assert AllNonEmpty(buckets[1..]);
    }
  }

  /** No bucket of an ascending table starts before its first one. */
  lemma AscendingAbsent(buckets: seq<TopicBucket>)
    requires Ascending(buckets) && |buckets| > 0
    ensures forall x :: x < buckets[0].bucketStart ==> CountAt(buckets, x) == 0
  {
    forall x | x < buckets[0].bucketStart
      ensures CountAt(buckets, x) == 0
    {
      CountAtBelow(buckets, x);
    }
  }

  lemma {:induction false} CountAtBelow(buckets: seq<TopicBucket>, x: Timestamp)
    requires Ascending(buckets)
    requires forall i :: 0 <= i < |buckets| ==> x < buckets[i].bucketStart
    ensures CountAt(buckets, x) == 0
    decreases |buckets|
  {
    if |buckets| > 0 {
      CountAtBelow(buckets[1..], x);
    }
  }

  /** The bucket starts of a sequence of instants. */
  function Starts(times: seq<Timestamp>, interval: Interval): (r: seq<Timestamp>)
    ensures |r| == |times|
    ensures forall i :: 0 <= i < |times| ==> r[i] == BucketStart(times[i], interval)
  {
    seq(|times|, i requires 0 <= i < |times| => BucketStart(times[i], interval))
  }

  /**
   * Counting the starts one by one: ascending, no empty bucket, and each
   * bucket's count is the number of occurrences of its start.
   */
  function CountStarts(starts: seq<Timestamp>): (r: seq<TopicBucket>)
    ensures Ascending(r)
    ensures AllNonEmpty(r)
    ensures Total(r) == |starts|
    ensures forall x :: CountAt(r, x) == multiset(starts)[x]
    ensures forall i :: 0 <= i < |r| ==> r[i].bucketStart in starts
    decreases |starts|
  {
    if |starts| == 0 then []
    else
      var prefix := starts[..|starts| - 1];
      var last := starts[|starts| - 1];
      assert starts == prefix + [last];
      var prev := CountStarts(prefix);
      var r := Bump(prev, last);
      BumpCounts(prev, last);
      BumpStartsIn(prev, prefix, last);
      r
  }

  /** Bumping with one more instant keeps every bucket start among the instants seen. */
  lemma BumpStartsIn(prev: seq<TopicBucket>, prefix: seq<Timestamp>, last: Timestamp)
    requires Ascending(prev)
    requires forall i :: 0 <= i < |prev| ==> prev[i].bucketStart in prefix
    ensures var r := Bump(prev, last);
      forall i :: 0 <= i < |r| ==> r[i].bucketStart in prefix + [last]
  {
    var r := Bump(prev, last);
    forall i | 0 <= i < |r|
      ensures r[i].bucketStart in prefix + [last]
    {
      if r[i].bucketStart != last {
        var j :| 0 <= j < |prev| && prev[j] == r[i];
        assert prev[j].bucketStart in prefix;
      }
    }
  }

  /**
   * `calculate_time_buckets` over the items' publication instants. An
   * unsupported interval is an error as soon as there is an item to bucket;
   * with no items the loop never looks at it.
   */
  function CalculateTimeBuckets(published: seq<Timestamp>, intervalName: string): (r: Result<seq<TopicBucket>>)
    ensures r.Failure? <==> |published| > 0 && ParseInterval(intervalName).None?
    ensures r.Success? ==>
      && Ascending(r.value)
      && AllNonEmpty(r.value)
      && Total(r.value) == |published|
    ensures r.Success? && |published| > 0 ==>
      var interval := ParseInterval(intervalName).value;
      && (forall i :: 0 <= i < |r.value| ==> r.value[i].bucketStart % Width(interval) == 0)
      && (forall x :: CountAt(r.value, x) == multiset(Starts(published, interval))[x])
  {
    if |published| == 0 then Success([])
    else
      match ParseInterval(intervalName)
      case None => Failure("Unsupported bucket_interval: " + intervalName)
      case Some(interval) =>
        var starts := Starts(published, interval);
        var r := CountStarts(starts);
        assert forall i :: 0 <= i < |r| ==> r[i].bucketStart % Width(interval) == 0 by {
          forall i | 0 <= i < |r|
            ensures r[i].bucketStart % Width(interval) == 0
          {
            var j :| 0 <= j < |starts| && starts[j] == r[i].bucketStart;
          }
        }
        Success(r)
  }
}
