/** DeviceMetricsService.getMetrics: resolve the time range, run the bucketed
    aggregation, and project each point onto epoch seconds. The clock is a
    parameter (`now`), and so is date_trunc (`truncate`). */
module DeviceMetricsService {
  import opened Wrappers
  import opened Instants
  import opened MetricsBucket
  import opened Records
  import Agg = DeviceMeasurementRepository

  datatype Range = Range(from: Instant, to: Instant)

  const SecondsPerDay: nat := 86400

  /** The caller's range is used only when both ends are given and ordered. */
  predicate Explicit(fromTs: Option<int>, toTs: Option<int>) {
    fromTs.Some? && toTs.Some? && fromTs.value < toTs.value
  }

  /** The default look-back of the buckets that have one: 24 hours for HOUR,
      30 days for DAY. */
  function LookbackSeconds(bucket: Bucket): (r: nat)
    requires bucket != WEEK
    ensures r > 0 && r % SecondsPerDay == 0
  {
    if bucket == HOUR then SecondsPerDay else 30 * SecondsPerDay
  }

  /** The range getMetrics queries. An explicit range becomes two
      Instant.ofEpochSecond values, failing when either lies outside the
      Instant range. Otherwise the range ends at `now` and starts one
      look-back earlier; WEEK asks Instant.minus for 26 WEEKS, a unit Instant
      does not support, so it always fails. */
  function ResolveRange(bucket: Bucket, fromTs: Option<int>, toTs: Option<int>, now: Instant): (r: Result<Range>)
    ensures r.Success? ==> r.value.from.Before(r.value.to)
    ensures Explicit(fromTs, toTs) ==>
      (r.Success? <==> MinSecond <= fromTs.value && toTs.value <= MaxSecond)
    ensures Explicit(fromTs, toTs) && r.Success? ==>
      r.value == Range(Instant(fromTs.value * NanosPerSecond), Instant(toTs.value * NanosPerSecond))
    ensures !Explicit(fromTs, toTs) && bucket == WEEK ==> r == Failure(UnsupportedTemporalType)
    ensures !Explicit(fromTs, toTs) && bucket != WEEK ==>
      (r.Success? <==> Valid(Instant(now.epochNano - LookbackSeconds(bucket) * NanosPerSecond)))
    ensures !Explicit(fromTs, toTs) && bucket != WEEK && r.Success? ==>
      r.value.to == now && now.epochNano - r.value.from.epochNano == LookbackSeconds(bucket) * NanosPerSecond
    ensures r.Failure? ==> r.error in {UnsupportedTemporalType, DateTimeOutOfRange}
  {
    if Explicit(fromTs, toTs) then
      match OfEpochSecond(fromTs.value)
      case Failure(e) => Failure(e)
      case Success(from) =>
        match OfEpochSecond(toTs.value)
        case Failure(e) => Failure(e)
        case Success(to) =>
          OfEpochSecondMonotonic(fromTs.value, toTs.value);
          Success(Range(from, to))
    else if bucket == WEEK then Failure(UnsupportedTemporalType)
    else
      match MinusSeconds(now, LookbackSeconds(bucket))
      case Failure(e) => Failure(e)
      case Success(from) => Success(Range(from, now))
  }

  /** DeviceMetricsPointResponse per aggregated point: the bucket start in
      epoch seconds and the two averages. */
  function ToPoints(agg: seq<AggregatedPoint>): (r: seq<MetricsPoint>)
    ensures |r| == |agg|
    ensures forall i :: 0 <= i < |r| ==>
      r[i].ts == EpochSecond(agg[i].bucketStart) && r[i].tAvg == agg[i].tAvg && r[i].hAvg == agg[i].hAvg
  {
    seq(|agg|, i requires 0 <= i < |agg| => MetricsPoint(EpochSecond(agg[i].bucketStart), agg[i].tAvg, agg[i].hAvg))
  }

  /** getMetrics: the response for one device and bucket, or the exception
      the range resolution threw. The aggregation is asked for the bucket's
      PostgreSQL unit over exactly the resolved range. */
  function GetMetrics(rows: seq<DeviceMeasurement>, env: string, tenantId: string, deviceId: string,
                      bucket: Bucket, fromTs: Option<int>, toTs: Option<int>, now: Instant,
                      truncate: Agg.Truncation): (r: Result<DeviceMetricsResponse>)
    ensures r.Success? <==> ResolveRange(bucket, fromTs, toTs, now).Success?
    ensures r.Failure? ==> r.error == ResolveRange(bucket, fromTs, toTs, now).error
    ensures r.Success? ==> r.value.deviceId == deviceId && r.value.bucket == bucket
    ensures r.Success? ==>
      var range := ResolveRange(bucket, fromTs, toTs, now).value;
      var agg := Agg.AggregateByTime(rows, env, tenantId, deviceId, PostgresUnit(bucket), range.from, range.to, truncate);
      && |r.value.points| == |agg|
      && forall i :: 0 <= i < |agg| ==>
           r.value.points[i].ts == EpochSecond(agg[i].bucketStart)
           && r.value.points[i].tAvg == agg[i].tAvg && r.value.points[i].hAvg == agg[i].hAvg
  {
    match ResolveRange(bucket, fromTs, toTs, now)
    case Failure(e) => Failure(e)
    case Success(range) =>
      var agg := Agg.AggregateByTime(rows, env, tenantId, deviceId, PostgresUnit(bucket), range.from, range.to, truncate);
      Success(DeviceMetricsResponse(deviceId, bucket, ToPoints(agg)))
  }

  /** Without a usable explicit range, WEEK metrics always fail. */
  lemma WeekDefaultFails(rows: seq<DeviceMeasurement>, env: string, tenantId: string, deviceId: string,
                         fromTs: Option<int>, toTs: Option<int>, now: Instant, truncate: Agg.Truncation)
    requires !Explicit(fromTs, toTs)
    ensures GetMetrics(rows, env, tenantId, deviceId, WEEK, fromTs, toTs, now, truncate)
         == Failure(UnsupportedTemporalType)
  {
  }

  /** An explicit range within the Instant range always succeeds, whatever the bucket. */
  lemma ExplicitRangeSucceeds(rows: seq<DeviceMeasurement>, env: string, tenantId: string, deviceId: string,
                              bucket: Bucket, fromTs: int, toTs: int, now: Instant, truncate: Agg.Truncation)
    requires MinSecond <= fromTs < toTs <= MaxSecond
    ensures GetMetrics(rows, env, tenantId, deviceId, bucket, Some(fromTs), Some(toTs), now, truncate).Success?
  {
  }

  /** Ascending bucket starts give non-decreasing seconds. */
  lemma ToPointsInOrder(agg: seq<AggregatedPoint>)
    requires forall i, j :: 0 <= i < j < |agg| ==> agg[i].bucketStart.Before(agg[j].bucketStart)
    ensures var ps := ToPoints(agg);
      forall i, j :: 0 <= i < j < |ps| ==> ps[i].ts <= ps[j].ts
  {
    var ps := ToPoints(agg);
    forall i, j | 0 <= i < j < |ps|
      ensures ps[i].ts <= ps[j].ts
    {
      EpochSecondMonotonic(agg[i].bucketStart, agg[j].bucketStart);
    }
  }

  /** Bucket starts within `[lo, hi]` give seconds within theirs. */
  lemma ToPointsWithin(agg: seq<AggregatedPoint>, lo: Instant, hi: Instant)
    requires forall i :: 0 <= i < |agg| ==> lo.AtMost(agg[i].bucketStart) && agg[i].bucketStart.AtMost(hi)
    ensures var ps := ToPoints(agg);
      forall i :: 0 <= i < |ps| ==> EpochSecond(lo) <= ps[i].ts <= EpochSecond(hi)
  {
    var ps := ToPoints(agg);
    forall i | 0 <= i < |ps|
      ensures EpochSecond(lo) <= ps[i].ts <= EpochSecond(hi)
    {
      EpochSecondMonotonic(lo, agg[i].bucketStart);
      EpochSecondMonotonic(agg[i].bucketStart, hi);
    }
  }

  /** The response's timestamps never decrease, because the aggregation's
      bucket starts ascend. */
  lemma PointsInOrder(rows: seq<DeviceMeasurement>, env: string, tenantId: string, deviceId: string,
                      bucket: Bucket, fromTs: Option<int>, toTs: Option<int>, now: Instant, truncate: Agg.Truncation)
    ensures var r := GetMetrics(rows, env, tenantId, deviceId, bucket, fromTs, toTs, now, truncate);
      r.Success? ==> forall i, j :: 0 <= i < j < |r.value.points| ==> r.value.points[i].ts <= r.value.points[j].ts
  {
    var rr := ResolveRange(bucket, fromTs, toTs, now);
    if rr.Success? {
      var range := rr.value;
      var agg := Agg.AggregateByTime(rows, env, tenantId, deviceId, PostgresUnit(bucket), range.from, range.to, truncate);
      assert GetMetrics(rows, env, tenantId, deviceId, bucket, fromTs, toTs, now, truncate).value.points == ToPoints(agg);
      ToPointsInOrder(agg);
    }
  }

  /** Under date_trunc's contract, an explicit range bounds the response:
      every point's second lies between that of the bucket of `fromTs` and
      `toTs`. */
  lemma ExplicitRangeBoundsPoints(rows: seq<DeviceMeasurement>, env: string, tenantId: string, deviceId: string,
                                  bucket: Bucket, fromTs: int, toTs: int, now: Instant, truncate: Agg.Truncation)
    requires Agg.Truncates(truncate)
    requires MinSecond <= fromTs < toTs <= MaxSecond
    ensures var r := GetMetrics(rows, env, tenantId, deviceId, bucket, Some(fromTs), Some(toTs), now, truncate);
      forall i :: 0 <= i < |r.value.points| ==>
        EpochSecond(truncate(PostgresUnit(bucket), OfEpochSecond(fromTs).value)) <= r.value.points[i].ts <= toTs
  {
    ExplicitRangeResolves(bucket, fromTs, toTs, now);
    var range := ResolveRange(bucket, Some(fromTs), Some(toTs), now).value;
    var unit := PostgresUnit(bucket);
    var ps := ToPoints(Agg.AggregateByTime(rows, env, tenantId, deviceId, unit, range.from, range.to, truncate));
    assert GetMetrics(rows, env, tenantId, deviceId, bucket, Some(fromTs), Some(toTs), now, truncate).value.points == ps;
    AggregatePointsWithin(rows, env, tenantId, deviceId, unit, range.from, range.to, truncate);
  }

  /** An ordered explicit range in bounds resolves to the instants of its two
      seconds. */
  lemma ExplicitRangeResolves(bucket: Bucket, fromTs: int, toTs: int, now: Instant)
    requires MinSecond <= fromTs < toTs <= MaxSecond
    ensures var r := ResolveRange(bucket, Some(fromTs), Some(toTs), now);
      r.Success? && r.value.from == OfEpochSecond(fromTs).value && EpochSecond(r.value.to) == toTs
  {
    assert OfEpochSecond(toTs).Success?;
  }

  /** The response points of one aggregation lie between the second of the
      bucket of `from` and that of `to`. */
  lemma AggregatePointsWithin(rows: seq<DeviceMeasurement>, env: string, tenantId: string, deviceId: string,
                              unit: string, from: Instant, to: Instant, truncate: Agg.Truncation)
    requires Agg.Truncates(truncate)
    ensures var ps := ToPoints(Agg.AggregateByTime(rows, env, tenantId, deviceId, unit, from, to, truncate));
      forall i :: 0 <= i < |ps| ==> EpochSecond(truncate(unit, from)) <= ps[i].ts <= EpochSecond(to)
  {
    var agg := Agg.AggregateByTime(rows, env, tenantId, deviceId, unit, from, to, truncate);
    Agg.AggregateWithinRange(rows, env, tenantId, deviceId, unit, from, to, truncate);
    ToPointsWithin(agg, truncate(unit, from), to);
  }
}
