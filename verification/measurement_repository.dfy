/** DeviceMeasurementRepository.aggregateByTime: the bucketed aggregation
    query, as a pure group-by over the measurement log. date_trunc is a
    parameter: `truncate(unit, ts)` is the start of the bucket of `ts` in the
    PostgreSQL unit `unit`. */
module DeviceMeasurementRepository {
  import opened Wrappers
  import opened Instants
  import opened Records
  import Seqs

  type Truncation = (string, Instant) -> Instant

  /** The WHERE clause: the device of the request, and `from <= ts <= to`. */
  predicate Matches(m: DeviceMeasurement, env: string, tenantId: string, deviceId: string, from: Instant, to: Instant) {
    && m.env == env && m.tenantId == tenantId && m.deviceId == deviceId
    && from.AtMost(m.ts) && m.ts.AtMost(to)
  }

  /** Bucket starts strictly ascending: ORDER BY over distinct GROUP BY keys. */
  predicate Ascending(ks: seq<Instant>) {
    forall i, j :: 0 <= i < j < |ks| ==> ks[i].Before(ks[j])
  }

  /** `k` added to an ascending sequence, keeping it ascending and duplicate-free. */
  function Insert(ks: seq<Instant>, k: Instant): (r: seq<Instant>)
    requires Ascending(ks)
    ensures Ascending(r)
    ensures forall x :: x in r <==> x in ks || x == k
  {
    if |ks| == 0 then [k]
    else if k == ks[0] then ks
    else if k.Before(ks[0]) then [k] + ks
    else
      var rest := Insert(ks[1..], k);
      assert forall x :: x in ks <==> x == ks[0] || x in ks[1..];
      forall j | 0 <= j < |rest|
        ensures ks[0].Before(rest[j])
      {
        assert rest[j] in rest;
        if rest[j] != k {
          var n :| 0 <= n < |ks[1..]| && ks[1..][n] == rest[j];
          assert ks[n + 1] == rest[j];
        }
      }
      [ks[0]] + rest
  }

  /** The distinct bucket starts of `rows`, ascending. */
  function BucketStarts(truncate: Truncation, unit: string, rows: seq<DeviceMeasurement>): (r: seq<Instant>)
    ensures Ascending(r)
    ensures forall b :: b in r <==> exists i :: 0 <= i < |rows| && truncate(unit, rows[i].ts) == b
  {
    if |rows| == 0 then []
    else
      var front := rows[..|rows| - 1];
      assert forall i :: 0 <= i < |rows| - 1 ==> front[i] == rows[i];
      Insert(BucketStarts(truncate, unit, front), truncate(unit, rows[|rows| - 1].ts))
  }

  /** The rows that fall into the bucket starting at `b`. */
  function InBucket(truncate: Truncation, unit: string, b: Instant): DeviceMeasurement -> bool {
    (m: DeviceMeasurement) => truncate(unit, m.ts) == b
  }

  /** The sum and the number of the non-null values. */
  function SumPresent(vs: seq<Option<real>>): real {
    if |vs| == 0 then 0.0
    else (if vs[|vs| - 1].Some? then vs[|vs| - 1].value else 0.0) + SumPresent(vs[..|vs| - 1])
  }

  function CountPresent(vs: seq<Option<real>>): nat {
    if |vs| == 0 then 0
    else (if vs[|vs| - 1].Some? then 1 else 0) + CountPresent(vs[..|vs| - 1])
  }

  /** SQL avg(): the mean of the non-null values, null when there are none. */
  function Average(vs: seq<Option<real>>): (r: Option<real>)
    ensures r.None? <==> CountPresent(vs) == 0
  {
    if CountPresent(vs) == 0 then None
    else Some(SumPresent(vs) / CountPresent(vs) as real)
  }

  /** The present values all lie in `[lo, hi]`. */
  predicate PresentWithin(vs: seq<Option<real>>, lo: real, hi: real) {
    forall i :: 0 <= i < |vs| && vs[i].Some? ==> lo <= vs[i].value <= hi
  }

  lemma {:induction false} SumPresentWithin(vs: seq<Option<real>>, lo: real, hi: real)
    requires PresentWithin(vs, lo, hi)
    ensures lo * CountPresent(vs) as real <= SumPresent(vs) <= hi * CountPresent(vs) as real
  {
    if |vs| > 0 {
      var front := vs[..|vs| - 1];
      assert forall i :: 0 <= i < |front| ==> front[i] == vs[i];
      SumPresentWithin(front, lo, hi);
    }
  }

  /** The average lies between any bounds of the values it averages, and is
      null exactly when every value is null. */
  lemma AverageWithin(vs: seq<Option<real>>, lo: real, hi: real)
    requires PresentWithin(vs, lo, hi)
    ensures Average(vs).None? <==> forall i :: 0 <= i < |vs| ==> vs[i].None?
    ensures Average(vs).Some? ==> lo <= Average(vs).value <= hi
  {
    AllNullIffNoneCounted(vs);
    if CountPresent(vs) > 0 {
      SumPresentWithin(vs, lo, hi);
      QuotientWithin(SumPresent(vs), CountPresent(vs) as real, lo, hi);
    }
  }

  lemma QuotientWithin(s: real, c: real, lo: real, hi: real)
    requires c > 0.0 && lo * c <= s <= hi * c
    ensures lo <= s / c <= hi
  {
    var q := s / c;
    assert q * c == s;
    assert (q - lo) * c >= 0.0;
    assert (hi - q) * c >= 0.0;
  }

  lemma {:induction false} AllNullIffNoneCounted(vs: seq<Option<real>>)
    ensures CountPresent(vs) == 0 <==> forall i :: 0 <= i < |vs| ==> vs[i].None?
  {
    if |vs| > 0 {
      var front := vs[..|vs| - 1];
      assert forall i :: 0 <= i < |front| ==> front[i] == vs[i];
      AllNullIffNoneCounted(front);
    }
  }

  function Temperatures(g: seq<DeviceMeasurement>): (r: seq<Option<real>>)
    ensures |r| == |g| && forall i :: 0 <= i < |g| ==> r[i] == g[i].temperature
  {
    seq(|g|, i requires 0 <= i < |g| => g[i].temperature)
  }

  function Humidities(g: seq<DeviceMeasurement>): (r: seq<Option<real>>)
    ensures |r| == |g| && forall i :: 0 <= i < |g| ==> r[i] == g[i].humidity
  {
    seq(|g|, i requires 0 <= i < |g| => g[i].humidity)
  }

  /** One output row: the bucket's start, the two averages, and count(status)
      with the OK and ERROR tallies. status is a non-null column, so
      count(status) is the number of rows. */
  function PointOf(b: Instant, g: seq<DeviceMeasurement>): (p: AggregatedPoint)
    ensures p.bucketStart == b && p.totalCount == |g|
    ensures p.okCount == |Seqs.Positions(HasStatus("OK"), g)|
    ensures p.errorCount == |Seqs.Positions(HasStatus("ERROR"), g)|
    ensures 0 <= p.okCount && 0 <= p.errorCount && p.okCount + p.errorCount <= p.totalCount
    ensures p.tAvg.None? <==> forall i :: 0 <= i < |g| ==> g[i].temperature.None?
    ensures p.hAvg.None? <==> forall i :: 0 <= i < |g| ==> g[i].humidity.None?
    ensures p.tAvg == Average(Temperatures(g)) && p.hAvg == Average(Humidities(g))
  {
    var ok := Seqs.Filter(HasStatus("OK"), g);
    var err := Seqs.Filter(HasStatus("ERROR"), g);
    OkErrorDisjoint(g);
    Seqs.FilterCount(HasStatus("OK"), g);
    Seqs.FilterCount(HasStatus("ERROR"), g);
    AllNullIffNoneCounted(Temperatures(g));
    AllNullIffNoneCounted(Humidities(g));
    AggregatedPoint(b, Average(Temperatures(g)), Average(Humidities(g)), |g|, |ok|, |err|)
  }

  /** The rows whose status column holds `status`. */
  function HasStatus(status: string): DeviceMeasurement -> bool {
    (m: DeviceMeasurement) => m.status == status
  }

  /** No row is both OK and ERROR, so the two tallies fit in the total. */
  lemma {:induction false} OkErrorDisjoint(g: seq<DeviceMeasurement>)
    ensures |Seqs.Filter(HasStatus("OK"), g)| + |Seqs.Filter(HasStatus("ERROR"), g)| <= |g|
  {
    if |g| > 0 {
      var front := g[..|g| - 1];
      OkErrorDisjoint(front);
      assert g == front + [g[|g| - 1]];
      Seqs.FilterSnoc(HasStatus("OK"), front, g[|g| - 1]);
      Seqs.FilterSnoc(HasStatus("ERROR"), front, g[|g| - 1]);
    }
  }

  /** The rows the WHERE clause keeps, in log order. */
  function Selected(rows: seq<DeviceMeasurement>, env: string, tenantId: string, deviceId: string,
                    from: Instant, to: Instant): seq<DeviceMeasurement> {
    Seqs.Filter(Query(env, tenantId, deviceId, from, to), rows)
  }

  /** The WHERE clause as a row predicate. */
  function Query(env: string, tenantId: string, deviceId: string, from: Instant, to: Instant): DeviceMeasurement -> bool {
    m => Matches(m, env, tenantId, deviceId, from, to)
  }

  /** The rows of `selected` in the bucket starting at `b`. */
  function Group(truncate: Truncation, unit: string, b: Instant, selected: seq<DeviceMeasurement>): seq<DeviceMeasurement> {
    Seqs.Filter(InBucket(truncate, unit, b), selected)
  }

  /** Every bucket start comes from a matching row, and every matching row's
      bucket start is among them. */
  lemma StartsCoverSelected(rows: seq<DeviceMeasurement>, env: string, tenantId: string, deviceId: string,
                            unit: string, from: Instant, to: Instant, truncate: Truncation)
    ensures var starts := BucketStarts(truncate, unit, Selected(rows, env, tenantId, deviceId, from, to));
      && (forall i :: 0 <= i < |starts| ==>
            exists k :: (0 <= k < |rows| && Matches(rows[k], env, tenantId, deviceId, from, to)
                         && truncate(unit, rows[k].ts) == starts[i]))
      && (forall k :: 0 <= k < |rows| && Matches(rows[k], env, tenantId, deviceId, from, to) ==>
            truncate(unit, rows[k].ts) in starts)
  {
    var selected := Selected(rows, env, tenantId, deviceId, from, to);
    var starts := BucketStarts(truncate, unit, selected);
    forall i | 0 <= i < |starts|
      ensures exists k :: (0 <= k < |rows| && Matches(rows[k], env, tenantId, deviceId, from, to)
                           && truncate(unit, rows[k].ts) == starts[i])
    {
      assert starts[i] in starts;
      var s :| 0 <= s < |selected| && truncate(unit, selected[s].ts) == starts[i];
      assert selected[s] in rows;
    }
    forall k | 0 <= k < |rows| && Matches(rows[k], env, tenantId, deviceId, from, to)
      ensures truncate(unit, rows[k].ts) in starts
    {
      assert rows[k] in selected;
      var s :| 0 <= s < |selected| && selected[s] == rows[k];
    }
  }

  /** Every bucket start has at least one row in its group. */
  lemma GroupsNonEmpty(truncate: Truncation, unit: string, selected: seq<DeviceMeasurement>)
    ensures var starts := BucketStarts(truncate, unit, selected);
      forall i :: 0 <= i < |starts| ==> |Group(truncate, unit, starts[i], selected)| > 0
  {
    var starts := BucketStarts(truncate, unit, selected);
    forall i | 0 <= i < |starts|
      ensures |Group(truncate, unit, starts[i], selected)| > 0
    {
      assert starts[i] in starts;
      var s :| 0 <= s < |selected| && truncate(unit, selected[s].ts) == starts[i];
      assert selected[s] in Group(truncate, unit, starts[i], selected);
    }
  }

  /** The output rows for the given bucket starts, one per start, in order. */
  function Points(truncate: Truncation, unit: string, starts: seq<Instant>, selected: seq<DeviceMeasurement>): (r: seq<AggregatedPoint>)
    ensures |r| == |starts|
    ensures forall i :: 0 <= i < |r| ==> r[i] == PointOf(starts[i], Group(truncate, unit, starts[i], selected))
    ensures forall i :: 0 <= i < |r| ==> r[i].bucketStart == starts[i]
  {
    seq(|starts|, i requires 0 <= i < |starts| => PointOf(starts[i], Group(truncate, unit, starts[i], selected)))
  }

  /** aggregateByTime: one point per distinct bucket start among the matching
      rows, ascending, each aggregating exactly the matching rows of its bucket.
      Empty buckets do not appear. */
  function AggregateByTime(rows: seq<DeviceMeasurement>, env: string, tenantId: string, deviceId: string,
                           unit: string, from: Instant, to: Instant, truncate: Truncation): (r: seq<AggregatedPoint>)
    ensures forall i, j :: 0 <= i < j < |r| ==> r[i].bucketStart.Before(r[j].bucketStart)
    ensures var starts := BucketStarts(truncate, unit, Selected(rows, env, tenantId, deviceId, from, to));
      |r| == |starts| && forall i :: 0 <= i < |r| ==> r[i].bucketStart == starts[i]
    ensures forall i :: 0 <= i < |r| ==> r[i].totalCount > 0
    ensures forall i :: 0 <= i < |r| ==>
      0 <= r[i].okCount && 0 <= r[i].errorCount && r[i].okCount + r[i].errorCount <= r[i].totalCount
    ensures forall i :: 0 <= i < |r| ==>
      exists k :: (0 <= k < |rows| && Matches(rows[k], env, tenantId, deviceId, from, to)
                   && truncate(unit, rows[k].ts) == r[i].bucketStart)
    ensures forall k :: 0 <= k < |rows| && Matches(rows[k], env, tenantId, deviceId, from, to) ==>
      exists i :: 0 <= i < |r| && r[i].bucketStart == truncate(unit, rows[k].ts)
  {
    var selected := Selected(rows, env, tenantId, deviceId, from, to);
    var starts := BucketStarts(truncate, unit, selected);
    StartsCoverSelected(rows, env, tenantId, deviceId, unit, from, to, truncate);
    GroupsNonEmpty(truncate, unit, selected);
    Points(truncate, unit, starts, selected)
  }

  /** The totalCount column summed over the points. */
  function SumTotals(ps: seq<AggregatedPoint>): int {
    if |ps| == 0 then 0 else ps[0].totalCount + SumTotals(ps[1..])
  }

  /** The group sizes of the buckets `ks` summed. */
  function GroupSizes(truncate: Truncation, unit: string, ks: seq<Instant>, selected: seq<DeviceMeasurement>): int {
    if |ks| == 0 then 0 else |Group(truncate, unit, ks[0], selected)| + GroupSizes(truncate, unit, ks[1..], selected)
  }

  /** How often `v` occurs in `ks`. */
  function Occurrences(ks: seq<Instant>, v: Instant): nat {
    if |ks| == 0 then 0 else (if ks[0] == v then 1 else 0) + Occurrences(ks[1..], v)
  }

  lemma {:induction false} OccursOnce(ks: seq<Instant>, v: Instant)
    requires Ascending(ks)
    ensures Occurrences(ks, v) == if v in ks then 1 else 0
  {
    if |ks| > 0 {
      assert Ascending(ks[1..]);
      OccursOnce(ks[1..], v);
      assert forall x :: x in ks <==> x == ks[0] || x in ks[1..];
      if v == ks[0] {
        assert v !in ks[1..] by {
          forall j | 0 <= j < |ks[1..]|
            ensures ks[1..][j] != v
          {
            assert ks[0].Before(ks[j + 1]);
          }
        }
      }
    }
  }

  /** One more row adds one to the group of its own bucket, wherever it is. */
  lemma {:induction false} GroupSizesSnoc(truncate: Truncation, unit: string, ks: seq<Instant>,
                                          selected: seq<DeviceMeasurement>, x: DeviceMeasurement)
    ensures GroupSizes(truncate, unit, ks, selected + [x])
         == GroupSizes(truncate, unit, ks, selected) + Occurrences(ks, truncate(unit, x.ts))
  {
    if |ks| > 0 {
      GroupSizesSnoc(truncate, unit, ks[1..], selected, x);
      Seqs.FilterSnoc(InBucket(truncate, unit, ks[0]), selected, x);
    }
  }

  /** Over a set of distinct bucket starts that covers every row, the group
      sizes add up to the number of rows. */
  lemma {:induction false} GroupSizesTotal(truncate: Truncation, unit: string, ks: seq<Instant>, selected: seq<DeviceMeasurement>)
    requires Ascending(ks)
    requires forall i :: 0 <= i < |selected| ==> truncate(unit, selected[i].ts) in ks
    ensures GroupSizes(truncate, unit, ks, selected) == |selected|
  {
    if |selected| == 0 {
      EmptyGroups(truncate, unit, ks);
    } else {
      var front := selected[..|selected| - 1];
      var x := selected[|selected| - 1];
      assert selected == front + [x];
      GroupSizesTotal(truncate, unit, ks, front);
      GroupSizesSnoc(truncate, unit, ks, front, x);
      OccursOnce(ks, truncate(unit, x.ts));
    }
  }

  lemma {:induction false} EmptyGroups(truncate: Truncation, unit: string, ks: seq<Instant>)
    ensures GroupSizes(truncate, unit, ks, []) == 0
  {
    if |ks| > 0 {
      EmptyGroups(truncate, unit, ks[1..]);
    }
  }

  lemma {:induction false} SumPoints(truncate: Truncation, unit: string, ks: seq<Instant>, selected: seq<DeviceMeasurement>)
    ensures SumTotals(Points(truncate, unit, ks, selected)) == GroupSizes(truncate, unit, ks, selected)
  {
    if |ks| > 0 {
      SumPoints(truncate, unit, ks[1..], selected);
      assert Points(truncate, unit, ks, selected)[1..] == Points(truncate, unit, ks[1..], selected);
    }
  }

  /** Every matching row is counted in exactly one point: the totals add up
      to the number of rows the WHERE clause keeps. */
  lemma AggregateCountsEveryRow(rows: seq<DeviceMeasurement>, env: string, tenantId: string, deviceId: string,
                                unit: string, from: Instant, to: Instant, truncate: Truncation)
    ensures SumTotals(AggregateByTime(rows, env, tenantId, deviceId, unit, from, to, truncate))
         == |Seqs.Positions(Query(env, tenantId, deviceId, from, to), rows)|
  {
    var selected := Selected(rows, env, tenantId, deviceId, from, to);
    var starts := BucketStarts(truncate, unit, selected);
    SumPoints(truncate, unit, starts, selected);
    assert forall i :: 0 <= i < |selected| ==> truncate(unit, selected[i].ts) in starts;
    GroupSizesTotal(truncate, unit, starts, selected);
    Seqs.FilterCount(Query(env, tenantId, deviceId, from, to), rows);
  }

  /** The rows of the log that the query aggregates into the bucket starting
      at `b`: those the WHERE clause keeps and date_trunc maps to `b`. */
  function InBucketOf(env: string, tenantId: string, deviceId: string, from: Instant, to: Instant,
                      unit: string, truncate: Truncation, b: Instant): DeviceMeasurement -> bool {
    (m: DeviceMeasurement) => Matches(m, env, tenantId, deviceId, from, to) && truncate(unit, m.ts) == b
  }

  /** A group is exactly the log's rows of its bucket, in log order. */
  lemma GroupIsBucket(rows: seq<DeviceMeasurement>, env: string, tenantId: string, deviceId: string,
                      unit: string, from: Instant, to: Instant, truncate: Truncation, b: Instant)
    ensures Group(truncate, unit, b, Selected(rows, env, tenantId, deviceId, from, to))
         == Seqs.Filter(InBucketOf(env, tenantId, deviceId, from, to, unit, truncate, b), rows)
  {
    Seqs.FilterFilter(Query(env, tenantId, deviceId, from, to), InBucket(truncate, unit, b),
                      InBucketOf(env, tenantId, deviceId, from, to, unit, truncate, b), rows);
  }

  /** `p` aggregates the rows `g`: totalCount is their number, okCount and
      errorCount count those with status OK and ERROR, and each average is
      null exactly when all of its column's values in `g` are null. */
  predicate Aggregates(p: AggregatedPoint, g: seq<DeviceMeasurement>) {
    && p.totalCount == |g|
    && p.okCount == |Seqs.Positions(HasStatus("OK"), g)|
    && p.errorCount == |Seqs.Positions(HasStatus("ERROR"), g)|
    && (p.tAvg.None? <==> forall j :: 0 <= j < |g| ==> g[j].temperature.None?)
    && (p.hAvg.None? <==> forall j :: 0 <= j < |g| ==> g[j].humidity.None?)
  }

  /** The point of one bucket aggregates exactly that bucket's rows of the
      log, and counts one per log position in the bucket. */
  lemma PointAggregatesBucket(rows: seq<DeviceMeasurement>, env: string, tenantId: string, deviceId: string,
                              unit: string, from: Instant, to: Instant, truncate: Truncation, b: Instant)
    ensures var inB := InBucketOf(env, tenantId, deviceId, from, to, unit, truncate, b);
      var p := PointOf(b, Group(truncate, unit, b, Selected(rows, env, tenantId, deviceId, from, to)));
      && Aggregates(p, Seqs.Filter(inB, rows))
      && p.totalCount == |Seqs.Positions(inB, rows)|
  {
    var inB := InBucketOf(env, tenantId, deviceId, from, to, unit, truncate, b);
    GroupIsBucket(rows, env, tenantId, deviceId, unit, from, to, truncate, b);
    Seqs.FilterCount(inB, rows);
  }

  /** Every point of the result aggregates exactly its bucket's rows of the
      log, and its totalCount is the number of log positions in its bucket. */
  lemma AggregateBucketValues(rows: seq<DeviceMeasurement>, env: string, tenantId: string, deviceId: string,
                              unit: string, from: Instant, to: Instant, truncate: Truncation)
    ensures var r := AggregateByTime(rows, env, tenantId, deviceId, unit, from, to, truncate);
      forall i :: 0 <= i < |r| ==>
        var inB := InBucketOf(env, tenantId, deviceId, from, to, unit, truncate, r[i].bucketStart);
        Aggregates(r[i], Seqs.Filter(inB, rows)) && r[i].totalCount == |Seqs.Positions(inB, rows)|
  {
    var r := AggregateByTime(rows, env, tenantId, deviceId, unit, from, to, truncate);
    AggregatePointsAreBuckets(rows, env, tenantId, deviceId, unit, from, to, truncate);
    forall i | 0 <= i < |r|
      ensures var inB := InBucketOf(env, tenantId, deviceId, from, to, unit, truncate, r[i].bucketStart);
        Aggregates(r[i], Seqs.Filter(inB, rows)) && r[i].totalCount == |Seqs.Positions(inB, rows)|
    {
      PointAggregatesBucket(rows, env, tenantId, deviceId, unit, from, to, truncate, r[i].bucketStart);
    }
  }

  /** Each point of the result is the aggregate of its own bucket's group of
      matching rows. */
  lemma AggregatePointsAreBuckets(rows: seq<DeviceMeasurement>, env: string, tenantId: string, deviceId: string,
                                  unit: string, from: Instant, to: Instant, truncate: Truncation)
    ensures var r := AggregateByTime(rows, env, tenantId, deviceId, unit, from, to, truncate);
      forall i :: 0 <= i < |r| ==>
        r[i] == PointOf(r[i].bucketStart, Group(truncate, unit, r[i].bucketStart, Selected(rows, env, tenantId, deviceId, from, to)))
  {
    var selected := Selected(rows, env, tenantId, deviceId, from, to);
    assert AggregateByTime(rows, env, tenantId, deviceId, unit, from, to, truncate)
        == Points(truncate, unit, BucketStarts(truncate, unit, selected), selected);
  }

  /** Under date_trunc's contract no row of a bucket precedes the bucket's start. */
  lemma BucketRowsFollowStart(rows: seq<DeviceMeasurement>, env: string, tenantId: string, deviceId: string,
                              unit: string, from: Instant, to: Instant, truncate: Truncation)
    requires Truncates(truncate)
    ensures var r := AggregateByTime(rows, env, tenantId, deviceId, unit, from, to, truncate);
      forall i, m :: 0 <= i < |r| && m in Group(truncate, unit, r[i].bucketStart, Selected(rows, env, tenantId, deviceId, from, to))
        ==> r[i].bucketStart.AtMost(m.ts)
  {
    var r := AggregateByTime(rows, env, tenantId, deviceId, unit, from, to, truncate);
    forall i, m | 0 <= i < |r| && m in Group(truncate, unit, r[i].bucketStart, Selected(rows, env, tenantId, deviceId, from, to))
      ensures r[i].bucketStart.AtMost(m.ts)
    {
      var g := Group(truncate, unit, r[i].bucketStart, Selected(rows, env, tenantId, deviceId, from, to));
      var j :| 0 <= j < |g| && g[j] == m;
      assert truncate(unit, m.ts) == r[i].bucketStart;
      assert truncate(unit, m.ts).AtMost(m.ts);
    }
  }

  /** date_trunc's contract: a bucket starts no later than the instants in it,
      and later instants never fall into earlier buckets. */
  ghost predicate Truncates(truncate: Truncation) {
    && (forall u: string, t: Instant {:trigger truncate(u, t)} :: truncate(u, t).AtMost(t))
    && (forall u: string, a: Instant, b: Instant {:trigger truncate(u, a), truncate(u, b)} ::
          a.AtMost(b) ==> truncate(u, a).AtMost(truncate(u, b)))
  }

  /** The bucket of an instant in `[from, to]` starts between the bucket of
      `from` and `to`. */
  lemma TruncateBetween(truncate: Truncation, unit: string, from: Instant, to: Instant, t: Instant)
    requires Truncates(truncate)
    requires from.AtMost(t) && t.AtMost(to)
    ensures truncate(unit, from).AtMost(truncate(unit, t)) && truncate(unit, t).AtMost(to)
  {
    assert truncate(unit, t).AtMost(t);
  }

  /** Under date_trunc's contract every bucket start lies between the bucket
      of `from` and `to` itself. */
  lemma AggregateWithinRange(rows: seq<DeviceMeasurement>, env: string, tenantId: string, deviceId: string,
                             unit: string, from: Instant, to: Instant, truncate: Truncation)
    requires Truncates(truncate)
    ensures var r := AggregateByTime(rows, env, tenantId, deviceId, unit, from, to, truncate);
      forall i :: 0 <= i < |r| ==> truncate(unit, from).AtMost(r[i].bucketStart) && r[i].bucketStart.AtMost(to)
  {
    var selected := Selected(rows, env, tenantId, deviceId, from, to);
    var starts := BucketStarts(truncate, unit, selected);
    var r := AggregateByTime(rows, env, tenantId, deviceId, unit, from, to, truncate);
    SelectedMatch(rows, env, tenantId, deviceId, from, to);
    StartsWithinRange(truncate, unit, from, to, selected, env, tenantId, deviceId);
    forall i | 0 <= i < |r|
      ensures truncate(unit, from).AtMost(r[i].bucketStart) && r[i].bucketStart.AtMost(to)
    {
      assert r[i].bucketStart == starts[i];
    }
  }

  /** Every selected row passes the WHERE clause. */
  lemma SelectedMatch(rows: seq<DeviceMeasurement>, env: string, tenantId: string, deviceId: string,
                      from: Instant, to: Instant)
    ensures var selected := Selected(rows, env, tenantId, deviceId, from, to);
      forall s :: 0 <= s < |selected| ==> Matches(selected[s], env, tenantId, deviceId, from, to)
  {
    var selected := Selected(rows, env, tenantId, deviceId, from, to);
    forall s | 0 <= s < |selected|
      ensures Matches(selected[s], env, tenantId, deviceId, from, to)
    {
      assert Query(env, tenantId, deviceId, from, to)(selected[s]);
    }
  }

  /** The same for the bucket starts of the selected rows. */
  lemma StartsWithinRange(truncate: Truncation, unit: string, from: Instant, to: Instant,
                          selected: seq<DeviceMeasurement>, env: string, tenantId: string, deviceId: string)
    requires Truncates(truncate)
    requires forall s :: 0 <= s < |selected| ==> Matches(selected[s], env, tenantId, deviceId, from, to)
    ensures var starts := BucketStarts(truncate, unit, selected);
      forall i :: 0 <= i < |starts| ==> truncate(unit, from).AtMost(starts[i]) && starts[i].AtMost(to)
  {
    var starts := BucketStarts(truncate, unit, selected);
    forall i | 0 <= i < |starts|
      ensures truncate(unit, from).AtMost(starts[i]) && starts[i].AtMost(to)
    {
      assert starts[i] in starts;
      var s :| 0 <= s < |selected| && truncate(unit, selected[s].ts) == starts[i];
      TruncateBetween(truncate, unit, from, to, selected[s].ts);
    }
  }
}
