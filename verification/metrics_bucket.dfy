/** MetricsBucket: the three aggregation granularities and the PostgreSQL
    date_trunc unit each one names. */
module MetricsBucket {
  import opened Wrappers

  datatype Bucket = HOUR | DAY | WEEK

  /** postgresUnit: the date_trunc field name of the bucket. */
  function PostgresUnit(b: Bucket): (r: string)
    ensures r in {"hour", "day", "week"}
    ensures BucketOfUnit(r) == Some(b)
  {
    match b
    case HOUR => "hour"
    case DAY => "day"
    case WEEK => "week"
  }

  /** The bucket whose unit is `u`, if any: the inverse of PostgresUnit. */
  function BucketOfUnit(u: string): (r: Option<Bucket>)
    ensures r.Some? <==> u in {"hour", "day", "week"}
  {
    if u == "hour" then Some(HOUR)
    else if u == "day" then Some(DAY)
    else if u == "week" then Some(WEEK)
    else None
  }

  /** Distinct buckets are truncated with distinct units. */
  lemma PostgresUnitInjective(a: Bucket, b: Bucket)
    ensures PostgresUnit(a) == PostgresUnit(b) ==> a == b
  {
    assert BucketOfUnit(PostgresUnit(a)) == Some(a);
  }

  /** Every unit name that names a bucket comes from that bucket. */
  lemma BucketOfUnitRoundTrip(u: string)
    requires BucketOfUnit(u).Some?
    ensures PostgresUnit(BucketOfUnit(u).value) == u
  {
  }
}
