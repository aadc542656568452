/** AggregatedPoint's untyped constructor: the query hands back the bucket
    start as whatever object the driver produced for date_trunc, and
    convertToInstant turns it into an Instant or rejects it. */
module AggregatedPoints {
  import opened Wrappers
  import opened Instants
  import opened Records

  /** The bucket-start object of a result row, by its runtime class. A
      java.sql.Timestamp is represented by the instant it denotes. */
  datatype SqlValue =
    | SqlNull
    | SqlInstant(instant: Instant)
    | SqlTimestamp(at: Instant)
    | SqlOther(className: string)

  /** convertToInstant: an Instant passes through, a Timestamp becomes its
      instant, anything else is an IllegalArgumentException. A null fails
      the two instanceof tests and then throws NullPointerException while
      the message is built from its class. */
  function ConvertToInstant(v: SqlValue): (r: Result<Instant>)
    ensures r.Success? <==> v.SqlInstant? || v.SqlTimestamp?
    ensures v.SqlInstant? ==> r == Success(v.instant)
    ensures v.SqlTimestamp? ==> r == Success(v.at)
    ensures v.SqlOther? ==> r == Failure(IllegalArgument)
    ensures v.SqlNull? ==> r == Failure(NullPointer)
  {
    match v
    case SqlInstant(i) => Success(i)
    case SqlTimestamp(ts) => Success(ts)
    case SqlOther(_) => Failure(IllegalArgument)
    case SqlNull => Failure(NullPointer)
  }

  /** The untyped constructor: the bucket start converted, the two averages
      and three counts copied unchanged; a failed conversion fails the row. */
  function NewAggregatedPoint(bucketStart: SqlValue, tAvg: Option<real>, hAvg: Option<real>,
                              totalCount: int, okCount: int, errorCount: int): (r: Result<AggregatedPoint>)
    ensures r.Success? <==> ConvertToInstant(bucketStart).Success?
    ensures r.Failure? ==> r.error == ConvertToInstant(bucketStart).error
    ensures r.Success? ==> r.value.bucketStart == ConvertToInstant(bucketStart).value
    ensures r.Success? ==> r.value.tAvg == tAvg && r.value.hAvg == hAvg
    ensures r.Success? ==> r.value.totalCount == totalCount && r.value.okCount == okCount
                           && r.value.errorCount == errorCount
  {
    match ConvertToInstant(bucketStart)
    case Success(i) => Success(AggregatedPoint(i, tAvg, hAvg, totalCount, okCount, errorCount))
    case Failure(e) => Failure(e)
  }

  /** The two accepted classes are interchangeable: the same moment gives
      the same point whether the driver returns an Instant or a Timestamp. */
  lemma InstantAndTimestampAgree(i: Instant, tAvg: Option<real>, hAvg: Option<real>,
                                 totalCount: int, okCount: int, errorCount: int)
    ensures NewAggregatedPoint(SqlInstant(i), tAvg, hAvg, totalCount, okCount, errorCount)
         == NewAggregatedPoint(SqlTimestamp(i), tAvg, hAvg, totalCount, okCount, errorCount)
         == Success(AggregatedPoint(i, tAvg, hAvg, totalCount, okCount, errorCount))
  {
  }

  /** The typed fields of a point survive a trip through the untyped
      constructor with its bucket start as an Instant. */
  lemma NewAggregatedPointRoundTrip(p: AggregatedPoint)
    ensures NewAggregatedPoint(SqlInstant(p.bucketStart), p.tAvg, p.hAvg, p.totalCount, p.okCount, p.errorCount)
         == Success(p)
  {
  }
}
