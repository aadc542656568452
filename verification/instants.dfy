/** java.time.Instant as a count of nanoseconds since the epoch, with the
    range limits whose violation makes Instant arithmetic throw. */
module Instants {
  import opened Wrappers

  const NanosPerSecond: int := 1_000_000_000
  /** Instant.MIN and Instant.MAX, in epoch seconds. */
  const MinSecond: int := -31557014167219200
  const MaxSecond: int := 31556889864403199

  datatype Instant = Instant(epochNano: int) {
    predicate Before(other: Instant) { epochNano < other.epochNano }
    predicate AtMost(other: Instant) { epochNano <= other.epochNano }
  }

  /** Instant.getEpochSecond: whole seconds, rounded towards the past. */
  function EpochSecond(i: Instant): int {
    i.epochNano / NanosPerSecond
  }

  /** The instant lies within [Instant.MIN, Instant.MAX]. */
  predicate Valid(i: Instant) {
    MinSecond <= EpochSecond(i) <= MaxSecond
  }

  /** Instant.ofEpochSecond: exactly `s` seconds after the epoch, or a
      DateTimeException when `s` is outside the Instant range. */
  function OfEpochSecond(s: int): (r: Result<Instant>)
    ensures r.Success? <==> MinSecond <= s <= MaxSecond
    ensures r.Success? ==> Valid(r.value) && EpochSecond(r.value) == s
    ensures r.Success? ==> r.value.epochNano % NanosPerSecond == 0
    ensures r.Failure? ==> r.error == DateTimeOutOfRange
  {
    if MinSecond <= s <= MaxSecond then Success(Instant(s * NanosPerSecond))
    else Failure(DateTimeOutOfRange)
  }

  /** Instant.minus(n, HOURS or DAYS), i.e. plusSeconds(-seconds): the
      instant `seconds` earlier, or a DateTimeException when that instant
      falls outside the Instant range. */
  function MinusSeconds(i: Instant, seconds: nat): (r: Result<Instant>)
    ensures r.Success? <==> Valid(Instant(i.epochNano - seconds * NanosPerSecond))
    ensures r.Success? ==> r.value.epochNano == i.epochNano - seconds * NanosPerSecond
    ensures r.Success? ==> Valid(r.value) && (seconds > 0 ==> r.value.Before(i))
    ensures r.Failure? ==> r.error == DateTimeOutOfRange
  {
    var j := Instant(i.epochNano - seconds * NanosPerSecond);
    if Valid(j) then Success(j) else Failure(DateTimeOutOfRange)
  }

  /** Seconds are ordered as their instants are. */
  lemma OfEpochSecondMonotonic(a: int, b: int)
    requires OfEpochSecond(a).Success? && OfEpochSecond(b).Success?
    ensures a < b <==> OfEpochSecond(a).value.Before(OfEpochSecond(b).value)
  {
  }

  /** Later instants never have fewer whole seconds. */
  lemma EpochSecondMonotonic(a: Instant, b: Instant)
    requires a.AtMost(b)
    ensures EpochSecond(a) <= EpochSecond(b)
  {
    var qa, qb := EpochSecond(a), EpochSecond(b);
    assert qa * NanosPerSecond <= a.epochNano;
    assert b.epochNano < (qb + 1) * NanosPerSecond;
  }
}
