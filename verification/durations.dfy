/** Granularities of an incremental aggregation, the time units used for
    their retention, and the retention value itself. */
module Durations {

  /** The time buckets an incremental aggregation can maintain a table for. */
  datatype Granularity = Seconds | Minutes | Hours | Days | Months | Years

  /** Time units in milliseconds; a year counts 365 days. */
  const SecondMs: int := 1000
  const MinuteMs: int := 60 * SecondMs
  const HourMs: int := 60 * MinuteMs
  const DayMs: int := 24 * HourMs
  const YearMs: int := 365 * DayMs

  /** How long rows of one granularity are kept: forever, or for a number of
      milliseconds. */
  datatype Retention = RetainAll | Keep(ms: int)

  /** The in-memory encoding used by the purger: a retention is a long, and
      -1 stands for "retain everything". */
  const RetainAllSentinel: int := -1

  function Encode(r: Retention): int
  {
    match r
    case RetainAll => RetainAllSentinel
    case Keep(ms) => ms
  }

  function Decode(v: int): Retention
  {
    if v == RetainAllSentinel then RetainAll else Keep(v)
  }

  /** The sentinel encoding loses nothing except a retention of exactly -1 ms,
      which reads back as "retain everything". */
  lemma SentinelRoundTrip(r: Retention)
    ensures r != Keep(RetainAllSentinel) ==> Decode(Encode(r)) == r
    ensures r == Keep(RetainAllSentinel) ==> Decode(Encode(r)) == RetainAll
    ensures Encode(Decode(Encode(r))) == Encode(r)
  {
  }

  /** The purge loop's test on the stored long: it differs from the sentinel.
      On OpenJDK, boxing -1 yields the cached object the sentinel holds, so a
      parsed retention of -1 ms is skipped exactly like "retain everything". */
  predicate Purgeable(r: Retention)
    ensures Purgeable(r) <==> r.Keep? && r.ms != RetainAllSentinel
  {
    Encode(r) != RetainAllSentinel
  }

  /** A retention passes the loop's test exactly when it survives the sentinel
      round trip as a finite window; that window is then the retention itself. */
  lemma PurgeableMeansFiniteWindow(r: Retention)
    ensures Purgeable(r) <==> Decode(Encode(r)).Keep?
    ensures Purgeable(r) ==> Decode(Encode(r)) == r
  {
  }
}
