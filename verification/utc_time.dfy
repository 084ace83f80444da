/**
 * UTC calendar arithmetic on Unix time: the day number of a millisecond
 * timestamp, and the split of a second timestamp into a day and a
 * time of day. Days are counted from 1970-01-01; turning a day number into
 * a year-month-day string is not part of this model.
 */
module UtcTime {

  const MillisPerDay: int := 86_400_000
  const SecondsPerDay: int := 86_400
  const SecondsPerHour: int := 3_600
  const SecondsPerMinute: int := 60

  /** Last second that Python's `datetime` can represent: 9999-12-31 23:59:59 UTC. */
  const MaxDatetimeSeconds: int := 253_402_300_799

  /**
   * The UTC day that contains the instant `ms` milliseconds after the epoch.
   * Dafny's division by a positive constant rounds toward negative infinity,
   * as the day of an instant before 1970 requires.
   */
  function DayOfMillis(ms: int): (day: int)
    ensures day * MillisPerDay <= ms < (day + 1) * MillisPerDay
  {
    ms / MillisPerDay
  }

  /** A UTC instant truncated to seconds: a day number and a clock time. */
  datatype DateTime = DateTime(day: int, hour: int, minute: int, second: int)
  {
    /** The clock fields are within their ranges. */
    predicate Valid() {
      0 <= hour < 24 && 0 <= minute < 60 && 0 <= second < 60
    }

    /** Seconds since the epoch of this instant. */
    function UnixSeconds(): int {
      day * SecondsPerDay + hour * SecondsPerHour + minute * SecondsPerMinute + second
    }
  }

  /** The UTC date and clock time of a Unix timestamp in seconds. */
  function FromUnixSeconds(s: int): (t: DateTime)
    ensures t.Valid()
    ensures t.UnixSeconds() == s
  {
    var secOfDay := s % SecondsPerDay;
    DateTime(s / SecondsPerDay, secOfDay / SecondsPerHour,
             secOfDay % SecondsPerHour / SecondsPerMinute, secOfDay % SecondsPerMinute)
  }

  /** Splitting the seconds of a valid instant gives that instant back: the split is unique. */
  lemma FromUnixSecondsInverse(t: DateTime)
    requires t.Valid()
    ensures FromUnixSeconds(t.UnixSeconds()) == t
  {
    var secOfDay := t.hour * SecondsPerHour + t.minute * SecondsPerMinute + t.second;
    assert 0 <= secOfDay < SecondsPerDay;
    assert t.UnixSeconds() == t.day * SecondsPerDay + secOfDay;
    assert t.UnixSeconds() / SecondsPerDay == t.day;
    assert t.UnixSeconds() % SecondsPerDay == secOfDay;
    assert secOfDay / SecondsPerHour == t.hour;
    assert secOfDay % SecondsPerHour == t.minute * SecondsPerMinute + t.second;
    assert secOfDay % SecondsPerMinute == t.second;
  }
}
