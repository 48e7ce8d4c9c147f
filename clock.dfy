/** Naive datetimes and times of day, as Python's `datetime` module represents
    them: a timestamp is a count of microseconds since 0001-01-01 00:00:00
    (datetime.min), a time of day is the record (hour, minute, second,
    microsecond), and times of day compare lexicographically. */
module Clock {

  import opened Wrappers

  const MicrosPerSecond: nat := 1_000_000
  const MicrosPerHour: nat := 3_600_000_000
  const MicrosPerDay: nat := 86_400_000_000
  const MicrosPerWeek: nat := 604_800_000_000

  /** The last microsecond of 9999-12-31 (datetime.max); 3652059 is its day ordinal. */
  const MaxTimestamp: nat := 3_652_059 * 86_400_000_000 - 1

  type Timestamp = t: int | 0 <= t <= MaxTimestamp

  datatype Time = Time(hour: nat, minute: nat, second: nat, microsecond: nat)
  {
    predicate Valid() {
      hour < 24 && minute < 60 && second < 60 && microsecond < 1_000_000
    }

    /** Microseconds since midnight. */
    function Micros(): nat {
      ((hour * 60 + minute) * 60 + second) * 1_000_000 + microsecond
    }

    /** The whole seconds since midnight, `hour * 3600 + minute * 60 + second`. */
    function ClockSeconds(): nat {
      hour * 3600 + minute * 60 + second
    }
  }

  type TimeOfDay = t: Time | t.Valid() witness Time(0, 0, 0, 0)

  /** `a < b` on `datetime.time`: comparison of (hour, minute, second, microsecond). */
  predicate Before(a: Time, b: Time) {
    || a.hour < b.hour
    || (a.hour == b.hour && a.minute < b.minute)
    || (a.hour == b.hour && a.minute == b.minute && a.second < b.second)
    || (a.hour == b.hour && a.minute == b.minute && a.second == b.second && a.microsecond < b.microsecond)
  }

  /** Python's `max(a, b)`: the first argument unless the second is strictly greater. */
  function Later(a: TimeOfDay, b: TimeOfDay): (m: TimeOfDay)
    ensures m == a || m == b
    ensures !Before(m, a) && !Before(m, b)
  {
    if Before(a, b) then b else a
  }

  /** Python's `min(a, b)`: the first argument unless the second is strictly smaller. */
  function Earlier(a: TimeOfDay, b: TimeOfDay): (m: TimeOfDay)
    ensures m == a || m == b
    ensures !Before(a, m) && !Before(b, m)
  {
    if Before(b, a) then b else a
  }

  /** `dt.time()`: the time-of-day fields of a timestamp. */
  function TimeOf(ts: int): (t: TimeOfDay)
    ensures t.Micros() == ts % MicrosPerDay
  {
    var d := ts % 86_400_000_000;
    var secs := d / 1_000_000;
    var mins := secs / 60;
    assert secs == mins * 60 + secs % 60;
    assert mins == (mins / 60) * 60 + mins % 60;
    Time(mins / 60, mins % 60, secs % 60, d % 1_000_000)
  }

  /** `dt - timedelta(microseconds = delta)`: None where the result would fall
      before datetime.min (Python raises OverflowError). */
  function Subtract(ts: Timestamp, delta: nat): (r: Option<Timestamp>)
    ensures r.Some? <==> delta <= ts
    ensures r.Some? ==> r.value + delta == ts
  {
    if ts - delta < 0 then None else Some(ts - delta)
  }

  /** The lexicographic order on valid times is the order of their microsecond counts. */
  lemma BeforeIsMicrosLess(a: TimeOfDay, b: TimeOfDay)
    ensures Before(a, b) <==> a.Micros() < b.Micros()
  {
    var sa := (a.hour * 60 + a.minute) * 60 + a.second;
    var sb := (b.hour * 60 + b.minute) * 60 + b.second;
    assert a.Micros() == sa * 1_000_000 + a.microsecond;
    assert b.Micros() == sb * 1_000_000 + b.microsecond;
    if Before(a, b) {
      assert sa < sb || (sa == sb && a.microsecond < b.microsecond);
    } else {
      assert sb < sa || (sa == sb && b.microsecond <= a.microsecond);
    }
  }

  /** The whole seconds of a time are its microseconds since midnight, rounded down. */
  lemma ClockSecondsIsFloor(t: TimeOfDay)
    ensures t.ClockSeconds() == t.Micros() / MicrosPerSecond
  {
    var s := t.ClockSeconds();
    assert t.Micros() == s * 1_000_000 + t.microsecond;
  }

  /** A time strictly before another never has more whole seconds. */
  lemma ClockSecondsMonotone(a: TimeOfDay, b: TimeOfDay)
    requires Before(a, b)
    ensures a.ClockSeconds() <= b.ClockSeconds()
  {
  }

  /** Two timestamps a whole number of days apart have the same time of day. */
  lemma TimeOfWholeDays(ts: int, days: nat)
    ensures TimeOf(ts - days * MicrosPerDay) == TimeOf(ts)
  {
    var k := ts - days * 86_400_000_000;
    assert k % 86_400_000_000 == ts % 86_400_000_000;
  }
}
