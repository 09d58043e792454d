/**
 The start/end clock-time pair of the timer form and `calculateDuration`,
 which turns two `HH:mm` values into a whole number of minutes.

 A clock time is what an `HH:mm` time input delivers: an hour in 0..23 and a
 minute in 0..59. `setHours(h, m, 0)` on today's date sets hours, minutes
 and seconds but keeps the millisecond field of the `new Date()` it was
 called on, so each instant is its clock offset from local midnight plus
 that millisecond field. Both instants share the same date. The model takes
 the two millisecond fields to be equal, so they cancel; the gap between the
 two `new Date()` calls and daylight-saving shifts are not modelled.
 */
module Clock {

  import opened Units

  const MinutesPerDay: int := 1440
  const MsPerMinute: int := 60000

  datatype ClockTime = ClockTime(hours: int, minutes: int) {

    predicate Valid() {
      0 <= hours <= 23 && 0 <= minutes <= 59
    }

    /** Minutes after local midnight. */
    function MinuteOfDay(): int {
      hours * MinutesPerHour + minutes
    }
  }

  /** The values an `HH:mm` time input can hold once it is non-empty. */
  type ValidClock = c: ClockTime | c.Valid() witness ClockTime(0, 0)

  /** The clock time `k` minutes after local midnight (k taken modulo one day). */
  function FromMinuteOfDay(k: int): (c: ValidClock)
    ensures 0 <= k < MinutesPerDay ==> c.MinuteOfDay() == k
  {
    var k' := k % MinutesPerDay;
    ClockTime(k' / MinutesPerHour, k' % MinutesPerHour)
  }

  /** The clock time reached by waiting `k` minutes from `c`, wrapping past midnight. */
  function AddMinutes(c: ValidClock, k: int): ValidClock {
    FromMinuteOfDay(c.MinuteOfDay() + k)
  }

  /**
   Milliseconds after local midnight of `setHours(c.hours, c.minutes, 0)`,
   leaving out the millisecond field kept from `new Date()`, which is taken
   to be the same for both instants.
   */
  function InstantMs(c: ValidClock): int {
    c.MinuteOfDay() * MsPerMinute
  }

  /**
   The minutes from `start` to `end`. When the end instant is earlier than
   the start instant it is moved to the next day. The millisecond difference
   is divided by one minute and floored; it is never negative here, so
   Dafny's Euclidean division agrees with `Math.floor`.
   */
  function CalculateDuration(start: ValidClock, end: ValidClock): (r: int)
    ensures 0 <= r < MinutesPerDay
    ensures end.MinuteOfDay() >= start.MinuteOfDay() ==> r == end.MinuteOfDay() - start.MinuteOfDay()
    ensures end.MinuteOfDay() < start.MinuteOfDay() ==> r == MinutesPerDay + end.MinuteOfDay() - start.MinuteOfDay()
    ensures r == 0 <==> start == end
  {
    var startMs := InstantMs(start);
    var endMs := if InstantMs(end) < startMs then InstantMs(end) + MinutesPerDay * MsPerMinute else InstantMs(end);
    MinuteOfDayInjective(start, end);
    (endMs - startMs) / MsPerMinute
  }

  /** A valid clock time is determined by its minute of the day. */
  lemma MinuteOfDayInjective(a: ValidClock, b: ValidClock)
    ensures a.MinuteOfDay() == b.MinuteOfDay() <==> a == b
  {
    if a.MinuteOfDay() == b.MinuteOfDay() {
      RecoverClock(a);
      RecoverClock(b);
    }
  }

  /** Splitting the minute of the day back into hours and minutes gives the clock time again. */
  lemma RecoverClock(c: ValidClock)
    ensures FromMinuteOfDay(c.MinuteOfDay()) == c
  {
    var k := c.MinuteOfDay();
    assert k % MinutesPerDay == k;
    DivModSixty(k, c.hours, c.minutes);
  }

  /**
   Waiting the computed duration from the start time lands exactly on the
   end time, and no shorter wait within one day does: the duration is the
   least number of minutes that carries the start clock to the end clock.
   */
  lemma DurationReachesEnd(start: ValidClock, end: ValidClock)
    ensures AddMinutes(start, CalculateDuration(start, end)) == end
    ensures forall k :: 0 <= k < CalculateDuration(start, end) ==> AddMinutes(start, k) != end
  {
    var r := CalculateDuration(start, end);
    var s := start.MinuteOfDay();
    var e := end.MinuteOfDay();
    assert (s + r) % MinutesPerDay == e;
    RecoverClock(end);
    forall k | 0 <= k < r
      ensures AddMinutes(start, k) != end
    {
      var c := AddMinutes(start, k);
      assert c.MinuteOfDay() == (s + k) % MinutesPerDay;
      assert (s + k) % MinutesPerDay != e;
    }
  }
}
