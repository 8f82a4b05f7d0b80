/**
 * The clock-hand positions drawn by onDraw, as exact fractions of a full
 * turn (0 is twelve o'clock, turning clockwise). The source multiplies each
 * fraction by 2*pi in single-precision floating point; here the fractions are
 * exact reals.
 */
module Hands {

  /** The calendar fields onDraw reads: HOUR (of 12), MINUTE, SECOND, MILLISECOND. */
  datatype ClockFields = ClockFields(hour: int, minute: int, second: int, millisecond: int)
  {
    /** The ranges the calendar keeps its fields in. */
    predicate InRange()
    {
      0 <= hour < 12 && 0 <= minute < 60 && 0 <= second < 60 && 0 <= millisecond < 1000
    }
  }

  const MILLIS_PER_MINUTE: nat := 60_000
  const MILLIS_PER_HOUR: nat := 3_600_000
  const MILLIS_PER_HALF_DAY: nat := 43_200_000

  /** Milliseconds elapsed since the start of the current minute. */
  function MillisOfMinute(f: ClockFields): int
  {
    f.second * 1000 + f.millisecond
  }

  /** Milliseconds elapsed since the start of the current hour. */
  function MillisOfHour(f: ClockFields): int
  {
    f.minute * MILLIS_PER_MINUTE + MillisOfMinute(f)
  }

  /** Milliseconds elapsed since the start of the current twelve-hour half day. */
  function MillisOfHalfDay(f: ClockFields): int
  {
    f.hour * MILLIS_PER_HOUR + MillisOfHour(f)
  }

  /** `seconds` in onDraw: the second field plus the fraction of a second. */
  function Seconds(f: ClockFields): real
  {
    f.second as real + f.millisecond as real / 1000.0
  }

  /** `minutes` in onDraw: the minute field plus the fraction of a minute. */
  function Minutes(f: ClockFields): real
  {
    f.minute as real + Seconds(f) / 60.0
  }

  /** `hours` in onDraw: the hour-of-12 field plus the fraction of an hour. */
  function Hours(f: ClockFields): real
  {
    f.hour as real + Minutes(f) / 60.0
  }

  /** The second hand's turn: the fraction of the current minute that has elapsed. */
  function SecondTurn(f: ClockFields): (turn: real)
    ensures turn == MillisOfMinute(f) as real / MILLIS_PER_MINUTE as real
  {
    Seconds(f) / 60.0
  }

  /** The minute hand's turn: the fraction of the current hour that has elapsed. */
  function MinuteTurn(f: ClockFields): (turn: real)
    ensures turn == MillisOfHour(f) as real / MILLIS_PER_HOUR as real
  {
    Minutes(f) / 60.0
  }

  /** The hour hand's turn: the fraction of the current half day that has elapsed. */
  function HourTurn(f: ClockFields): (turn: real)
    ensures turn == MillisOfHalfDay(f) as real / MILLIS_PER_HALF_DAY as real
  {
    Hours(f) / 12.0
  }

  /** Every hand stays within one turn for fields in range. */
  lemma TurnsInRange(f: ClockFields)
    requires f.InRange()
    ensures 0.0 <= SecondTurn(f) < 1.0
    ensures 0.0 <= MinuteTurn(f) < 1.0
    ensures 0.0 <= HourTurn(f) < 1.0
  {
  }

  /** The minute hand sweeps on with the seconds, the hour hand with the minutes. */
  lemma HandsSweepContinuously(f: ClockFields)
    ensures MinuteTurn(f) == (f.minute as real + SecondTurn(f)) / 60.0
    ensures HourTurn(f) == (f.hour as real + MinuteTurn(f)) / 12.0
  {
  }

  /** At 0:00:00.000 every hand points straight up. */
  lemma TurnsAtTwelve()
    ensures SecondTurn(ClockFields(0, 0, 0, 0)) == 0.0
    ensures MinuteTurn(ClockFields(0, 0, 0, 0)) == 0.0
    ensures HourTurn(ClockFields(0, 0, 0, 0)) == 0.0
  {
  }

  /** At 0:30:00.000 the minute hand points down and the hour hand is 1/24 turn past twelve. */
  lemma TurnsAtHalfPast()
    ensures MinuteTurn(ClockFields(0, 30, 0, 0)) == 0.5
    ensures HourTurn(ClockFields(0, 30, 0, 0)) == 1.0 / 24.0
  {
  }

  /**
   * The calendar's split of local wall-clock milliseconds `t` into the fields
   * onDraw reads (HOUR is the hour of the twelve-hour clock).
   */
  function FieldsAt(t: nat): (f: ClockFields)
    ensures f.InRange()
  {
    var ms := t % 1000;
    var totalSeconds := t / 1000;
    var totalMinutes := totalSeconds / 60;
    var totalHours := totalMinutes / 60;
    ClockFields(totalHours % 12, totalMinutes % 60, totalSeconds % 60, ms)
  }

  lemma {:induction false} MulAtLeast(k: int, d: int)
    requires k >= 1 && d > 0
    ensures k * d >= d
    decreases k
  {
    if k > 1 {
      MulAtLeast(k - 1, d);
      assert k * d == (k - 1) * d + d;
    }
  }

  /** Euclidean division by a positive divisor is determined by quotient and remainder. */
  lemma DivModUnique(t: int, d: int, q: int, r: int)
    requires 0 < d && 0 <= r < d && t == q * d + r
    ensures t % d == r && t / d == q
  {
    var q', r' := t / d, t % d;
    assert t == q' * d + r';
    if q' < q {
      assert (q - q') * d == q * d - q' * d;
      MulAtLeast(q - q', d);
    } else if q' > q {
      assert (q' - q) * d == q' * d - q * d;
      MulAtLeast(q' - q, d);
    }
  }

  /** The fields recombine to the time within the minute they were taken from. */
  lemma MinuteFieldsAtMillis(t: nat)
    ensures MillisOfMinute(FieldsAt(t)) == t % MILLIS_PER_MINUTE
  {
    var totalSeconds := t / 1000;
    DivModUnique(t, 1000, totalSeconds, t % 1000);
    DivModUnique(totalSeconds, 60, totalSeconds / 60, totalSeconds % 60);
    DivModUnique(t, MILLIS_PER_MINUTE, totalSeconds / 60, MillisOfMinute(FieldsAt(t)));
  }

  /** The fields recombine to the time within the hour they were taken from. */
  lemma HourFieldsAtMillis(t: nat)
    ensures MillisOfHour(FieldsAt(t)) == t % MILLIS_PER_HOUR
  {
    var totalMinutes := t / 1000 / 60;
    MinuteFieldsAtMillis(t);
    DivModUnique(t, MILLIS_PER_MINUTE, totalMinutes, t % MILLIS_PER_MINUTE);
    DivModUnique(totalMinutes, 60, totalMinutes / 60, totalMinutes % 60);
    DivModUnique(t, MILLIS_PER_HOUR, totalMinutes / 60, MillisOfHour(FieldsAt(t)));
  }

  /** The fields recombine to the time within the half day they were taken from. */
  lemma HalfDayFieldsAtMillis(t: nat)
    ensures MillisOfHalfDay(FieldsAt(t)) == t % MILLIS_PER_HALF_DAY
  {
    var totalHours := t / 1000 / 60 / 60;
    HourFieldsAtMillis(t);
    DivModUnique(t, MILLIS_PER_HOUR, totalHours, t % MILLIS_PER_HOUR);
    DivModUnique(totalHours, 12, totalHours / 12, totalHours % 12);
    DivModUnique(t, MILLIS_PER_HALF_DAY, totalHours / 12, MillisOfHalfDay(FieldsAt(t)));
  }

  /** Fields in range are exactly what the calendar would produce for their own time. */
  lemma MillisFieldsRoundTrip(f: ClockFields)
    requires f.InRange()
    ensures FieldsAt(MillisOfHalfDay(f)) == f
  {
    var t := MillisOfHalfDay(f);
    var s := f.hour * 3600 + f.minute * 60 + f.second;
    assert t == s * 1000 + f.millisecond;
    assert t / 1000 == s && t % 1000 == f.millisecond;
    var m := f.hour * 60 + f.minute;
    assert s == m * 60 + f.second;
    assert s / 60 == m && s % 60 == f.second;
    assert m / 60 == f.hour && m % 60 == f.minute;
  }

  /**
   * Over wall-clock time the second hand is the elapsed fraction of the
   * minute: it grows with time and is back at 0 exactly on each minute boundary.
   */
  lemma SecondTurnOverTime(t: nat)
    ensures SecondTurn(FieldsAt(t)) == (t % MILLIS_PER_MINUTE) as real / MILLIS_PER_MINUTE as real
    ensures SecondTurn(FieldsAt(t)) == 0.0 <==> t % MILLIS_PER_MINUTE == 0
  {
    MinuteFieldsAtMillis(t);
  }

  /**
   * Over wall-clock time the minute hand is the elapsed fraction of the
   * hour: it grows with time and is back at 0 exactly on each hour boundary.
   */
  lemma MinuteTurnOverTime(t: nat)
    ensures MinuteTurn(FieldsAt(t)) == (t % MILLIS_PER_HOUR) as real / MILLIS_PER_HOUR as real
    ensures MinuteTurn(FieldsAt(t)) == 0.0 <==> t % MILLIS_PER_HOUR == 0
  {
    HourFieldsAtMillis(t);
  }

  /**
   * Over wall-clock time the hour hand is the elapsed fraction of the half
   * day: it grows with time and is back at 0 exactly on each twelve-hour boundary.
   */
  lemma HourTurnOverTime(t: nat)
    ensures HourTurn(FieldsAt(t)) == (t % MILLIS_PER_HALF_DAY) as real / MILLIS_PER_HALF_DAY as real
    ensures HourTurn(FieldsAt(t)) == 0.0 <==> t % MILLIS_PER_HALF_DAY == 0
  {
    HalfDayFieldsAtMillis(t);
  }

  /** Within one minute a later time puts the second hand strictly further round. */
  lemma SecondTurnMonotonic(t: nat, u: nat)
    requires t / MILLIS_PER_MINUTE == u / MILLIS_PER_MINUTE
    requires t < u
    ensures SecondTurn(FieldsAt(t)) < SecondTurn(FieldsAt(u))
  {
    SecondTurnOverTime(t);
    SecondTurnOverTime(u);
    var q := t / MILLIS_PER_MINUTE;
    assert t == q * MILLIS_PER_MINUTE + t % MILLIS_PER_MINUTE;
    assert u == q * MILLIS_PER_MINUTE + u % MILLIS_PER_MINUTE;
  }

  /** Within one hour a later time puts the minute hand strictly further round. */
  lemma MinuteTurnMonotonic(t: nat, u: nat)
    requires t / MILLIS_PER_HOUR == u / MILLIS_PER_HOUR
    requires t < u
    ensures MinuteTurn(FieldsAt(t)) < MinuteTurn(FieldsAt(u))
  {
    MinuteTurnOverTime(t);
    MinuteTurnOverTime(u);
    var q := t / MILLIS_PER_HOUR;
    assert t == q * MILLIS_PER_HOUR + t % MILLIS_PER_HOUR;
    assert u == q * MILLIS_PER_HOUR + u % MILLIS_PER_HOUR;
  }

  /** Within one half day a later time puts the hour hand strictly further round. */
  lemma HourTurnMonotonic(t: nat, u: nat)
    requires t / MILLIS_PER_HALF_DAY == u / MILLIS_PER_HALF_DAY
    requires t < u
    ensures HourTurn(FieldsAt(t)) < HourTurn(FieldsAt(u))
  {
    HourTurnOverTime(t);
    HourTurnOverTime(u);
    var q := t / MILLIS_PER_HALF_DAY;
    assert t == q * MILLIS_PER_HALF_DAY + t % MILLIS_PER_HALF_DAY;
    assert u == q * MILLIS_PER_HALF_DAY + u % MILLIS_PER_HALF_DAY;
  }
}
