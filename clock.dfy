/** Instants, wall-clock readings and the `datetime`/`timedelta` arithmetic the
    clock relies on. An instant is a whole number of seconds counted from
    midnight of day 0; the day and the clock reading of an instant are its
    quotient and remainder by the length of a day. */
module Clock {

  const SECONDS_PER_MINUTE: int := 60
  const SECONDS_PER_HOUR: int := 3600
  const SECONDS_PER_DAY: int := 86400

  datatype Time = Time(hour: int, minute: int, second: int)
  {
    predicate InRange() {
      0 <= hour < 24 && 0 <= minute < 60 && 0 <= second < 60
    }
  }

  /** The `hour`, `minute` and `second` fields of a `datetime`, always in range. */
  type TimeOfDay = t: Time | t.InRange() witness Time(0, 0, 0)

  /** `hour * 3600 + minute * 60 + second`: the seconds since midnight. */
  function SecondsOfDay(t: TimeOfDay): (s: int)
    ensures 0 <= s < SECONDS_PER_DAY
  {
    t.hour * SECONDS_PER_HOUR + t.minute * SECONDS_PER_MINUTE + t.second
  }

  /** The calendar day an instant falls on. */
  function DayOf(instant: int): int {
    instant / SECONDS_PER_DAY
  }

  /** The clock reading of an instant: its day and its reading give the instant back. */
  function ClockOf(instant: int): (t: TimeOfDay)
    ensures SecondsOfDay(t) == instant % SECONDS_PER_DAY
    ensures DayOf(instant) * SECONDS_PER_DAY + SecondsOfDay(t) == instant
  {
    var s := instant % SECONDS_PER_DAY;
    var rest := s % SECONDS_PER_HOUR;
    assert s == s / SECONDS_PER_HOUR * SECONDS_PER_HOUR + rest;
    assert rest == rest / SECONDS_PER_MINUTE * SECONDS_PER_MINUTE + rest % SECONDS_PER_MINUTE;
    assert rest % SECONDS_PER_MINUTE == s % SECONDS_PER_MINUTE;
    Time(s / SECONDS_PER_HOUR, rest / SECONDS_PER_MINUTE, s % SECONDS_PER_MINUTE)
  }

  /** Reading the clock of `SecondsOfDay(t)` gives `t` back. */
  lemma ClockRoundTrip(t: TimeOfDay)
    ensures ClockOf(SecondsOfDay(t)) == t
  {
    var s := SecondsOfDay(t);
    var below := t.minute * SECONDS_PER_MINUTE + t.second;
    assert 0 <= below < SECONDS_PER_HOUR;
    assert s / SECONDS_PER_HOUR == t.hour && s % SECONDS_PER_HOUR == below;
    assert below / SECONDS_PER_MINUTE == t.minute;
    assert s % SECONDS_PER_MINUTE == t.second;
  }

  /** The `seconds` field of `timedelta(seconds = d)`: the part of `d` below one
      day, never negative, since `timedelta` moves whole days into `days`. */
  function TimedeltaSeconds(d: int): (s: int)
    ensures 0 <= s < SECONDS_PER_DAY
    ensures (d - s) % SECONDS_PER_DAY == 0
    ensures 0 <= d < SECONDS_PER_DAY ==> s == d
    ensures -SECONDS_PER_DAY <= d < 0 ==> s == d + SECONDS_PER_DAY
  {
    d % SECONDS_PER_DAY
  }

  /** `math.ceil(delta / 3600)`: the fewest whole hours covering `delta` seconds. */
  function CeilHours(delta: nat): (h: nat)
    ensures (h - 1) * SECONDS_PER_HOUR < delta <= h * SECONDS_PER_HOUR
  {
    (delta + SECONDS_PER_HOUR - 1) / SECONDS_PER_HOUR
  }

  /** The external solar-event library: the instant of sunrise and of sunset on a
      given day number. */
  datatype SolarOracle = SolarOracle(sunriseOn: int -> int, sunsetOn: int -> int)

  /** `get_local_sunrise_time(now)`: sunrise on the day of `now`. */
  function TodaySunrise(sun: SolarOracle, now: int): int {
    sun.sunriseOn(DayOf(now))
  }

  /** `get_local_sunset_time(now + timedelta(days=1))`: the sunset looked up is
      that of the day after the day of `now`. */
  function TodaySunset(sun: SolarOracle, now: int): (r: int)
    ensures r == sun.sunsetOn(DayOf(now) + 1)
  {
    sun.sunsetOn(DayOf(now + SECONDS_PER_DAY))
  }

  /** Both lookups depend on the day of `now` only: two instants of the same day
      see the same sunrise and the same sunset. */
  lemma SolarEventsFixedWithinDay(sun: SolarOracle, now: int, later: int)
    requires DayOf(now) == DayOf(later)
    ensures TodaySunrise(sun, now) == TodaySunrise(sun, later)
    ensures TodaySunset(sun, now) == TodaySunset(sun, later)
  {
  }
}
