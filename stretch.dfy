/** The stretch factor of one fictitious second at a real moment: a half-sine
    swell over a day window and a night window, scaled by how unequal day and
    night are. */
module Stretch {
  import opened Trig
  import opened Clock
  import opened DayNight
  import opened Outcome

  /** 06:00 and 18:00, in seconds since midnight. */
  const DAY_START: int := 6 * SECONDS_PER_HOUR
  const NIGHT_START: int := 18 * SECONDS_PER_HOUR

  /** `(hour + utc_offset) * 3600 + minute * 60 + second`: a sunrise or sunset
      reading shifted by the UTC offset (in hours) and not reduced modulo a day. */
  function ShiftedSeconds(t: TimeOfDay, utcOffset: real): (r: real)
    ensures r == SecondsOfDay(t) as real + 3600.0 * utcOffset
    ensures 0.0 <= r - 3600.0 * utcOffset < SECONDS_PER_DAY as real
  {
    (t.hour as real + utcOffset) * 3600.0 + (t.minute * SECONDS_PER_MINUTE + t.second) as real
  }

  /** The end of the day window: sunrise pushed forward by the day length; for
      a day length in [0, 24] hours it lies within one day after the shifted
      sunrise. */
  function DayEnd(sunrise: TimeOfDay, dayHours: real, utcOffset: real): (r: real)
    ensures r == SecondsOfDay(sunrise) as real + 3600.0 * (utcOffset + dayHours)
    ensures 0.0 <= dayHours <= 24.0 ==>
              ShiftedSeconds(sunrise, utcOffset) <= r <= ShiftedSeconds(sunrise, utcOffset) + SECONDS_PER_DAY as real
  {
    ShiftedSeconds(sunrise, utcOffset) + dayHours * 3600.0
  }

  /** The end of the night window: sunset pushed forward by the night length;
      for a night length in [0, 24] hours it lies within one day after the
      shifted sunset. */
  function NightEnd(sunset: TimeOfDay, nightHours: real, utcOffset: real): (r: real)
    ensures r == SecondsOfDay(sunset) as real + 3600.0 * (utcOffset + nightHours)
    ensures 0.0 <= nightHours <= 24.0 ==>
              ShiftedSeconds(sunset, utcOffset) <= r <= ShiftedSeconds(sunset, utcOffset) + SECONDS_PER_DAY as real
  {
    ShiftedSeconds(sunset, utcOffset) + nightHours * 3600.0
  }

  predicate InSpan(x: real, start: real, end: real) {
    start <= x < end
  }

  datatype Window = DayWindow | NightWindow | NoWindow

  /** The day window [06:00, dayEnd) is tried first; the night window
      [18:00, nightEnd) only for a moment outside it. */
  function WindowOf(now: real, dayEnd: real, nightEnd: real): (w: Window)
    ensures w == DayWindow <==> InSpan(now, DAY_START as real, dayEnd)
    ensures w == NightWindow <==> !InSpan(now, DAY_START as real, dayEnd) && InSpan(now, NIGHT_START as real, nightEnd)
    ensures w == NoWindow <==> !InSpan(now, DAY_START as real, dayEnd) && !InSpan(now, NIGHT_START as real, nightEnd)
  {
    if InSpan(now, DAY_START as real, dayEnd) then DayWindow
    else if InSpan(now, NIGHT_START as real, nightEnd) then NightWindow
    else NoWindow
  }

  /** The normalised position of `now` in a window: a fraction in [0, 1) that
      places `now` between the window's ends. */
  function Position(now: real, start: real, end: real): (t: real)
    requires InSpan(now, start, end)
    ensures 0.0 <= t < 1.0
    ensures start + t * (end - start) == now
  {
    var t := (now - start) / (end - start);
    QuotientBelowOne(now - start, end - start);
    t
  }

  /** `0 <= a < b` gives `0 <= a / b < 1`. */
  lemma QuotientBelowOne(a: real, b: real)
    requires 0.0 <= a < b
    ensures 0.0 <= a / b < 1.0
    ensures a / b * b == a
  {
    assert a / b * b == a;
  }

  /** `sin(t * pi)` in the day window, `-sin(t * pi)` in the night window, 0 elsewhere. */
  function Modulation(now: real, dayEnd: real, nightEnd: real, m: MathLib): (mod: real)
    requires m.SinBounded()
    ensures -1.0 <= mod <= 1.0
    ensures WindowOf(now, dayEnd, nightEnd) == NoWindow ==> mod == 0.0
    ensures WindowOf(now, dayEnd, nightEnd) == DayWindow ==>
              mod == m.sin(Position(now, DAY_START as real, dayEnd) * PI)
    ensures WindowOf(now, dayEnd, nightEnd) == NightWindow ==>
              mod == -m.sin(Position(now, NIGHT_START as real, nightEnd) * PI)
  {
    match WindowOf(now, dayEnd, nightEnd)
    case DayWindow => m.sin(Position(now, DAY_START as real, dayEnd) * PI)
    case NightWindow => -m.sin(Position(now, NIGHT_START as real, nightEnd) * PI)
    case NoWindow => 0.0
  }

  /** Where `sin` is non-negative on [0, pi], the swell is upward over the day
      window and downward over the night window. */
  lemma ModulationSign(now: real, dayEnd: real, nightEnd: real, m: MathLib)
    requires m.SinBounded() && m.SinNonNegativeOnHalfTurn()
    ensures WindowOf(now, dayEnd, nightEnd) == DayWindow ==> Modulation(now, dayEnd, nightEnd, m) >= 0.0
    ensures WindowOf(now, dayEnd, nightEnd) == NightWindow ==> Modulation(now, dayEnd, nightEnd, m) <= 0.0
  {
    match WindowOf(now, dayEnd, nightEnd)
    case DayWindow =>
      var t := Position(now, DAY_START as real, dayEnd);
      assert 0.0 <= t * PI <= PI;
    case NightWindow =>
      var t := Position(now, NIGHT_START as real, nightEnd);
      assert 0.0 <= t * PI <= PI;
    case NoWindow =>
  }

  /** `abs(day - night) / (day + night)`: zero exactly for equal halves, at most 1
      for non-negative durations, below 1 when both are positive. */
  function Amplitude(dayHours: real, nightHours: real): (a: real)
    requires dayHours + nightHours != 0.0
    ensures a == 0.0 <==> dayHours == nightHours
    ensures dayHours + nightHours > 0.0 ==> a >= 0.0
    ensures dayHours >= 0.0 && nightHours >= 0.0 ==> a <= 1.0
    ensures dayHours > 0.0 && nightHours > 0.0 ==> a < 1.0
  {
    var diff := if dayHours >= nightHours then dayHours - nightHours else nightHours - dayHours;
    QuotientAtMostOne(diff, dayHours + nightHours);
    diff / (dayHours + nightHours)
  }

  /** `0 <= a <= b` with `b` non-zero gives `a / b <= 1`. */
  lemma QuotientAtMostOne(a: real, b: real)
    requires b > 0.0 || b < 0.0
    ensures 0.0 <= a <= b ==> a / b <= 1.0
  {
    assert a / b * b == a;
  }

  /** `second_duration` on clock readings: the factor `1 + amp * mod` when nights
      are longer and `1 - amp * mod` otherwise, or `ZeroDivisionError` when the
      durations sum to zero. */
  function StretchFactor(now: TimeOfDay, dn: Durations, sunrise: TimeOfDay, sunset: TimeOfDay,
                         utcOffset: real, m: MathLib): (r: Result<real>)
    requires m.SinBounded()
    ensures r.ZeroDivisionError? <==> dn.dayHours + dn.nightHours == 0.0
    ensures r.Ok? ==>
              var amp := Amplitude(dn.dayHours, dn.nightHours);
              var mod := Modulation(SecondsOfDay(now) as real, DayEnd(sunrise, dn.dayHours, utcOffset),
                                    NightEnd(sunset, dn.nightHours, utcOffset), m);
              (dn.nightHours > dn.dayHours ==> r.value == 1.0 + amp * mod) &&
              (dn.nightHours <= dn.dayHours ==> r.value == 1.0 - amp * mod)
  {
    var nowSeconds := SecondsOfDay(now);
    var dayEnd := DayEnd(sunrise, dn.dayHours, utcOffset);
    var nightEnd := NightEnd(sunset, dn.nightHours, utcOffset);
    if dn.dayHours + dn.nightHours == 0.0 then
      ZeroDivisionError
    else
      var amp := Amplitude(dn.dayHours, dn.nightHours);
      var mod := Modulation(nowSeconds as real, dayEnd, nightEnd, m);
      if dn.nightHours > dn.dayHours then Ok(1.0 + amp * mod) else Ok(1.0 - amp * mod)
  }

  /** A factor `1 + a * x` or `1 - a * x`, with `a >= 0` and `x` in [-1, 1], lies
      in [1 - a, 1 + a]: non-negative when `a <= 1`, positive when `a < 1`. */
  lemma SignedScaleWithin(a: real, x: real, f: real, nightsLonger: bool)
    requires a >= 0.0 && -1.0 <= x <= 1.0
    requires nightsLonger ==> f == 1.0 + a * x
    requires !nightsLonger ==> f == 1.0 - a * x
    ensures 1.0 - a <= f <= 1.0 + a
    ensures a <= 1.0 ==> f >= 0.0
    ensures a < 1.0 ==> f > 0.0
  {
    ProductNonNegative(a, 1.0 - x);
    assert a * (1.0 - x) == a - a * x;
    ProductNonNegative(a, 1.0 + x);
    assert a * (1.0 + x) == a + a * x;
  }

  lemma ProductNonNegative(a: real, b: real)
    requires a >= 0.0 && b >= 0.0
    ensures a * b >= 0.0
  {
  }

  /** For a positive total the factor lies in [1 - amp, 1 + amp]; it is
      non-negative for non-negative durations and positive when both are positive. */
  lemma StretchBounds(now: TimeOfDay, dn: Durations, sunrise: TimeOfDay, sunset: TimeOfDay,
                      utcOffset: real, m: MathLib)
    requires m.SinBounded() && dn.dayHours + dn.nightHours > 0.0
    ensures StretchFactor(now, dn, sunrise, sunset, utcOffset, m).Ok?
    ensures var amp := Amplitude(dn.dayHours, dn.nightHours);
            var f := StretchFactor(now, dn, sunrise, sunset, utcOffset, m).value;
            1.0 - amp <= f <= 1.0 + amp
    ensures dn.dayHours >= 0.0 && dn.nightHours >= 0.0 ==> StretchFactor(now, dn, sunrise, sunset, utcOffset, m).value >= 0.0
    ensures dn.dayHours > 0.0 && dn.nightHours > 0.0 ==> StretchFactor(now, dn, sunrise, sunset, utcOffset, m).value > 0.0
  {
    var amp := Amplitude(dn.dayHours, dn.nightHours);
    var mod := Modulation(SecondsOfDay(now) as real, DayEnd(sunrise, dn.dayHours, utcOffset),
                          NightEnd(sunset, dn.nightHours, utcOffset), m);
    var r := StretchFactor(now, dn, sunrise, sunset, utcOffset, m);
    if dn.nightHours > dn.dayHours {
      assert r.value == 1.0 + amp * mod;
    } else {
      assert r.value == 1.0 - amp * mod;
    }
    SignedScaleWithin(amp, mod, r.value, dn.nightHours > dn.dayHours);
  }

  /** Outside both windows, or when day and night are equal, the factor is exactly 1. */
  lemma StretchNeutral(now: TimeOfDay, dn: Durations, sunrise: TimeOfDay, sunset: TimeOfDay,
                       utcOffset: real, m: MathLib)
    requires m.SinBounded() && dn.dayHours + dn.nightHours != 0.0
    requires WindowOf(SecondsOfDay(now) as real, DayEnd(sunrise, dn.dayHours, utcOffset),
                      NightEnd(sunset, dn.nightHours, utcOffset)) == NoWindow
             || dn.dayHours == dn.nightHours
    ensures StretchFactor(now, dn, sunrise, sunset, utcOffset, m) == Ok(1.0)
  {
    var amp := Amplitude(dn.dayHours, dn.nightHours);
    var mod := Modulation(SecondsOfDay(now) as real, DayEnd(sunrise, dn.dayHours, utcOffset),
                          NightEnd(sunset, dn.nightHours, utcOffset), m);
    if dn.dayHours == dn.nightHours {
      assert amp == 0.0;
    } else {
      assert mod == 0.0;
    }
    assert amp * mod == 0.0;
    var r := StretchFactor(now, dn, sunrise, sunset, utcOffset, m);
    assert r == Ok(1.0 + amp * mod) || r == Ok(1.0 - amp * mod);
  }

  /** The longer half of the day gets factors at most 1 and the shorter half
      factors at least 1: with longer nights the night window stays at or below
      1 and the day window at or above; with longer days the other way round.
      Read as fictitious seconds per real second, as the fictitious clock sums
      the factors, the longer half's fictitious seconds are the longer ones. */
  lemma LongerHalfFactorsAtMostOne(now: TimeOfDay, dn: Durations, sunrise: TimeOfDay, sunset: TimeOfDay,
                             utcOffset: real, m: MathLib)
    requires m.SinBounded() && m.SinNonNegativeOnHalfTurn() && dn.dayHours + dn.nightHours > 0.0
    ensures var w := WindowOf(SecondsOfDay(now) as real, DayEnd(sunrise, dn.dayHours, utcOffset),
                              NightEnd(sunset, dn.nightHours, utcOffset));
            var f := StretchFactor(now, dn, sunrise, sunset, utcOffset, m).value;
            (dn.nightHours > dn.dayHours && w == NightWindow ==> f <= 1.0) &&
            (dn.nightHours > dn.dayHours && w == DayWindow ==> f >= 1.0) &&
            (dn.dayHours > dn.nightHours && w == DayWindow ==> f <= 1.0) &&
            (dn.dayHours > dn.nightHours && w == NightWindow ==> f >= 1.0)
  {
    var now' := SecondsOfDay(now) as real;
    var dayEnd := DayEnd(sunrise, dn.dayHours, utcOffset);
    var nightEnd := NightEnd(sunset, dn.nightHours, utcOffset);
    var amp := Amplitude(dn.dayHours, dn.nightHours);
    var mod := Modulation(now', dayEnd, nightEnd, m);
    ModulationSign(now', dayEnd, nightEnd, m);
    if mod >= 0.0 {
      ProductNonNegative(amp, mod);
    } else {
      ProductNonNegative(amp, -mod);
    }
  }

  /** `second_duration(now, ...)`: the factor at an instant, with the clock
      reading of the instant, sunrise on its day and sunset on the day after. */
  function SecondDuration(now: int, dn: Durations, sun: SolarOracle, utcOffset: real, m: MathLib): (r: Result<real>)
    requires m.SinBounded()
    ensures r.ZeroDivisionError? <==> dn.dayHours + dn.nightHours == 0.0
    ensures r.Ok? && dn.dayHours + dn.nightHours > 0.0 ==>
              var amp := Amplitude(dn.dayHours, dn.nightHours);
              1.0 - amp <= r.value <= 1.0 + amp
  {
    var sunrise := ClockOf(TodaySunrise(sun, now));
    var sunset := ClockOf(TodaySunset(sun, now));
    if dn.dayHours + dn.nightHours > 0.0 then
      StretchBounds(ClockOf(now), dn, sunrise, sunset, utcOffset, m);
      StretchFactor(ClockOf(now), dn, sunrise, sunset, utcOffset, m)
    else
      StretchFactor(ClockOf(now), dn, sunrise, sunset, utcOffset, m)
  }
}
