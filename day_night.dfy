/** The true lengths of daylight and of darkness at a latitude on a day of the
    year, from the solar declination and the sunrise hour angle. */
module DayNight {
  import opened Trig

  datatype Durations = Durations(dayHours: real, nightHours: real)

  /** Beyond either polar circle, as the fallback of the hour angle draws it. */
  predicate BeyondPolarCircle(latitude: real) {
    latitude > 66.5 || latitude < -66.5
  }

  /** The solar declination, in radians, on a day of the year: never more than
      the axial tilt of 23.44 degrees either side of the equator. */
  function Declination(dayOfYear: int, m: MathLib): (r: real)
    ensures m.CosBounded() ==> -Radians(23.44) <= r <= Radians(23.44)
  {
    Radians(-23.44 * m.cos(2.0 * PI * (dayOfYear + 10) as real / 365.0))
  }

  /** The argument handed to `acos`: minus the product of the tangents of the
      latitude and of the declination; zero on the equator and whenever the
      declination has a zero tangent. */
  function HourAngleArgument(dayOfYear: int, latitude: real, m: MathLib): (r: real)
    ensures m.tan(Radians(latitude)) == 0.0 ==> r == 0.0
    ensures m.tan(Declination(dayOfYear, m)) == 0.0 ==> r == 0.0
  {
    -m.tan(Radians(latitude)) * m.tan(Declination(dayOfYear, m))
  }

  /** With an odd `tan`, the argument at a southern latitude is minus the
      argument at the mirrored northern one. */
  lemma HemispheresMirror(dayOfYear: int, latitude: real, m: MathLib)
    requires m.TanOdd()
    ensures HourAngleArgument(dayOfYear, -latitude, m) == -HourAngleArgument(dayOfYear, latitude, m)
  {
    assert Radians(-latitude) == -Radians(latitude);
  }

  /** The sunrise hour angle: `acos` of the argument when it is defined; when
      `acos` fails, 0 beyond the polar circles and pi elsewhere, whatever the
      sign of the argument. */
  function HourAngle(dayOfYear: int, latitude: real, m: MathLib): (h: real)
    requires m.AcosInRange()
    ensures 0.0 <= h <= PI
    ensures !AcosDomainError(HourAngleArgument(dayOfYear, latitude, m)) ==>
              h == m.acos(HourAngleArgument(dayOfYear, latitude, m))
    ensures AcosDomainError(HourAngleArgument(dayOfYear, latitude, m)) ==>
              (h == 0.0 <==> BeyondPolarCircle(latitude)) && (h == PI <==> !BeyondPolarCircle(latitude))
  {
    var arg := HourAngleArgument(dayOfYear, latitude, m);
    if AcosDomainError(arg) then
      (if BeyondPolarCircle(latitude) then 0.0 else PI)
    else
      m.acos(arg)
  }

  /** Day hours are the hour angle scaled from [0, pi] to [0, 24]; night hours are
      the rest of the 24. */
  function DayNightDurations(dayOfYear: int, latitude: real, m: MathLib): (r: Durations)
    requires m.AcosInRange()
    ensures r.dayHours + r.nightHours == 24.0
    ensures 0.0 <= r.dayHours <= 24.0 && 0.0 <= r.nightHours <= 24.0
    ensures r.dayHours * PI == 24.0 * HourAngle(dayOfYear, latitude, m)
    ensures AcosDomainError(HourAngleArgument(dayOfYear, latitude, m)) ==>
              r == (if BeyondPolarCircle(latitude) then Durations(0.0, 24.0) else Durations(24.0, 0.0))
  {
    var dayHours := 24.0 / PI * HourAngle(dayOfYear, latitude, m);
    Durations(dayHours, 24.0 - dayHours)
  }

  /** At the equator, with `tan 0 = 0` and `acos 0 = pi/2`, day and night are
      twelve hours each, on every day of the year. */
  lemma EquatorHasEqualHalves(dayOfYear: int, m: MathLib)
    requires m.AcosInRange()
    requires m.tan(0.0) == 0.0 && m.acos(0.0) == PI / 2.0
    ensures DayNightDurations(dayOfYear, 0.0, m) == Durations(12.0, 12.0)
  {
    assert Radians(0.0) == 0.0;
    assert HourAngleArgument(dayOfYear, 0.0, m) == 0.0;
  }

  /** Beyond a polar circle the fallback gives no daylight at all, both when the
      argument is above 1 (the sun never rises) and when it is below -1 (the sun
      never sets): the season does not enter. */
  lemma PolarFallbackIgnoresSeason(summer: int, winter: int, latitude: real, m: MathLib)
    requires m.AcosInRange() && BeyondPolarCircle(latitude)
    requires HourAngleArgument(summer, latitude, m) < -1.0
    requires HourAngleArgument(winter, latitude, m) > 1.0
    ensures DayNightDurations(summer, latitude, m) == DayNightDurations(winter, latitude, m) == Durations(0.0, 24.0)
  {
  }
}
