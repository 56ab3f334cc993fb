# Fictional clock: the elastic-time arithmetic

The fictional clock shows a time of day whose twelve daytime hours span the
real daylight at a place, and whose twelve night hours span the real darkness.
Each half of the day is stretched or compressed to fit. Three functions of
`clock_logic.py` hold the arithmetic, and this project models all three:

- `get_day_night_durations`: the hours of daylight and of darkness at a
  latitude on a day of the year. It uses the solar declination and the sunrise
  hour angle, with a fallback when `acos` is undefined at polar latitudes.
  This is module `DayNight`.
- `second_duration`: the stretch factor at a moment. It is
  `1 ± amplitude · modulation`, where the modulation is a half sine over a day
  window that starts at 06:00 and a night window that starts at 18:00, and is 0
  outside both. This is module `Stretch`.
- `get_fictif_hour`: the fictitious time now. It picks a base of 06:00:00 or
  18:00:00 and the real seconds elapsed since sunrise or sunset. It then builds
  a list of per-second stretch factors hour by hour in a loop, and adds the sum
  of that list to the base. This is module `FictitiousClock`. The loop is a
  Dafny `method` with loop invariants, proved against the specification
  function `SecondsList`.

Supporting modules:

- `Clock`: instants as whole seconds, clock readings, `timedelta.seconds`, and
  `math.ceil(delta / 3600)`.
- `Lists`: `[x] * k` and `sum`.
- `Trig`: `math.pi` and the abstract `sin`, `cos`, `tan`, `acos`.
- `Outcome`: the `ZeroDivisionError` raised when day and night hours sum to
  zero.

The external inputs are parameters:

- The sunrise and sunset lookups are a `SolarOracle`, a pair of functions from
  a day number to an instant.
- The UTC offset is a real number of hours.
- The transcendental functions come in a `MathLib` value. The general
  properties rely only on its range laws: `sin` and `cos` lie in [-1, 1],
  `sin` is non-negative on [0, pi], `tan` is odd, and `acos` lies in [0, pi]
  on [-1, 1]. Each lemma states which of these it needs.
  `DayNight.EquatorHasEqualHalves` also takes two point values as
  hypotheses: `tan 0 = 0` and `acos 0 = pi/2`.

Three facts about the code shape the model:

- The amplitude divides by day plus night (clock_logic.py:62). That total is
  24 whenever the durations come from `get_day_night_durations`.
- The hourly buckets are always sampled from `today_sunset`
  (clock_logic.py:100), whichever event anchors the clock. This is the second
  finding below.
- `today_sunset` is the sunset of the day after `current_time`
  (clock_logic.py:87). `FictitiousClock.AlwaysAnchoredAtSunrise` shows what
  that implies.

Monotonicity is proved within a *span* (`FictitiousClock.SameSpan`): two
ordered instants of one day that are both not after `today_sunset` and lie
either both in the day from today's sunrise or both in the day before it
(before sunrise, where `.seconds` wraps the delta), or that are both after
`today_sunset` and less than a day after it.
It assumes non-negative day and night hours, which makes every stretch factor
non-negative.

## Model

| member | source | states |
|---|---|---|
| Clock.SecondsOfDay | clock_logic.py:49 | a valid time of day gives `h*3600 + m*60 + s` in [0, 86400) |
| Clock.ClockOf | clock_logic.py:49-54 | the reading of an instant has seconds-of-day equal to the instant modulo a day, and its day and reading rebuild the instant |
| Clock.ClockRoundTrip | clock_logic.py:49 | reading the clock at `SecondsOfDay(t)` gives `t` back |
| Clock.TimedeltaSeconds | clock_logic.py:90-95 | `.seconds` of a difference lies in [0, 86400), differs from it by whole days, equals it on [0, 86400), and adds a day on [-86400, 0) |
| Clock.CeilHours | clock_logic.py:97 | `math.ceil(delta / 3600)` is the least `h` with `delta <= 3600*h` |
| Clock.TodaySunset | clock_logic.py:47 | the sunset looked up is that of the day after the day of `now` |
| Clock.SolarEventsFixedWithinDay | clock_logic.py:45-47 | two instants of the same day see the same sunrise and the same sunset |
| Trig.Radians | clock_logic.py:31 | `math.radians` keeps the sign of the angle, sends 180 degrees to pi and scales by pi/180 |
| DayNight.Declination | clock_logic.py:33 | with `cos` in [-1, 1], the declination stays within 23.44 degrees either side of the equator |
| DayNight.HourAngleArgument | clock_logic.py:35 | the `acos` argument is 0 whenever the latitude's tangent is 0 or the declination's tangent is 0 |
| DayNight.HemispheresMirror | clock_logic.py:31-35 | with an odd `tan`, the argument at latitude `-l` is minus the argument at `l` |
| DayNight.HourAngle | clock_logic.py:34-37 | the hour angle lies in [0, pi]; it is `acos` of the argument when that is defined; on a domain error it is 0 exactly beyond the polar circles and pi exactly elsewhere |
| DayNight.DayNightDurations | clock_logic.py:30-40 | day plus night is exactly 24; both lie in [0, 24]; day hours are 24/pi times the hour angle; a domain error gives (0, 24) beyond the polar circles and (24, 0) elsewhere |
| DayNight.EquatorHasEqualHalves | clock_logic.py:31-39 | at latitude 0, with `tan 0 = 0` and `acos 0 = pi/2`, day and night are 12 hours each on every day |
| DayNight.PolarFallbackIgnoresSeason | clock_logic.py:34-37 | beyond a polar circle, an argument below -1 (sun never sets) and one above 1 (sun never rises) both give no daylight at all |
| Stretch.ShiftedSeconds | clock_logic.py:51-54 | sunrise and sunset seconds are the seconds of day plus 3600 times the UTC offset, not reduced modulo a day |
| Stretch.DayEnd | clock_logic.py:57 | the day window ends at sunrise plus offset plus day length, in seconds; for a day length in [0, 24] hours, within one day after the shifted sunrise |
| Stretch.NightEnd | clock_logic.py:59 | the night window ends at sunset plus offset plus night length, in seconds; for a night length in [0, 24] hours, within one day after the shifted sunset |
| Stretch.WindowOf | clock_logic.py:64-73 | the day window [06:00, dayEnd) is tried first, the night window [18:00, nightEnd) only outside it, and neither otherwise; each case as an if-and-only-if |
| Stretch.Position | clock_logic.py:64-70 | inside a window the normalised position lies in [0, 1) and places `now` between the window's ends |
| Stretch.Modulation | clock_logic.py:64-73 | the modulation lies in [-1, 1]; it is `sin(t*pi)` in the day window, `-sin(t*pi)` in the night window and 0 outside both |
| Stretch.ModulationSign | clock_logic.py:64-71 | with `sin` non-negative on [0, pi], the modulation is non-negative in the day window and non-positive in the night window |
| Stretch.Amplitude | clock_logic.py:61-62 | the amplitude is 0 exactly for equal halves, non-negative for a positive total, at most 1 for non-negative durations and below 1 for positive ones |
| Stretch.StretchFactor | clock_logic.py:56-79 | `ZeroDivisionError` exactly when day plus night is 0; otherwise `1 + amp*mod` when nights are longer and `1 - amp*mod` when they are not |
| Stretch.SignedScaleWithin | clock_logic.py:76-79 | `1 ± a*x` with `a >= 0` and `x` in [-1, 1] lies in [1 - a, 1 + a], and is positive when `a < 1` |
| Stretch.StretchBounds | clock_logic.py:61-79 | for a positive total the factor lies in [1 - amp, 1 + amp]; it is non-negative for non-negative durations and positive when both are positive |
| Stretch.StretchNeutral | clock_logic.py:72-79 | outside both windows, or with equal day and night, the factor is exactly 1 |
| Stretch.LongerHalfFactorsAtMostOne | clock_logic.py:75-79 | with longer nights the factor is at most 1 in the night window and at least 1 in the day window; with longer days the reverse |
| Stretch.SecondDuration | clock_logic.py:43-79 | at an instant: `ZeroDivisionError` exactly when day plus night is 0, and a factor in [1 - amp, 1 + amp] when the total is positive |
| Lists.Sum | clock_logic.py:108 | `sum` starts from zero, so the empty list sums to 0 |
| Lists.Repeat | clock_logic.py:103-106 | `[x] * k` has `k` entries, all `x`, and is empty for `k <= 0` |
| Lists.SumAppend | clock_logic.py:104-108 | the sum of a concatenation is the sum of the sums |
| Lists.SumRepeat | clock_logic.py:104-108 | `sum([x] * k)` is `k*x`, and 0 for `k <= 0` |
| Lists.SumBounds | clock_logic.py:108 | a list with entries in [lo, hi] sums to between `len*lo` and `len*hi` |
| Lists.SumNearLength | clock_logic.py:108 | a list with entries within `tol` of 1 sums to within `len*tol` of its length |
| FictitiousClock.AnchorOf | clock_logic.py:90-95 | after `today_sunset` the base is 18:00:00 and the delta is measured from sunset, otherwise 06:00:00 from sunrise; the delta lies in [0, 86400), matches the difference up to whole days, wraps a negative difference within a day, and is exactly the difference from sunset or sunrise when that is less than a day |
| FictitiousClock.AlwaysAnchoredAtSunrise | clock_logic.py:87-95 | when the next day's sunset falls on that day, `current_time` never passes it, so the base is always 06:00:00 |
| FictitiousClock.BucketLength | clock_logic.py:103-106 | a full hour for every bucket before the last; 1 copy for the single bucket of one hour; a negative count for the last bucket from two hours on |
| FictitiousClock.SecondsList | clock_logic.py:98-106 | the list is empty before the first bucket and holds a full hour of entries per bucket while the last is not reached |
| FictitiousClock.SampleKeepsMinuteAndSecond | clock_logic.py:100 | `today_sunset + timedelta(hours=i)` keeps the minute and the second of the reading |
| FictitiousClock.SampledFromExtend | clock_logic.py:99-102 | sampling the next hour extends the sampled factors by one entry |
| FictitiousClock.SecondsListExtend | clock_logic.py:98-106 | the list after `n` buckets does not depend on later factors |
| FictitiousClock.FictitiousHour | clock_logic.py:82-111 | with no buckets the result is the base time; with buckets and a zero total it is `ZeroDivisionError`; otherwise bucket `h` is the factor `h` hours after `today_sunset` and the result is the base plus the sum of the list built bucket by bucket |
| FictitiousClock.FullHourBuckets | clock_logic.py:103-104 | every bucket before the last adds 3600 entries, summing to 3600 times its factor |
| FictitiousClock.AsWrittenBuckets | clock_logic.py:97-108 | the built list has 0 entries for no hours, 1 entry for one hour, and `3600*(h-1)` entries otherwise; its sum is the single factor, or 3600 times the sum of all factors but the last |
| FictitiousClock.AsWrittenDropsFinalHour | clock_logic.py:97-106 | the list has one entry per elapsed second exactly when the delta is at most 1, and fewer entries than elapsed seconds from a delta of 2 on |
| FictitiousClock.FictitiousElapsedBounds | clock_logic.py:98-108 | with every factor in [lo, hi], the summed list lies between its length times `lo` and times `hi` |
| FictitiousClock.SecondsListWithin | clock_logic.py:98-106 | with every factor in [lo, hi], every entry of the built list lies in [lo, hi] |
| FictitiousClock.MorningSamplesLieAhead | clock_logic.py:90-100 | when anchored at sunrise, no sample instant `today_sunset + i` hours lies in the elapsed interval before `current_time` |
| FictitiousClock.ElapsedStart | clock_logic.py:90-95 | the elapsed interval starts `delta` seconds before `current_time`, at the anchoring sunset or sunrise up to whole days, and exactly at sunrise when `current_time` lies in the day after it |
| FictitiousClock.IntendedSamplesInElapsedInterval | clock_logic.py:97-100 | every corrected sample instant lies in the elapsed interval |
| FictitiousClock.SampledFactorsWithin | clock_logic.py:100-102 | factors sampled with a positive total lie in [1 - amp, 1 + amp] |
| FictitiousClock.PerSecondFactorsShape | clock_logic.py:97-106 | the corrected list has one entry per elapsed second, each hour's first second carries that hour's factor, and the last hour holds the `delta - (hours - 1) * 3600` remaining seconds |
| FictitiousClock.PerSecondDrift | clock_logic.py:97-108 | with one entry per elapsed second and hourly factors within `amp` of 1, the sum differs from the elapsed seconds by at most `delta*amp` |
| FictitiousClock.SampledNonNegative | clock_logic.py:100-102 | for non-negative day and night hours with a positive total, every sampled factor is non-negative |
| FictitiousClock.SampledPrefix | clock_logic.py:99-102 | two factor lists sampled from the same origin agree on their common buckets |
| FictitiousClock.SpanAnchors | clock_logic.py:86-95 | two ordered instants of one span (from sunrise, before sunrise with the wrapped delta, or after sunset) share the base time, `today_sunset` and the start of the elapsed interval, and the later one has at least as long a delta and at least as many buckets |
| FictitiousClock.AsWrittenMonotone | clock_logic.py:97-109 | over non-negative factors, the list the loop builds for more buckets sums to at least as much |
| FictitiousClock.AsWrittenMonotoneInTime | clock_logic.py:86-109 | for `c1 <= c2` in one span, including the hours before sunrise where the delta wraps, the fictitious time the code gives `c1` is at most the one it gives `c2` (with the factors `FictitiousHour` samples for each) |
| FictitiousClock.PerSecondMonotone | clock_logic.py:97-109 | over non-negative factors, the per-second sum never decreases as the elapsed seconds grow |
| FictitiousClock.IntendedMonotoneInTime | clock_logic.py:86-109 | for `c1 <= c2` in one span, including the hours before sunrise where the delta wraps, the corrected fictitious time of `c1` is at most that of `c2` (with the factors `IntendedFictitiousHour` samples for each) |
| FictitiousClock.AppendBucket | clock_logic.py:103-106 | appending at most an hour of copies keeps every entry equal to the factor of its hour |
| FictitiousClock.IntendedBuckets | clock_logic.py:97-106 | the corrected loop samples `ceil(delta/3600)` hourly factors from the interval's start and builds exactly one entry per elapsed second, each carrying its hour's factor |
| FictitiousClock.IntendedDrift | clock_logic.py:97-109 | for a positive total, the base plus the per-second sum of sampled factors lies within `delta * amp` of the base plus `delta` |
| FictitiousClock.IntendedSince | clock_logic.py:97-109 | the corrected integration from the start of the elapsed interval: `ceil(delta/3600)` sampled factors, the base plus their per-second sum, within `delta * amp` of the base plus `delta` for a positive total |
| FictitiousClock.IntendedFictitiousHour | clock_logic.py:82-111 | corrected `get_fictif_hour`: the base time at delta 0; `ZeroDivisionError` for a zero total; otherwise the base plus one factor per elapsed second, and for a positive total within `delta*amp` of the base plus the elapsed real seconds |

## Left out

- `get_timezone_offset` (clock_logic.py:11-27) wraps the TimezoneFinder and pytz lookups. Only its result, the UTC offset in hours, enters the model, as a parameter.
- `plot_clock` (clock_logic.py:114-149) is matplotlib drawing.
- main.py is not part of this model. It is a Streamlit page with an unbounded `while True` loop and `time.sleep`, so it is I/O and timing.
- The `suntime` library is replaced by a `SolarOracle` parameter. `astimezone` is not modelled, and neither is the comparison of timezone-aware with naive datetimes. All instants are whole seconds in one frame.
- Floating point: durations and factors are exact reals, and the rounding of `timedelta(seconds=...)` to microseconds is not modelled.
- `math.sin`, `cos`, `tan` and `acos` stay abstract beyond the range laws above. `tm_yday` is an input, the day of the year.
- FictitiousClock.FictitiousHour: the result is real seconds from midnight of the base date (1 January 1900, as `strptime` gives it), not a `datetime`. A sum that passes midnight is not carried over into the date.
- DayNight.HourAngle: the polar fallback is kept as written. It ignores the sign of the argument, so beyond the polar circles it gives polar night in both seasons (`DayNight.PolarFallbackIgnoresSeason`). No finding is claimed, because the intended rule is not evident from the code.
- Stretch.SecondDuration: the UTC offset is always a number. When no timezone is found, `get_timezone_offset` returns `None` (clock_logic.py:19-20). `second_duration` then raises `TypeError` at clock_logic.py:51, so `get_fictif_hour` raises as soon as it samples one bucket, yet still returns the base time at delta 0. That error path is not modelled.
- FictitiousClock.AsWrittenMonotoneInTime and FictitiousClock.IntendedMonotoneInTime: monotonicity is stated within one span only. Across sunrise the delta drops from almost a day back to 0, and across the sunset switch the base jumps to 18:00:00 and the delta restarts, so no order between spans is claimed.
- The steady-state tick of the display loop (one fictitious second per wait of one stretch factor) lives in main.py and is not modelled.

## Findings

| source | as written | input that shows it | evidently intended | confidence | as-written member | corrected member |
|---|---|---|---|---|---|---|
| clock_logic.py:106 | the last bucket appends `delta_in_hours - (delta_in_hours - 1) * 3600` copies, which is 1 for one hour and negative, so empty, from two hours on | `delta_in_seconds = 5400`: two buckets, but the list holds 3600 entries instead of 5400, so the last 1800 elapsed seconds are dropped (and `delta_in_seconds = 1800` counts a single second) | the last bucket holds `delta_in_seconds - (delta_in_hours - 1) * 3600` copies, so the list has one entry per elapsed second | high (not executed) | FictitiousClock.AsWrittenDropsFinalHour | FictitiousClock.IntendedBuckets |
| clock_logic.py:100 | every bucket is sampled at `today_sunset + i` hours, also when the clock is anchored at sunrise | any `current_time` not after `today_sunset` with a positive delta: every sample lies at or after sunset, outside the elapsed interval before `current_time` | bucket `i` is sampled `i` hours after the start of the elapsed interval | medium (not executed) | FictitiousClock.MorningSamplesLieAhead | FictitiousClock.IntendedFictitiousHour |
