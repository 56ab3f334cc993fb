/** The fictitious time of day: the stretch factor integrated hour by hour from
    the anchoring sunrise or sunset, added to 06:00:00 or 18:00:00. */
module FictitiousClock {
  import opened Trig
  import opened Clock
  import opened DayNight
  import opened Stretch
  import opened Outcome
  import opened Lists

  /** The base times 06:00:00 and 18:00:00 of 1 January 1900 (the date
      `strptime` fills in), in seconds from that day's midnight. */
  const DAY_BASE: int := 6 * SECONDS_PER_HOUR
  const NIGHT_BASE: int := 18 * SECONDS_PER_HOUR

  /** The base time the fictitious clock starts from and the real seconds
      elapsed since the matching solar event. */
  datatype Anchor = Anchor(base: int, delta: int)

  /** After sunset the clock counts from 18:00:00 and from sunset, otherwise from
      06:00:00 and from sunrise; the elapsed time is the `seconds` field of the
      difference, so a day's multiple is dropped and a negative difference wraps. */
  function AnchorOf(current: int, sunrise: int, sunset: int): (a: Anchor)
    ensures 0 <= a.delta < SECONDS_PER_DAY
    ensures current > sunset ==>
              a.base == NIGHT_BASE && (current - sunset - a.delta) % SECONDS_PER_DAY == 0
    ensures current <= sunset ==>
              a.base == DAY_BASE && (current - sunrise - a.delta) % SECONDS_PER_DAY == 0
    ensures current <= sunset && sunrise <= current < sunrise + SECONDS_PER_DAY ==>
              a.delta == current - sunrise
    ensures sunset < current < sunset + SECONDS_PER_DAY ==> a.delta == current - sunset
    ensures current <= sunset && sunrise - SECONDS_PER_DAY <= current < sunrise ==>
              a.delta == current - sunrise + SECONDS_PER_DAY
  {
    if current > sunset then
      Anchor(NIGHT_BASE, TimedeltaSeconds(current - sunset))
    else
      Anchor(DAY_BASE, TimedeltaSeconds(current - sunrise))
  }

  /** The `today_sunset` of the source is sunset on the day AFTER `current`; when
      that sunset falls within its own day, `current` never passes it, and the
      clock is always anchored at 06:00:00 and sunrise. */
  lemma AlwaysAnchoredAtSunrise(current: int, sun: SolarOracle)
    requires DayOf(TodaySunset(sun, current)) == DayOf(current + SECONDS_PER_DAY)
    ensures AnchorOf(current, TodaySunrise(sun, current), TodaySunset(sun, current)).base == DAY_BASE
  {
    var next := current + SECONDS_PER_DAY;
    var sunset := TodaySunset(sun, current);
    var _ := ClockOf(current);
    var _ := ClockOf(next);
    var _ := ClockOf(sunset);
    assert DayOf(next) == DayOf(current) + 1;
    assert sunset >= DayOf(next) * SECONDS_PER_DAY;
    assert current < (DayOf(current) + 1) * SECONDS_PER_DAY;
  }

  /** How many copies of bucket `i`'s factor the loop appends, as written: a full
      hour for every bucket but the last, and `hours - (hours - 1) * 3600` for the
      last one. */
  function BucketLength(i: int, hours: int): (count: int)
    ensures i < hours - 1 ==> count == SECONDS_PER_HOUR
    ensures hours == 1 && i == 0 ==> count == 1
    ensures hours >= 2 && i >= hours - 1 ==> count < 0
  {
    if i < hours - 1 then SECONDS_PER_HOUR else hours - (hours - 1) * SECONDS_PER_HOUR
  }

  /** The list the loop has built after its first `n` buckets: empty before the
      first, and a full hour of entries per bucket while the last is not reached. */
  function SecondsList(factors: seq<real>, hours: int, n: nat): (list: seq<real>)
    requires n <= |factors|
    ensures n == 0 ==> list == []
    ensures n < hours ==> |list| == n * SECONDS_PER_HOUR
  {
    if n == 0 then [] else SecondsList(factors, hours, n - 1) + Repeat(factors[n - 1], BucketLength(n - 1, hours))
  }

  /** The instant at which bucket `h` is sampled: `h` hours after `origin`. */
  function SampleInstant(origin: int, h: int): int {
    origin + h * SECONDS_PER_HOUR
  }

  /** Moving on by whole hours keeps the minute and the second of the clock
      reading: `timedelta(hours=h)` only advances the hour, across days. */
  lemma SampleKeepsMinuteAndSecond(origin: int, h: int)
    ensures ClockOf(SampleInstant(origin, h)).minute == ClockOf(origin).minute
    ensures ClockOf(SampleInstant(origin, h)).second == ClockOf(origin).second
  {
    var x := SampleInstant(origin, h);
    var rx := x % SECONDS_PER_DAY;
    var ro := origin % SECONDS_PER_DAY;
    assert rx == x - DayOf(x) * SECONDS_PER_DAY;
    assert ro == origin - DayOf(origin) * SECONDS_PER_DAY;
    assert rx == ro + (h + 24 * (DayOf(origin) - DayOf(x))) * SECONDS_PER_HOUR;
    ShiftByHours(ro, h + 24 * (DayOf(origin) - DayOf(x)));
  }

  /** Adding whole hours changes neither the seconds past the hour nor the
      seconds past the minute. */
  lemma ShiftByHours(r: int, k: int)
    ensures (r + k * SECONDS_PER_HOUR) % SECONDS_PER_HOUR == r % SECONDS_PER_HOUR
    ensures (r + k * SECONDS_PER_HOUR) % SECONDS_PER_MINUTE == r % SECONDS_PER_MINUTE
  {
    var x := r + k * SECONDS_PER_HOUR;
    ModOfShift(r, k, SECONDS_PER_HOUR);
    assert x == r + (k * SECONDS_PER_MINUTE) * SECONDS_PER_MINUTE;
    ModOfShift(r, k * SECONDS_PER_MINUTE, SECONDS_PER_MINUTE);
  }

  /** Adding a multiple of `d` leaves the remainder by `d` unchanged. */
  lemma ModOfShift(r: int, k: int, d: int)
    requires d > 0
    ensures (r + k * d) % d == r % d
  {
    var x := r + k * d;
    assert x == (r / d + k) * d + r % d;
    assert x == (x / d) * d + x % d;
    SmallMultipleIsZero(x / d - r / d - k, d, r % d - x % d);
  }

  /** The only multiple of a positive `d` strictly between `-d` and `d` is 0. */
  lemma SmallMultipleIsZero(q: int, d: int, e: int)
    requires d > 0 && q * d == e && -d < e < d
    ensures q == 0
  {
    if q != 0 {
      var p := if q > 0 then q - 1 else -q - 1;
      MulNonNegative(p, d);
    }
  }

  lemma MulNonNegative(p: int, d: int)
    requires p >= 0 && d >= 0
    ensures p * d >= 0
  {
  }

  /** `factors[h]` is the stretch factor `second_duration` gives at `h` hours
      after `origin`, for every bucket `h`. */
  ghost predicate SampledFrom(factors: seq<real>, origin: int, dn: Durations, sun: SolarOracle, utcOffset: real, m: MathLib)
    requires m.SinBounded()
  {
    forall h {:trigger SampleInstant(origin, h)} :: 0 <= h < |factors| ==>
      SecondDuration(SampleInstant(origin, h), dn, sun, utcOffset, m) == Ok(factors[h])
  }

  /** Sampling the next bucket extends the sampled factors by one. */
  lemma SampledFromExtend(factors: seq<real>, x: real, origin: int, dn: Durations, sun: SolarOracle, utcOffset: real, m: MathLib)
    requires m.SinBounded() && SampledFrom(factors, origin, dn, sun, utcOffset, m)
    requires SecondDuration(SampleInstant(origin, |factors|), dn, sun, utcOffset, m) == Ok(x)
    ensures SampledFrom(factors + [x], origin, dn, sun, utcOffset, m)
  {
    forall h | 0 <= h < |factors| + 1
      ensures SecondDuration(SampleInstant(origin, h), dn, sun, utcOffset, m) == Ok((factors + [x])[h])
    {
      if h < |factors| {
        var _ := SampleInstant(origin, h);
      }
    }
  }

  /** The first `n` buckets do not depend on factors after the `n`-th. */
  lemma {:induction false} SecondsListExtend(factors: seq<real>, x: real, hours: int, n: nat)
    requires n <= |factors|
    ensures SecondsList(factors + [x], hours, n) == SecondsList(factors, hours, n)
  {
    if n > 0 {
      SecondsListExtend(factors, x, hours, n - 1);
      assert (factors + [x])[n - 1] == factors[n - 1];
    }
  }

  /** `get_fictif_hour`: the base time plus the sum of the per-second factors, in
      seconds from midnight of the base date; `ZeroDivisionError` when a factor is
      needed and the durations sum to zero. `factors` are the hourly factors the
      loop samples, bucket `h` at `h` hours after `today_sunset`. */
  method FictitiousHour(current: int, dn: Durations, sun: SolarOracle, utcOffset: real, m: MathLib)
    returns (r: Result<real>, ghost factors: seq<real>)
    requires m.SinBounded()
    ensures var a := AnchorOf(current, TodaySunrise(sun, current), TodaySunset(sun, current));
            CeilHours(a.delta) == 0 ==> r == Ok(a.base as real)
    ensures var a := AnchorOf(current, TodaySunrise(sun, current), TodaySunset(sun, current));
            CeilHours(a.delta) > 0 && dn.dayHours + dn.nightHours == 0.0 ==> r == ZeroDivisionError
    ensures var sunset := TodaySunset(sun, current);
            var a := AnchorOf(current, TodaySunrise(sun, current), sunset);
            var hours := CeilHours(a.delta);
            dn.dayHours + dn.nightHours != 0.0 ==>
              |factors| == hours &&
              SampledFrom(factors, sunset, dn, sun, utcOffset, m) &&
              r == Ok(a.base as real + Sum(SecondsList(factors, hours, hours)))
  {
    var todaySunrise := TodaySunrise(sun, current);
    var todaySunset := TodaySunset(sun, current);
    var anchor := AnchorOf(current, todaySunrise, todaySunset);
    var hours := CeilHours(anchor.delta);
    var secondsList: seq<real> := [];
    factors := [];
    var i := 0;
    while i < hours
      invariant 0 <= i <= hours
      invariant dn.dayHours + dn.nightHours == 0.0 ==> i == 0
      invariant |factors| == i
      invariant SampledFrom(factors, todaySunset, dn, sun, utcOffset, m)
      invariant secondsList == SecondsList(factors, hours, i)
    {
      var duration := SecondDuration(SampleInstant(todaySunset, i), dn, sun, utcOffset, m);
      if duration.ZeroDivisionError? {
        return ZeroDivisionError, factors;
      }
      SecondsListExtend(factors, duration.value, hours, i);
      SampledFromExtend(factors, duration.value, todaySunset, dn, sun, utcOffset, m);
      if i < hours - 1 {
        secondsList := secondsList + Repeat(duration.value, SECONDS_PER_HOUR);
      } else {
        secondsList := secondsList + Repeat(duration.value, hours - (hours - 1) * SECONDS_PER_HOUR);
      }
      factors := factors + [duration.value];
      i := i + 1;
    }
    r := Ok(anchor.base as real + Sum(secondsList));
  }

  /** While the last bucket is not reached, each bucket adds a full hour of
      copies: `n` buckets give `3600 * n` entries summing to 3600 times the sum
      of their factors. */
  lemma {:induction false} FullHourBuckets(factors: seq<real>, hours: int, n: nat)
    requires n <= |factors| && n < hours
    ensures |SecondsList(factors, hours, n)| == n * SECONDS_PER_HOUR
    ensures Sum(SecondsList(factors, hours, n)) == SECONDS_PER_HOUR as real * Sum(factors[..n])
  {
    if n > 0 {
      FullHourBuckets(factors, hours, n - 1);
      var x := factors[n - 1];
      SumAppend(SecondsList(factors, hours, n - 1), Repeat(x, SECONDS_PER_HOUR));
      SumRepeat(x, SECONDS_PER_HOUR);
      assert factors[..n] == factors[..n - 1] + [x];
      SumAppend(factors[..n - 1], [x]);
      assert Sum([x]) == x;
    }
  }

  /** The list as the loop builds it: no entries for no hours, ONE entry for a
      single hour, and `3600 * (hours - 1)` entries otherwise, since the last
      bucket's count `hours - (hours - 1) * 3600` is 1 for one hour and negative
      after; its sum is the factor of that single bucket, or 3600 times the
      factors of all buckets but the last. */
  lemma {:induction false} AsWrittenBuckets(factors: seq<real>, hours: nat)
    requires |factors| == hours
    ensures |SecondsList(factors, hours, hours)| == if hours <= 1 then hours else (hours - 1) * SECONDS_PER_HOUR
    ensures Sum(SecondsList(factors, hours, hours)) ==
              if hours == 0 then 0.0
              else if hours == 1 then factors[0]
              else SECONDS_PER_HOUR as real * Sum(factors[..hours - 1])
  {
    if hours > 0 {
      var last := factors[hours - 1];
      var count := hours - (hours - 1) * SECONDS_PER_HOUR;
      FullHourBuckets(factors, hours, hours - 1);
      SumAppend(SecondsList(factors, hours, hours - 1), Repeat(last, count));
      SumRepeat(last, count);
      if hours == 1 {
        assert SecondsList(factors, hours, 0) == [];
      } else {
        assert count < 0;
      }
    }
  }

  /** The list counts fewer seconds than have elapsed as soon as two or more have:
      the final, partial or full, hour is dropped (a single entry stands for the
      whole first hour). */
  lemma {:induction false} AsWrittenDropsFinalHour(factors: seq<real>, delta: nat)
    requires |factors| == CeilHours(delta)
    ensures var hours := CeilHours(delta);
            |SecondsList(factors, hours, hours)| == delta <==> delta <= 1
    ensures var hours := CeilHours(delta);
            delta >= 2 ==> |SecondsList(factors, hours, hours)| < delta
  {
    AsWrittenBuckets(factors, CeilHours(delta));
  }

  /** When every factor lies in [lo, hi], the fictitious seconds the loop adds
      lie between the list length times `lo` and times `hi`; `SampledFactorsWithin`
      puts every sampled factor in [1 - amp, 1 + amp]. */
  lemma {:induction false} FictitiousElapsedBounds(factors: seq<real>, hours: nat, lo: real, hi: real)
    requires |factors| == hours
    requires forall i :: 0 <= i < hours ==> lo <= factors[i] <= hi
    ensures |SecondsList(factors, hours, hours)| as real * lo <= Sum(SecondsList(factors, hours, hours))
    ensures Sum(SecondsList(factors, hours, hours)) <= |SecondsList(factors, hours, hours)| as real * hi
  {
    SecondsListWithin(factors, hours, hours, lo, hi);
    SumBounds(SecondsList(factors, hours, hours), lo, hi);
  }

  /** Every entry of the list is one of the factors. */
  lemma {:induction false} SecondsListWithin(factors: seq<real>, hours: int, n: nat, lo: real, hi: real)
    requires n <= |factors|
    requires forall i :: 0 <= i < |factors| ==> lo <= factors[i] <= hi
    ensures forall k :: 0 <= k < |SecondsList(factors, hours, n)| ==> lo <= SecondsList(factors, hours, n)[k] <= hi
  {
    if n > 0 {
      SecondsListWithin(factors, hours, n - 1, lo, hi);
    }
  }

  /** When `current` has not passed `today_sunset`, every bucket is sampled at or
      after sunset, so none lies in the interval of `delta` seconds that has
      actually elapsed before `current`. */
  lemma MorningSamplesLieAhead(current: int, sun: SolarOracle, i: nat)
    requires current <= TodaySunset(sun, current)
    ensures var a := AnchorOf(current, TodaySunrise(sun, current), TodaySunset(sun, current));
            var sample := SampleInstant(TodaySunset(sun, current), i);
            !(current - a.delta <= sample < current)
  {
  }

  // The elapsed-time integration as evidently intended: hourly buckets sampled
  // over the elapsed interval itself, and a last bucket holding the seconds that
  // remain, so that every elapsed real second is counted exactly once.

  /** The instant `delta` seconds before `current`, where the elapsed interval
      starts: the anchoring sunrise or sunset, up to whole days. */
  function ElapsedStart(current: int, sun: SolarOracle): (start: int)
    ensures var a := AnchorOf(current, TodaySunrise(sun, current), TodaySunset(sun, current));
            start + a.delta == current
    ensures var sunrise := TodaySunrise(sun, current);
            var sunset := TodaySunset(sun, current);
            (current > sunset ==> (start - sunset) % SECONDS_PER_DAY == 0) &&
            (current <= sunset ==> (start - sunrise) % SECONDS_PER_DAY == 0) &&
            (current <= sunset && sunrise <= current < sunrise + SECONDS_PER_DAY ==> start == sunrise)
  {
    current - AnchorOf(current, TodaySunrise(sun, current), TodaySunset(sun, current)).delta
  }

  /** Every intended sample instant lies in the elapsed interval
      [start, start + delta). */
  lemma IntendedSamplesInElapsedInterval(start: int, delta: nat, h: nat)
    requires h < CeilHours(delta)
    ensures start <= SampleInstant(start, h) < start + delta
  {
  }

  /** One entry per elapsed second: second `k` carries the factor of hour `k / 3600`. */
  function PerSecondFactors(factors: seq<real>, delta: nat): seq<real>
    requires CeilHours(delta) <= |factors|
  {
    seq(delta, k requires 0 <= k < delta => factors[k / SECONDS_PER_HOUR])
  }

  /** The per-second list has one entry per elapsed second, each hour's first
      second carries that hour's factor, and the last hour holds exactly the
      `delta - (hours - 1) * 3600` seconds that remain. */
  lemma PerSecondFactorsShape(factors: seq<real>, delta: nat)
    requires CeilHours(delta) <= |factors|
    ensures |PerSecondFactors(factors, delta)| == delta
    ensures forall h :: 0 <= h < CeilHours(delta) ==>
              h * SECONDS_PER_HOUR < delta && PerSecondFactors(factors, delta)[h * SECONDS_PER_HOUR] == factors[h]
    ensures delta > 0 ==>
              var last := (CeilHours(delta) - 1) * SECONDS_PER_HOUR;
              0 < delta - last <= SECONDS_PER_HOUR &&
              forall k :: last <= k < delta ==> PerSecondFactors(factors, delta)[k] == factors[CeilHours(delta) - 1]
  {
    var hours := CeilHours(delta);
    if delta > 0 {
      var last := (hours - 1) * SECONDS_PER_HOUR;
      forall k | last <= k < delta
        ensures PerSecondFactors(factors, delta)[k] == factors[hours - 1]
      {
        assert k / SECONDS_PER_HOUR == hours - 1;
      }
    }
  }

  /** With every hourly factor within `amp` of one, the fictitious seconds
      counted over `delta` real seconds drift from `delta` by at most
      `delta * amp`. */
  lemma PerSecondDrift(factors: seq<real>, delta: nat, amp: real)
    requires |factors| == CeilHours(delta)
    requires forall h :: 0 <= h < |factors| ==> 1.0 - amp <= factors[h] <= 1.0 + amp
    ensures -(delta as real * amp) <= Sum(PerSecondFactors(factors, delta)) - delta as real <= delta as real * amp
  {
    SumNearLength(PerSecondFactors(factors, delta), amp);
  }

  /** Factors sampled with `SecondDuration` for a positive total lie within
      the amplitude of one. */
  lemma SampledFactorsWithin(factors: seq<real>, start: int, dn: Durations, sun: SolarOracle, utcOffset: real, m: MathLib)
    requires m.SinBounded() && dn.dayHours + dn.nightHours > 0.0
    requires SampledFrom(factors, start, dn, sun, utcOffset, m)
    ensures var amp := Amplitude(dn.dayHours, dn.nightHours);
            forall h :: 0 <= h < |factors| ==> 1.0 - amp <= factors[h] <= 1.0 + amp
  {
    forall h | 0 <= h < |factors|
      ensures 1.0 - Amplitude(dn.dayHours, dn.nightHours) <= factors[h] <= 1.0 + Amplitude(dn.dayHours, dn.nightHours)
    {
      var _ := SampleInstant(start, h);
    }
  }

  // Monotonicity: within one span from the anchoring sunrise or sunset, a later
  // instant is never given an earlier fictitious time, because every stretch
  // factor is non-negative when both durations are.

  /** Factors sampled with `SecondDuration` for non-negative durations of
      positive total are non-negative. */
  lemma SampledNonNegative(factors: seq<real>, start: int, dn: Durations, sun: SolarOracle, utcOffset: real, m: MathLib)
    requires m.SinBounded() && dn.dayHours >= 0.0 && dn.nightHours >= 0.0 && dn.dayHours + dn.nightHours > 0.0
    requires SampledFrom(factors, start, dn, sun, utcOffset, m)
    ensures forall h :: 0 <= h < |factors| ==> 0.0 <= factors[h]
  {
    SampledFactorsWithin(factors, start, dn, sun, utcOffset, m);
  }

  /** Two sample lists taken from the same origin agree on their common buckets. */
  lemma SampledPrefix(f1: seq<real>, f2: seq<real>, start: int, dn: Durations, sun: SolarOracle, utcOffset: real, m: MathLib)
    requires m.SinBounded() && |f1| <= |f2|
    requires SampledFrom(f1, start, dn, sun, utcOffset, m) && SampledFrom(f2, start, dn, sun, utcOffset, m)
    ensures f1 == f2[..|f1|]
  {
    forall h | 0 <= h < |f1|
      ensures f1[h] == f2[h]
    {
      var _ := SampleInstant(start, h);
    }
  }

  /** `c1` and `c2` are instants of one day, in that order, in one span: both
      not after `today_sunset` and either both within the day from today's
      sunrise or both within the day before it (where the delta wraps), or
      both after `today_sunset` and within the day after it. */
  ghost predicate SameSpan(c1: int, c2: int, sun: SolarOracle) {
    var sunrise := TodaySunrise(sun, c1);
    var sunset := TodaySunset(sun, c1);
    DayOf(c1) == DayOf(c2) && c1 <= c2 &&
    if c2 <= sunset then
      (sunrise <= c1 && c2 < sunrise + SECONDS_PER_DAY) ||
      (sunrise - SECONDS_PER_DAY <= c1 && c2 < sunrise)
    else sunset < c1 && c2 < sunset + SECONDS_PER_DAY
  }

  /** Two instants of one span share the base time, the elapsed interval's start
      and `today_sunset`, and the later one has elapsed at least as long and
      so has at least as many buckets. */
  lemma SpanAnchors(c1: int, c2: int, sun: SolarOracle)
    requires SameSpan(c1, c2, sun)
    ensures var a1 := AnchorOf(c1, TodaySunrise(sun, c1), TodaySunset(sun, c1));
            var a2 := AnchorOf(c2, TodaySunrise(sun, c2), TodaySunset(sun, c2));
            a1.base == a2.base && a1.delta <= a2.delta && CeilHours(a1.delta) <= CeilHours(a2.delta) &&
            TodaySunset(sun, c1) == TodaySunset(sun, c2) && ElapsedStart(c1, sun) == ElapsedStart(c2, sun)
  {
    SolarEventsFixedWithinDay(sun, c1, c2);
  }

  /** Over non-negative factors, the as-written list for more buckets sums to
      at least as much as the one for fewer. */
  lemma AsWrittenMonotone(factors: seq<real>, h1: nat, h2: nat)
    requires h1 <= h2 <= |factors|
    requires forall h :: 0 <= h < |factors| ==> 0.0 <= factors[h]
    ensures Sum(SecondsList(factors[..h1], h1, h1)) <= Sum(SecondsList(factors[..h2], h2, h2))
  {
    AsWrittenBuckets(factors[..h1], h1);
    AsWrittenBuckets(factors[..h2], h2);
    if h2 >= 1 {
      assert factors[..h2][0] == factors[0];
    }
    if h2 >= 2 {
      assert factors[..h2][..h2 - 1] == factors[..h2 - 1];
      SumPrefixMonotone(factors, 1, h2 - 1);
      assert factors[..1] == [factors[0]];
      assert Sum([factors[0]]) == factors[0];
      if h1 >= 2 {
        assert factors[..h1][..h1 - 1] == factors[..h1 - 1];
        SumPrefixMonotone(factors, h1 - 1, h2 - 1);
      }
    }
  }

  /** `get_fictif_hour` as written is monotone within a span: for `c1 <= c2` in
      one span, with `f1` and `f2` the factors its loop samples for each, the
      fictitious time for `c1` is at most the one for `c2`. */
  lemma AsWrittenMonotoneInTime(c1: int, c2: int, f1: seq<real>, f2: seq<real>,
                                dn: Durations, sun: SolarOracle, utcOffset: real, m: MathLib)
    requires m.SinBounded() && dn.dayHours >= 0.0 && dn.nightHours >= 0.0 && dn.dayHours + dn.nightHours > 0.0
    requires SameSpan(c1, c2, sun)
    requires |f1| == CeilHours(AnchorOf(c1, TodaySunrise(sun, c1), TodaySunset(sun, c1)).delta)
    requires |f2| == CeilHours(AnchorOf(c2, TodaySunrise(sun, c2), TodaySunset(sun, c2)).delta)
    requires SampledFrom(f1, TodaySunset(sun, c1), dn, sun, utcOffset, m)
    requires SampledFrom(f2, TodaySunset(sun, c2), dn, sun, utcOffset, m)
    ensures AnchorOf(c1, TodaySunrise(sun, c1), TodaySunset(sun, c1)).base as real + Sum(SecondsList(f1, |f1|, |f1|))
            <= AnchorOf(c2, TodaySunrise(sun, c2), TodaySunset(sun, c2)).base as real + Sum(SecondsList(f2, |f2|, |f2|))
  {
    SpanAnchors(c1, c2, sun);
    SampledPrefix(f1, f2, TodaySunset(sun, c1), dn, sun, utcOffset, m);
    SampledNonNegative(f2, TodaySunset(sun, c2), dn, sun, utcOffset, m);
    AsWrittenMonotone(f2, |f1|, |f2|);
    assert f2[..|f2|] == f2;
  }

  /** Over non-negative factors, counting more elapsed seconds never gives a
      smaller per-second sum. */
  lemma PerSecondMonotone(factors: seq<real>, d1: nat, d2: nat)
    requires d1 <= d2 && CeilHours(d2) <= |factors|
    requires forall h :: 0 <= h < |factors| ==> 0.0 <= factors[h]
    ensures CeilHours(d1) <= |factors|
    ensures Sum(PerSecondFactors(factors, d1)) <= Sum(PerSecondFactors(factors, d2))
  {
    var longer := PerSecondFactors(factors, d2);
    assert PerSecondFactors(factors, d1) == longer[..d1];
    forall k | 0 <= k < |longer|
      ensures 0.0 <= longer[k]
    {
      assert k / SECONDS_PER_HOUR < |factors|;
    }
    SumPrefixMonotone(longer, d1, d2);
    assert longer[..d2] == longer;
  }

  /** The intended `get_fictif_hour` is monotone within a span: for `c1 <= c2`
      in one span, with `f1` and `f2` the factors sampled over each elapsed
      interval, the fictitious time for `c1` is at most the one for `c2`. */
  lemma IntendedMonotoneInTime(c1: int, c2: int, f1: seq<real>, f2: seq<real>,
                               dn: Durations, sun: SolarOracle, utcOffset: real, m: MathLib)
    requires m.SinBounded() && dn.dayHours >= 0.0 && dn.nightHours >= 0.0 && dn.dayHours + dn.nightHours > 0.0
    requires SameSpan(c1, c2, sun)
    requires |f1| == CeilHours(AnchorOf(c1, TodaySunrise(sun, c1), TodaySunset(sun, c1)).delta)
    requires |f2| == CeilHours(AnchorOf(c2, TodaySunrise(sun, c2), TodaySunset(sun, c2)).delta)
    requires SampledFrom(f1, ElapsedStart(c1, sun), dn, sun, utcOffset, m)
    requires SampledFrom(f2, ElapsedStart(c2, sun), dn, sun, utcOffset, m)
    ensures var a1 := AnchorOf(c1, TodaySunrise(sun, c1), TodaySunset(sun, c1));
            var a2 := AnchorOf(c2, TodaySunrise(sun, c2), TodaySunset(sun, c2));
            a1.base as real + Sum(PerSecondFactors(f1, a1.delta)) <= a2.base as real + Sum(PerSecondFactors(f2, a2.delta))
  {
    var a1 := AnchorOf(c1, TodaySunrise(sun, c1), TodaySunset(sun, c1));
    var a2 := AnchorOf(c2, TodaySunrise(sun, c2), TodaySunset(sun, c2));
    SpanAnchors(c1, c2, sun);
    SampledPrefix(f1, f2, ElapsedStart(c1, sun), dn, sun, utcOffset, m);
    SampledNonNegative(f2, ElapsedStart(c2, sun), dn, sun, utcOffset, m);
    assert PerSecondFactors(f1, a1.delta) == PerSecondFactors(f2, a1.delta);
    PerSecondMonotone(f2, a1.delta, a2.delta);
  }

  /** Appending a bucket of at most an hour for a new factor keeps every
      entry equal to the factor of its hour. */
  lemma AppendBucket(list: seq<real>, factors: seq<real>, x: real, count: nat)
    requires |list| == |factors| * SECONDS_PER_HOUR && count <= SECONDS_PER_HOUR
    requires forall k :: 0 <= k < |list| ==> k / SECONDS_PER_HOUR < |factors| && list[k] == factors[k / SECONDS_PER_HOUR]
    ensures var longer := list + Repeat(x, count);
            forall k :: 0 <= k < |longer| ==>
              k / SECONDS_PER_HOUR < |factors + [x]| && longer[k] == (factors + [x])[k / SECONDS_PER_HOUR]
  {
    var longer := list + Repeat(x, count);
    forall k | 0 <= k < |longer|
      ensures k / SECONDS_PER_HOUR < |factors + [x]| && longer[k] == (factors + [x])[k / SECONDS_PER_HOUR]
    {
      if k >= |list| {
        assert k / SECONDS_PER_HOUR == |factors|;
      }
    }
  }

  /** `get_fictif_hour` as evidently intended: anchored as the source anchors it,
      with the factor of hour `h` sampled `h` hours after the start of the
      elapsed interval, and the last bucket holding `delta - (hours - 1) * 3600`
      copies. The sum then counts every elapsed second exactly once, and each
      real second lasts between `1 - amp` and `1 + amp` fictitious seconds.
      `factors` are the sampled hourly factors. */
  method IntendedFictitiousHour(current: int, dn: Durations, sun: SolarOracle, utcOffset: real, m: MathLib)
    returns (r: Result<real>, ghost factors: seq<real>)
    requires m.SinBounded()
    ensures var a := AnchorOf(current, TodaySunrise(sun, current), TodaySunset(sun, current));
            a.delta == 0 ==> r == Ok(a.base as real)
    ensures var a := AnchorOf(current, TodaySunrise(sun, current), TodaySunset(sun, current));
            a.delta > 0 && dn.dayHours + dn.nightHours == 0.0 ==> r == ZeroDivisionError
    ensures var a := AnchorOf(current, TodaySunrise(sun, current), TodaySunset(sun, current));
            var start := ElapsedStart(current, sun);
            dn.dayHours + dn.nightHours != 0.0 ==>
              |factors| == CeilHours(a.delta) &&
              SampledFrom(factors, start, dn, sun, utcOffset, m) &&
              r == Ok(a.base as real + Sum(PerSecondFactors(factors, a.delta)))
    ensures dn.dayHours + dn.nightHours > 0.0 ==>
              var a := AnchorOf(current, TodaySunrise(sun, current), TodaySunset(sun, current));
              var amp := Amplitude(dn.dayHours, dn.nightHours);
              r.Ok? && WithinDrift(r.value, a.base + a.delta, a.delta, amp)
  {
    var anchor := AnchorOf(current, TodaySunrise(sun, current), TodaySunset(sun, current));
    if anchor.delta > 0 && dn.dayHours + dn.nightHours == 0.0 {
      return ZeroDivisionError, [];
    }
    r, factors := IntendedSince(anchor.base, anchor.delta, ElapsedStart(current, sun), dn, sun, utcOffset, m);
  }

  /** The corrected integration over the `delta` seconds from `start`, added to
      `base`: one factor per elapsed second, within `delta * amp` of
      `base + delta` for a positive total. */
  method IntendedSince(base: int, delta: nat, start: int, dn: Durations, sun: SolarOracle, utcOffset: real, m: MathLib)
    returns (r: Result<real>, ghost factors: seq<real>)
    requires m.SinBounded() && (delta > 0 ==> dn.dayHours + dn.nightHours != 0.0)
    ensures |factors| == CeilHours(delta)
    ensures SampledFrom(factors, start, dn, sun, utcOffset, m)
    ensures r == Ok(base as real + Sum(PerSecondFactors(factors, delta)))
    ensures dn.dayHours + dn.nightHours > 0.0 ==>
              var amp := Amplitude(dn.dayHours, dn.nightHours);
              r.Ok? && WithinDrift(r.value, base + delta, delta, amp)
  {
    var secondsList;
    secondsList, factors := IntendedBuckets(start, delta, dn, sun, utcOffset, m);
    r := Ok(base as real + Sum(secondsList));
    if dn.dayHours + dn.nightHours > 0.0 {
      IntendedDrift(base, delta, r.value, factors, start, dn, sun, utcOffset, m);
    }
  }

  /** `value` lies within `delta * amp` of `reference`: `delta` real seconds
      counted at rates within `amp` of one. */
  predicate WithinDrift(value: real, reference: int, delta: nat, amp: real) {
    -(delta as real * amp) <= value - reference as real <= delta as real * amp
  }

  /** For a positive total, the base plus the per-second sum of factors sampled
      from `start` lies within `delta * amp` of the base plus `delta`. */
  lemma IntendedDrift(base: int, delta: nat, value: real, factors: seq<real>, start: int,
                      dn: Durations, sun: SolarOracle, utcOffset: real, m: MathLib)
    requires m.SinBounded() && dn.dayHours + dn.nightHours > 0.0
    requires |factors| == CeilHours(delta) && SampledFrom(factors, start, dn, sun, utcOffset, m)
    requires value == base as real + Sum(PerSecondFactors(factors, delta))
    ensures WithinDrift(value, base + delta, delta, Amplitude(dn.dayHours, dn.nightHours))
  {
    SampledFactorsWithin(factors, start, dn, sun, utcOffset, m);
    PerSecondDrift(factors, delta, Amplitude(dn.dayHours, dn.nightHours));
  }

  /** The corrected loop of `get_fictif_hour`: for each of the `ceil(delta / 3600)`
      hours from `start`, sample the factor and append a full hour of copies, or
      the `delta - (hours - 1) * 3600` seconds that remain for the last hour. */
  method IntendedBuckets(start: int, delta: nat, dn: Durations, sun: SolarOracle, utcOffset: real, m: MathLib)
    returns (secondsList: seq<real>, ghost factors: seq<real>)
    requires m.SinBounded() && (delta > 0 ==> dn.dayHours + dn.nightHours != 0.0)
    ensures |factors| == CeilHours(delta)
    ensures SampledFrom(factors, start, dn, sun, utcOffset, m)
    ensures secondsList == PerSecondFactors(factors, delta)
  {
    var hours := CeilHours(delta);
    secondsList, factors := [], [];
    var i := 0;
    while i < hours
      invariant 0 <= i <= hours
      invariant |factors| == i
      invariant SampledFrom(factors, start, dn, sun, utcOffset, m)
      invariant |secondsList| == if i < hours then i * SECONDS_PER_HOUR else delta
      invariant forall k :: 0 <= k < |secondsList| ==> k / SECONDS_PER_HOUR < i && secondsList[k] == factors[k / SECONDS_PER_HOUR]
    {
      var duration := SecondDuration(SampleInstant(start, i), dn, sun, utcOffset, m);
      var count := if i < hours - 1 then SECONDS_PER_HOUR else delta - (hours - 1) * SECONDS_PER_HOUR;
      AppendBucket(secondsList, factors, duration.value, count);
      SampledFromExtend(factors, duration.value, start, dn, sun, utcOffset, m);
      secondsList := secondsList + Repeat(duration.value, count);
      factors := factors + [duration.value];
      i := i + 1;
    }
    assert secondsList == PerSecondFactors(factors, delta);
  }
}
