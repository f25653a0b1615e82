/**
 What an hour's light is, said of the inputs alone: which colours and how much
 of them the sun takes, what each hour of the day has, where the moon stands and
 how the orbit turns.
 */
module Daylight {
  import opened Arithmetic
  import opened FixedPoint
  import opened Orbit

  predicate Within(n: int, bound: nat) { 0 - bound <= n <= bound }

  // ---- the orbit -----------------------------------------------------------

  /** An hour later the orbit has turned by the angle it turns in the hour after
   sunrise, to within what rounding the table to integers may cost. */
  lemma OrbitTurns(hour: nat)
    requires hour < HOURS_PER_DAY
    ensures var next, ahead := (hour + 1) % HOURS_PER_DAY, (hour + 6) % HOURS_PER_DAY;
      var turned := OrbitElevation(11) * OrbitElevation(hour) + OrbitElevation(7) * OrbitElevation(ahead);
      Within(32768 * OrbitElevation(next) - turned, 32768)
  {
    var next, ahead := (hour + 1) % HOURS_PER_DAY, (hour + 6) % HOURS_PER_DAY;
    assert OrbitElevation(11) == 31651 && OrbitElevation(7) == 8481;
    TurnsBy(hour, next, ahead);
  }

  lemma TurnsBy(hour: nat, next: nat, ahead: nat)
    requires hour < HOURS_PER_DAY && next == (hour + 1) % HOURS_PER_DAY && ahead == (hour + 6) % HOURS_PER_DAY
    ensures Within(32768 * OrbitElevation(next) - 31651 * OrbitElevation(hour) - 8481 * OrbitElevation(ahead), 32768)
  {
    assert next == if hour == 23 then 0 else hour + 1;
    assert ahead == if hour >= 18 then hour - 18 else hour + 6;
  }

  lemma OrbitHalfTurn(hour: nat)
    requires hour < HOURS_PER_DAY
    ensures OrbitElevation((hour + 12) % HOURS_PER_DAY) == -OrbitElevation(hour)
    ensures OrbitElevation(12) == 32768 && OrbitElevation(6) == 0
    ensures hour < 12 ==> OrbitElevation(hour) < OrbitElevation(hour + 1)
  {}

  /** The sun goes clockwise round the compass, through the east in the morning,
   and its height is the same wherever it stands as far from the south. */
  lemma OrbitCircles(hour: nat)
    requires hour < HOURS_PER_DAY
    ensures var a, e := OrbitAzimuth(hour), OrbitElevation(hour);
      && (a == 1 <==> e <= OrbitElevation(1))
      && (a in {2, 8} <==> OrbitElevation(1) < e < OrbitElevation(5))
      && (a in {3, 7} <==> OrbitElevation(5) <= e <= OrbitElevation(7))
      && (a in {4, 6} <==> OrbitElevation(7) < e < OrbitElevation(10))
      && (a == 5 <==> OrbitElevation(10) <= e)
      && (a in {2, 3, 4} ==> 0 < hour < 12) && (a in {6, 7, 8} ==> 12 < hour)
  {}

  // ---- the hours of a day --------------------------------------------------

  /** The season lowers the sun towards the horizon: the least in midsummer, by a
   quarter in midwinter, and the same in two months as far from either. */
  lemma SeasonLowers(month: nat)
    requires month < MONTHS_PER_YEAR
    ensures SeasonFactor(month) == SeasonFactor(11 - month)
    ensures month < 5 ==> SeasonFactor(month) < SeasonFactor(month + 1)
    ensures SeasonFactor(0) == 24576 && SeasonFactor(5) == 32768
  {}

  /** The sun stands as high as the orbit does, times the season's factor, to the
   nearest integer; twilight ends where it stands an hour before sunrise. */
  lemma SunStands(i: Inputs)
    requires HourValid(i)
    ensures var e, factor := OrbitElevation(i.solarHour), SeasonFactor(i.seasonPhase / HOURS_PER_MONTH);
      Within(2 * (32768 * SolarElevation(i) - e * factor), 32768)
    ensures TwilightElevation(i) == SolarElevation(i.(solarHour := 5)) == SolarElevation(i.(solarHour := 19))
  {
    hide Seasonal, SeasonFactor;
    var factor := SeasonFactor(i.seasonPhase / HOURS_PER_MONTH);
    assert OrbitElevation(5) == OrbitElevation(19) == -8481;
    SeasonalNearest(OrbitElevation(i.solarHour), factor);
    SeasonalNearest(-8481, factor);
    TwilightIs(i);
  }

  lemma TwilightIs(i: Inputs)
    requires HourValid(i)
    ensures TwilightElevation(i) == Seasonal(-8481, SeasonFactor(i.seasonPhase / HOURS_PER_MONTH))
  {
    hide SeasonFactor;
  }

  lemma SeasonalOrder(a: int, b: int, factor: nat)
    requires -32768 <= a && b <= 32768 && a + 2 <= b && 24576 <= factor <= 32768
    ensures Seasonal(a, factor) < Seasonal(b, factor)
    ensures Seasonal(0, factor) == 0
  {
    hide Seasonal;
    SeasonalNearest(a, factor);
    SeasonalNearest(b, factor);
    SeasonalNearest(0, factor);
    MulLe(2, b - a, factor);
    Apart(a * factor, b * factor, Seasonal(a, factor), Seasonal(b, factor));
  }

  lemma Apart(a: int, b: int, x: int, y: int)
    requires a + 49152 <= b
    requires 2 * (32768 * x - a) <= 32768 && -32768 <= 2 * (32768 * y - b)
    ensures x < y
  {}

  lemma SeasonalNearest(e: int, factor: nat)
    ensures Within(2 * (32768 * Seasonal(e, factor) - e * factor), 32768)
    ensures e < 0 ==> Seasonal(e, factor) == -Seasonal(-e, factor)
    ensures e == 0 ==> Seasonal(e, factor) == 0
  {
    assert AbsOf(e) * factor == if e < 0 then -(e * factor) else e * factor;
    if e == 0 {
      RoundUnique(0, 32768, 0);
    }
  }

  /** By day the sun shines, directly and not, in proportion to its height. */
  lemma DayShines(i: Inputs)
    requires HourValid(i) && SolarElevation(i) > 0
    ensures var e, m := SolarElevation(i), Evaluate(i);
      && Within(2 * (32768 * m.direct - 960 * e), 32768)
      && Within(2 * (32768 * (m.diffuse - 64) - 256 * e), 32768)
  {
    hide LunarEvaluate, SolarElevation, TwilightElevation, OrbitElevation, OrbitAzimuth, BlendColor, Blend;
    SolarBound(i);
    ScaleNearest(SolarElevation(i), 960);
    ScaleNearest(SolarElevation(i), 256);
    hide Scale;
  }

  lemma ScaleNearest(e: int, strength: nat)
    requires 0 < e <= 32768 && strength <= 1000
    ensures Within(2 * (32768 * Scale(e, strength, 32768) - strength * e), 32768)
  {
    MulLe(e, 32768, strength);
    ScaleBounded(e, strength, 32768, strength);
    hide Scale;
    assert e * strength == strength * e;
  }

  /** Where the sun stands at an hour, above, below or deep below the horizon. */
  lemma SunAtHour(i: Inputs)
    requires HourValid(i)
    ensures var h, e, dusk := i.solarHour, SolarElevation(i), TwilightElevation(i);
      && (7 <= h <= 17 ==> e >= 6360) && (h in {6, 18} ==> e == 0)
      && (h in {5, 19} ==> dusk == e < 0) && (h < 5 || h > 19 ==> e < dusk < 0)
  {
    hide Seasonal, SeasonFactor;
    var factor := SeasonFactor(i.seasonPhase / HOURS_PER_MONTH);
    TwilightIs(i);
    SeasonalOrder(-8481, 0, factor);
    SeasonalNearest(8481, factor);
    HeightAtHour(i.solarHour);
    var e := OrbitElevation(i.solarHour);
    hide OrbitElevation;
    if e > 8481 {
      SeasonalOrder(8481, e, factor);
    } else if e < -8481 {
      SeasonalOrder(e, -8481, factor);
    }
  }

  lemma HeightAtHour(h: nat)
    requires h < HOURS_PER_DAY
    ensures var e := OrbitElevation(h);
      && (7 <= h <= 17 ==> e == 8481 || 8483 <= e) && (h in {6, 18} ==> e == 0)
      && (h in {5, 19} ==> e == -8481) && (h < 5 || h > 19 ==> e <= -8483)
  {}

  /** The hours of every day in every season: the sun shines from the hour after
   its rise, half light is left at rise and set, twilight is the hour before and
   the hour after, and stars are seen in the other nine. */
  lemma HoursOfDay(i: Inputs)
    requires HourValid(i)
    ensures var h, m := i.solarHour, Evaluate(i);
      && m.solarElevation == SolarElevation(i) && m.solarDirection == OrbitAzimuth(h)
      && (m.direct > 0 <==> 7 <= h <= 17) && (m.diffuse > 64 <==> 7 <= h <= 17)
      && (m.diffuse == 64 <==> h in {6, 18}) && (m.diffuse == 16 <==> h in {5, 19})
      && (m.diffuse == 0 <==> h < 5 || h > 19)
      && (LunarValid(i) ==> m.starlight == if h < 5 || h > 19 then i.starlightStrength else 0)
  {
    SunAtHour(i);
    if SolarElevation(i) > 0 {
      DayShines(i);
    }
    hide SolarElevation, TwilightElevation, OrbitElevation, OrbitAzimuth, BlendColor, Blend, Scale, LunarValid;
    hide MoonHour, Illumination, Part, MoonStrength;
  }

  // ---- day and night -------------------------------------------------------

  /** A value on the way from the night's to the day's, at a height of the sun. */
  predicate OnTheWay(night: int, day: int, e: int, value: int) {
    && (e <= 0 ==> value == night) && (e == 32768 ==> value == day)
    && (0 <= e <= 32768 ==> Within(2 * (32768 * (value - night) - e * (day - night)), 32768))
    && (if night <= day then night <= value <= day else day <= value <= night)
  }

  /** The sun's colours and brightness are the night's until it rises and the day's
   where it stands overhead, and in between lie in proportion to its height. */
  lemma DayFollowsSun(i: Inputs)
    requires HourValid(i) && TypedInputs(i)
    ensures var e, m := SolarElevation(i), Evaluate(i);
      && OnTheWay(i.nightBrightness, i.dayBrightness, e, m.solarBrightness)
      && OnTheWay(i.nightLinear.red, i.dayLinear.red, e, m.solarColor.red)
      && OnTheWay(i.nightLinear.green, i.dayLinear.green, e, m.solarColor.green)
      && OnTheWay(i.nightLinear.blue, i.dayLinear.blue, e, m.solarColor.blue)
  {
    hide LunarEvaluate, SolarElevation, TwilightElevation, OrbitAzimuth, Blend, Scale, OnTheWay;
    SolarBound(i);
    var e := SolarElevation(i);
    BlendOnTheWay(i.nightBrightness, i.dayBrightness, e);
    BlendOnTheWay(i.nightLinear.red, i.dayLinear.red, e);
    BlendOnTheWay(i.nightLinear.green, i.dayLinear.green, e);
    BlendOnTheWay(i.nightLinear.blue, i.dayLinear.blue, e);
  }

  lemma BlendSum(night: nat, day: nat, d: int)
    ensures night * (32768 - d) + day * d == night * 32768 + d * (day - night)
  {
    Distribute(night, 32768, 0 - d);
    Distribute(d, day, 0 - night);
  }

  lemma PartOfWay(way: int, part: nat)
    requires part <= 32768
    ensures if way >= 0 then 0 <= part * way <= 32768 * way else 32768 * way <= part * way <= 0
    ensures part == 0 ==> part * way == 0
    ensures part == 32768 ==> part * way == 32768 * way
  {
    if way >= 0 {
      MulLe(part, 32768, way);
      MulLe(0, part, way);
    } else {
      MulLe(part, 32768, -way);
      MulLe(0, part, -way);
    }
  }

  lemma RoundOnTheWay(night: nat, day: nat, e: int, part: int, sum: int)
    requires e <= 32768 && sum == 32768 * night + part
    requires if night <= day then 0 <= part <= 32768 * (day - night) else 32768 * (day - night) <= part <= 0
    requires if e <= 0 then part == 0 else part == e * (day - night)
    requires e == 32768 ==> part == 32768 * (day - night)
    ensures sum >= 0 && OnTheWay(night, day, e, Round(sum, 32768))
  {
    hide Round;
  }

  lemma BlendOnTheWay(night: nat, day: nat, e: int)
    requires e <= 32768
    ensures var daylight := Min(Max(e, 0), 32768);
      OnTheWay(night, day, e, Blend(night, day, 32768 - daylight, daylight))
  {
    var daylight := Min(Max(e, 0), 32768);
    BlendSum(night, day, daylight);
    PartOfWay(day - night, daylight);
    hide Round, OnTheWay;
    RoundOnTheWay(night, day, e, daylight * (day - night), night * (32768 - daylight) + day * daylight);
  }

  /** Nearer the day's than another value is, seen from the night's. */
  predicate Nearer(night: int, day: int, value: int, other: int) {
    if night <= day then value <= other else other <= value
  }

  /** As the sun rises its colours and brightness only ever move to the day's. */
  lemma DayComesNearer(i: Inputs, j: Inputs)
    requires HourValid(i) && HourValid(j) && TypedInputs(i) && SolarElevation(i) <= SolarElevation(j)
    requires i.dayLinear == j.dayLinear && i.nightLinear == j.nightLinear
    requires i.dayBrightness == j.dayBrightness && i.nightBrightness == j.nightBrightness
    ensures var m, n := Evaluate(i), Evaluate(j);
      && Nearer(i.nightBrightness, i.dayBrightness, m.solarBrightness, n.solarBrightness)
      && Nearer(i.nightLinear.red, i.dayLinear.red, m.solarColor.red, n.solarColor.red)
      && Nearer(i.nightLinear.green, i.dayLinear.green, m.solarColor.green, n.solarColor.green)
      && Nearer(i.nightLinear.blue, i.dayLinear.blue, m.solarColor.blue, n.solarColor.blue)
  {
    hide LunarEvaluate, SolarElevation, TwilightElevation, OrbitAzimuth, Blend, Scale, Nearer;
    SolarBound(i);
    SolarBound(j);
    var d, e := Min(Max(SolarElevation(i), 0), 32768), Min(Max(SolarElevation(j), 0), 32768);
    BlendNearer(i.nightBrightness, i.dayBrightness, d, e);
    BlendNearer(i.nightLinear.red, i.dayLinear.red, d, e);
    BlendNearer(i.nightLinear.green, i.dayLinear.green, d, e);
    BlendNearer(i.nightLinear.blue, i.dayLinear.blue, d, e);
  }

  lemma BlendNearer(night: nat, day: nat, d: int, e: int)
    requires 0 <= d <= e <= 32768
    ensures Nearer(night, day, Blend(night, day, 32768 - d, d), Blend(night, day, 32768 - e, e))
  {
    hide Round;
    var low, high := night * (32768 - d) + day * d, night * (32768 - e) + day * e;
    assert low == night * 32768 + d * (day - night) by { BlendSum(night, day, d); }
    assert high == night * 32768 + e * (day - night) by { BlendSum(night, day, e); }
    if night <= day {
      MulLe(d, e, day - night);
      RoundMonotone(low, high, 32768);
    } else {
      MulLe(d, e, night - day);
      assert d * (night - day) == -(d * (day - night)) && e * (night - day) == -(e * (day - night));
      RoundMonotone(high, low, 32768);
    }
  }

  // ---- the moon ------------------------------------------------------------

  /** The moon stands where the orbit is at the hour it trails the sun to, and gives
   light only above the horizon and off its new phase: all of it, full and overhead. */
  lemma MoonStands(i: Inputs, hour: nat)
    requires LunarValid(i) && hour < HOURS_PER_DAY
    requires (hour + Part(i.lunarAge, HOURS_PER_DAY, i.lunarPeriod)) % HOURS_PER_DAY == i.solarHour
    ensures var m := Evaluate(i);
      && m.moonElevation == OrbitElevation(hour) && m.moonDirection == OrbitAzimuth(hour)
      && m.moonColor == i.moonLinear && m.starlightColor == i.starlightLinear
      && (m.moon > 0 ==> i.lunarAge > 0 && OrbitElevation(hour) > 0)
      && (2 * i.lunarAge == i.lunarPeriod && hour == 12 ==> m.moon == i.moonMax)
  {
    EvenPeriod(i.lunarPeriod);
    MoonTrailsSun(i.solarHour, i.lunarAge, i.lunarPeriod);
    SameHour(hour, MoonHour(i.solarHour, i.lunarAge, i.lunarPeriod), Part(i.lunarAge, HOURS_PER_DAY, i.lunarPeriod));
    hide SolarElevation, TwilightElevation, OrbitAzimuth, Part, MoonHour, Illumination, Blend, BlendColor, Scale;
    var e, illumination := OrbitElevation(hour), Illumination(i.lunarAge, i.lunarPeriod);
    FullOverhead(i.moonMax);
    hide MoonStrength, OrbitElevation;
    MoonLit(i.moonMax, illumination, e);
    assert OrbitElevation(12) == 32768 by { OrbitHalfTurn(12); }
  }

  lemma SameHour(a: nat, b: nat, part: nat)
    requires a < 24 && b < 24 && part < 24 && (a + part) % 24 == (b + part) % 24
    ensures a == b
  {}

  lemma MoonLit(moonMax: nat, illumination: nat, e: int)
    ensures MoonStrength(moonMax, illumination, e) > 0 ==> illumination > 0 && e > 0
  {}

  lemma FullOverhead(moonMax: nat)
    ensures MoonStrength(moonMax, UINT16_MAX, 32768) == moonMax
  {
    assert moonMax * 65535 * 32768 == moonMax * (65535 * 32768);
    if moonMax > 0 {
      RoundUnique(moonMax * (65535 * 32768), 65535 * 32768, moonMax);
    }
  }

  /** Of two moons of one period the one that is no nearer its new phase and stands
   no lower gives no less light. */
  lemma MoonRises(i: Inputs, j: Inputs)
    requires LunarValid(i) && LunarValid(j) && i.lunarPeriod == j.lunarPeriod && i.moonMax == j.moonMax
    requires Min(i.lunarAge, i.lunarPeriod - i.lunarAge) <= Min(j.lunarAge, j.lunarPeriod - j.lunarAge)
    requires Evaluate(i).moonElevation <= Evaluate(j).moonElevation
    ensures Evaluate(i).moon <= Evaluate(j).moon
  {
    hide SolarElevation, TwilightElevation, OrbitElevation, OrbitAzimuth, Part, MoonHour, MoonStrength, Illumination;
    hide Blend, BlendColor, Scale;
    LitLonger(i.lunarAge, j.lunarAge, i.lunarPeriod);
    StrengthRises(i.moonMax, Illumination(i.lunarAge, i.lunarPeriod), Illumination(j.lunarAge, j.lunarPeriod),
                  Evaluate(i).moonElevation, Evaluate(j).moonElevation);
  }

  lemma LitLonger(a: nat, b: nat, period: nat)
    requires a < period && b < period && 2 <= period && Min(a, period - a) <= Min(b, period - b)
    ensures Illumination(a, period) <= Illumination(b, period)
  {
    assert LitAge(a, period) == Min(a, period - a) && LitAge(b, period) == Min(b, period - b);
    hide LitAge, Round;
    MulLe(LitAge(a, period), LitAge(b, period), UINT16_MAX);
    RoundMonotone(LitAge(a, period) * UINT16_MAX, LitAge(b, period) * UINT16_MAX, period / 2);
  }

  lemma StrengthRises(moonMax: nat, a: nat, b: nat, d: int, e: int)
    requires a <= b && d <= e
    ensures MoonStrength(moonMax, a, d) <= MoonStrength(moonMax, b, e)
  {
    hide Round;
    if a != 0 && d > 0 && moonMax != 0 {
      MulLe(a, b, moonMax);
      assert moonMax * a <= moonMax * b;
      MulLe(moonMax * a, moonMax * b, d);
      MulLe(d, e, moonMax * b);
      assert moonMax * a * d <= moonMax * b * e;
      RoundMonotone(moonMax * a * d, moonMax * b * e, 65535 * 32768);
    }
  }

  /** Each phase lasts an eighth of the period, and what is lit grows from none at
   the new moon by equal parts to all at the full moon and shrinks as it grew. */
  lemma MoonPhases(i: Inputs)
    requires LunarValid(i)
    ensures var m, lit := LunarEvaluate(i), Min(i.lunarAge, i.lunarPeriod - i.lunarAge);
      && m.phase * i.lunarPeriod <= 8 * i.lunarAge < (m.phase + 1) * i.lunarPeriod
      && Within(2 * (m.illumination * i.lunarPeriod - 2 * UINT16_MAX * lit), i.lunarPeriod)
  {
    EvenPeriod(i.lunarPeriod);
    hide SolarElevation, TwilightElevation, OrbitElevation, OrbitAzimuth, MoonHour, MoonStrength;
    assert 8 * i.lunarAge == i.lunarAge * 8;
    LitNearest(i.lunarAge, i.lunarPeriod);
    hide Part, Illumination;
  }

  lemma LitNearest(age: nat, period: nat)
    requires age < period && 2 <= period && period % 2 == 0
    ensures var lit, m := Min(age, period - age), Illumination(age, period);
      Within(2 * (m * period - 2 * UINT16_MAX * lit), period)
  {
    hide Round;
    var half, lit := period / 2, LitAge(age, period);
    assert period == 2 * half && lit == Min(age, period - age);
    Doubled(Illumination(age, period), half, lit * UINT16_MAX);
  }

  lemma Doubled(r: nat, half: nat, n: nat)
    requires (2 * r - 1) * half <= 2 * n < (2 * r + 1) * half
    ensures Within(2 * (r * (2 * half) - 2 * n), 2 * half)
  {
    assert (2 * r - 1) * half == 2 * (r * half) - half && (2 * r + 1) * half == 2 * (r * half) + half;
    assert r * (2 * half) == 2 * (r * half);
  }
}
