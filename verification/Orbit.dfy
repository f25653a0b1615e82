/**
 The orbit model of celestial_model.c: from a profile and the phases of one
 hour to the strengths, colours and directions of its celestial sources.
 */
module Orbit {
  import opened Arithmetic
  import opened FixedPoint
  import opened Solver

  const HOURS_PER_DAY: nat := 24
  const HOURS_PER_MONTH: nat := 672
  const MONTHS_PER_YEAR: nat := 12
  const HOURS_PER_YEAR: nat := 8064
  const LUNAR_PERIOD_MIN: nat := 168
  const LUNAR_PERIOD_MAX: nat := 8064
  const MOON_MAX: nat := 20
  const STARLIGHT_MAX: nat := 2
  const BRIGHTNESS_MAX: nat := 1024

  /** Q15 elevation of the orbit at each hour. */
  function OrbitElevation(hour: nat): (e: int)
    requires hour < HOURS_PER_DAY
    ensures -32768 <= e <= 32768
  {
    // The second half of the day mirrors the first about noon.
    var h := if hour <= 12 then hour else 24 - hour;
    match h
    case 0 => -32768
    case 1 => -31651
    case 2 => -28378
    case 3 => -23170
    case 4 => -16384
    case 5 => -8481
    case 6 => 0
    case 7 => 8481
    case 8 => 16384
    case 9 => 23170
    case 10 => 28378
    case 11 => 31651
    case _ => 32768
  }

  /** Azimuth code of the orbit at each hour, NORTH 1 to NORTHWEST 8. */
  function OrbitAzimuth(hour: nat): (a: nat)
    requires hour < HOURS_PER_DAY
    ensures 1 <= a <= 8
  {
    if hour <= 1 || hour == 23 then 1
    else if hour <= 4 then 2
    else if hour <= 7 then 3
    else if hour <= 9 then 4
    else if hour <= 14 then 5
    else if hour <= 16 then 6
    else if hour <= 19 then 7
    else 8
  }

  /** Q15 factor of the season at each month. */
  function SeasonFactor(month: nat): (f: nat)
    requires month < MONTHS_PER_YEAR
    ensures 24576 <= f <= 32768
  {
    var m := if month <= 5 then month else 11 - month;
    match m
    case 0 => 24576
    case 1 => 25600
    case 2 => 27648
    case 3 => 29952
    case 4 => 31744
    case _ => 32768
  }

  /** Everything the model consumes for one profile and one hour. */
  datatype Inputs = Inputs(dayLinear: Rgb, nightLinear: Rgb, dayBrightness: nat, nightBrightness: nat,
                           moonLinear: Rgb, moonMax: nat, starlightLinear: Rgb, starlightStrength: nat,
                           lunarPeriod: nat, solarHour: nat, seasonPhase: nat, lunarAge: nat)

  function Peak(c: Rgb): int { Max(c.red, Max(c.green, c.blue)) }

  predicate NormalizedColor(c: Rgb, strength: nat) {
    Peak(c) == UINT16_MAX || (Peak(c) == 0 && strength == 0)
  }

  /** An hour of a day and a season of a year. */
  predicate HourValid(i: Inputs) {
    i.solarHour < HOURS_PER_DAY && i.seasonPhase < HOURS_PER_YEAR
  }

  /** lunar_input_valid() */
  predicate LunarValid(i: Inputs) {
    && HourValid(i)
    && LUNAR_PERIOD_MIN <= i.lunarPeriod <= LUNAR_PERIOD_MAX
    && i.lunarPeriod % HOURS_PER_DAY == 0 && i.lunarPeriod % 8 == 0 && i.lunarAge < i.lunarPeriod
    && i.moonMax <= MOON_MAX && i.starlightStrength <= STARLIGHT_MAX
    && NormalizedColor(i.moonLinear, i.moonMax) && NormalizedColor(i.starlightLinear, i.starlightStrength)
  }

  /** celestial_model_inputs_valid() */
  predicate InputsValid(i: Inputs) {
    && i.dayBrightness <= BRIGHTNESS_MAX && i.nightBrightness <= BRIGHTNESS_MAX
    && (Peak(i.dayLinear) == 0 || Peak(i.dayLinear) == UINT16_MAX)
    && (Peak(i.nightLinear) == 0 || Peak(i.nightLinear) == UINT16_MAX)
    && LunarValid(i)
  }

  /** The uint16 colours of any inputs. */
  predicate TypedInputs(i: Inputs) {
    Colors(i.dayLinear) && Colors(i.nightLinear) && Colors(i.moonLinear) && Colors(i.starlightLinear)
  }

  function AbsOf(n: int): nat { if n < 0 then -n else n }

  /** An orbit elevation shortened by the season, keeping its sign. */
  function Seasonal(elevation: int, factor: nat): int {
    var magnitude := Round(AbsOf(elevation) * factor, 32768);
    if elevation < 0 then 0 - magnitude else magnitude
  }

  function SolarElevation(i: Inputs): int
    requires HourValid(i)
  {
    Seasonal(OrbitElevation(i.solarHour), SeasonFactor(i.seasonPhase / HOURS_PER_MONTH))
  }

  function TwilightElevation(i: Inputs): int
    requires HourValid(i)
  {
    0 - Round(8481 * SeasonFactor(i.seasonPhase / HOURS_PER_MONTH), 32768)
  }

  datatype Lunar = Lunar(phase: nat, illumination: nat, moonHour: nat, elevation: int, azimuth: nat,
                         moonStrength: nat, starlight: nat)

  const NO_LUNAR := Lunar(0, 0, 0, 0, 0, 0, 0)
  const BLACK := Rgb(0, 0, 0)

  /** The age's distance from the new moon, either way round. */
  function LitAge(age: nat, period: nat): nat
    requires age < period
  {
    if age <= period / 2 then age else period - age
  }

  function Illumination(age: nat, period: nat): nat
    requires age < period && 2 <= period
  {
    Round(LitAge(age, period) * UINT16_MAX, period / 2)
  }

  /** Which of equal parts of its period an age is in. */
  function Part(age: nat, parts: nat, period: nat): (r: nat)
    requires age < period && parts > 0
    ensures r < parts
    ensures r * period <= age * parts < (r + 1) * period
  {
    PartBound(age * parts, parts, period, age);
    age * parts / period
  }

  lemma PartLess(q: nat, product: nat, parts: nat, period: nat)
    requires q * period <= product < period * parts
    ensures q < parts
  {
    if q >= parts {
      MulLe(parts, q, period);
    }
  }

  lemma PartBound(product: nat, parts: nat, period: nat, age: nat)
    requires age < period && parts > 0 && product == age * parts
    ensures 0 <= product / period < parts
    ensures product / period * period <= product < (product / period + 1) * period
  {
    DivBounds(product, period);
    MulLess(age, period, parts);
    PartLess(product / period, product, parts, period);
  }

  function MoonHour(hour: nat, age: nat, period: nat): (r: nat)
    requires hour < HOURS_PER_DAY && age < period
    ensures r < HOURS_PER_DAY
  {
    (hour + 36 - (12 + Part(age, HOURS_PER_DAY, period)) % HOURS_PER_DAY) % HOURS_PER_DAY
  }

  function MoonStrength(moonMax: nat, illumination: nat, elevation: int): nat {
    if illumination != 0 && elevation > 0 && moonMax != 0
    then Round(moonMax * illumination * elevation, 65535 * 32768) else 0
  }

  /** celestial_lunar_evaluate(): a zeroed sample of inputs outside their ranges. */
  function LunarEvaluate(i: Inputs): Lunar {
    if !LunarValid(i) then NO_LUNAR
    else
      var hour := MoonHour(i.solarHour, i.lunarAge, i.lunarPeriod);
      var illumination := Illumination(i.lunarAge, i.lunarPeriod);
      Lunar(Part(i.lunarAge, 8, i.lunarPeriod), illumination, hour, OrbitElevation(hour), OrbitAzimuth(hour),
            MoonStrength(i.moonMax, illumination, OrbitElevation(hour)),
            if SolarElevation(i) < TwilightElevation(i) then i.starlightStrength else 0)
  }

  function Blend(night: int, day: int, inverse: nat, daylight: nat): nat {
    Round(Max(night, 0) * inverse + Max(day, 0) * daylight, 32768)
  }

  function BlendColor(night: Rgb, day: Rgb, inverse: nat, daylight: nat): Rgb {
    Rgb(Blend(night.red, day.red, inverse, daylight), Blend(night.green, day.green, inverse, daylight),
        Blend(night.blue, day.blue, inverse, daylight))
  }

  /** celestial_model_evaluate() */
  function Evaluate(i: Inputs): Model
    requires HourValid(i)
  {
    var e, twilight, lunar := SolarElevation(i), TwilightElevation(i), LunarEvaluate(i);
    var daylight := Min(Max(e, 0), 32768);
    var inverse := 32768 - daylight;
    Model(if e > 0 then Scale(e, 960, 32768) else 0,
          if e > 0 then 64 + Scale(e, 256, 32768) else if e == 0 then 64 else if e >= twilight then 16 else 0,
          lunar.moonStrength, lunar.starlight, BlendColor(i.nightLinear, i.dayLinear, inverse, daylight),
          if LunarValid(i) then i.moonLinear else BLACK, if LunarValid(i) then i.starlightLinear else BLACK,
          Blend(i.nightBrightness, i.dayBrightness, inverse, daylight),
          e, lunar.elevation, OrbitAzimuth(i.solarHour), lunar.azimuth)
  }

  // ---- bounds --------------------------------------------------------------

  lemma SeasonalBound(elevation: int, factor: nat)
    requires -32768 <= elevation <= 32768 && factor <= 32768
    ensures -32768 <= Seasonal(elevation, factor) <= 32768
    ensures AbsOf(Seasonal(elevation, factor)) <= AbsOf(elevation)
  {
    MulLe(factor, 32768, AbsOf(elevation));
    RoundAtMost(AbsOf(elevation) * factor, 32768, AbsOf(elevation));
  }

  lemma WeightedBound(a: nat, b: nat, x: nat, y: nat, bound: nat)
    requires a <= bound && b <= bound && x + y == 32768
    ensures 0 <= a * x + b * y <= bound * 32768
  {
    MulLe(0, a, x);
    MulLe(0, b, y);
    MulLe(a, bound, x);
    MulLe(b, bound, y);
    Distribute(bound, x, 32768 - x);
  }

  lemma BlendBound(night: int, day: int, inverse: nat, daylight: nat, bound: nat)
    requires night <= bound && day <= bound && inverse + daylight == 32768
    ensures Blend(night, day, inverse, daylight) <= bound
  {
    hide Round;
    WeightedBound(Max(night, 0), Max(day, 0), inverse, daylight, bound);
    RoundAtMost(Max(night, 0) * inverse + Max(day, 0) * daylight, 32768, bound);
  }

  lemma IlluminationBound(age: nat, period: nat)
    requires age < period && 2 <= period && period % 2 == 0
    ensures Illumination(age, period) <= UINT16_MAX
  {
    var half := period / 2;
    assert LitAge(age, period) <= half;
    MulLe(LitAge(age, period), half, UINT16_MAX);
    assert half * UINT16_MAX == UINT16_MAX * half;
    RoundAtMost(LitAge(age, period) * UINT16_MAX, half, UINT16_MAX);
  }

  lemma MoonStrengthBound(moonMax: nat, illumination: nat, elevation: int)
    requires illumination <= 65535 && elevation <= 32768
    ensures MoonStrength(moonMax, illumination, elevation) <= moonMax
  {
    if elevation > 0 {
      MulLe(illumination, 65535, moonMax);
      var lit := moonMax * illumination;
      MulLe(lit, moonMax * 65535, elevation);
      MulLe(elevation, 32768, moonMax * 65535);
      assert moonMax * 65535 * 32768 == moonMax * (65535 * 32768);
      RoundAtMost(lit * elevation, 65535 * 32768, moonMax);
    }
  }

  /** The sun's part of a model that keeps to its ranges. */
  predicate SolarWithin(m: Model) {
    && 0 <= m.direct <= 960 && 0 <= m.diffuse <= 320
    && Colors(m.solarColor) && 0 <= m.solarBrightness <= BRIGHTNESS_MAX
    && -32768 <= m.solarElevation <= 32768 && 1 <= m.solarDirection <= 8
  }

  /** A model without a moon or stars. */
  predicate NoNight(m: Model) {
    && m.moon == 0 && m.starlight == 0 && m.moonColor == BLACK && m.starlightColor == BLACK
    && m.moonElevation == 0 && m.moonDirection == 0
  }

  /** What every model of valid inputs satisfies. */
  predicate Bounded(m: Model) {
    && 0 <= m.direct <= 960 && 0 <= m.diffuse <= 320 && 0 <= m.moon <= 20 && 0 <= m.starlight <= 2
    && Typed(m) && m.solarBrightness <= BRIGHTNESS_MAX
    && -32768 <= m.solarElevation <= 32768 && -32768 <= m.moonElevation <= 32768
    && 1 <= m.solarDirection <= 8 && 1 <= m.moonDirection <= 8
  }

  lemma ScaleQ15(elevation: int, strength: nat)
    requires 0 < elevation <= 32768 && strength <= 1000
    ensures 0 <= Scale(elevation, strength, 32768) <= strength
  {
    MulLe(elevation, 32768, strength);
    ScaleBounded(elevation, strength, 32768, strength);
  }

  lemma BlendColorBound(night: Rgb, day: Rgb, inverse: nat, daylight: nat)
    requires Colors(night) && Colors(day) && inverse + daylight == 32768
    ensures Colors(BlendColor(night, day, inverse, daylight))
  {
    hide Blend;
    BlendBound(night.red, day.red, inverse, daylight, UINT16_MAX);
    BlendBound(night.green, day.green, inverse, daylight, UINT16_MAX);
    BlendBound(night.blue, day.blue, inverse, daylight, UINT16_MAX);
  }

  lemma LunarBounded(i: Inputs)
    requires LunarValid(i)
    ensures var m := LunarEvaluate(i);
      && m.phase < 8 && m.illumination <= UINT16_MAX && m.moonHour < HOURS_PER_DAY
      && -32768 <= m.elevation <= 32768 && 1 <= m.azimuth <= 8
      && m.moonStrength <= i.moonMax && m.starlight <= i.starlightStrength
  {
    hide SolarElevation, TwilightElevation, OrbitElevation, OrbitAzimuth, Illumination, MoonStrength;
    var hour := MoonHour(i.solarHour, i.lunarAge, i.lunarPeriod);
    EvenPeriod(i.lunarPeriod);
    IlluminationBound(i.lunarAge, i.lunarPeriod);
    MoonStrengthBound(i.moonMax, Illumination(i.lunarAge, i.lunarPeriod), OrbitElevation(hour));
  }

  lemma EvenPeriod(period: nat)
    requires period % 8 == 0
    ensures period % 2 == 0
  {
    var q := period / 8;
    assert period == 8 * q;
    DivUnique(period, 2, 4 * q, 0);
  }

  lemma SolarBound(i: Inputs)
    requires HourValid(i)
    ensures -32768 <= SolarElevation(i) <= 32768
  {
    hide Seasonal;
    SeasonalBound(OrbitElevation(i.solarHour), SeasonFactor(i.seasonPhase / HOURS_PER_MONTH));
  }

  /** The sun shines within its ranges whatever the lunar inputs are; out of
   theirs, they leave no moon and no stars. */
  lemma SolarBounded(i: Inputs)
    requires HourValid(i) && TypedInputs(i) && i.dayBrightness <= BRIGHTNESS_MAX && i.nightBrightness <= BRIGHTNESS_MAX
    ensures SolarWithin(Evaluate(i))
    ensures !LunarValid(i) ==> NoNight(Evaluate(i))
  {
    hide LunarValid, SolarElevation, TwilightElevation, OrbitElevation, OrbitAzimuth, Blend, BlendColor, Scale;
    hide MoonHour, Illumination, Part, MoonStrength;
    SolarBound(i);
    var e := SolarElevation(i);
    if e > 0 {
      ScaleQ15(e, 960);
      ScaleQ15(e, 256);
    }
    var daylight := Min(Max(e, 0), 32768);
    BlendBound(i.nightBrightness, i.dayBrightness, 32768 - daylight, daylight, BRIGHTNESS_MAX);
    BlendColorBound(i.nightLinear, i.dayLinear, 32768 - daylight, daylight);
  }

  /** Every model of valid inputs is bounded. */
  lemma EvaluateBounded(i: Inputs)
    requires InputsValid(i) && TypedInputs(i)
    ensures Bounded(Evaluate(i))
  {
    hide LunarEvaluate, SolarElevation, TwilightElevation, OrbitElevation, OrbitAzimuth, Blend, BlendColor, Scale;
    SolarBounded(i);
    LunarBounded(i);
  }

  // ---- daylight ------------------------------------------------------------

  lemma ScaleRises(a: int, b: int, scale: nat, denominator: nat)
    requires denominator > 0 && a <= b
    ensures Scale(a, scale, denominator) <= Scale(b, scale, denominator)
  {
    hide Round;
    if a > 0 && scale > 0 {
      MulLe(a, b, scale);
      RoundMonotone(a * scale, b * scale, denominator);
    }
  }

  /** Within a season a higher sun is never a darker one, directly or by its
   diffuse light; overhead it shines with its whole strength, below the horizon
   with none, and below twilight nothing is left of the day. */
  lemma DaylightRises(i: Inputs, j: Inputs)
    requires HourValid(i) && HourValid(j)
    requires TwilightElevation(i) == TwilightElevation(j) && SolarElevation(i) <= SolarElevation(j)
    ensures Evaluate(i).direct <= Evaluate(j).direct && Evaluate(i).diffuse <= Evaluate(j).diffuse
    ensures SolarElevation(j) == 32768 ==> Evaluate(j).direct == 960 && Evaluate(j).diffuse == 320
    ensures SolarElevation(i) <= 0 ==> Evaluate(i).direct == 0
    ensures SolarElevation(i) < TwilightElevation(i) ==> Evaluate(i).diffuse == 0
  {
    hide LunarEvaluate, SolarElevation, TwilightElevation, OrbitAzimuth, Blend, BlendColor, Scale;
    TwilightBelow(i);
    var e, f := SolarElevation(i), SolarElevation(j);
    ScaleRises(e, f, 960, 32768);
    ScaleRises(e, f, 256, 32768);
    ScaleWhole(960);
    ScaleWhole(256);
  }

  lemma TwilightBelow(i: Inputs)
    requires HourValid(i)
    ensures TwilightElevation(i) <= 0
  {}

  lemma ScaleWhole(strength: nat)
    requires strength <= 1000
    ensures Scale(32768, strength, 32768) == strength
  {
    RoundUnique(32768 * strength, 32768, strength);
  }

  // ---- the moon ------------------------------------------------------------

  /** Where the moon stands: it trails the sun by an hour for every twenty-fourth
   of its period, so a new moon is at the sun and a full moon opposite it. */
  lemma MoonTrailsSun(hour: nat, age: nat, period: nat)
    requires hour < HOURS_PER_DAY && age < period && 2 <= period && period % 2 == 0
    ensures var moon := MoonHour(hour, age, period);
      && (moon + Part(age, HOURS_PER_DAY, period)) % HOURS_PER_DAY == hour
      && (age == 0 ==> moon == hour && Illumination(age, period) == 0)
      && (2 * age == period ==> (moon + 12) % HOURS_PER_DAY == hour && Illumination(age, period) == UINT16_MAX)
  {
    var part := Part(age, HOURS_PER_DAY, period);
    FullMoon(age, period, part);
    HoursAround(hour, part);
    if age == 0 {
      RoundUnique(0, period / 2, 0);
    }
    if 2 * age == period {
      RoundUnique(age * UINT16_MAX, age, UINT16_MAX);
    }
  }

  lemma FullMoon(age: nat, period: nat, part: nat)
    requires age < period && part * period <= age * HOURS_PER_DAY < (part + 1) * period
    ensures age == 0 ==> part == 0
    ensures 2 * age == period ==> part == 12
  {
    if age == 0 && part >= 1 {
      MulLe(1, part, period);
    }
    if 2 * age == period {
      if part >= 13 {
        MulLe(13, part, period);
      } else if part <= 11 {
        MulLe(part + 1, 12, period);
      }
    }
  }

  lemma HoursAround(hour: nat, part: nat)
    requires hour < 24 && part < 24
    ensures ((hour + 36 - (12 + part) % 24) % 24 + part) % 24 == hour
  {}
}
