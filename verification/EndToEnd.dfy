/**
 From profile inputs to published cells: for every valid hour of every profile
 and every lattice, what a solve publishes is bounded, its channels never
 exceed its scalar, and no saturation ever fires.
 */
module EndToEnd {
  import opened Arithmetic
  import opened FixedPoint
  import opened Relaxation
  import opened Lattices
  import opened Solver
  import opened Orbit

  /** Brightest published scalar: (960 + 320 + 960) * 1024 / 256 + 40 + 2. */
  const BRIGHTEST: int := 9002

  ghost predicate ComponentsBounded(c: Components) {
    && 0 <= c.direct <= 960 && 0 <= c.diffuse <= 320 && 0 <= c.apertureDirect <= 960
    && 0 <= c.moon <= 20 && 0 <= c.moonAperture <= 20 && 0 <= c.starlight <= 2
  }

  /** A published cell computed exactly, with nothing saturated. */
  ghost predicate PublishedExactly(m: Model, c: Components, light: Light)
    requires Typed(m)
  {
    var sum, moon := c.direct + c.diffuse + c.apertureDirect, c.moon + c.moonAperture;
    sum >= 0 && moon >= 0 && c.starlight >= 0
    && var solar := Round(sum * m.solarBrightness, 256);
       && light.value == solar + moon + c.starlight
       && light.rgb.red == Mixed(solar, moon, c.starlight, m.solarColor.red, m.moonColor.red, m.starlightColor.red)
       && light.rgb.green
          == Mixed(solar, moon, c.starlight, m.solarColor.green, m.moonColor.green, m.starlightColor.green)
       && light.rgb.blue == Mixed(solar, moon, c.starlight, m.solarColor.blue, m.moonColor.blue, m.starlightColor.blue)
  }

  /** One channel: each source's share of its colour, rounded on its own. */
  function Mixed(solar: nat, moon: nat, star: nat, solarColor: nat, moonColor: nat, starColor: nat): int {
    Round(solar * solarColor, UINT16_MAX) + Round(moon * moonColor, UINT16_MAX) + Round(star * starColor, UINT16_MAX)
  }

  lemma ChannelBounded(solar: nat, moon: nat, star: nat, solarColor: nat, moonColor: nat, starColor: nat)
    requires solar + moon + star <= BRIGHTEST
    requires solarColor <= UINT16_MAX && moonColor <= UINT16_MAX && starColor <= UINT16_MAX
    ensures var c := Channel(solar, moon, star, solarColor, moonColor, starColor);
      c == Mixed(solar, moon, star, solarColor, moonColor, starColor) && 0 <= c <= solar + moon + star
  {
    ShareBounded(solar, solarColor);
    ShareBounded(moon, moonColor);
    ShareBounded(star, starColor);
    hide Scale, Round;
  }

  lemma ShareBounded(value: nat, color: nat)
    requires value <= BRIGHTEST && color <= UINT16_MAX
    ensures Scale(value, color, UINT16_MAX) == Round(value * color, UINT16_MAX) <= value
  {
    MulLe(color, UINT16_MAX, value);
    ScaleBounded(value, color, UINT16_MAX, value);
  }

  lemma SolarBounded(sum: nat, brightness: nat)
    requires sum <= 2240 && brightness <= 1024
    ensures Scale(sum, brightness, 256) == Round(sum * brightness, 256) <= 8960
  {
    MulLe(brightness, 1024, sum);
    ScaleBounded(sum, brightness, 256, 8960);
  }

  /** A bounded model publishes bounded light, and publishes it exactly. */
  lemma PublishBounded(m: Model, c: Components)
    requires Bounded(m) && ComponentsBounded(c)
    ensures var light := Publish(m, c);
      && 0 <= light.value <= BRIGHTEST
      && 0 <= light.rgb.red <= light.value && 0 <= light.rgb.green <= light.value && 0 <= light.rgb.blue <= light.value
      && PublishedExactly(m, c, light)
  {
    hide Scale, Round, Channel, Mixed;
    var sum, moon := c.direct + c.diffuse + c.apertureDirect, c.moon + c.moonAperture;
    SolarBounded(sum, m.solarBrightness);
    var solar := Scale(sum, m.solarBrightness, 256);
    ChannelBounded(solar, moon, c.starlight, m.solarColor.red, m.moonColor.red, m.starlightColor.red);
    ChannelBounded(solar, moon, c.starlight, m.solarColor.green, m.moonColor.green, m.starlightColor.green);
    ChannelBounded(solar, moon, c.starlight, m.solarColor.blue, m.moonColor.blue, m.starlightColor.blue);
  }

  /** Transport never brightens a source. */
  lemma GridsWithin(p: Problem, s: Source, strength: nat)
    ensures Within(LightGrid(p, s, strength), strength) && Within(ApertureGrid(p, s, strength), strength)
  {
    hide Backtrace;
    forall x, y | InGrid(p.Width(), p.Height(), x, y)
      ensures 0 <= LightAt(p, s, strength, x, y) <= strength && 0 <= ApertureAt(p, s, strength, x, y) <= strength
    {}
  }

  lemma SolvedComponents(p: Problem, x: int, y: int)
    requires Bounded(p.model) && InGrid(p.Width(), p.Height(), x, y)
    ensures Shaped(GoalOf(p), p.Width(), p.Height())
    ensures ComponentsBounded(ComponentsAt(GoalOf(p), p.Width(), p.Height(), x, y))
  {
    hide LightGrid, ApertureGrid, Passes;
    var m, goal := p.model, GoalOf(p);
    GridsWithin(p, Sun, m.direct);
    GridsWithin(p, Sky, m.diffuse);
    GridsWithin(p, Moon, m.moon);
    GridsWithin(p, Sky, m.starlight);
    PassesWithin(goal.diffuse, goal.spill, goal.passes, m.diffuse);
    PassesWithin(goal.apertureDirect, goal.spill, goal.passes, m.direct);
    PassesWithin(goal.starlight, goal.spill, goal.passes, m.starlight);
    assert goal.direct.Has(x, y) && goal.moon.Has(x, y) && goal.moonAperture.Has(x, y);
    assert Passes(goal.diffuse, goal.spill, goal.passes).Has(x, y);
    assert Passes(goal.apertureDirect, goal.spill, goal.passes).Has(x, y);
    assert Passes(goal.starlight, goal.spill, goal.passes).Has(x, y);
  }

  /** For every valid hour of every profile, on every lattice: each published
   scalar lies in 0..9002, each channel between 0 and the scalar, and the
   publication's arithmetic is exact. */
  lemma SolveBounded(i: Inputs, l: Lattice, site: Handle, w: nat, h: nat, x: int, y: int)
    requires InputsValid(i) && TypedInputs(i) && InGrid(w, h, x, y)
    ensures Bounded(Evaluate(i))
    ensures var p := Problem(l, site, Evaluate(i), w, h);
      var light := SolvedAt(p, x, y);
      && 0 <= light.value <= BRIGHTEST
      && 0 <= light.rgb.red <= light.value && 0 <= light.rgb.green <= light.value && 0 <= light.rgb.blue <= light.value
      && PublishedExactly(p.model, ComponentsAt(GoalOf(p), p.Width(), p.Height(), x + PASSES, y + PASSES), light)
  {
    EvaluateBounded(i);
    hide Evaluate, Publish, PublishedExactly, GoalOf;
    var p := Problem(l, site, Evaluate(i), w, h);
    SolvedComponents(p, x + PASSES, y + PASSES);
    PublishBounded(p.model, ComponentsAt(GoalOf(p), p.Width(), p.Height(), x + PASSES, y + PASSES));
  }

  /** The relaxed fields as some larger grid would have them. */
  ghost predicate Extends(goal: Goal, wide: Goal, ox: int, oy: int) {
    && wide.passes == goal.passes
    && Embedded(goal.diffuse, wide.diffuse, ox, oy, 0)
    && Embedded(goal.apertureDirect, wide.apertureDirect, ox, oy, 0)
    && Embedded(goal.starlight, wide.starlight, ox, oy, 0)
    && SameSpill(goal.diffuse.width, goal.diffuse.height, ox, oy, goal.spill, wide.spill)
  }

  /** A cell of a field relaxed on a larger grid. */
  ghost function RelaxedAt(field: Grid, wide: Grid, spill: SpillFn, ox: int, oy: int, x: int, y: int): int
    requires Embedded(field, wide, ox, oy, 0) && field.Has(x, y)
  {
    Passes(wide, spill, PASSES).At(ox + x, oy + y)
  }

  /** What is published never depends on what lies beyond the halo: relaxing any
   larger grid that agrees on the scratch grid publishes the same cell. */
  lemma PublishedIgnoresBeyond(p: Problem, wide: Goal, ox: int, oy: int, x: int, y: int)
    requires Typed(p.model) && InGrid(p.mapWidth, p.mapHeight, x, y)
    requires Extends(GoalOf(p), wide, ox, oy)
    ensures var goal, gx, gy := GoalOf(p), x + PASSES, y + PASSES;
      SolvedAt(p, x, y)
      == Publish(p.model, Components(goal.direct.At(gx, gy),
                                     RelaxedAt(goal.diffuse, wide.diffuse, wide.spill, ox, oy, gx, gy),
                                     RelaxedAt(goal.apertureDirect, wide.apertureDirect, wide.spill, ox, oy, gx, gy),
                                     goal.moon.At(gx, gy), goal.moonAperture.At(gx, gy),
                                     RelaxedAt(goal.starlight, wide.starlight, wide.spill, ox, oy, gx, gy)))
  {
    var goal, gx, gy := GoalOf(p), x + PASSES, y + PASSES;
    assert Shaped(goal, p.Width(), p.Height());
    hide GoalOf, Publish, Passes, SameSpill;
    var k := goal.passes;
    HaloSufficient(goal.diffuse, goal.spill, wide.diffuse, wide.spill, ox, oy, k);
    HaloSufficient(goal.apertureDirect, goal.spill, wide.apertureDirect, wide.spill, ox, oy, k);
    HaloSufficient(goal.starlight, goal.spill, wide.starlight, wide.spill, ox, oy, k);
    assert Passes(goal.diffuse, goal.spill, k).At(gx, gy) == Passes(wide.diffuse, wide.spill, k).At(ox + gx, oy + gy);
    assert Passes(goal.apertureDirect, goal.spill, k).At(gx, gy)
        == Passes(wide.apertureDirect, wide.spill, k).At(ox + gx, oy + gy);
    assert Passes(goal.starlight, goal.spill, k).At(gx, gy)
        == Passes(wide.starlight, wide.spill, k).At(ox + gx, oy + gy);
  }
}
