/**
 Under an open sky: where nothing stands in the way, every cell of a map has the
 whole light of the hour, from each source's own direction.
 */
module OpenSky {
  import opened FixedPoint
  import opened Relaxation
  import opened Lattices
  import opened Traversal
  import opened TraversalOrder
  import opened Rays
  import opened RaySlopes
  import opened Solver
  import opened Seams
  import opened Orbit
  import opened Daylight
  import opened SquareRoot

  /** Open air everywhere, with the sky above every cell of it. */
  ghost predicate OpenAir(l: Lattice) {
    && (forall s, x, y, z :: l.resolve(s, x, y, z).site != NULL)
    && (forall s :: l.observe(s))
    && (forall f :: l.continuous(f) && l.light(f) == Crossing(SCALE, false))
    && (forall f: Face :: f.normal.z > 0 ==> l.sky(f))
  }

  // ---- one event -----------------------------------------------------------

  /** Crossings that let everything through, none of them an opening. */
  ghost predicate Clear(r: RayState) {
    |r.apertures| == |r.coefficients| && (forall i :: 0 <= i < |r.coefficients| ==> r.coefficients[i] == SCALE)
    && true !in r.apertures
  }

  lemma {:induction false} CrossesClear(l: Lattice, faces: seq<Face>, n: nat)
    requires OpenAir(l) && n <= |faces|
    ensures CrossUpTo(l, faces, n) == Crossing(SCALE, false)
    decreases n
  {
    if n > 0 {
      CrossesClear(l, faces, n - 1);
    }
  }

  /** An event leaves for the sky exactly when it goes up, and nothing blocks it. */
  lemma EventOpen(l: Lattice, c: CursorState)
    requires OpenAir(l) && c.direction.z > 0
    ensures var e := EventOf(l, c);
      && EventObserved(l, e) && CrossUpTo(l, e.faces, |e.faces|) == Crossing(SCALE, false)
      && (LeavesAny(l, e.faces) <==> e.axes.z) && !Blocked(l, e.faces, LeavesAny(l, e.faces)) && e.valid
  {
    hide FacesUpTo, CellsUpTo, FirstAxes;
    var e := EventOf(l, c);
    CrossesClear(l, e.faces, |e.faces|);
    forall i: nat | i < |e.faces|
      ensures e.faces[i].from.site != NULL && e.faces[i].to.site != NULL
      ensures e.faces[i].normal.z > 0 ==> e.axes.z
    {
      var mask, axis := FaceListed(l, c, e.axes, 24, i);
    }
    if e.axes.z {
      var i := FaceFound(l, c, e.axes, 24, NO_AXES, 2);
      assert Leaves(l, e.faces[i]);
    }
    hide Touched, CrossUpTo;
  }

  // ---- one ray -------------------------------------------------------------

  /** A slope that goes up before a ray's reach sideways is used up. */
  predicate Steep(d: Vec) { RaySlopes.Compass(d) && UpBefore(d, DIRECT_REACH, 0) }

  /** A ray that has only gone sideways so far, or has left for the sky. */
  ghost predicate Gliding(d: Vec, r: RayState) {
    var c := r.cursor;
    && Clear(r) && Sound(r)
    && (r.done ==> r.sky)
    && (!r.done ==> c.direction == d && !c.segment && !c.failed && c.limit == RAY_EVENTS
                    && c.crossed == Counts(d, r.horizontal, 0) && c.events == r.horizontal <= DIRECT_REACH)
  }

  lemma SteepNext(d: Vec, h: nat)
    requires Steep(d) && h <= DIRECT_REACH
    ensures var axes := FirstAxes(d, Counts(d, h, 0));
      && (axes.x || axes.y || axes.z) && (axes.x || axes.y ==> h < DIRECT_REACH)
      && (!axes.z ==> Count(Counts(d, h, 0), axes) == Counts(d, h + 1, 0))
  {
    NextAxes(d, h, 0);
  }

  lemma GlideStep(l: Lattice, d: Vec, r: RayState)
    requires OpenAir(l) && Steep(d) && Gliding(d, r) && !r.done
    ensures Gliding(d, RayStep(l, r))
  {
    hide OpenAir, EventOf, CrossUpTo, LeavesAny, Blocked, EventObserved, FirstAxes, Counts, UpBefore, Sound;
    SteepNext(d, r.horizontal);
    EventOpen(l, r.cursor);
    StepSound(l, r);
    EventAxes(l, r.cursor);
    SoundCount(r);
  }

  lemma SoundCount(r: RayState)
    requires Sound(r) && !r.done
    ensures |r.coefficients| == r.cursor.events
  {}

  lemma EventAxes(l: Lattice, c: CursorState)
    ensures EventOf(l, c).axes == FirstAxes(c.direction, c.crossed)
  {
    hide FirstAxes, FacesUpTo, CellsUpTo, ResolvedUpTo;
  }

  lemma {:induction false} GlideOn(l: Lattice, d: Vec, r: RayState)
    requires OpenAir(l) && Steep(d) && Gliding(d, r)
    ensures Clear(Trace(l, r)) && Trace(l, r).sky
    decreases if r.done then 0 else 1 + RAY_EVENTS - r.cursor.events
  {
    hide OpenAir, Steep, RayStep;
    if !r.done {
      StepSound(l, r);
      GlideStep(l, d, r);
      GlideOn(l, d, RayStep(l, r));
    }
  }

  lemma {:induction false} ClearCarries(cs: seq<nat>, light: nat)
    requires forall i :: 0 <= i < |cs| ==> cs[i] == SCALE
    ensures Carry(cs, light) == light
    decreases |cs|
  {
    if cs != [] {
      RoundUnique(light * SCALE, SCALE, light);
      ClearCarries(cs[..|cs| - 1], light);
    }
  }

  /** From every cell a steep ray reaches the sky with nothing lost on the way. */
  lemma RayClear(l: Lattice, cell: Cell, direction: nat, elevation: int, strength: nat)
    requires OpenAir(l) && InCoordinates(cell.x, cell.y)
    requires Above(direction, elevation) ==> Steep(Direction(direction, elevation))
    ensures var r := RayInit(l, cell.site, cell.x, cell.y, direction, elevation);
      && Sound(r)
      && var t := Trace(l, r);
         && RayLight(t.coefficients, t.sky, strength) == (if Above(direction, elevation) then strength else 0)
         && RayAperture(t.coefficients, t.apertures, t.sky, strength) == 0
  {
    hide Direction, Steep, Carry;
    InitSound(l, cell.site, cell.x, cell.y, direction, elevation);
    var r := RayInit(l, cell.site, cell.x, cell.y, direction, elevation);
    if Above(direction, elevation) {
      var d := Direction(direction, elevation);
      DirectionSound(direction, elevation);
      assert Gliding(d, r);
      GlideOn(l, d, r);
      ClearCarries(Trace(l, r).coefficients, strength);
    } else {
      NoCrossing();
    }
  }

  lemma NoCrossing()
    ensures Carry([], 0) == 0
  {}

  // ---- the solve -----------------------------------------------------------

  /** A problem in open air, whose cells count within the coordinates a ray takes
   and whose sources stand below the horizon or steep above it. */
  ghost predicate UnderOpenSky(p: Problem) {
    && OpenAir(p.lattice) && p.Width() <= COORDINATE_MAX && p.Height() <= COORDINATE_MAX
    && (forall x, y :: InCoordinates(x, y) ==>
          InCoordinates(p.lattice.resolve(p.site, x, y, 0).x, p.lattice.resolve(p.site, x, y, 0).y))
  }

  lemma OpenWalk(l: Lattice, site: Handle, x: int, y: int, d: Vec)
    requires OpenAir(l) && InCoordinates(x, y) && InReach(d)
    ensures Walkable(l, site, x, y, d)
  {
    hide SegmentInit, Drain, Cut, Cuts, InReach;
    assert ResolvesAlong(l, site, Vec(x, y, 0), d);
    SegmentExact(l, site, x, y, d);
    var w := Drain(l, SegmentInit(l, site, x, y, d));
    forall i | 0 <= i < |w.events|
      ensures Passable(l, w.events[i])
    {
      assert IsEvent(l, site, Vec(x, y, 0), d, Cuts(d, ZERO), w.events[i], i);
    }
  }

  /** Every scratch cell is there. */
  lemma OpenHalo(p: Problem, x: int, y: int)
    requires UnderOpenSky(p) && InGrid(p.Width(), p.Height(), x, y) && p.mapWidth > 0 && p.mapHeight > 0
    ensures HaloCell(p, x, y) == p.lattice.resolve(p.site, x - PASSES, y - PASSES, 0)
    ensures HaloCell(p, x, y).site != NULL && InCoordinates(HaloCell(p, x, y).x, HaloCell(p, x, y).y)
  {
    hide Walkable, HaloCell;
    var mx, my := x - PASSES, y - PASSES;
    var sx, sy := Clamp(mx, p.mapWidth), Clamp(my, p.mapHeight);
    assert Nearest(p.mapWidth, mx, sx) && Nearest(p.mapHeight, my, sy);
    OpenWalk(p.lattice, p.site, sx, sy, Vec(mx - sx, my - sy, 0));
    HaloIsWalked(p, x, y, sx, sy);
  }

  ghost predicate LowOrSteep(direction: nat, elevation: int) {
    Above(direction, elevation) ==> Steep(Direction(direction, elevation))
  }

  lemma ZenithSteep()
    ensures Above(NORTH, ZENITH) && Steep(Direction(NORTH, ZENITH))
  {
    DirectionCompass(NORTH, ZENITH);
    RootOfNone();
    hide Root;
  }

  lemma RootOfNone()
    ensures HorizontalSquared(NORTH, ZENITH) == 0 && Root(0) == 0
  {}

  /** What a source below the horizon or steep above it gives every cell. */
  lemma OpenLight(p: Problem, s: Source, strength: nat, x: int, y: int)
    requires UnderOpenSky(p) && InGrid(p.Width(), p.Height(), x, y) && p.mapWidth > 0 && p.mapHeight > 0
    requires LowOrSteep(SourceDirection(p.model, s), SourceElevation(p.model, s))
    ensures LightAt(p, s, strength, x, y)
         == if Above(SourceDirection(p.model, s), SourceElevation(p.model, s)) then strength else 0
    ensures ApertureAt(p, s, strength, x, y) == 0
  {
    hide HaloCell, OpenAir, Direction, Steep, Above, Trace, RayInit, Carry, SourceDirection, SourceElevation;
    OpenHalo(p, x, y);
    RayClear(p.lattice, HaloCell(p, x, y), SourceDirection(p.model, s), SourceElevation(p.model, s), strength);
  }

  /** A field that is alike everywhere stays as it is. */
  lemma EvenStays(g: Grid, spill: SpillFn, k: nat, value: nat, x: int, y: int)
    requires g.Has(x, y) && forall a, b :: g.Has(a, b) ==> g.At(a, b) == value
    ensures Passes(g, spill, k).Has(x, y) && Passes(g, spill, k).At(x, y) == value
  {
    hide Passes;
    PassesWithin(g, spill, k, value);
    PassesGrow(g, spill, k, x, y);
    assert Passes(g, spill, k).Has(x, y);
  }

  /** Under an open sky every cell of a map is published with all the light of each
   source that is up, and with none through an opening. */
  lemma OpenSkySolved(p: Problem, x: int, y: int)
    requires UnderOpenSky(p) && Typed(p.model) && InGrid(p.mapWidth, p.mapHeight, x, y)
    requires LowOrSteep(p.model.solarDirection, p.model.solarElevation)
    requires LowOrSteep(p.model.moonDirection, p.model.moonElevation)
    requires p.model.direct >= 0 && p.model.diffuse >= 0 && p.model.moon >= 0 && p.model.starlight >= 0
    ensures var m := p.model;
      SolvedAt(p, x, y)
      == Publish(m, Components(if Above(m.solarDirection, m.solarElevation) then m.direct else 0, m.diffuse, 0,
                               if Above(m.moonDirection, m.moonElevation) then m.moon else 0, 0, m.starlight))
  {
    hide UnderOpenSky, LightAt, ApertureAt, Publish, Passes, Direction, Steep, Above;
    var m, goal, gx, gy := p.model, GoalOf(p), x + PASSES, y + PASSES;
    ZenithSteep();
    forall a, b | InGrid(p.Width(), p.Height(), a, b)
      ensures LightAt(p, Sky, m.diffuse, a, b) == m.diffuse && LightAt(p, Sky, m.starlight, a, b) == m.starlight
      ensures ApertureAt(p, Sun, m.direct, a, b) == 0
    {
      OpenLight(p, Sky, m.diffuse, a, b);
      OpenLight(p, Sky, m.starlight, a, b);
      OpenLight(p, Sun, m.direct, a, b);
    }
    OpenLight(p, Sun, m.direct, gx, gy);
    OpenLight(p, Moon, m.moon, gx, gy);
    EvenStays(goal.diffuse, goal.spill, goal.passes, m.diffuse, gx, gy);
    EvenStays(goal.apertureDirect, goal.spill, goal.passes, 0, gx, gy);
    EvenStays(goal.starlight, goal.spill, goal.passes, m.starlight, gx, gy);
  }

  // ---- every hour ----------------------------------------------------------

  lemma HighSteep(direction: nat, elevation: int)
    requires elevation <= 0 || elevation >= 505
    ensures LowOrSteep(direction, elevation)
  {
    hide Direction, HorizontalSquared, Root;
    if Above(direction, elevation) {
      DirectionCompass(direction, elevation);
      HorizontalFits(direction, elevation);
    }
  }

  /** The moon stands below the horizon or high above it. */
  lemma MoonHigh(i: Inputs)
    requires HourValid(i)
    ensures var m := Evaluate(i);
      && (m.moonElevation <= 0 || 505 <= m.moonElevation <= ZENITH)
      && (m.moon > 0 ==> Above(m.moonDirection, m.moonElevation))
  {
    if LunarValid(i) {
      var moon := MoonHour(i.solarHour, i.lunarAge, i.lunarPeriod);
      EvenPeriod(i.lunarPeriod);
      MoonTrailsSun(i.solarHour, i.lunarAge, i.lunarPeriod);
      MoonStands(i, moon);
      hide Evaluate;
      HeightAtHour(moon);
      hide OrbitElevation, OrbitAzimuth;
    }
  }

  lemma SunHigh(i: Inputs)
    requires HourValid(i)
    ensures var m := Evaluate(i);
      && (m.solarElevation <= 0 || 505 <= m.solarElevation <= ZENITH)
      && (m.direct > 0 ==> Above(m.solarDirection, m.solarElevation))
  {
    SunAtHour(i);
    SolarBound(i);
    hide LunarEvaluate, SolarElevation, TwilightElevation, BlendColor, Blend, OrbitAzimuth, Scale;
  }

  lemma SourcesSteep(i: Inputs)
    requires HourValid(i)
    ensures var m := Evaluate(i);
      && LowOrSteep(m.solarDirection, m.solarElevation) && LowOrSteep(m.moonDirection, m.moonElevation)
      && (m.direct > 0 ==> Above(m.solarDirection, m.solarElevation))
      && (m.moon > 0 ==> Above(m.moonDirection, m.moonElevation))
  {
    hide Evaluate, LowOrSteep;
    var m := Evaluate(i);
    SunHigh(i);
    MoonHigh(i);
    HighSteep(m.solarDirection, m.solarElevation);
    HighSteep(m.moonDirection, m.moonElevation);
  }

  /** At every hour of every profile every cell under an open sky is published with
   the hour's whole light: what no run of the solver may lose or add to. */
  lemma OpenSkyHour(i: Inputs, l: Lattice, site: Handle, w: nat, h: nat, x: int, y: int)
    requires HourValid(i) && TypedInputs(i) && InputsValid(i) && InGrid(w, h, x, y)
    requires UnderOpenSky(Problem(l, site, Evaluate(i), w, h))
    ensures Typed(Evaluate(i))
    ensures var m := Evaluate(i);
      SolvedAt(Problem(l, site, m, w, h), x, y)
      == Publish(m, Components(m.direct, m.diffuse, 0, m.moon, 0, m.starlight))
  {
    hide Evaluate, UnderOpenSky, SolvedAt, Publish, LowOrSteep, Above;
    EvaluateBounded(i);
    SourcesSteep(i);
    OpenSkySolved(Problem(l, site, Evaluate(i), w, h), x, y);
  }
}
