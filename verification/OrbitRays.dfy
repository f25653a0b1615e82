/**
 What the engine relies on and the closure's lattice alone does not give: no
 light of any hour has a slope that fills the event bound, so in every solve of
 every closure a ray ends where the sky, a wall or its reach ends it.
 */
module OrbitRays {
  import opened Arithmetic
  import opened FixedPoint
  import opened SquareRoot
  import opened Lattices
  import opened Traversal
  import opened Rays
  import opened RaySlopes
  import opened Relaxation
  import opened Solver
  import opened Orbit
  import opened ClosureRays
  import opened ClosureSolve

  // ---- the slopes of the orbit ---------------------------------------------

  /** A ray steeper than 3 in 7 or flatter than 5 in 13 never skims. */
  lemma SteepOrFlat(d: Vec)
    requires 7 * d.z >= 3 * Sideways(d) || 5 * Sideways(d) >= 13 * d.z
    ensures !Skims(d)
  {}

  /** A root below a bound whose square is above. */
  lemma RootBelow(value: nat, bound: nat)
    requires value < bound * bound
    ensures Root(value) < bound
  {
    if Root(value) >= bound {
      SquareMonotone(bound, Root(value));
    }
  }

  lemma RootAtLeast(value: nat, bound: nat)
    requires bound * bound <= value
    ensures bound <= Root(value)
  {
    if Root(value) < bound {
      SquareMonotone(Root(value) + 1, bound);
    }
  }

  /** Early and late light is flatter than the slopes that skim. */
  lemma LowLight(direction: nat, elevation: int)
    requires (direction == 3 || direction == 7) && 0 < elevation <= 8481
    ensures !Skims(Direction(direction, elevation))
  {
    hide Root, Direction;
    DirectionCompass(direction, elevation);
    SquareMonotone(elevation, 8481);
    assert HorizontalSquared(direction, elevation) >= 22051 * 22051;
    hide HorizontalSquared;
    RootAtLeast(HorizontalSquared(direction, elevation), 22051);
    SteepOrFlat(Direction(direction, elevation));
  }

  /** Light across the corners, or from the south high up, is steeper. */
  lemma HighLight(direction: nat, elevation: int)
    requires Above(direction, elevation)
    requires (direction in {4, 6} && elevation >= 12288) || elevation >= 14044
    ensures !Skims(Direction(direction, elevation))
  {
    hide Root, Direction;
    DirectionCompass(direction, elevation);
    HighRoot(direction, elevation);
    SteepOrFlat(Direction(direction, elevation));
  }

  lemma HighRoot(direction: nat, elevation: int)
    requires Above(direction, elevation)
    requires (direction in {4, 6} && elevation >= 12288) || elevation >= 14044
    ensures 7 * elevation >= 3 * Root(HorizontalSquared(direction, elevation))
  {
    hide Root;
    if elevation >= 14044 {
      HorizontalFits(direction, elevation);
    } else {
      SquareMonotone(12288, elevation);
      assert HorizontalSquared(direction, elevation) < 28672 * 28672;
      hide HorizontalSquared;
      RootBelow(HorizontalSquared(direction, elevation), 28672);
    }
  }

  /** At no hour of the day does light keep within those slopes, however much the
   season lowers it. */
  lemma HourNeverSkims(hour: nat, elevation: int)
    requires hour < HOURS_PER_DAY && 0 < elevation <= OrbitElevation(hour)
    requires OrbitElevation(hour) > 8481 ==> 4 * elevation >= 3 * OrbitElevation(hour) - 1
    ensures Above(OrbitAzimuth(hour), elevation) && !Skims(Direction(OrbitAzimuth(hour), elevation))
  {
    hide Direction, Skims;
    if hour == 7 || hour == 17 {
      LowLight(OrbitAzimuth(hour), elevation);
    } else {
      HighLight(OrbitAzimuth(hour), elevation);
    }
  }

  /** A season takes at most a quarter of an elevation, but for the rounding. */
  lemma SeasonalKeeps(elevation: int, factor: nat)
    requires -32768 <= elevation <= 32768 && 24576 <= factor <= 32768
    ensures Seasonal(elevation, factor) > 0 ==> 0 < Seasonal(elevation, factor) <= elevation
    ensures Seasonal(elevation, factor) > 0 ==> 4 * Seasonal(elevation, factor) >= 3 * elevation - 1
  {
    SeasonalBound(elevation, factor);
    if elevation > 0 {
      MulLe(24576, factor, elevation);
      RoundMonotone(elevation * 24576, elevation * factor, 32768);
    }
  }

  lemma SolarNeverSkims(i: Inputs)
    requires HourValid(i) && SolarElevation(i) > 0
    ensures Above(OrbitAzimuth(i.solarHour), SolarElevation(i))
    ensures !Skims(Direction(OrbitAzimuth(i.solarHour), SolarElevation(i)))
  {
    hide Seasonal, OrbitElevation, OrbitAzimuth, Skims, Direction;
    SeasonalKeeps(OrbitElevation(i.solarHour), SeasonFactor(i.seasonPhase / HOURS_PER_MONTH));
    HourNeverSkims(i.solarHour, SolarElevation(i));
  }

  lemma ZenithNeverSkims()
    ensures Above(NORTH, ZENITH) && !Skims(Direction(NORTH, ZENITH))
  {
    hide Root;
    DirectionCompass(NORTH, ZENITH);
    RootBelow(HorizontalSquared(NORTH, ZENITH), 1);
    SteepOrFlat(Direction(NORTH, ZENITH));
  }

  /** No source of any hour skims: not the sun in any season, not the moon at any
   age, not the sky overhead. */
  lemma OrbitNeverSkims(i: Inputs, s: Source)
    requires HourValid(i)
    ensures var m := Evaluate(i);
      Above(SourceDirection(m, s), SourceElevation(m, s)) ==>
        !Skims(Direction(SourceDirection(m, s), SourceElevation(m, s)))
  {
    hide Skims, Direction, SolarElevation, TwilightElevation, OrbitElevation, OrbitAzimuth, Illumination, MoonStrength;
    hide Blend, BlendColor, Scale;
    match s {
      case Sky =>
        ZenithNeverSkims();
      case Sun =>
        if SolarElevation(i) > 0 {
          SolarNeverSkims(i);
        }
      case Moon =>
        if LunarValid(i) {
          var hour := MoonHour(i.solarHour, i.lunarAge, i.lunarPeriod);
          if OrbitElevation(hour) > 0 {
            HourNeverSkims(hour, OrbitElevation(hour));
          }
        }
    }
  }

  // ---- how rays end --------------------------------------------------------

  /** What holds a ray up: its reach, a wall between two resolved cells, or a
   crossing that lets nothing through. */
  ghost predicate HeldUp(l: Lattice, r: RayState) {
    var o := Advance(l, r.cursor);
    && o.status == 1 && o.event.valid
    && (((o.event.axes.x || o.event.axes.y) && r.horizontal == DIRECT_REACH)
        || (exists i :: 0 <= i < |o.event.faces| && !Leaves(l, o.event.faces[i]) && !Unresolved(o.event.faces[i])
                        && !l.continuous(o.event.faces[i]))
        || CrossUpTo(l, o.event.faces, |o.event.faces|).coefficient == 0)
  }

  /** A ray that ends at an event which resolves, within its bound, is held up or
   has reached the sky. */
  lemma StepEnds(l: Lattice, r: RayState)
    requires !r.done && RayStep(l, r).done && Sound(r) && r.cursor.events < RAY_EVENTS && r.horizontal <= DIRECT_REACH
    requires var o := Advance(l, r.cursor);
      && o.status == 1 && o.event.valid && EventObserved(l, o.event)
      && forall i :: 0 <= i < |o.event.faces| ==> !Unresolved(o.event.faces[i])
    ensures RayStep(l, r).sky || HeldUp(l, r)
  {
    hide Advance, Leaves, Unresolved, CrossUpTo, EventObserved;
  }

  lemma {:induction false} SoundAfter(v: L.View, site: Handle, x: int, y: int, direction: nat, elevation: int, n: nat)
    requires v.Valid()
    ensures Sound(ClosureRay(v, site, x, y, direction, elevation, n))
  {
    hide SolverLattice, RayInit, RayStep, Sound, L.View.Valid;
    InitSound(SolverLattice(v), site, x, y, direction, elevation);
    if n > 0 {
      SoundAfter(v, site, x, y, direction, elevation, n - 1);
      StepSound(SolverLattice(v), ClosureRay(v, site, x, y, direction, elevation, n - 1));
    }
  }

  lemma NoHook(v: L.View, e: Event)
    requires v.Valid()
    ensures EventObserved(SolverLattice(v), e)
  {}

  /** A climbing ray below its bound has an event to meet. */
  lemma EventMet(v: L.View, site: Handle, d: Vec, r: RayState)
    requires v.Valid() && Climbs(v, site, d, r) && !r.done && r.cursor.events < RAY_EVENTS
    ensures Advance(SolverLattice(v), r.cursor).status == 1 && r.horizontal <= DIRECT_REACH
  {
    hide SolverLattice, L.View.Valid, EventOf, Passed, Untied, Counts, L.DepthOf;
  }

  /** Out of every level of every built closure and towards every source of every
   hour: a ray ends in the sky, or where its reach, a wall or an opaque crossing
   holds it up; never at the event bound, and never on a missing cell. */
  lemma NoRayLost(v: L.View, site: Handle, x: int, y: int, i: Inputs, s: Source, n: nat)
    requires v.Valid() && L.OnLevel(v, site) && HourValid(i)
    ensures var m, l := Evaluate(i), SolverLattice(v);
      var direction, elevation := SourceDirection(m, s), SourceElevation(m, s);
      var r := ClosureRay(v, site, x, y, direction, elevation, n);
      && !MeetsBound(v, site, x, y, direction, elevation, n)
      && (!r.done && RayStep(l, r).done ==> RayStep(l, r).sky || HeldUp(l, r))
  {
    hide Evaluate, SolverLattice, L.View.Valid, L.OnLevel, ClosureRay, RayStep, HeldUp, Sound, Climbs, Skims;
    hide Direction, Advance, EventObserved, Unresolved, SourceDirection, SourceElevation;
    var m, l := Evaluate(i), SolverLattice(v);
    var direction, elevation := SourceDirection(m, s), SourceElevation(m, s);
    var r := ClosureRay(v, site, x, y, direction, elevation, n);
    OrbitNeverSkims(i, s);
    if MeetsBound(v, site, x, y, direction, elevation, n) {
      BoundMet(v, site, x, y, direction, elevation, n);
      assert false;
    }
    if !r.done && RayStep(l, r).done {
      EndedStays(v, site, x, y, direction, elevation, n);
      StaysClimbing(v, site, x, y, direction, elevation, n);
      EventsResolve(v, site, x, y, direction, elevation, n);
      SoundAfter(v, site, x, y, direction, elevation, n);
      BelowBound(v, site, Direction(direction, elevation), r);
      EventMet(v, site, Direction(direction, elevation), r);
      NoHook(v, Advance(l, r.cursor).event);
      StepEnds(l, r);
    }
  }

  lemma BelowBound(v: L.View, site: Handle, d: Vec, r: RayState)
    requires Climbs(v, site, d, r) && !r.done
    ensures r.cursor.events <= RAY_EVENTS
  {}

  /** Whatever resolves on a level is on it. */
  lemma SameLevel(v: L.View, site: Handle, x: int, y: int)
    requires v.Valid() && L.OnLevel(v, site)
    ensures var c := L.Resolve(v, site, x, y, 0);
      c.site != NULL ==> L.OnLevel(v, c.site)
  {
    var c := L.Resolve(v, site, x, y, 0);
    hide L.View.Valid, L.Resolve, L.Located, L.IsHandle;
    HandleOf(v, site);
    L.ResolvedPlace(v, site, x, y, 0);
    L.Moved(v, site, 0, 0, 0, x, y, 0);
    L.Moved(v, c.site, 0, 0, 0, c.x, c.y, 0);
  }

  lemma EndedStep(l: Lattice)
    ensures RayStep(l, ENDED) == ENDED
  {}

  lemma {:induction false} EndedAfter(l: Lattice, n: nat)
    ensures RayAfter(l, ENDED, n) == ENDED
  {
    hide RayStep;
    EndedStep(l);
    if n > 0 {
      EndedAfter(l, n - 1);
    }
  }

  /** So it is with every ray of every solve, those of the halo around the map
   included. */
  lemma NoSolveRayLost(v: L.View, site: Handle, i: Inputs, w: nat, h: nat, x: int, y: int, s: Source, n: nat)
    requires v.Valid() && L.OnLevel(v, site) && HourValid(i)
    ensures var p := Problem(SolverLattice(v), site, Evaluate(i), w, h);
      var ray := HaloRay(p, x, y, SourceDirection(p.model, s), SourceElevation(p.model, s));
      var r := RayAfter(p.lattice, ray, n);
      && (!r.done ==> r.cursor.events < RAY_EVENTS)
      && (!r.done && RayStep(p.lattice, r).done ==> RayStep(p.lattice, r).sky || HeldUp(p.lattice, r))
  {
    hide Evaluate, L.View.Valid, L.OnLevel, L.Resolve, RayAfter, RayInit, RayStep, HeldUp;
    hide SourceDirection, SourceElevation, HaloReached, Climbs, Passed, Untied;
    var p := Problem(SolverLattice(v), site, Evaluate(i), w, h);
    var cell := HaloCell(p, x, y);
    EndedAfter(p.lattice, n);
    if cell.site != NULL {
      SameLevel(v, site, x - PASSES, y - PASSES);
      NoRayLost(v, cell.site, cell.x, cell.y, i, s, n);
      CountsBounded(v, cell.site, cell.x, cell.y, SourceDirection(p.model, s), SourceElevation(p.model, s), n);
    }
  }

  lemma CountsBounded(v: L.View, site: Handle, x: int, y: int, direction: nat, elevation: int, n: nat)
    requires v.Valid() && L.OnLevel(v, site)
    ensures var r := ClosureRay(v, site, x, y, direction, elevation, n);
      !r.done ==> r.cursor.events <= RAY_EVENTS
  {
    hide L.View.Valid, L.OnLevel, ClosureRay, Climbs, Direction;
    EndedStays(v, site, x, y, direction, elevation, n);
    if !ClosureRay(v, site, x, y, direction, elevation, n).done {
      StaysClimbing(v, site, x, y, direction, elevation, n);
      BelowBound(v, site, Direction(direction, elevation), ClosureRay(v, site, x, y, direction, elevation, n));
    }
  }
}
