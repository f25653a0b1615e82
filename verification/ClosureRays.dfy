/**
 The rays a solve sends up through a closure: everything they meet resolves,
 and when their event bound is what ends them.
 */
module ClosureRays {
  import C = ClosureCodec
  import opened ClosureIndex
  import opened Lattices
  import opened Traversal
  import opened Rays
  import opened RaySlopes
  import opened Seams
  import opened ClosureSolve
  import opened L = ClosureLattice

  ghost function RayAfter(l: Lattice, r: RayState, n: nat): RayState {
    if n == 0 then r else RayStep(l, RayAfter(l, r, n - 1))
  }

  /** The ray of a place towards a source, some steps on its way. */
  ghost function ClosureRay(v: View, site: Handle, x: int, y: int, direction: nat, elevation: int, n: nat): RayState
    requires v.Valid()
  {
    RayAfter(SolverLattice(v), RayInit(SolverLattice(v), site, x, y, direction, elevation), n)
  }

  // ---- on the way up -------------------------------------------------------

  /** A ray on its way up: its crossings are a moment of its slope, an event
   crosses sideways, upwards or both, and it has not left the closure's top by
   more than one level. */
  ghost predicate Climbs(v: View, site: Handle, d: Vec, r: RayState) {
    !r.done ==>
      var c := r.cursor;
      && c.origin == site && c.direction == d && c.limit == RAY_EVENTS && !c.segment && !c.failed
      && c.crossed.z >= 0 && c.position.z == c.crossed.z && c.crossed == Counts(d, r.horizontal, c.crossed.z)
      && Passed(d, r.horizontal, c.crossed.z) && r.horizontal <= DIRECT_REACH
      && c.events <= r.horizontal + c.crossed.z && c.events <= RAY_EVENTS
      && (c.events == r.horizontal + c.crossed.z ==> Untied(d, r.horizontal, c.crossed.z))
      && DepthOf(v, site) + c.crossed.z <= C.DEPTH_MAX + 1
  }

  lemma InitClimbs(v: View, site: Handle, x: int, y: int, direction: nat, elevation: int)
    requires v.Valid() && OnLevel(v, site)
    ensures var r := RayInit(SolverLattice(v), site, x, y, direction, elevation);
      && (!r.done ==> Above(direction, elevation) && r.cursor.crossed == ZERO)
      && (Above(direction, elevation) ==> Climbs(v, site, Direction(direction, elevation), r))
  {
    hide SolverLattice, View.Valid, Direction, OnLevel, DepthOf;
    if Above(direction, elevation) {
      DirectionCompass(direction, elevation);
      LevelLow(v, site);
    }
  }

  lemma LevelLow(v: View, site: Handle)
    requires OnLevel(v, site)
    ensures -C.DEPTH_MAX <= DepthOf(v, site) <= C.DEPTH_MAX
  {}

  /** Everything the next event of a climbing ray touches resolves. */
  lemma TouchesResolve(v: View, site: Handle, d: Vec, r: RayState, mask: Axes)
    requires v.Valid() && OnLevel(v, site) && d.z > 0 && Climbs(v, site, d, r) && !r.done
    ensures Touched(SolverLattice(v), r.cursor, mask).site != NULL
  {
    hide View.Valid, Resolve, OnLevel, DepthOf, Passed, Untied, Counts;
    LevelLow(v, site);
    var c := r.cursor;
    var p := Step(c.position, c.direction, mask);
    RaysResolve(v, c.origin, p.x, p.y, p.z);
  }

  lemma EventResolves(v: View, site: Handle, d: Vec, r: RayState, axes: Axes)
    requires v.Valid() && OnLevel(v, site) && d.z > 0 && Climbs(v, site, d, r) && !r.done
    ensures ResolvedUpTo(SolverLattice(v), r.cursor, axes, 8)
  {
    hide View.Valid, SolverLattice, OnLevel, Climbs, Touched;
    forall mask: Axes
      ensures Touched(SolverLattice(v), r.cursor, mask).site != NULL
    {
      TouchesResolve(v, site, d, r, mask);
    }
  }

  /** A step a ray goes on from. */
  lemma StepOn(l: Lattice, r: RayState)
    requires !RayStep(l, r).done
    ensures var o := Advance(l, r.cursor);
      var sideways := o.event.axes.x || o.event.axes.y;
      && !r.done && o.status == 1 && RayStep(l, r).cursor == o.cursor
      && RayStep(l, r).horizontal == r.horizontal + (if sideways then 1 else 0)
      && (sideways ==> RayStep(l, r).horizontal <= DIRECT_REACH)
      && !LeavesAny(l, o.event.faces)
  {
    hide Advance, CrossUpTo, Blocked, LeavesAny, EventObserved;
  }

  /** The upward face out of the cell a ray is in. */
  function UpFace(l: Lattice, c: CursorState): Face { FaceAt(l, c, NO_AXES, 2) }

  /** An upward event that does not leave crosses a face that is no sky. */
  lemma UpFaceStays(l: Lattice, c: CursorState, axes: Axes)
    requires axes.z && !LeavesAny(l, FacesUpTo(l, c, axes, 24)) && c.direction.z > 0
    ensures var f := UpFace(l, c);
      f.from.site != NULL ==> !l.sky(f)
  {
    hide FacesUpTo, Touched;
    var i := FaceFound(l, c, axes, 24, NO_AXES, 2);
    assert !Leaves(l, FacesUpTo(l, c, axes, 24)[i]);
  }

  /** What makes a closure cell's top keep a ray in: it is no claimed sky and not
   fully open. */
  ghost predicate Lidded(v: View, cell: Cell)
    requires v.Valid()
  {
    && cell.site != NULL && InMap(v, cell) && L.Value(v, cell) != 0
    && !C.Bit(L.Value(v, cell), C.SKY_EXIT) && !OpenUp(L.Value(v, cell))
  }

  /** Above the closure's top there is only sky, and out of its top only a lid
   keeps a ray from it. */
  lemma SkyAbove(v: View, site: Handle, x: int, y: int, z: int, normal: Vec)
    requires v.Valid() && OnLevel(v, site) && 0 <= z <= RAY_EVENTS && DepthOf(v, site) + z >= C.DEPTH_MAX
    ensures var from, to := Resolve(v, site, x, y, z), Resolve(v, site, x, y, z + 1);
      && OnMaps(v, Face(from, to, normal))
      && (!L.Sky(v, Face(from, to, normal)) ==> DepthOf(v, site) + z == C.DEPTH_MAX && Lidded(v, from))
  {
    hide C.AllTyped, Disjoint, SkyClear, Resolve, OnLevel, OpenUp, C.Bit, Located, L.Value, InMap;
    hide IsFragment, IsHandle, ValueAt;
    var from, to := Resolve(v, site, x, y, z), Resolve(v, site, x, y, z + 1);
    RaysResolve(v, site, x, y, z);
    RaysResolve(v, site, x, y, z + 1);
    HandleOf(v, site);
    Moved(v, site, 0, 0, 0, x, y, z);
    Moved(v, site, 0, 0, 0, x, y, z + 1);
    ResolvedValue(v, site, x, y, z);
    ResolvedValue(v, site, x, y, z + 1);
    ResolvedPlace(v, site, x, y, z + 1);
    AirValue(v, Located(v, site, x, y, z + 1));
    AirHandle(v, to.site, to.x, to.y);
    if DepthOf(v, site) + z > C.DEPTH_MAX {
      AirValue(v, Located(v, site, x, y, z));
    }
  }

  lemma HandleOf(v: View, site: Handle)
    requires OnLevel(v, site)
    ensures IsHandle(v, site)
  {}

  lemma AirValue(v: View, at: Vec)
    requires v.Valid() && at.z > C.DEPTH_MAX
    ensures ValueAt(v.fragments, at.z, at.x, at.y) == 0
  {
    OutsideWindow(v.fragments, v.width, v.height, at.z, at.x, at.y);
  }

  /** Only open air lies above the closure's depths. */
  lemma AirHandle(v: View, site: Handle, x: int, y: int)
    requires v.Valid() && IsHandle(v, site) && Located(v, site, x, y, 0).z > C.DEPTH_MAX
    ensures !IsFragment(v, site) && Located(v, site, 0, 0, 0).z > C.DEPTH_MAX
  {
    if IsFragment(v, site) {
      FragmentOnLevel(v, site);
    }
  }

  /** The next event of a climbing ray goes up out of the closure's top depth,
   through a lid. */
  ghost predicate CrossesLid(v: View, r: RayState)
    requires v.Valid()
  {
    var c := r.cursor;
    && !r.done && FirstAxes(c.direction, c.crossed).z
    && DepthOf(v, c.origin) + c.position.z == C.DEPTH_MAX
    && Lidded(v, Resolve(v, c.origin, c.position.x, c.position.y, c.position.z))
  }

  /** A ray that goes on after an upward event was not above the closure's top,
   and if it was at the top it passed a lid. */
  lemma UpwardsStays(v: View, site: Handle, d: Vec, r: RayState)
    requires v.Valid() && OnLevel(v, site) && d.z > 0 && Climbs(v, site, d, r)
    requires !r.done && !RayStep(SolverLattice(v), r).done && FirstAxes(d, r.cursor.crossed).z
    ensures DepthOf(v, site) + r.cursor.crossed.z <= C.DEPTH_MAX
    ensures DepthOf(v, site) + r.cursor.crossed.z == C.DEPTH_MAX ==> CrossesLid(v, r)
  {
    hide View.Valid, Resolve, OnLevel, DepthOf, Passed, Untied, Counts, FirstAxes, RayStep, L.Sky, OnMaps, Lidded;
    var l, c := SolverLattice(v), r.cursor;
    StepOn(l, r);
    LevelLow(v, site);
    UpFaceStays(l, c, FirstAxes(d, c.crossed));
    TouchesResolve(v, site, d, r, NO_AXES);
    if DepthOf(v, site) + c.position.z >= C.DEPTH_MAX {
      SkyAbove(v, site, c.position.x, c.position.y, c.position.z, UpFace(l, c).normal);
    }
  }

  /** A step keeps a ray climbing. */
  lemma StepClimbs(v: View, site: Handle, d: Vec, r: RayState)
    requires v.Valid() && OnLevel(v, site) && Compass(d) && Climbs(v, site, d, r)
    ensures Climbs(v, site, d, RayStep(SolverLattice(v), r))
  {
    hide View.Valid, OnLevel, DepthOf, Passed, Untied, FirstAxes, RayStep, SolverLattice, Resolve;
    hide ResolvedUpTo, CellsUpTo, FacesUpTo, Touched, UpBefore, SideBefore, Count;
    var l := SolverLattice(v);
    if !RayStep(l, r).done {
      StepOn(l, r);
      var h, k := r.horizontal, r.cursor.crossed.z;
      EventResolves(v, site, d, r, FirstAxes(d, r.cursor.crossed));
      NextAxes(d, h, k);
      PassedNext(d, h, k);
      if FirstAxes(d, r.cursor.crossed).z {
        UpwardsStays(v, site, d, r);
      }
      if r.cursor.events == h + k {
        UntiedNext(d, h, k);
      }
    }
  }

  /** Any number of steps do, and a ray that is above the closure's top has passed
   a lid. */
  lemma {:induction false} StaysClimbing(v: View, site: Handle, x: int, y: int, direction: nat, elevation: int, n: nat)
    requires v.Valid() && OnLevel(v, site) && Above(direction, elevation)
    ensures var r := ClosureRay(v, site, x, y, direction, elevation, n);
      && Climbs(v, site, Direction(direction, elevation), r)
      && (!r.done && DepthOf(v, site) + r.cursor.crossed.z > C.DEPTH_MAX ==>
            exists m: nat :: m < n && CrossesLid(v, ClosureRay(v, site, x, y, direction, elevation, m)))
  {
    hide View.Valid, OnLevel, DepthOf, RayStep, RayInit, SolverLattice, Climbs, CrossesLid, Direction;
    InitClimbs(v, site, x, y, direction, elevation);
    DirectionCompass(direction, elevation);
    LevelLow(v, site);
    if n > 0 {
      var d := Direction(direction, elevation);
      var was := ClosureRay(v, site, x, y, direction, elevation, n - 1);
      StaysClimbing(v, site, x, y, direction, elevation, n - 1);
      StepClimbs(v, site, d, was);
      if !RayStep(SolverLattice(v), was).done {
        LidPassed(v, site, d, was);
      }
    }
  }

  lemma LidPassed(v: View, site: Handle, d: Vec, r: RayState)
    requires v.Valid() && OnLevel(v, site) && Compass(d) && Climbs(v, site, d, r)
    requires !RayStep(SolverLattice(v), r).done
    ensures !r.done
    ensures DepthOf(v, site) + RayStep(SolverLattice(v), r).cursor.crossed.z > C.DEPTH_MAX ==>
      DepthOf(v, site) + r.cursor.crossed.z > C.DEPTH_MAX || CrossesLid(v, r)
  {
    hide View.Valid, OnLevel, DepthOf, RayStep, SolverLattice, CrossesLid, Passed, Untied, Counts, FirstAxes;
    hide CellsUpTo, FacesUpTo, ResolvedUpTo, Touched;
    StepOn(SolverLattice(v), r);
    if FirstAxes(d, r.cursor.crossed).z {
      UpwardsStays(v, site, d, r);
    }
  }

  /** At every step of its way everything a ray's next event touches resolves: the
   event is valid, and no face of it leads nowhere. */
  lemma EventsResolve(v: View, site: Handle, x: int, y: int, direction: nat, elevation: int, n: nat)
    requires v.Valid() && OnLevel(v, site)
    ensures var l := SolverLattice(v);
      var r := ClosureRay(v, site, x, y, direction, elevation, n);
      var o := Advance(l, r.cursor);
      !r.done && o.status == 1 ==>
        o.event.valid && forall i :: 0 <= i < |o.event.faces| ==> !Unresolved(o.event.faces[i])
  {
    hide View.Valid, OnLevel, SolverLattice, RayInit, RayStep, Climbs, Direction, Touched, FacesUpTo, CellsUpTo;
    var l := SolverLattice(v);
    var r := ClosureRay(v, site, x, y, direction, elevation, n);
    EndedStays(v, site, x, y, direction, elevation, n);
    if !r.done {
      var d := Direction(direction, elevation);
      DirectionCompass(direction, elevation);
      StaysClimbing(v, site, x, y, direction, elevation, n);
      AnyResolves(v, site, d, r);
    }
  }

  /** A ray that begins below the horizon has ended. */
  lemma {:induction false} EndedStays(v: View, site: Handle, x: int, y: int, direction: nat, elevation: int, n: nat)
    requires v.Valid() && OnLevel(v, site)
    ensures !ClosureRay(v, site, x, y, direction, elevation, n).done ==> Above(direction, elevation)
  {
    hide View.Valid, OnLevel, SolverLattice, Direction;
    if n > 0 {
      EndedStays(v, site, x, y, direction, elevation, n - 1);
      hide RayInit, Advance, Record;
    }
  }

  lemma AnyResolves(v: View, site: Handle, d: Vec, r: RayState)
    requires v.Valid() && OnLevel(v, site) && Compass(d) && Climbs(v, site, d, r) && !r.done
    ensures var o := Advance(SolverLattice(v), r.cursor);
      o.status == 1 ==>
        o.event.valid && forall i :: 0 <= i < |o.event.faces| ==> !Unresolved(o.event.faces[i])
  {
    hide View.Valid, OnLevel, SolverLattice, Climbs, Touched, FacesUpTo, CellsUpTo, ResolvedUpTo, FirstAxes;
    var l := SolverLattice(v);
    var o := Advance(l, r.cursor);
    forall axes: Axes
      ensures ResolvedUpTo(l, r.cursor, axes, 8)
    {
      EventResolves(v, site, d, r, axes);
    }
    if o.status == 1 {
      forall i | 0 <= i < |o.event.faces|
        ensures !Unresolved(o.event.faces[i])
      {
        var mask, axis := FaceListed(l, r.cursor, o.event.axes, 24, i);
        TouchesResolve(v, site, d, r, mask);
        TouchesResolve(v, site, d, r, mask.With(axis));
      }
    }
  }

  // ---- the event bound -----------------------------------------------------

  /** A ray that the event bound is about to end. */
  ghost predicate MeetsBound(v: View, site: Handle, x: int, y: int, direction: nat, elevation: int, n: nat) {
    && v.Valid() && OnLevel(v, site)
    && var r := ClosureRay(v, site, x, y, direction, elevation, n);
       !r.done && r.cursor.events == RAY_EVENTS
  }

  /** Only a ray from the lowest depth meets the bound, after its whole reach
   sideways and every level up, never two at once, and out of the top through a
   lid. */
  lemma BoundMet(v: View, site: Handle, x: int, y: int, direction: nat, elevation: int, n: nat)
    requires MeetsBound(v, site, x, y, direction, elevation, n)
    ensures var r := ClosureRay(v, site, x, y, direction, elevation, n);
      && DepthOf(v, site) == 0 - C.DEPTH_MAX && r.horizontal == DIRECT_REACH && r.cursor.crossed.z == 13
      && Above(direction, elevation) && Skims(Direction(direction, elevation))
      && exists m: nat :: m < n && CrossesLid(v, ClosureRay(v, site, x, y, direction, elevation, m))
  {
    hide View.Valid, OnLevel, ClosureRay, Direction, DepthOf, Passed, Untied, Counts, CrossesLid;
    LevelLow(v, site);
    EndedStays(v, site, x, y, direction, elevation, n);
    StaysClimbing(v, site, x, y, direction, elevation, n);
  }

  /** A cursor with room for one event more. */
  function Longer(c: CursorState): CursorState { c.(limit := c.limit + 1) }

  /** Whether the bound costs a ray the sky: it would have left for it with its
   next crossing, upwards and within its reach. */
  ghost predicate LosesSky(v: View, site: Handle, x: int, y: int, direction: nat, elevation: int, n: nat) {
    && MeetsBound(v, site, x, y, direction, elevation, n)
    && var l := SolverLattice(v);
       var o := Advance(l, Longer(ClosureRay(v, site, x, y, direction, elevation, n).cursor));
       && o.status == 1 && !o.event.axes.x && !o.event.axes.y
       && LeavesAny(l, o.event.faces) && !Blocked(l, o.event.faces, true)
  }

  /** What the bound cuts off: the sky where the slope goes up next, and otherwise a
   crossing that is out of reach anyway. */
  lemma PastBound(v: View, site: Handle, x: int, y: int, direction: nat, elevation: int, n: nat)
    requires MeetsBound(v, site, x, y, direction, elevation, n)
    ensures Above(direction, elevation)
    ensures LosesSky(v, site, x, y, direction, elevation, n)
       <==> UpBefore(Direction(direction, elevation), DIRECT_REACH, 13)
    ensures !LosesSky(v, site, x, y, direction, elevation, n) ==>
      var o := Advance(SolverLattice(v), Longer(ClosureRay(v, site, x, y, direction, elevation, n).cursor));
      o.status == 1 && (o.event.axes.x || o.event.axes.y)
  {
    hide View.Valid, OnLevel, ClosureRay, Direction, DepthOf, Passed, Untied, UpBefore, SideBefore, SolverLattice;
    hide CellsUpTo, FacesUpTo, ResolvedUpTo, FirstAxes, Touched, LeavesAny, Blocked;
    BoundMet(v, site, x, y, direction, elevation, n);
    var l, d := SolverLattice(v), Direction(direction, elevation);
    var r := ClosureRay(v, site, x, y, direction, elevation, n);
    StaysClimbing(v, site, x, y, direction, elevation, n);
    DirectionCompass(direction, elevation);
    NextAxes(d, DIRECT_REACH, 13);
    if UpBefore(d, DIRECT_REACH, 13) {
      OnlySky(v, site, d, r, FirstAxes(d, r.cursor.crossed));
    }
  }

  lemma OnlySky(v: View, site: Handle, d: Vec, r: RayState, axes: Axes)
    requires v.Valid() && OnLevel(v, site) && Compass(d) && Climbs(v, site, d, r) && !r.done
    requires DepthOf(v, site) + r.cursor.crossed.z > C.DEPTH_MAX && axes == Axes(false, false, true)
    ensures var l, c := SolverLattice(v), Longer(r.cursor);
      LeavesAny(l, FacesUpTo(l, c, axes, 24)) && !Blocked(l, FacesUpTo(l, c, axes, 24), true)
  {
    hide View.Valid, OnLevel, DepthOf, Passed, Untied, Counts, FacesUpTo, Resolve, L.Sky, OnMaps;
    var l, c := SolverLattice(v), Longer(r.cursor);
    LevelLow(v, site);
    SkyAbove(v, site, c.position.x, c.position.y, c.position.z, UpFace(l, c).normal);
    TouchesResolve(v, site, d, r, NO_AXES);
    assert Leaves(l, UpFace(l, c));
    var j := FaceFound(l, c, axes, 24, NO_AXES, 2);
    var faces := FacesUpTo(l, c, axes, 24);
    forall i | 0 <= i < |faces|
      ensures !Blocks(l, faces[i], true)
    {
      var mask, axis := FaceListed(l, c, axes, 24, i);
    }
  }
}
