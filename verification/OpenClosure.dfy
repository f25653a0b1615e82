/**
 A closure that fills the event bound: every slope that can do so does it here,
 so the slopes that meet the bound in some closure are known exactly.
 */
module OpenClosure {
  import opened ClosureRoundTrip
  import opened ClosureIndex
  import opened Lattices
  import opened Traversal
  import opened SquareRoot
  import opened Rays
  import opened RaySlopes
  import opened Seams
  import opened ClosureSolve
  import opened ClosureRays
  import opened L = ClosureLattice
  import Azimuths

  /** A cell open all round, but for a floor above it that dims. */
  const CLEAR: nat := 0x2FD_83FF
  /** The middle of 65 cells is a ray's whole reach from either side. */
  const SIDE: nat := 65

  function Level(depth: int): C.Fragment {
    C.Fragment(depth, 0, 0, SIDE, SIDE, 0, seq(SIDE * SIDE, _ => CLEAR))
  }

  /** The same level at every depth. */
  function OpenView(): View { View(seq(13, (i: nat) => Level(i - C.DEPTH_MAX)), SIDE, SIDE) }

  lemma ClearBits()
    ensures C.ValueValid(CLEAR) && CLEAR < 0x1_0000_0000 && CLEAR != C.OUTSIDE_RECORD
    ensures !C.Bit(CLEAR, C.SKY_EXIT) && !OpenUp(CLEAR) && C.Bit(CLEAR, C.COVER_OPEN)
    ensures forall n: Vec :: C.Bit(CLEAR, ContinuityBit(n))
    ensures forall f: nat :: f < 5 ==> ClassAt(CLEAR, Pow4(f)) == 3
    ensures ClassAt(CLEAR, OVERHEAD_WEIGHT) == 2
  {
    forall n: Vec
      ensures C.Bit(CLEAR, ContinuityBit(n))
    {}
    assert C.Bit(CLEAR, C.CONTINUOUS_UP);
    forall f: nat | f < 5
      ensures ClassAt(CLEAR, Pow4(f)) == 3
    {
      assert f == 0 || f == 1 || f == 2 || f == 3 || f == 4;
    }
  }

  lemma LevelValid(depth: int)
    requires C.DepthValid(depth)
    ensures FragmentValid(Level(depth), SIDE, SIDE)
  {
    ClearBits();
    hide C.ValueValid;
  }

  lemma LevelCell(depth: int, x: int, y: int)
    requires C.Typed(Level(depth)) && Covers(Level(depth), depth, x, y)
    ensures CellValue(Level(depth), x, y) == CLEAR
  {
    CellPlace(Level(depth), x, y);
  }

  lemma OpenLevels()
    ensures var fs := OpenView().fragments;
      && |fs| == 13 && (forall i :: 0 <= i < 13 ==> fs[i] == Level(i - C.DEPTH_MAX))
      && C.AllTyped(fs) && AllFragmentsValid(fs, SIDE, SIDE)
  {
    hide FragmentValid, C.Typed;
    var fs := OpenView().fragments;
    forall i | 0 <= i < |fs|
      ensures FragmentValid(fs[i], SIDE, SIDE) && C.Typed(fs[i])
    {
      LevelValid(i - C.DEPTH_MAX);
      ValidTyped([fs[i]], SIDE, SIDE);
      assert [fs[i]][0] == fs[i];
    }
  }

  lemma OpenViewValid()
    ensures OpenView().Valid()
  {
    hide FragmentValid, AllFragmentsValid, C.AllTyped, CellValue, ValueAt;
    OpenLevels();
    ClearBits();
    var fs := OpenView().fragments;
    forall i, x, y | 0 <= i < |fs| && Covers(fs[i], fs[i].depth, x, y)
      ensures C.Typed(fs[i]) && CellValue(fs[i], x, y) == CLEAR
    {
      TypedAt(fs, i);
      LevelCell(i - C.DEPTH_MAX, x, y);
    }
  }

  lemma TypedAt(fs: seq<C.Fragment>, i: nat)
    requires C.AllTyped(fs) && i < |fs|
    ensures C.Typed(fs[i])
  {}

  // ---- its cells -----------------------------------------------------------

  /** The middle of the lowest level. */
  const BOTTOM: Handle := 1
  const MIDDLE: int := 32

  predicate InStack(p: Vec) { 0 <= p.x < SIDE && 0 <= p.y < SIDE && 0 <= p.z <= 13 }

  function CellOfStack(p: Vec): Cell
  {
    OpenViewValid();
    Resolve(OpenView(), BOTTOM, p.x, p.y, p.z)
  }

  function StackLattice(): Lattice
  {
    OpenViewValid();
    SolverLattice(OpenView())
  }

  /** Its cells all lie on maps of one profile. */
  lemma OneSlot(c: Cell)
    requires OpenView().Valid() && InMap(OpenView(), c) && L.Value(OpenView(), c) != 0
    ensures IsFragment(OpenView(), c.site) && OpenView().fragments[c.site - 1].slot == 0
  {
    hide View.Valid, CellValue;
    OpenLevels();
  }

  lemma BottomLevel()
    ensures OpenView().Valid() && OnLevel(OpenView(), BOTTOM) && IsFragment(OpenView(), BOTTOM)
    ensures forall p: Vec :: Located(OpenView(), BOTTOM, p.x, p.y, p.z) == Vec(p.x, p.y, p.z - C.DEPTH_MAX)
  {
    hide View.Valid;
    OpenViewValid();
    FragmentOnLevel(OpenView(), BOTTOM);
    OpenLevels();
  }

  lemma StackCell(p: Vec)
    requires InStack(p)
    ensures OpenView().Valid()
    ensures var v, c := OpenView(), CellOfStack(p);
      && c.site != NULL && InMap(v, c) && L.Value(v, c) == (if p.z <= 12 then CLEAR else 0)
  {
    hide View.Valid, Level, L.Value, InMap, Located, OnLevel, CellValue, Resolve, IsFragment, IsHandle;
    BottomLevel();
    var v := OpenView();
    HandleOf(v, BOTTOM);
    RaysResolve(v, BOTTOM, p.x, p.y, p.z);
    ResolvedValue(v, BOTTOM, p.x, p.y, p.z);
    StackValue(p);
    ClearBits();
  }

  lemma StackValue(p: Vec)
    requires InStack(p)
    ensures OpenView().Valid()
    ensures ValueAt(OpenView().fragments, p.z - C.DEPTH_MAX, p.x, p.y) == if p.z <= 12 then CLEAR else 0
  {
    hide CellValue, FragmentValid, SkyClear;
    OpenViewValid();
    OpenLevels();
    var v := OpenView();
    if p.z <= 12 {
      TypedAt(v.fragments, p.z);
      ScanFinds(v.fragments, p.z - C.DEPTH_MAX, p.x, p.y, 0, p.z);
      LevelCell(p.z - C.DEPTH_MAX, p.x, p.y);
    } else {
      AirValue(v, Vec(p.x, p.y, p.z - C.DEPTH_MAX));
    }
  }

  /** A face between two cells of the stack, side by side or one on the other, is
   passable, no sky, and dims by 224 at most. */
  lemma StackFace(from: Vec, to: Vec, normal: Vec)
    requires InStack(from) && InStack(to)
    requires if normal.z == 0 then from.z == to.z && (normal.x != 0 || normal.y != 0)
             else normal.z > 0 && normal.x == 0 && normal.y == 0 && to.z == from.z + 1
    ensures var l, f := StackLattice(), Face(CellOfStack(from), CellOfStack(to), normal);
      && !Unresolved(f) && !Leaves(l, f) && l.continuous(f) && l.light(f.Reversed()).coefficient >= 224
  {
    hide View.Valid, Level, L.Value, InMap, Resolve, C.Bit, ContinuityBit, ClassAt, OpenUp;
    StackCell(from);
    StackCell(to);
    if from.z <= 12 {
      OneSlot(CellOfStack(from));
    }
    if to.z <= 12 {
      OneSlot(CellOfStack(to));
    }
    ClearBits();
  }

  // ---- its ray -------------------------------------------------------------

  /** A ray of the stack before its bound: it has not been held up anywhere. */
  ghost predicate Skimming(d: Vec, r: RayState) {
    var c := r.cursor;
    && !r.done && Sound(r) && c.origin == BOTTOM && c.direction == d && c.limit == RAY_EVENTS && !c.segment && !c.failed
    && 0 <= c.crossed.z <= 13 && c.position.z == c.crossed.z && c.crossed == Counts(d, r.horizontal, c.crossed.z)
    && r.horizontal <= DIRECT_REACH && c.events == r.horizontal + c.crossed.z
    && Passed(d, r.horizontal, c.crossed.z)
    && Abs(c.position.x - MIDDLE) <= r.horizontal && Abs(c.position.y - MIDDLE) <= r.horizontal
  }

  lemma SkimmingStarts(direction: nat, elevation: int)
    requires Above(direction, elevation)
    ensures Skimming(Direction(direction, elevation),
                     RayInit(StackLattice(), BOTTOM, MIDDLE, MIDDLE, direction, elevation))
  {
    hide Resolve, Direction, View.Valid;
    DirectionCompass(direction, elevation);
    DirectionSound(direction, elevation);
    InitSound(StackLattice(), BOTTOM, MIDDLE, MIDDLE, direction, elevation);
    StackCell(Vec(MIDDLE, MIDDLE, 0));
  }

  /** The axes of a skimming ray's next event: sideways or up. */
  lemma SkimmingAxes(d: Vec, r: RayState)
    requires Compass(d) && Skims(d) && Skimming(d, r) && r.cursor.events < RAY_EVENTS
    ensures var axes := FirstAxes(d, r.cursor.crossed);
      && ((axes.x || axes.y) <==> !axes.z)
      && (axes.z ==> r.cursor.crossed.z < 13) && (!axes.z ==> r.horizontal < DIRECT_REACH)
      && var c := Count(r.cursor.crossed, axes);
         && c == Counts(d, r.horizontal + (if axes.z then 0 else 1), r.cursor.crossed.z + if axes.z then 1 else 0)
         && Passed(d, r.horizontal + (if axes.z then 0 else 1), r.cursor.crossed.z + if axes.z then 1 else 0)
  {
    hide Untied, Sound, FirstAxes, Counts, Count, UpBefore, SideBefore;
    var h, k := r.horizontal, r.cursor.crossed.z;
    SkimsOn(d, h, k);
    NextAxes(d, h, k);
    PassedNext(d, h, k);
    NotBoth(d, h, k);
  }

  lemma NotBoth(d: Vec, h: nat, k: nat)
    ensures !(UpBefore(d, h, k) && SideBefore(d, h, k))
  {}

  /** Every cell of the next event lies in the stack. */
  lemma SkimmingCells(d: Vec, r: RayState, mask: Axes)
    requires Compass(d) && Skims(d) && Skimming(d, r) && r.cursor.events < RAY_EVENTS
    requires mask.Within(FirstAxes(d, r.cursor.crossed))
    ensures InStack(Step(r.cursor.position, d, mask))
    ensures Touched(StackLattice(), r.cursor, mask) == CellOfStack(Step(r.cursor.position, d, mask))
  {
    hide Resolve, View.Valid, Passed, Untied, Sound, Counts, FirstAxes;
    SkimmingAxes(d, r);
  }

  lemma SkimmingFace(d: Vec, r: RayState, mask: Axes, axis: nat)
    requires Compass(d) && Skims(d) && Skimming(d, r) && r.cursor.events < RAY_EVENTS
    requires axis < 3 && IsFace(FirstAxes(d, r.cursor.crossed), mask, axis)
    ensures var l, f := StackLattice(), FaceAt(StackLattice(), r.cursor, mask, axis);
      && !Unresolved(f) && !Leaves(l, f) && l.continuous(f) && l.light(f.Reversed()).coefficient >= 224
  {
    hide Touched, CellOfStack, StackLattice, Unresolved, Leaves, Skimming, Skims, FirstAxes, InStack;
    AxesBack(FirstAxes(d, r.cursor.crossed), mask, axis);
    SkimmingCells(d, r, mask);
    SkimmingCells(d, r, mask.With(axis));
    SkimmingDirection(d, r);
    StackFace(Step(r.cursor.position, d, mask), Step(r.cursor.position, d, mask.With(axis)),
              ZERO.Put(axis, Unit(d.At(axis))));
  }

  lemma SkimmingDirection(d: Vec, r: RayState)
    requires Skimming(d, r)
    ensures r.cursor.direction == d
  {}

  /** Nothing holds the ray up. */
  lemma SkimmingCrosses(d: Vec, r: RayState, faces: seq<Face>)
    requires Compass(d) && Skims(d) && Skimming(d, r) && r.cursor.events < RAY_EVENTS
    requires faces == FacesUpTo(StackLattice(), r.cursor, FirstAxes(d, r.cursor.crossed), 24)
    ensures var l := StackLattice();
      && !LeavesAny(l, faces) && !Blocked(l, faces, false) && CrossUpTo(l, faces, |faces|).coefficient > 0
  {
    hide StackLattice, Skimming, Skims, FirstAxes, FacesUpTo, FaceAt, Leaves, Unresolved, IsFace, CrossUpTo;
    var l := StackLattice();
    forall i | 0 <= i < |faces|
      ensures !Unresolved(faces[i]) && !Leaves(l, faces[i]) && l.continuous(faces[i])
      ensures CrossingAt(l, faces, i).coefficient >= 224
    {
      var mask, axis := FaceListed(l, r.cursor, FirstAxes(d, r.cursor.crossed), 24, i);
      SkimmingFace(d, r, mask, axis);
    }
    CrossWeakest(l, faces, |faces|, CrossUpTo(l, faces, |faces|));
  }

  lemma SkimmingResolves(d: Vec, r: RayState)
    requires Compass(d) && Skims(d) && Skimming(d, r) && r.cursor.events < RAY_EVENTS
    ensures ResolvedUpTo(StackLattice(), r.cursor, FirstAxes(d, r.cursor.crossed), 8)
  {
    hide Touched, CellOfStack, StackLattice, Skimming, Skims, FirstAxes;
    forall m: nat | m < 8 && AxesOf(m).Within(FirstAxes(d, r.cursor.crossed))
      ensures Touched(StackLattice(), r.cursor, AxesOf(m)).site != NULL
    {
      SkimmingCells(d, r, AxesOf(m));
      StackCell(Step(r.cursor.position, d, AxesOf(m)));
    }
  }

  /** A step that nothing holds up. */
  lemma FreeStep(l: Lattice, r: RayState)
    requires !r.done && Sound(r) && r.cursor.events < RAY_EVENTS && !r.cursor.failed && !AtEnd(r.cursor)
    requires var e := EventOf(l, r.cursor);
      && EventObserved(l, e) && !LeavesAny(l, e.faces) && !Blocked(l, e.faces, false)
      && CrossUpTo(l, e.faces, |e.faces|).coefficient > 0
      && (e.axes.x || e.axes.y ==> r.horizontal < DIRECT_REACH)
    ensures var e := EventOf(l, r.cursor);
      && !RayStep(l, r).done && RayStep(l, r).cursor == Crossed(r.cursor, e.axes, e.valid)
      && RayStep(l, r).horizontal == r.horizontal + if e.axes.x || e.axes.y then 1 else 0
  {
    hide EventOf, EventObserved, LeavesAny, Blocked, CrossUpTo, Crossed;
  }

  lemma SkimmingStep(d: Vec, r: RayState)
    requires Compass(d) && Skims(d) && Skimming(d, r) && r.cursor.events < RAY_EVENTS
    ensures Skimming(d, RayStep(StackLattice(), r))
    ensures RayStep(StackLattice(), r).cursor.events == r.cursor.events + 1
  {
    hide StackLattice, Skims, FirstAxes, FacesUpTo, CellsUpTo, ResolvedUpTo, Touched, Sound, RayStep;
    hide LeavesAny, Blocked, CrossUpTo, Passed, Count;
    var l := StackLattice();
    SkimmingAxes(d, r);
    SkimmingCrosses(d, r, EventOf(l, r.cursor).faces);
    SkimmingResolves(d, r);
    Watched(EventOf(l, r.cursor));
    FreeStep(l, r);
    StepSound(l, r);
  }

  lemma Watched(e: Event)
    ensures EventObserved(StackLattice(), e)
  {}

  lemma {:induction false} SkimmingOn(direction: nat, elevation: int, n: nat)
    requires Above(direction, elevation) && Skims(Direction(direction, elevation)) && n <= RAY_EVENTS
    ensures OpenView().Valid()
    ensures var r := ClosureRay(OpenView(), BOTTOM, MIDDLE, MIDDLE, direction, elevation, n);
      Skimming(Direction(direction, elevation), r) && r.cursor.events == n
  {
    hide SolverLattice, RayInit, RayStep, Skimming, Skims, Direction, View.Valid;
    OpenViewValid();
    SkimmingCount(direction, elevation);
    if n > 0 {
      SkimmingOn(direction, elevation, n - 1);
      DirectionCompass(direction, elevation);
      SkimmingStep(Direction(direction, elevation),
                   ClosureRay(OpenView(), BOTTOM, MIDDLE, MIDDLE, direction, elevation, n - 1));
    }
  }

  lemma SkimmingCount(direction: nat, elevation: int)
    requires Above(direction, elevation)
    ensures var r := RayInit(StackLattice(), BOTTOM, MIDDLE, MIDDLE, direction, elevation);
      Skimming(Direction(direction, elevation), r) && r.cursor.events == 0
  {
    hide Direction, Skimming, StackLattice;
    SkimmingStarts(direction, elevation);
    Started(direction, elevation);
  }

  lemma Started(direction: nat, elevation: int)
    requires Above(direction, elevation)
    ensures RayInit(StackLattice(), BOTTOM, MIDDLE, MIDDLE, direction, elevation).cursor.events == 0
  {
    hide Direction, StackLattice;
  }

  // ---- exactly these slopes ------------------------------------------------

  /** A ray of some built closure meets the event bound exactly where the slope
   skims. */
  lemma BoundMetExactly(direction: nat, elevation: int)
    ensures (exists v: View, site: Handle, x: int, y: int, n: nat :: MeetsBound(v, site, x, y, direction, elevation, n))
       <==> Above(direction, elevation) && Skims(Direction(direction, elevation))
  {
    hide MeetsBound, Skims, Direction;
    forall v: View, site: Handle, x: int, y: int, n: nat | MeetsBound(v, site, x, y, direction, elevation, n)
      ensures Above(direction, elevation) && Skims(Direction(direction, elevation))
    {
      BoundMet(v, site, x, y, direction, elevation, n);
    }
    if Above(direction, elevation) && Skims(Direction(direction, elevation)) {
      StackMeets(direction, elevation);
    }
  }

  lemma StackMeets(direction: nat, elevation: int)
    requires Above(direction, elevation) && Skims(Direction(direction, elevation))
    ensures MeetsBound(OpenView(), BOTTOM, MIDDLE, MIDDLE, direction, elevation, RAY_EVENTS)
  {
    hide View.Valid, OnLevel, ClosureRay, Skims, Direction;
    OpenViewValid();
    BottomLevel();
    SkimmingOn(direction, elevation, RAY_EVENTS);
  }

  /** And the bound costs one of them the sky exactly where, having skimmed, it
   goes up next. */
  lemma SkyLostExactly(direction: nat, elevation: int)
    ensures (exists v: View, site: Handle, x: int, y: int, n: nat :: LosesSky(v, site, x, y, direction, elevation, n))
       <==> Above(direction, elevation) && Skims(Direction(direction, elevation))
            && UpBefore(Direction(direction, elevation), DIRECT_REACH, 13)
  {
    hide MeetsBound, LosesSky, Skims, Direction, UpBefore;
    forall v: View, site: Handle, x: int, y: int, n: nat | LosesSky(v, site, x, y, direction, elevation, n)
      ensures Above(direction, elevation) && Skims(Direction(direction, elevation))
      ensures UpBefore(Direction(direction, elevation), DIRECT_REACH, 13)
    {
      LostMeets(v, site, x, y, direction, elevation, n);
      BoundMet(v, site, x, y, direction, elevation, n);
      PastBound(v, site, x, y, direction, elevation, n);
    }
    if Above(direction, elevation) && Skims(Direction(direction, elevation)) {
      StackMeets(direction, elevation);
      PastBound(OpenView(), BOTTOM, MIDDLE, MIDDLE, direction, elevation, RAY_EVENTS);
    }
  }

  lemma LostMeets(v: View, site: Handle, x: int, y: int, direction: nat, elevation: int, n: nat)
    requires LosesSky(v, site, x, y, direction, elevation, n)
    ensures MeetsBound(v, site, x, y, direction, elevation, n)
  {
    hide MeetsBound;
  }

  // ---- one of them ---------------------------------------------------------

  const LOW_SUN: int := 12689

  lemma EastDirection()
    ensures Above(Azimuths.EAST, LOW_SUN) && Direction(Azimuths.EAST, LOW_SUN) == Vec(30211, 0, LOW_SUN)
  {
    assert IsRoot(HorizontalSquared(Azimuths.EAST, LOW_SUN), 30211);
    RootUnique(HorizontalSquared(Azimuths.EAST, LOW_SUN), 30211, Root(HorizontalSquared(Azimuths.EAST, LOW_SUN)));
  }

  lemma EastUntied(a: nat, b: nat)
    requires a < 32 && b < 13
    ensures (2 * a + 1) * 12689 != (2 * b + 1) * 30211
  {
    assert b == 0 || b == 1 || b == 2 || b == 3 || b == 4 || b == 5 || b == 6
        || b == 7 || b == 8 || b == 9 || b == 10 || b == 11 || b == 12;
  }

  lemma EastSkims()
    ensures Skims(Vec(30211, 0, LOW_SUN)) && UpBefore(Vec(30211, 0, LOW_SUN), DIRECT_REACH, 13)
  {
    var d := Vec(30211, 0, LOW_SUN);
    assert Sideways(d) == 30211;
    forall a: nat, b: nat | a < DIRECT_REACH && b < 13
      ensures (2 * a + 1) * d.z != (2 * b + 1) * Sideways(d)
    {
      EastUntied(a, b);
    }
    hide Sideways;
  }

  /** A light in the east at 12689 of 32768: from the bottom of the stack its ray is
   ended by the bound with only the sky above it. */
  lemma EastLosesSky()
    ensures LosesSky(OpenView(), BOTTOM, MIDDLE, MIDDLE, Azimuths.EAST, LOW_SUN, RAY_EVENTS)
  {
    hide LosesSky, MeetsBound, Direction, View.Valid, Skims, UpBefore;
    EastDirection();
    EastSkims();
    StackMeets(Azimuths.EAST, LOW_SUN);
    PastBound(OpenView(), BOTTOM, MIDDLE, MIDDLE, Azimuths.EAST, LOW_SUN, RAY_EVENTS);
  }
}
