/**
 The exact integer grid traversal of celestial_solver.c: a cursor that crosses
 cell boundaries in the order a straight line from a cell's centre meets them,
 with every axis of a tie crossed in one event.

 Axis a of direction d is next crossed at time (2 * crossed[a] + 1) / (2 * |d[a]|),
 so times are compared by cross-multiplication.
 */
module Traversal {
  import opened Lattices
  import opened Arithmetic

  const MAX_EVENTS: nat := 12288
  const COORDINATE_MAX: int := 0x100_0000
  const LEVELS: int := 13
  const REACH_MAX: int := 4096

  function Abs(n: int): nat { if n < 0 then -n else n }

  /** The unit step along a nonzero direction, as the C code picks it. */
  function Unit(n: int): int { if n > 0 then 1 else -1 }

  /** Which axes an event crosses. */
  datatype Axes = Axes(x: bool, y: bool, z: bool) {
    predicate Has(axis: nat)
      requires axis < 3
    {
      if axis == 0 then x else if axis == 1 then y else z
    }

    function With(axis: nat): (r: Axes)
      requires axis < 3
      ensures forall a: nat :: a < 3 ==> (r.Has(a) <==> a == axis || Has(a))
    {
      if axis == 0 then Axes(true, y, z) else if axis == 1 then Axes(x, true, z) else Axes(x, y, true)
    }

    predicate Within(other: Axes) {
      (x ==> other.x) && (y ==> other.y) && (z ==> other.z)
    }
  }

  const NO_AXES := Axes(false, false, false)

  function AxesOf(mask: nat): Axes
    requires mask < 8
  {
    Axes(mask % 2 == 1, mask / 2 % 2 == 1, mask / 4 == 1)
  }

  datatype Event = Event(cells: seq<Cell>, faces: seq<Face>, destination: Cell, axes: Axes, valid: bool, terminal: bool)

  const NO_EVENT := Event([], [], Cell(NULL, 0, 0, 0), NO_AXES, false, false)

  /** The contents of a celestial_solver_cursor_t. */
  datatype CursorState = CursorState(origin: Handle, position: Vec, direction: Vec, endpoint: Vec,
                                     crossed: Vec, events: nat, limit: nat, segment: bool, failed: bool)

  const FAILED := CursorState(NULL, ZERO, ZERO, ZERO, ZERO, 0, 0, false, true)

  // ---- what an event must be ---------------------------------------------

  /** Axis a is crossed no later than axis b. */
  predicate NotAfter(d: Vec, c: Vec, a: nat, b: nat)
    requires a < 3 && b < 3
  {
    (2 * c.At(a) + 1) * Abs(d.At(b)) <= (2 * c.At(b) + 1) * Abs(d.At(a))
  }

  /** Axis a is among the first axes to be crossed next. */
  predicate IsFirst(d: Vec, c: Vec, a: nat)
    requires a < 3
  {
    d.At(a) != 0 && forall b: nat :: b < 3 && d.At(b) != 0 ==> NotAfter(d, c, a, b)
  }

  /** Every axis of the earliest pending crossing time. */
  function FirstAxes(d: Vec, c: Vec): Axes {
    Axes(IsFirst(d, c, 0), IsFirst(d, c, 1), IsFirst(d, c, 2))
  }

  /** A position after stepping along some axes of a direction. */
  function Step(p: Vec, d: Vec, axes: Axes): Vec {
    Vec(p.x + if axes.x then Unit(d.x) else 0,
        p.y + if axes.y then Unit(d.y) else 0,
        p.z + if axes.z then Unit(d.z) else 0)
  }

  function Count(c: Vec, axes: Axes): Vec {
    Vec(c.x + if axes.x then 1 else 0, c.y + if axes.y then 1 else 0, c.z + if axes.z then 1 else 0)
  }

  function Touched(l: Lattice, c: CursorState, mask: Axes): Cell {
    var p := Step(c.position, c.direction, mask);
    l.resolve(c.origin, p.x, p.y, p.z)
  }

  /** Cells touched by the first n masks of a tie, the start excluded. */
  function CellsUpTo(l: Lattice, c: CursorState, axes: Axes, n: nat): (cells: seq<Cell>)
    requires n <= 8
    ensures |cells| <= if n == 0 then 0 else n - 1
  {
    if n == 0 then []
    else
      var cells := CellsUpTo(l, c, axes, n - 1);
      if n - 1 != 0 && AxesOf(n - 1).Within(axes) then cells + [Touched(l, c, AxesOf(n - 1))] else cells
  }

  /** Whether every cell touched by the first n masks resolved. */
  predicate ResolvedUpTo(l: Lattice, c: CursorState, axes: Axes, n: nat)
    requires n <= 8
  {
    forall m: nat :: m < n && AxesOf(m).Within(axes) ==> Touched(l, c, AxesOf(m)).site != NULL
  }

  predicate IsFace(axes: Axes, mask: Axes, axis: nat)
    requires axis < 3
  {
    mask.Within(axes) && axes.Has(axis) && !mask.Has(axis)
  }

  function FaceAt(l: Lattice, c: CursorState, mask: Axes, axis: nat): Face
    requires axis < 3
  {
    Face(Touched(l, c, mask), Touched(l, c, mask.With(axis)), ZERO.Put(axis, Unit(c.direction.At(axis))))
  }

  /** The faces of a tie: mask by mask, axis by axis, n of the 24 pairs. */
  function FacesUpTo(l: Lattice, c: CursorState, axes: Axes, n: nat): seq<Face>
    requires n <= 24
  {
    if n == 0 then []
    else
      var faces := FacesUpTo(l, c, axes, n - 1);
      var mask, axis := AxesOf((n - 1) / 3), (n - 1) % 3;
      if IsFace(axes, mask, axis) then faces + [FaceAt(l, c, mask, axis)] else faces
  }

  /** Faces among the first n mask and axis pairs of a three-way tie. */
  function FaceBound(n: nat): nat
    requires n <= 24
  {
    if n == 0 then 0
    else FaceBound(n - 1) + if AxesOf((n - 1) / 3).Has((n - 1) % 3) then 0 else 1
  }

  lemma {:induction false} FacesBounded(l: Lattice, c: CursorState, axes: Axes, n: nat)
    requires n <= 24
    ensures |FacesUpTo(l, c, axes, n)| <= FaceBound(n)
    decreases n
  {
    hide FaceAt;
    if n > 0 {
      FacesBounded(l, c, axes, n - 1);
    }
  }

  /** Every tie fits an event's 7 cells and 12 faces. */
  lemma EventFits(l: Lattice, c: CursorState)
    ensures |EventOf(l, c).cells| <= 7 && |EventOf(l, c).faces| <= 12
  {
    FacesBounded(l, c, FirstAxes(c.direction, c.crossed), 24);
    TwelveFaces();
    hide FacesUpTo, CellsUpTo, ResolvedUpTo, FirstAxes, FaceBound;
  }

  lemma TwelveFaces()
    ensures FaceBound(24) == 12
  {
    assert FaceBound(3) == 3;
    assert FaceBound(6) == 5;
    assert FaceBound(9) == 7;
    assert FaceBound(12) == 8;
    assert FaceBound(15) == 10;
    assert FaceBound(18) == 11;
    assert FaceBound(21) == 12;
  }

  predicate AtEnd(c: CursorState) {
    c.segment && c.position == c.endpoint
  }

  /** The cursor after crossing the given axes. */
  function Crossed(c: CursorState, axes: Axes, valid: bool): CursorState {
    c.(position := Step(c.position, c.direction, axes), crossed := Count(c.crossed, axes),
       events := c.events + 1, failed := !valid)
  }

  function EventOf(l: Lattice, c: CursorState): Event {
    var axes := FirstAxes(c.direction, c.crossed);
    var valid := ResolvedUpTo(l, c, axes, 8);
    Event(CellsUpTo(l, c, axes, 8), FacesUpTo(l, c, axes, 24), Touched(l, c, axes), axes, valid,
          AtEnd(Crossed(c, axes, valid)))
  }

  datatype Outcome = Outcome(status: int, cursor: CursorState, event: Event)

  /** celestial_solver_next() as a function of the cursor. */
  function Advance(l: Lattice, c: CursorState): Outcome {
    if c.failed then Outcome(-1, c, NO_EVENT)
    else if AtEnd(c) then Outcome(0, c, NO_EVENT)
    else if c.events == c.limit then Outcome(-1, c.(failed := true), NO_EVENT)
    else
      var event := EventOf(l, c);
      Outcome(1, Crossed(c, event.axes, event.valid), event)
  }

  /** Every event of a cursor until celestial_solver_next() stops returning 1. */
  datatype Walk = Walk(events: seq<Event>, status: int, cursor: CursorState)

  function Drain(l: Lattice, c: CursorState): Walk
    requires c.events <= c.limit
    decreases c.limit - c.events
  {
    var o := Advance(l, c);
    if o.status != 1 then Walk([], o.status, o.cursor)
    else
      var rest := Drain(l, o.cursor);
      Walk([o.event] + rest.events, rest.status, rest.cursor)
  }

  // ---- initialisation ------------------------------------------------------

  predicate Between(lo: int, n: int, hi: int) { lo <= n <= hi }

  /** celestial_solver_direction_init() */
  function DirectionInit(l: Lattice, origin: Handle, x: int, y: int, d: Vec, maxEvents: nat): (c: CursorState)
    ensures c.crossed == ZERO && c.events == 0
    ensures c.failed || (c.limit == maxEvents && 1 <= maxEvents <= MAX_EVENTS && c.direction == d && d != ZERO)
  {
    if maxEvents == 0 || maxEvents > MAX_EVENTS
       || !Between(-65536, d.x, 65536) || !Between(-65536, d.y, 65536) || !Between(-65536, d.z, 65536)
       || !Between(-COORDINATE_MAX, x, COORDINATE_MAX) || !Between(-COORDINATE_MAX, y, COORDINATE_MAX)
       || d == ZERO || l.resolve(origin, x, y, 0).site == NULL
    then FAILED
    else CursorState(origin, Vec(x, y, 0), d, ZERO, ZERO, 0, maxEvents, false, false)
  }

  /** Displacements a segment accepts. */
  predicate InReach(d: Vec) {
    Between(-REACH_MAX, d.x, REACH_MAX) && Between(-REACH_MAX, d.y, REACH_MAX) && -LEVELS < d.z < LEVELS
  }

  /** celestial_solver_segment_init() */
  function SegmentInit(l: Lattice, origin: Handle, x: int, y: int, d: Vec): CursorState {
    if !InReach(d) then FAILED
    else
      var c := DirectionInit(l, origin, x, y, if d == ZERO then Vec(1, 0, 0) else d, MAX_EVENTS);
      if c.failed then c else c.(segment := true, endpoint := Vec(x + d.x, y + d.y, d.z))
  }

  // ---- ranges --------------------------------------------------------------

  /** A vector none of whose components is past a bound. */
  predicate Inside(v: Vec, bound: nat) { Abs(v.x) <= bound && Abs(v.y) <= bound && Abs(v.z) <= bound }

  /** What keeps a cursor's arithmetic in range: it has moved no further than one
   cell, and crossed each axis no more than once, an event. */
  ghost predicate Contained(c: CursorState) {
    && c.events <= c.limit <= MAX_EVENTS
    && Inside(c.direction, 65536) && Inside(c.position, COORDINATE_MAX + c.events)
    && Inside(c.endpoint, COORDINATE_MAX + REACH_MAX)
    && NonNegative(c.crossed) && Inside(c.crossed, c.events)
  }

  /** Every position and every cell resolved for the next event fits an int far
   from its ends, and so do the products that compare crossing times. */
  ghost predicate InRange(c: CursorState) {
    && Inside(c.position, COORDINATE_MAX + MAX_EVENTS) && Inside(c.endpoint, COORDINATE_MAX + MAX_EVENTS)
    && (c.events < c.limit ==>
          forall axes: Axes :: Inside(Step(c.position, c.direction, axes), COORDINATE_MAX + MAX_EVENTS))
    && forall a: nat, b: nat :: a < 3 && b < 3 ==> (2 * c.crossed.At(a) + 1) * Abs(c.direction.At(b)) < 0x8000_0000
  }

  /** Every state of a cursor until celestial_solver_next() stops returning 1. */
  ghost function States(l: Lattice, c: CursorState): (s: seq<CursorState>)
    requires c.events <= c.limit
    decreases c.limit - c.events
  {
    var o := Advance(l, c);
    if o.status != 1 then [c, o.cursor] else [c] + States(l, o.cursor)
  }

  lemma ContainedInRange(c: CursorState)
    requires Contained(c)
    ensures InRange(c)
  {
    forall a: nat, b: nat | a < 3 && b < 3
      ensures (2 * c.crossed.At(a) + 1) * Abs(c.direction.At(b)) < 0x8000_0000
    {
      ProductBound(2 * c.crossed.At(a) + 1, Abs(c.direction.At(b)));
    }
  }

  lemma ProductBound(a: nat, b: nat)
    requires a <= 2 * MAX_EVENTS + 1 && b <= 65536
    ensures a * b < 0x8000_0000
  {
    MulLe(a, 2 * MAX_EVENTS + 1, b);
  }

  /** Crossing some axes moves by one cell and counts by one. */
  lemma CrossedInside(p: Vec, d: Vec, c: Vec, axes: Axes, moved: nat, events: nat)
    requires Inside(p, moved) && NonNegative(c) && Inside(c, events)
    ensures Inside(Step(p, d, axes), moved + 1)
    ensures NonNegative(Count(c, axes)) && Inside(Count(c, axes), events + 1)
  {}

  lemma AdvanceContained(l: Lattice, c: CursorState)
    requires Contained(c)
    ensures Contained(Advance(l, c).cursor)
  {
    hide EventOf, Step, Count, Inside, NonNegative;
    CrossedInside(c.position, c.direction, c.crossed, EventOf(l, c).axes, COORDINATE_MAX + c.events, c.events);
  }

  lemma {:induction false} StatesInRange(l: Lattice, c: CursorState)
    requires Contained(c)
    ensures forall i :: 0 <= i < |States(l, c)| ==> InRange(States(l, c)[i])
    decreases c.limit - c.events
  {
    hide InRange;
    ContainedInRange(c);
    AdvanceContained(l, c);
    var o := Advance(l, c);
    ContainedInRange(o.cursor);
    hide Contained;
    if o.status == 1 {
      EventCounted(l, c);
      StatesInRange(l, o.cursor);
    }
  }

  lemma EventCounted(l: Lattice, c: CursorState)
    requires c.events <= c.limit && Advance(l, c).status == 1
    ensures var o := Advance(l, c).cursor; o.limit == c.limit && c.events < o.events <= o.limit
  {
    hide EventOf;
  }

  /** Bounded origins leave every step and endpoint of every cursor in range,
   whatever the lattice answers and however many events there are. */
  lemma CursorsInRange(l: Lattice, origin: Handle, x: int, y: int, d: Vec, maxEvents: nat)
    ensures var c := DirectionInit(l, origin, x, y, d, maxEvents);
      c.events <= c.limit && forall i :: 0 <= i < |States(l, c)| ==> InRange(States(l, c)[i])
    ensures var c := SegmentInit(l, origin, x, y, d);
      c.events <= c.limit && forall i :: 0 <= i < |States(l, c)| ==> InRange(States(l, c)[i])
  {
    hide InRange;
    StatesInRange(l, DirectionInit(l, origin, x, y, d, maxEvents));
    StatesInRange(l, SegmentInit(l, origin, x, y, d));
  }

  // ---- the cursor ----------------------------------------------------------

  lemma CrossMultiply(a: nat, b: nat, c: nat, d: nat, e: nat, f: nat)
    requires b > 0 && d > 0 && f > 0
    requires a * d <= c * b && c * f <= e * d
    ensures a * f <= e * b
    ensures a * d < c * b || c * f < e * d ==> a * f < e * b
  {
    SwapFactors(a, d, f);
    SwapFactors(c, b, f);
    SwapFactors(e, d, b);
    MulLe(a * d, c * b, f);
    MulLe(c * f, e * d, b);
    CancelLe(a * f, e * b, d);
    if a * d < c * b {
      MulLess(a * d, c * b, f);
      CancelLess(a * f, e * b, d);
    } else if c * f < e * d {
      MulLess(c * f, e * d, b);
      CancelLess(a * f, e * b, d);
    }
  }

  predicate NonNegative(c: Vec) { c.x >= 0 && c.y >= 0 && c.z >= 0 }

  lemma NotAfterTransitive(d: Vec, c: Vec, a: nat, b: nat, e: nat)
    requires a < 3 && b < 3 && e < 3 && NonNegative(c)
    requires d.At(a) != 0 && d.At(b) != 0 && d.At(e) != 0
    requires NotAfter(d, c, a, b) && NotAfter(d, c, b, e)
    ensures NotAfter(d, c, a, e)
  {
    CrossMultiply(2 * c.At(a) + 1, Abs(d.At(a)), 2 * c.At(b) + 1, Abs(d.At(b)), 2 * c.At(e) + 1, Abs(d.At(e)));
  }

  lemma NotAfterTotal(d: Vec, c: Vec, a: nat, b: nat)
    requires a < 3 && b < 3
    ensures NotAfter(d, c, a, b) || NotAfter(d, c, b, a)
  {}

  /** Axis a is among the first of the axes below n. */
  predicate FirstBelow(d: Vec, c: Vec, a: nat, n: nat)
    requires a < 3 && n <= 3
  {
    a < n && d.At(a) != 0 && forall b: nat :: b < n && d.At(b) != 0 ==> NotAfter(d, c, a, b)
  }

  /** One more axis joins, replaces or leaves alone the earliest ones. */
  lemma FirstExtends(d: Vec, c: Vec, first: nat, axis: nat, n: nat)
    requires NonNegative(c) && axis < 3 && d.At(axis) != 0 && n == axis + 1
    requires first < axis && FirstBelow(d, c, first, axis)
    ensures FirstBelow(d, c, axis, n) <==> NotAfter(d, c, axis, first)
    ensures forall a: nat :: a < axis ==>
      (FirstBelow(d, c, a, n) <==> FirstBelow(d, c, a, axis) && NotAfter(d, c, first, axis))
    ensures NotAfter(d, c, first, axis) || NotAfter(d, c, axis, first)
  {
    hide NotAfter;
    forall b: nat | b < axis && d.At(b) != 0 && NotAfter(d, c, axis, first)
      ensures NotAfter(d, c, axis, b)
    {
      NotAfterTransitive(d, c, axis, first, b);
    }
    NotAfterTotal(d, c, axis, axis);
    NotAfterTotal(d, c, axis, first);
    forall a: nat | a < axis && d.At(a) != 0
      ensures NotAfter(d, c, a, first) && NotAfter(d, c, first, axis) ==> NotAfter(d, c, a, axis)
      ensures NotAfter(d, c, a, axis) ==> NotAfter(d, c, first, axis)
    {
      if NotAfter(d, c, a, first) && NotAfter(d, c, first, axis) {
        NotAfterTransitive(d, c, a, first, axis);
      }
      if NotAfter(d, c, a, axis) {
        NotAfterTransitive(d, c, first, a, axis);
      }
    }
  }

  /** The axis loop of celestial_solver_next(). */
  method FirstCrossing(d: Vec, c: Vec) returns (axes: Axes)
    requires NonNegative(c)
    ensures axes == FirstAxes(d, c)
  {
    hide NotAfter;
    var first := -1;
    axes := NO_AXES;
    for axis := 0 to 3
      invariant -1 <= first < axis
      invariant first < 0 ==> forall a: nat :: a < axis ==> d.At(a) == 0
      invariant first >= 0 ==> FirstBelow(d, c, first, axis)
      invariant forall a: nat :: a < 3 ==> (axes.Has(a) <==> a < axis && FirstBelow(d, c, a, axis))
    {
      if d.At(axis) == 0 {
        continue;
      }
      if first < 0 {
        NotAfterTotal(d, c, axis, axis);
        first, axes := axis, NO_AXES.With(axis);
        continue;
      }
      hide FirstBelow;
      FirstExtends(d, c, first, axis, axis + 1);
      var left := (2 * c.At(axis) + 1) * Abs(d.At(first));
      var right := (2 * c.At(first) + 1) * Abs(d.At(axis));
      CompareTimes(d, c, axis, first);
      if left < right {
        first, axes := axis, NO_AXES.With(axis);
      } else if left == right {
        axes := axes.With(axis);
      }
    }
    assert axes.Has(0) == IsFirst(d, c, 0) && axes.Has(1) == IsFirst(d, c, 1) && axes.Has(2) == IsFirst(d, c, 2);
  }

  lemma CompareTimes(d: Vec, c: Vec, a: nat, b: nat)
    requires a < 3 && b < 3
    ensures var left, right := (2 * c.At(a) + 1) * Abs(d.At(b)), (2 * c.At(b) + 1) * Abs(d.At(a));
      && (NotAfter(d, c, a, b) <==> left <= right)
      && (NotAfter(d, c, b, a) <==> right <= left)
  {}

  lemma CellsStart(l: Lattice, c: CursorState, axes: Axes)
    ensures CellsUpTo(l, c, axes, 0) == []
  {}

  lemma CellsStep(l: Lattice, c: CursorState, axes: Axes, mask: nat)
    requires mask < 8
    ensures CellsUpTo(l, c, axes, mask + 1)
         == CellsUpTo(l, c, axes, mask)
            + if mask != 0 && AxesOf(mask).Within(axes) then [Touched(l, c, AxesOf(mask))] else []
    ensures var p := Step(c.position, c.direction, AxesOf(mask));
      Touched(l, c, AxesOf(mask)) == l.resolve(c.origin, p.x, p.y, p.z)
  {}

  lemma ResolvedStep(l: Lattice, c: CursorState, axes: Axes, mask: nat)
    requires mask < 8
    ensures ResolvedUpTo(l, c, axes, mask + 1)
       <==> ResolvedUpTo(l, c, axes, mask) && (AxesOf(mask).Within(axes) ==> Touched(l, c, AxesOf(mask)).site != NULL)
    ensures ResolvedUpTo(l, c, axes, 0)
  {
    hide AxesOf, Touched;
  }

  /** What a cursor that is neither failed, at its end nor at its limit meets. */
  lemma AdvanceEvent(l: Lattice, c: CursorState)
    requires !c.failed && !AtEnd(c) && c.events != c.limit
    ensures var axes := FirstAxes(c.direction, c.crossed);
      var valid := ResolvedUpTo(l, c, axes, 8);
      var met := Crossed(c, axes, valid);
      Advance(l, c) == Outcome(1, met, Event(CellsUpTo(l, c, axes, 8), FacesUpTo(l, c, axes, 24), Touched(l, c, axes),
                                              axes, valid, AtEnd(met)))
  {
    hide CellsUpTo, FacesUpTo, ResolvedUpTo, FirstAxes, Touched, Crossed, AtEnd;
  }

  lemma FacesStart(l: Lattice, c: CursorState, axes: Axes)
    ensures FacesUpTo(l, c, axes, 0) == []
  {}

  lemma FacesStep(l: Lattice, c: CursorState, axes: Axes, mask: nat, axis: nat)
    requires mask < 8 && axis < 3
    ensures FacesUpTo(l, c, axes, 3 * mask + axis + 1)
         == FacesUpTo(l, c, axes, 3 * mask + axis)
            + if IsFace(axes, AxesOf(mask), axis) then [FaceAt(l, c, AxesOf(mask), axis)] else []
  {
    assert (3 * mask + axis) / 3 == mask && (3 * mask + axis) % 3 == axis;
  }

  class Cursor {
    var origin: Handle
    var position: Vec
    var direction: Vec
    var endpoint: Vec
    var crossed: Vec
    var events: nat
    var limit: nat
    var segment: bool
    var failed: bool

    ghost function State(): CursorState
      reads this
    {
      CursorState(origin, position, direction, endpoint, crossed, events, limit, segment, failed)
    }

    constructor (s: CursorState)
      ensures State() == s
    {
      origin, position, direction, endpoint := s.origin, s.position, s.direction, s.endpoint;
      crossed, events, limit, segment, failed := s.crossed, s.events, s.limit, s.segment, s.failed;
    }

    /** Resolve every cell a tie touches. */
    method TouchCells(l: Lattice, axes: Axes) returns (cells: array<Cell>, touched: seq<Cell>, valid: bool)
      ensures fresh(cells) && cells.Length == 8
      ensures forall m: nat :: m < 8 && AxesOf(m).Within(axes) ==> cells[m] == Touched(l, State(), AxesOf(m))
      ensures touched == CellsUpTo(l, State(), axes, 8)
      ensures valid == ResolvedUpTo(l, State(), axes, 8)
    {
      hide CellsUpTo, ResolvedUpTo, Touched, AxesOf, Step;
      cells, touched, valid := new Cell[8], [], true;
      CellsStart(l, State(), axes);
      ResolvedStep(l, State(), axes, 0);
      for mask: nat := 0 to 8
        invariant forall m: nat :: m < mask && AxesOf(m).Within(axes) ==> cells[m] == Touched(l, State(), AxesOf(m))
        invariant touched == CellsUpTo(l, State(), axes, mask)
        invariant valid == ResolvedUpTo(l, State(), axes, mask)
      {
        CellsStep(l, State(), axes, mask);
        ResolvedStep(l, State(), axes, mask);
        if AxesOf(mask).Within(axes) {
          var point := Step(position, direction, AxesOf(mask));
          cells[mask] := l.resolve(origin, point.x, point.y, point.z);
          if cells[mask].site == NULL {
            valid := false;
          }
          if mask != 0 {
            touched := touched + [cells[mask]];
          }
        }
      }
    }

    /** List every face a tie crosses. */
    method CrossFaces(l: Lattice, axes: Axes, cells: array<Cell>) returns (faces: seq<Face>)
      requires cells.Length == 8
      requires forall m: nat :: m < 8 && AxesOf(m).Within(axes) ==> cells[m] == Touched(l, State(), AxesOf(m))
      ensures faces == FacesUpTo(l, State(), axes, 24)
    {
      hide FacesUpTo, Touched;
      faces := [];
      FacesStart(l, State(), axes);
      for mask: nat := 0 to 8
        invariant faces == FacesUpTo(l, State(), axes, 3 * mask)
      {
        for axis: nat := 0 to 3
          invariant faces == FacesUpTo(l, State(), axes, 3 * mask + axis)
        {
          FacesStep(l, State(), axes, mask, axis);
          if AxesOf(mask).Within(axes) && axes.Has(axis) && !AxesOf(mask).Has(axis) {
            MaskWith(mask, axis);
            faces := faces + [Face(cells[mask], cells[mask + Bit(axis)], ZERO.Put(axis, Unit(direction.At(axis))))];
          }
        }
      }
    }

    /** The event of a cursor that has one left to meet. */
    method Meet(l: Lattice) returns (event: Event)
      requires NonNegative(crossed) && !failed && !AtEnd(State()) && events != limit
      modifies this
      ensures Outcome(1, State(), event) == Advance(l, old(State())) && NonNegative(crossed)
    {
      AdvanceEvent(l, State());
      hide Advance, EventOf, CellsUpTo, FacesUpTo, ResolvedUpTo, FirstAxes, Touched, AxesOf, Step;
      var axes := FirstCrossing(direction, crossed);
      var cells, touched, valid := TouchCells(l, axes);
      var faces := CrossFaces(l, axes, cells);
      MaskOf(axes);
      var destination := cells[Mask(axes)];
      position, crossed := Step(position, direction, axes), Count(crossed, axes);
      events := events + 1;
      var terminal := segment && position == endpoint;
      failed := !valid;
      event := Event(touched, faces, destination, axes, valid, terminal);
    }

    /** celestial_solver_next() */
    method Next(l: Lattice) returns (status: int, event: Event)
      requires NonNegative(crossed)
      modifies this
      ensures Outcome(status, State(), event) == Advance(l, old(State()))
      ensures NonNegative(crossed)
    {
      hide EventOf;
      if failed {
        return -1, NO_EVENT;
      }
      if segment && position == endpoint {
        return 0, NO_EVENT;
      }
      if events == limit {
        failed := true;
        return -1, NO_EVENT;
      }
      status := 1;
      event := Meet(l);
    }
  }

  function Bit(axis: nat): nat
    requires axis < 3
  {
    if axis == 0 then 1 else if axis == 1 then 2 else 4
  }

  function Mask(axes: Axes): (mask: nat)
    ensures mask < 8
  {
    (if axes.x then 1 else 0) + (if axes.y then 2 else 0) + (if axes.z then 4 else 0)
  }

  lemma MaskOf(axes: Axes)
    ensures AxesOf(Mask(axes)) == axes
  {}

  lemma MaskWith(mask: nat, axis: nat)
    requires mask < 8 && axis < 3 && !AxesOf(mask).Has(axis)
    ensures mask + Bit(axis) < 8 && AxesOf(mask + Bit(axis)) == AxesOf(mask).With(axis)
  {}
}
