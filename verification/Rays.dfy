/**
 Backtraces of celestial_solver.c: a ray climbs from the cell that would be lit
 to where the light comes from and keeps the coefficient of each crossing, until
 it leaves for the sky, is blocked, or runs out of reach.
 */
module Rays {
  import opened Arithmetic
  import opened FixedPoint
  import opened Lattices
  import opened Traversal
  import opened SquareRoot

  /** How many cells sideways a ray is followed. */
  const DIRECT_REACH: nat := 32
  /** Crossings one backtrace records: its reach plus every level. */
  const RAY_EVENTS: nat := 45
  /** The Q15 elevation of a source straight overhead. */
  const ZENITH: int := 32768

  const NORTH: nat := 1
  const NORTHWEST: nat := 8

  datatype RayState = RayState(cursor: CursorState, coefficients: seq<nat>, apertures: seq<bool>,
                               horizontal: nat, done: bool, sky: bool)

  const ENDED := RayState(CursorState(NULL, ZERO, ZERO, ZERO, ZERO, 0, 0, false, false), [], [], 0, true, false)

  // ---- initialisation ------------------------------------------------------

  /** direction_delta(): the way light of an azimuth falls. */
  function Delta(direction: nat): (int, int) {
    match direction
    case 1 => (0, 1)
    case 2 => (-1, 1)
    case 3 => (-1, 0)
    case 4 => (-1, -1)
    case 5 => (0, -1)
    case 6 => (1, -1)
    case 7 => (1, 0)
    case 8 => (1, 1)
    case _ => (0, 0)
  }

  predicate Above(direction: nat, elevation: int) {
    0 < elevation <= ZENITH && NORTH <= direction <= NORTHWEST
  }

  /** What is left for the horizontal components of a Q15 unit vector. */
  function HorizontalSquared(direction: nat, elevation: int): nat
    requires 0 < elevation <= ZENITH
  {
    MulSquare(elevation);
    var (dx, dy) := Delta(direction);
    (ZENITH * ZENITH - elevation * elevation) / if dx != 0 && dy != 0 then 2 else 1
  }

  lemma MulSquare(elevation: int)
    requires 0 < elevation <= ZENITH
    ensures 0 < elevation * elevation <= ZENITH * ZENITH
  {
    SquareMonotone(elevation, ZENITH);
    SquareMonotone(1, elevation);
  }

  /** The direction a ray walks: against the light. */
  ghost function Direction(direction: nat, elevation: int): Vec
    requires 0 < elevation <= ZENITH
  {
    var (dx, dy) := Delta(direction);
    var horizontal := Root(HorizontalSquared(direction, elevation));
    Vec(-dx * horizontal, -dy * horizontal, elevation)
  }

  lemma HorizontalFits(direction: nat, elevation: int)
    requires 0 < elevation <= ZENITH
    ensures var h := Root(HorizontalSquared(direction, elevation));
      && h < 32768
      && (var (dx, dy) := Delta(direction);
          (if dx != 0 && dy != 0 then 2 else 1) * (h * h) + elevation * elevation <= ZENITH * ZENITH)
  {
    var squared := HorizontalSquared(direction, elevation);
    var h := Root(squared);
    MulSquare(elevation);
    if h >= 32768 {
      SquareMonotone(32768, h);
    }
  }

  lemma Squares(h: nat, n: int)
    requires n == h || n == 0 - h || n == 0
    ensures n * n <= h * h && (n == 0 ==> n * n == 0)
  {}

  /** Every direction is a nonzero vector, no longer than the Q15 unit and well
   inside the cursor's bound. */
  lemma DirectionSound(direction: nat, elevation: int)
    requires Above(direction, elevation)
    ensures var d := Direction(direction, elevation);
      && d != ZERO
      && -32768 < d.x < 32768 && -32768 < d.y < 32768 && 0 < d.z <= 32768
      && d.x * d.x + d.y * d.y + d.z * d.z <= ZENITH * ZENITH
  {
    HorizontalFits(direction, elevation);
    var h := Root(HorizontalSquared(direction, elevation));
    var d := Direction(direction, elevation);
    hide HorizontalSquared;
    Squares(h, d.x);
    Squares(h, d.y);
  }

  /** celestial_solver_ray_init() */
  ghost function RayInit(l: Lattice, site: Handle, x: int, y: int, direction: nat, elevation: int): RayState {
    if !Above(direction, elevation) then ENDED
    else if !Observed(l, site) then ENDED
    else
      var c := DirectionInit(l, site, x, y, Direction(direction, elevation), RAY_EVENTS);
      RayState(c, [], [], 0, c.failed, false)
  }

  // ---- one crossing --------------------------------------------------------

  /** A face through which the ray leaves for the sky. */
  predicate Leaves(l: Lattice, face: Face) {
    face.normal.z > 0 && face.from.site != NULL && l.sky(face)
  }

  predicate LeavesAny(l: Lattice, faces: seq<Face>) {
    exists i :: 0 <= i < |faces| && Leaves(l, faces[i])
  }

  predicate Unresolved(face: Face) { face.from.site == NULL || face.to.site == NULL }

  /** A face that stops the ray. */
  predicate Blocks(l: Lattice, face: Face, sky: bool) {
    !Leaves(l, face) && if Unresolved(face) then !sky else !l.continuous(face)
  }

  /** A face whose light the crossing transmits. */
  predicate Transmits(l: Lattice, face: Face) {
    !Leaves(l, face) && !Unresolved(face)
  }

  /** The crossing through the first n faces of an event: the weakest of their
   coefficients, with an aperture if any of them is one. */
  function CrossUpTo(l: Lattice, faces: seq<Face>, n: nat): (r: Crossing)
    requires n <= |faces|
    ensures r.coefficient <= SCALE
  {
    if n == 0 then Crossing(SCALE, false)
    else
      var r := CrossUpTo(l, faces, n - 1);
      if Transmits(l, faces[n - 1])
      then
        var light := l.light(faces[n - 1].Reversed());
        Crossing(Min(r.coefficient, light.coefficient), r.aperture || light.aperture)
      else r
  }

  predicate Blocked(l: Lattice, faces: seq<Face>, sky: bool) {
    exists i :: 0 <= i < |faces| && Blocks(l, faces[i], sky)
  }

  predicate EventObserved(l: Lattice, event: Event) {
    forall i :: 0 <= i < |event.faces| ==> Observed(l, event.faces[i].from.site) && Observed(l, event.faces[i].to.site)
  }

  /** celestial_solver_ray_step() as a function of the ray. */
  function RayStep(l: Lattice, r: RayState): RayState
  {
    if r.done then r
    else
      var o := Advance(l, r.cursor);
      var moved := r.(cursor := o.cursor);
      if o.status != 1 || !EventObserved(l, o.event) then moved.(done := true)
      else
        Record(l, Counted(moved, o.event), o.event)
  }

  /** Horizontal cells crossed, this event's included. */
  function Counted(r: RayState, event: Event): RayState {
    r.(horizontal := r.horizontal + if event.axes.x || event.axes.y then 1 else 0)
  }

  /** The part of a step after its event is accepted and counted. */
  function Record(l: Lattice, r: RayState, event: Event): RayState {
    var sky := LeavesAny(l, event.faces);
    var crossing := CrossUpTo(l, event.faces, |event.faces|);
    if (event.axes.x || event.axes.y) && r.horizontal > DIRECT_REACH then r.(done := true)
    else if Blocked(l, event.faces, sky) then r.(done := true)
    else if |r.coefficients| == RAY_EVENTS || crossing.coefficient == 0 then r.(done := true)
    else r.(coefficients := r.coefficients + [crossing.coefficient], apertures := r.apertures + [crossing.aperture],
            sky := r.sky || sky, done := sky)
  }

  /** What every step of a ray keeps: one crossing per event at most, each
   with a coefficient 1..256, and a sky only on an ended ray. */
  ghost predicate Sound(r: RayState) {
    && |r.apertures| == |r.coefficients|
    && (forall i :: 0 <= i < |r.coefficients| ==> 1 <= r.coefficients[i] <= SCALE)
    && (r.sky ==> r.done && r.coefficients != [])
    && (!r.done ==> r.cursor.limit == RAY_EVENTS && r.cursor.events <= r.cursor.limit
                    && |r.coefficients| == r.cursor.events)
    && |r.coefficients| <= RAY_EVENTS
    && NonNegative(r.cursor.crossed)
  }

  lemma InitSound(l: Lattice, site: Handle, x: int, y: int, direction: nat, elevation: int)
    ensures Sound(RayInit(l, site, x, y, direction, elevation))
  {
    hide Direction;
  }

  /** The light that crosses the i-th face towards the receiver. */
  function CrossingAt(l: Lattice, faces: seq<Face>, i: nat): Crossing
    requires i < |faces|
  {
    l.light(faces[i].Reversed())
  }

  /** What a crossing through the first n faces must be: their weakest light, or
   whole where nothing transmits, and an aperture just where one of them is. */
  ghost predicate IsCrossing(l: Lattice, faces: seq<Face>, n: nat, r: Crossing)
    requires n <= |faces|
  {
    && r.coefficient <= SCALE
    && (forall i: nat :: i < n && Transmits(l, faces[i]) ==> r.coefficient <= CrossingAt(l, faces, i).coefficient)
    && (r.coefficient == SCALE
        || exists i: nat :: i < n && Transmits(l, faces[i]) && r.coefficient == CrossingAt(l, faces, i).coefficient)
    && (r.aperture <==> exists i: nat :: i < n && Transmits(l, faces[i]) && CrossingAt(l, faces, i).aperture)
  }

  lemma WeakestUnique(l: Lattice, faces: seq<Face>, n: nat, r: Crossing, s: Crossing)
    requires n <= |faces| && IsCrossing(l, faces, n, r) && IsCrossing(l, faces, n, s)
    ensures r == s
  {
    hide Transmits, CrossingAt;
  }

  lemma CrossNext(l: Lattice, faces: seq<Face>, n: nat)
    requires n < |faces| && IsCrossing(l, faces, n, CrossUpTo(l, faces, n))
    ensures IsCrossing(l, faces, n + 1, CrossUpTo(l, faces, n + 1))
  {
    hide Transmits;
    var r, s := CrossUpTo(l, faces, n), CrossUpTo(l, faces, n + 1);
    assert CrossingAt(l, faces, n) == l.light(faces[n].Reversed());
    hide CrossingAt;
    if Transmits(l, faces[n]) {
      assert s == Crossing(Min(r.coefficient, CrossingAt(l, faces, n).coefficient),
                           r.aperture || CrossingAt(l, faces, n).aperture);
    }
  }

  /** The loop's crossing is that one, and no other is. */
  lemma {:induction false} CrossWeakest(l: Lattice, faces: seq<Face>, n: nat, r: Crossing)
    requires n <= |faces|
    ensures IsCrossing(l, faces, n, r) <==> r == CrossUpTo(l, faces, n)
    decreases n
  {
    hide Transmits, CrossingAt;
    if n > 0 {
      CrossWeakest(l, faces, n - 1, CrossUpTo(l, faces, n - 1));
      CrossNext(l, faces, n - 1);
    }
    if IsCrossing(l, faces, n, r) {
      WeakestUnique(l, faces, n, r, CrossUpTo(l, faces, n));
    }
  }

  /** The light that comes to a receiver through a face a ray has crossed: against
   the ray, out of the cell ahead. */
  function Incoming(l: Lattice, face: Face): Crossing {
    l.light(Face(face.to, face.from, Vec(-face.normal.x, -face.normal.y, -face.normal.z)))
  }

  /** Whether a ray may go on through an event: within its reach, and through every
   face into the sky, or between resolved cells that join, or past unresolved ones
   on the way into the sky. */
  ghost predicate GoesThrough(l: Lattice, r: RayState, e: Event) {
    && EventObserved(l, e)
    && (e.axes.x || e.axes.y ==> r.horizontal < DIRECT_REACH)
    && forall i :: 0 <= i < |e.faces| ==>
         var f := e.faces[i];
         Leaves(l, f) || (if Unresolved(f) then LeavesAny(l, e.faces) else l.continuous(f))
  }

  /** The weakest incoming light of an event's faces between resolved cells, but
   those into the sky, and whether one of them is an opening. */
  ghost predicate IsLight(l: Lattice, faces: seq<Face>, c: Crossing) {
    && c.coefficient <= SCALE
    && (forall i :: 0 <= i < |faces| && Transmits(l, faces[i]) ==> c.coefficient <= Incoming(l, faces[i]).coefficient)
    && (c.coefficient == SCALE
        || exists i :: 0 <= i < |faces| && Transmits(l, faces[i]) && c.coefficient == Incoming(l, faces[i]).coefficient)
    && (c.aperture <==> exists i :: 0 <= i < |faces| && Transmits(l, faces[i]) && Incoming(l, faces[i]).aperture)
  }

  /** What a step records: where the ray goes through its event and light comes back
   that way, that light, and whether it has reached the sky; anything else ends it. */
  lemma StepRecords(l: Lattice, r: RayState, c: Crossing)
    requires !r.done && |r.coefficients| < RAY_EVENTS && IsLight(l, Advance(l, r.cursor).event.faces, c)
    ensures var o, t := Advance(l, r.cursor), RayStep(l, r);
      && t.cursor == o.cursor
      && (if o.status == 1 && GoesThrough(l, r, o.event) && c.coefficient > 0 then
            && t.coefficients == r.coefficients + [c.coefficient] && t.apertures == r.apertures + [c.aperture]
            && t.done == LeavesAny(l, o.event.faces) && t.sky == (r.sky || t.done)
          else
            t.done && t.coefficients == r.coefficients && t.apertures == r.apertures && t.sky == r.sky)
  {
    hide Advance, EventObserved, LeavesAny, Leaves, CrossUpTo;
    var faces := Advance(l, r.cursor).event.faces;
    assert IsCrossing(l, faces, |faces|, c) by { LightIsCrossing(l, faces, c); }
    hide IsLight, IsCrossing;
    CrossWeakest(l, faces, |faces|, c);
  }

  lemma LightIsCrossing(l: Lattice, faces: seq<Face>, c: Crossing)
    requires IsLight(l, faces, c)
    ensures IsCrossing(l, faces, |faces|, c)
  {
    forall i: nat | i < |faces|
      ensures CrossingAt(l, faces, i) == Incoming(l, faces[i])
    {}
    hide CrossingAt, Incoming, Transmits;
  }

  /** One step keeps the ray sound; the crossing array never fills up first. */
  lemma StepSound(l: Lattice, r: RayState)
    requires Sound(r)
    ensures Sound(RayStep(l, r))
    ensures !r.done && !RayStep(l, r).done ==> RayStep(l, r).cursor.events == r.cursor.events + 1
    ensures !r.done && Advance(l, r.cursor).status == 1 ==> |r.coefficients| < RAY_EVENTS
  {
    hide EventOf, CrossUpTo, Blocked, LeavesAny, FirstAxes;
  }

  /** celestial_solver_ray_step() until the ray is done. */
  ghost function Trace(l: Lattice, r: RayState): (t: RayState)
    requires Sound(r)
    ensures Sound(t) && t.done
    decreases if r.done then 0 else 1 + RAY_EVENTS - r.cursor.events
  {
    if r.done then r
    else
      StepSound(l, r);
      Trace(l, RayStep(l, r))
  }

  /** Steps a ray takes until it is done. */
  ghost function Steps(l: Lattice, r: RayState): nat
    requires Sound(r)
    decreases if r.done then 0 else 1 + RAY_EVENTS - r.cursor.events
  {
    if r.done then 0
    else
      StepSound(l, r);
      1 + Steps(l, RayStep(l, r))
  }

  lemma {:induction false} StepsBounded(l: Lattice, r: RayState)
    requires Sound(r)
    ensures Steps(l, r) <= if r.done then 0 else 1 + RAY_EVENTS - r.cursor.events
    decreases if r.done then 0 else 1 + RAY_EVENTS - r.cursor.events
  {
    hide RayStep;
    if !r.done {
      StepSound(l, r);
      StepsBounded(l, RayStep(l, r));
    }
  }

  /** Every ray ends within 46 steps having recorded at most 45 crossings, each
   with a coefficient 1..256; its value lies between darkness and the source,
   and its aperture share is all of that value or none of it. */
  lemma RayBounded(l: Lattice, site: Handle, x: int, y: int, direction: nat, elevation: int, source: nat)
    ensures var r := RayInit(l, site, x, y, direction, elevation);
      && Sound(r) && Steps(l, r) <= 46
      && var t := Trace(l, r);
      && |t.coefficients| <= 45
      && (forall i :: 0 <= i < |t.coefficients| ==> 1 <= t.coefficients[i] <= 256)
      && 0 <= RayLight(t.coefficients, t.sky, source) <= source
      && (!t.sky ==> RayLight(t.coefficients, t.sky, source) == 0)
      && RayAperture(t.coefficients, t.apertures, t.sky, source)
         == if true in t.apertures then RayLight(t.coefficients, t.sky, source) else 0
  {
    InitSound(l, site, x, y, direction, elevation);
    var r := RayInit(l, site, x, y, direction, elevation);
    hide RayInit, Trace;
    StepsBounded(l, r);
    var t := Trace(l, r);
    if !t.sky {
      CarryZero(t.coefficients);
    }
  }

  // ---- the ray -------------------------------------------------------------

  class Ray {
    const cursor: Cursor
    const coefficients: array<nat>
    const apertures: array<bool>
    var count: nat
    var horizontal: nat
    var done: bool
    var sky: bool

    ghost predicate Valid()
      reads this, cursor, coefficients, apertures
    {
      coefficients.Length == RAY_EVENTS && apertures.Length == RAY_EVENTS && count <= RAY_EVENTS
      && NonNegative(cursor.crossed)
    }

    ghost function State(): RayState
      requires Valid()
      reads this, cursor, coefficients, apertures
    {
      RayState(cursor.State(), coefficients[..count], apertures[..count], horizontal, done, sky)
    }

    /** celestial_solver_ray_init() */
    constructor (l: Lattice, site: Handle, x: int, y: int, direction: nat, elevation: int)
      ensures Valid() && fresh(cursor) && fresh(coefficients) && fresh(apertures)
      ensures State() == RayInit(l, site, x, y, direction, elevation)
    {
      hide DirectionInit, Direction;
      var start, ended := ENDED.cursor, true;
      if Above(direction, elevation) && Observed(l, site) {
        var d := RayDirection(direction, elevation);
        start := DirectionInit(l, site, x, y, d, RAY_EVENTS);
        ended := start.failed;
      }
      cursor := new Cursor(start);
      coefficients := new nat[RAY_EVENTS];
      apertures := new bool[RAY_EVENTS];
      count, horizontal, done, sky := 0, 0, ended, false;
      new;
      assert coefficients[..count] == [] && apertures[..count] == [];
    }

    /** The zeroed, ended ray of a cell that cannot be reached. */
    constructor Ended()
      ensures Valid() && fresh(cursor) && fresh(coefficients) && fresh(apertures)
      ensures State() == ENDED
    {
      cursor := new Cursor(ENDED.cursor);
      coefficients := new nat[RAY_EVENTS];
      apertures := new bool[RAY_EVENTS];
      count, horizontal, done, sky := 0, 0, true, false;
      new;
      assert coefficients[..count] == [] && apertures[..count] == [];
    }

    /** celestial_solver_ray_step() */
    method Step(l: Lattice)
      requires Valid()
      modifies this, cursor, coefficients, apertures
      ensures Valid() && State() == RayStep(l, old(State()))
    {
      hide Advance, EventObserved, Record;
      if done {
        return;
      }
      var status, event := cursor.Next(l);
      if status != 1 {
        done := true;
        return;
      }
      var observed := EventIsObserved(l, event);
      if !observed {
        done := true;
        return;
      }
      CountAndCross(l, event);
    }

    /** The rest of the step, once its event is accepted. */
    method CountAndCross(l: Lattice, event: Event)
      requires Valid() && !done
      modifies this, coefficients, apertures
      ensures Valid() && State() == Record(l, Counted(old(State()), event), event)
    {
      hide CrossUpTo, Blocked, LeavesAny;
      if event.axes.x || event.axes.y {
        horizontal := horizontal + 1;
        if horizontal > DIRECT_REACH {
          done := true;
          return;
        }
      }
      var leaves := LeavesAnyOf(l, event.faces);
      var crossed, crossing := CrossAll(l, event.faces, leaves);
      if !crossed || count == RAY_EVENTS || crossing.coefficient == 0 {
        done := true;
        return;
      }
      Append(crossing);
      if leaves {
        sky, done := true, true;
      }
    }

    method Append(crossing: Crossing)
      requires Valid() && count < RAY_EVENTS
      modifies this`count, coefficients, apertures
      ensures Valid() && count == old(count) + 1
      ensures coefficients[..count] == old(coefficients[..count]) + [crossing.coefficient]
      ensures apertures[..count] == old(apertures[..count]) + [crossing.aperture]
    {
      coefficients[count] := crossing.coefficient;
      apertures[count] := crossing.aperture;
      count := count + 1;
    }
  }

  /** The direction computation of celestial_solver_ray_init(). */
  method RayDirection(direction: nat, elevation: int) returns (d: Vec)
    requires Above(direction, elevation)
    ensures d == Direction(direction, elevation)
  {
    var (dx, dy) := Delta(direction);
    MulSquare(elevation);
    var horizontal := Sqrt((ZENITH * ZENITH - elevation * elevation) / if dx != 0 && dy != 0 then 2 else 1);
    d := Vec(-dx * horizontal, -dy * horizontal, elevation);
  }

  /** observe_event() */
  method EventIsObserved(l: Lattice, event: Event) returns (ok: bool)
    ensures ok == EventObserved(l, event)
  {
    for i := 0 to |event.faces|
      invariant forall j :: 0 <= j < i ==> Observed(l, event.faces[j].from.site) && Observed(l, event.faces[j].to.site)
    {
      if !Observed(l, event.faces[i].from.site) || !Observed(l, event.faces[i].to.site) {
        return false;
      }
    }
    return true;
  }

  /** The first face loop, over the upward faces of resolved cells. */
  method LeavesAnyOf(l: Lattice, faces: seq<Face>) returns (sky: bool)
    ensures sky == LeavesAny(l, faces)
  {
    sky := false;
    for i := 0 to |faces|
      invariant sky == exists j :: 0 <= j < i && Leaves(l, faces[j])
    {
      if faces[i].normal.z > 0 && faces[i].from.site != NULL && l.sky(faces[i]) {
        assert Leaves(l, faces[i]);
        sky := true;
      }
    }
  }

  /** The second face loop: every face must let the ray through, and the
   weakest crossing counts. */
  method CrossAll(l: Lattice, faces: seq<Face>, sky: bool) returns (ok: bool, crossing: Crossing)
    ensures ok <==> !Blocked(l, faces, sky)
    ensures ok ==> crossing == CrossUpTo(l, faces, |faces|)
  {
    crossing := Crossing(SCALE, false);
    for i := 0 to |faces|
      invariant forall j :: 0 <= j < i ==> !Blocks(l, faces[j], sky)
      invariant crossing == CrossUpTo(l, faces, i)
    {
      if Leaves(l, faces[i]) {
        continue;
      }
      if faces[i].from.site == NULL || faces[i].to.site == NULL {
        if sky {
          continue;
        }
        return false, crossing;
      }
      if !l.continuous(faces[i]) {
        return false, crossing;
      }
      var light := l.light(faces[i].Reversed());
      crossing := Crossing(Min(crossing.coefficient, light.coefficient), crossing.aperture || light.aperture);
    }
    return true, crossing;
  }
}
