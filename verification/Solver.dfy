/**
 One map's celestial field as celestial_solver.c defines it: rays from every
 cell of a scratch grid that extends the map by a halo, diffuse relaxation of
 three of the fields, and the publication of the map's own cells.
 */
module Solver {
  import opened Arithmetic
  import opened FixedPoint
  import opened Relaxation
  import opened Lattices
  import opened Traversal
  import opened Rays

  const DIMENSION_MAX: int := 255

  datatype Rgb = Rgb(red: int, green: int, blue: int)

  /** The light of an hour at its sources. */
  datatype Model = Model(direct: int, diffuse: int, moon: int, starlight: int,
                         solarColor: Rgb, moonColor: Rgb, starlightColor: Rgb, solarBrightness: int,
                         solarElevation: int, moonElevation: int, solarDirection: nat, moonDirection: nat)

  /** What one solve is given; the dimensions are its snapshot of the map's. */
  datatype Problem = Problem(lattice: Lattice, site: Handle, model: Model, mapWidth: nat, mapHeight: nat) {
    function Width(): nat { mapWidth + 2 * PASSES }

    function Height(): nat { mapHeight + 2 * PASSES }
  }

  predicate ValidDimensions(l: Lattice, site: Handle) {
    var (w, h) := l.dimensions(site);
    1 <= w <= DIMENSION_MAX && 1 <= h <= DIMENSION_MAX
  }

  // ---- the halo ------------------------------------------------------------

  const NOWHERE := Cell(NULL, 0, 0, 0)

  predicate InCoordinates(x: int, y: int) {
    -COORDINATE_MAX <= x <= COORDINATE_MAX && -COORDINATE_MAX <= y <= COORDINATE_MAX
  }

  predicate AllContinuous(l: Lattice, faces: seq<Face>) {
    forall i :: 0 <= i < |faces| ==> l.continuous(faces[i])
  }

  /** An event the halo may be reached across. */
  predicate Passable(l: Lattice, event: Event) {
    EventObserved(l, event) && event.valid && AllContinuous(l, event.faces)
  }

  /** Whether a cursor reaches its end across passable events only. */
  predicate Reaches(l: Lattice, c: CursorState)
    requires c.events <= c.limit
    decreases c.limit - c.events
  {
    var o := Advance(l, c);
    if o.status == 1 then Passable(l, o.event) && Reaches(l, o.cursor) else o.status == 0
  }

  predicate AllPassable(l: Lattice, events: seq<Event>) {
    forall i :: 0 <= i < |events| ==> Passable(l, events[i])
  }

  lemma AllPassableCons(l: Lattice, e: Event, rest: seq<Event>)
    ensures AllPassable(l, [e] + rest) <==> Passable(l, e) && AllPassable(l, rest)
  {
    var w := [e] + rest;
    assert w[0] == e && forall i :: 0 <= i < |rest| ==> rest[i] == w[i + 1];
    if AllPassable(l, w) {
      assert Passable(l, w[0]);
      forall i | 0 <= i < |rest|
        ensures Passable(l, rest[i])
      {
        assert Passable(l, w[i + 1]);
      }
    }
  }

  /** Reaching the end is about the whole walk, not one step at a time. */
  lemma {:induction false} ReachesMeansWalk(l: Lattice, c: CursorState)
    requires c.events <= c.limit
    ensures Reaches(l, c)
       <==> Drain(l, c).status == 0 && AllPassable(l, Drain(l, c).events)
    decreases c.limit - c.events
  {
    hide EventOf, Passable;
    var o := Advance(l, c);
    if o.status == 1 {
      ReachesMeansWalk(l, o.cursor);
      AllPassableCons(l, o.event, Drain(l, o.cursor).events);
    }
  }

  function Clamp(n: int, size: nat): int { Max(0, Min(n, size - 1)) }

  /** halo_cell(): the cell at scratch coordinates, or NOWHERE. */
  function HaloCell(p: Problem, x: int, y: int): Cell {
    var l := p.lattice;
    if !InCoordinates(x, y) || !Observed(l, p.site) then NOWHERE
    else
      var mx, my := x - PASSES, y - PASSES;
      var sx, sy := Clamp(mx, p.mapWidth), Clamp(my, p.mapHeight);
      if (sx != mx || sy != my) && !HaloReached(l, p.site, sx, sy, mx - sx, my - sy) then NOWHERE
      else
        var cell := l.resolve(p.site, mx, my, 0);
        if cell.site != NULL && Observed(l, cell.site) then cell else NOWHERE
  }

  predicate HaloReached(l: Lattice, site: Handle, x: int, y: int, dx: int, dy: int) {
    var c := SegmentInit(l, site, x, y, Vec(dx, dy, 0));
    !c.failed && Reaches(l, c)
  }

  function Distance(a: int, b: int): nat { Abs(a - b) }

  /** The place of a row or column of cells that is nearest to another. */
  predicate Nearest(size: nat, n: int, s: int) {
    0 <= s < size && forall k :: 0 <= k < size ==> Distance(n, s) <= Distance(n, k)
  }

  /** A walk along a segment that meets only passable events and ends. */
  predicate Walkable(l: Lattice, origin: Handle, x: int, y: int, d: Vec) {
    var c := SegmentInit(l, origin, x, y, d);
    !c.failed && c.events <= c.limit && Drain(l, c).status == 0 && AllPassable(l, Drain(l, c).events)
  }

  /** A scratch cell is the map's cell of its place, beyond the map's edge only
   where the walk there from the nearest map cell is passable. */
  lemma HaloIsWalked(p: Problem, x: int, y: int, sx: int, sy: int)
    requires Nearest(p.mapWidth, x - PASSES, sx) && Nearest(p.mapHeight, y - PASSES, sy)
    ensures var l, mx, my := p.lattice, x - PASSES, y - PASSES;
      var cell := l.resolve(p.site, mx, my, 0);
      HaloCell(p, x, y)
      == if InCoordinates(x, y) && Observed(l, p.site) && cell.site != NULL && Observed(l, cell.site)
            && ((mx == sx && my == sy) || Walkable(l, p.site, sx, sy, Vec(mx - sx, my - sy, 0)))
         then cell else NOWHERE
  {
    hide Drain, Reaches, SegmentInit, AllPassable;
    var l, mx, my := p.lattice, x - PASSES, y - PASSES;
    NearestIsClamp(p.mapWidth, mx, sx);
    NearestIsClamp(p.mapHeight, my, sy);
    SegmentFresh(l, p.site, sx, sy, Vec(mx - sx, my - sy, 0));
    ReachesMeansWalk(l, SegmentInit(l, p.site, sx, sy, Vec(mx - sx, my - sy, 0)));
    hide Observed;
  }

  lemma NearestIsClamp(size: nat, n: int, s: int)
    requires Nearest(size, n, s)
    ensures s == Clamp(n, size)
  {
    assert Distance(n, s) <= Distance(n, Clamp(n, size));
  }

  lemma SegmentFresh(l: Lattice, origin: Handle, x: int, y: int, d: Vec)
    ensures var c := SegmentInit(l, origin, x, y, d); c.events <= c.limit && NonNegative(c.crossed)
  {}

  ghost function HaloRay(p: Problem, x: int, y: int, direction: nat, elevation: int): RayState {
    var cell := HaloCell(p, x, y);
    if cell.site == NULL then ENDED else RayInit(p.lattice, cell.site, cell.x, cell.y, direction, elevation)
  }

  /** The traced backtrace of one scratch cell. */
  ghost function TraceHalo(p: Problem, x: int, y: int, direction: nat, elevation: int): (t: RayState)
    ensures Sound(t) && t.done
  {
    var cell := HaloCell(p, x, y);
    InitSound(p.lattice, cell.site, cell.x, cell.y, direction, elevation);
    Trace(p.lattice, HaloRay(p, x, y, direction, elevation))
  }

  // ---- spill ---------------------------------------------------------------

  /** The weakest light through the first n faces. */
  function Weakest(l: Lattice, faces: seq<Face>, n: nat): (r: nat)
    requires n <= |faces|
    ensures r <= SCALE
  {
    if n == 0 then SCALE else Min(Weakest(l, faces, n - 1), l.light(faces[n - 1]).coefficient)
  }

  /** The coefficient of stepping from a resolved cell by (dx, dy). */
  function StepCoefficient(l: Lattice, cell: Cell, dx: int, dy: int): (r: nat)
    ensures r <= SCALE
  {
    var c := SegmentInit(l, cell.site, cell.x, cell.y, Vec(dx, dy, 0));
    var o := Advance(l, c);
    if c.failed || o.status != 1 || !Passable(l, o.event) then 0
    else Weakest(l, o.event.faces, |o.event.faces|)
  }

  /** spill_coefficient(): of light spilling into (x, y) from (x + dx, y + dy). */
  function SpillCoefficient(p: Problem, x: int, y: int, dx: int, dy: int): (r: nat)
    ensures r <= SCALE
  {
    if !(-1 <= dx <= 1) || !(-1 <= dy <= 1) || (dx == 0 && dy == 0) || !InCoordinates(x, y) then 0
    else
      var cell := HaloCell(p, x + dx, y + dy);
      if cell.site == NULL then 0 else StepCoefficient(p.lattice, cell, -dx, -dy)
  }

  function SpillOf(p: Problem): SpillFn {
    (x, y, dx, dy) => SpillCoefficient(p, x, y, dx, dy)
  }

  // ---- the fields ----------------------------------------------------------

  datatype Source = Sky | Sun | Moon

  function SourceDirection(m: Model, s: Source): nat {
    match s case Sky => NORTH case Sun => m.solarDirection case Moon => m.moonDirection
  }

  function SourceElevation(m: Model, s: Source): int {
    match s case Sky => ZENITH case Sun => m.solarElevation case Moon => m.moonElevation
  }

  ghost function Backtrace(p: Problem, s: Source, x: int, y: int): (t: RayState)
    ensures Sound(t)
  {
    TraceHalo(p, x, y, SourceDirection(p.model, s), SourceElevation(p.model, s))
  }

  ghost function LightAt(p: Problem, s: Source, strength: int, x: int, y: int): int {
    var t := Backtrace(p, s, x, y);
    RayLight(t.coefficients, t.sky, strength)
  }

  ghost function ApertureAt(p: Problem, s: Source, strength: int, x: int, y: int): int {
    var t := Backtrace(p, s, x, y);
    RayAperture(t.coefficients, t.apertures, t.sky, strength)
  }

  ghost function LightGrid(p: Problem, s: Source, strength: int): (g: Grid)
    ensures g.width == p.Width() && g.height == p.Height()
    ensures forall x, y :: g.Has(x, y) ==> g.At(x, y) == LightAt(p, s, strength, x, y)
  {
    Raster(p.Width(), p.Height(), seq(p.Height(), y => seq(p.Width(), x => LightAt(p, s, strength, x, y))))
  }

  ghost function ApertureGrid(p: Problem, s: Source, strength: int): (g: Grid)
    ensures g.width == p.Width() && g.height == p.Height()
    ensures forall x, y :: g.Has(x, y) ==> g.At(x, y) == ApertureAt(p, s, strength, x, y)
  {
    Raster(p.Width(), p.Height(), seq(p.Height(), y => seq(p.Width(), x => ApertureAt(p, s, strength, x, y))))
  }

  // ---- publication ---------------------------------------------------------

  datatype Light = Light(value: int, rgb: Rgb)

  /** Six components of one cell, transported and relaxed. */
  datatype Components = Components(direct: int, diffuse: int, apertureDirect: int,
                                   moon: int, moonAperture: int, starlight: int)

  predicate Colors(c: Rgb) {
    0 <= c.red <= UINT16_MAX && 0 <= c.green <= UINT16_MAX && 0 <= c.blue <= UINT16_MAX
  }

  /** uint16 fields of a model. */
  predicate Typed(m: Model) {
    Colors(m.solarColor) && Colors(m.moonColor) && Colors(m.starlightColor) && 0 <= m.solarBrightness <= UINT16_MAX
  }

  function Channel(solar: int, moon: int, star: int, solarColor: nat, moonColor: nat, starColor: nat): int {
    Saturate(Scale(solar, solarColor, UINT16_MAX) + Scale(moon, moonColor, UINT16_MAX)
             + Scale(star, starColor, UINT16_MAX))
  }

  /** celestial_model_publish() */
  function Publish(m: Model, c: Components): Light
    requires Typed(m)
  {
    var solar := Scale(Saturate(c.direct + c.diffuse + c.apertureDirect), m.solarBrightness, 256);
    var moon := Saturate(c.moon + c.moonAperture);
    Light(Saturate(solar + moon + c.starlight),
          Rgb(Channel(solar, moon, c.starlight, m.solarColor.red, m.moonColor.red, m.starlightColor.red),
              Channel(solar, moon, c.starlight, m.solarColor.green, m.moonColor.green, m.starlightColor.green),
              Channel(solar, moon, c.starlight, m.solarColor.blue, m.moonColor.blue, m.starlightColor.blue)))
  }

  /** Every traced field, and what relaxes three of them. */
  datatype Goal = Goal(direct: Grid, diffuse: Grid, apertureDirect: Grid, moon: Grid, moonAperture: Grid,
                       starlight: Grid, spill: SpillFn, passes: nat) {
    function Field(k: nat): Grid
      requires k < 3
    {
      if k == 0 then diffuse else if k == 1 then apertureDirect else starlight
    }
  }

  /** Everything a solve transports, traced cell by cell with no stage, no
   skipped field and no table. */
  ghost function GoalOf(p: Problem): Goal {
    Goal(LightGrid(p, Sun, p.model.direct), LightGrid(p, Sky, p.model.diffuse),
         ApertureGrid(p, Sun, p.model.direct), LightGrid(p, Moon, p.model.moon),
         ApertureGrid(p, Moon, p.model.moon), LightGrid(p, Sky, p.model.starlight), SpillOf(p), PASSES)
  }

  /** Where the six fields of a scratch cell come from: the sun's two from the ray
   towards the sun, the moon's two from the one towards the moon, the sky's two
   from straight up, each with its own strength. */
  lemma FieldsTraced(p: Problem, x: int, y: int)
    requires InGrid(p.Width(), p.Height(), x, y)
    ensures var m, goal := p.model, GoalOf(p);
      var sun := TraceHalo(p, x, y, m.solarDirection, m.solarElevation);
      var moon := TraceHalo(p, x, y, m.moonDirection, m.moonElevation);
      var sky := TraceHalo(p, x, y, NORTH, ZENITH);
      && goal.direct.Has(x, y) && goal.direct.At(x, y) == RayLight(sun.coefficients, sun.sky, m.direct)
      && goal.apertureDirect.Has(x, y)
      && goal.apertureDirect.At(x, y) == RayAperture(sun.coefficients, sun.apertures, sun.sky, m.direct)
      && goal.moon.Has(x, y) && goal.moon.At(x, y) == RayLight(moon.coefficients, moon.sky, m.moon)
      && goal.moonAperture.Has(x, y)
      && goal.moonAperture.At(x, y) == RayAperture(moon.coefficients, moon.apertures, moon.sky, m.moon)
      && goal.diffuse.Has(x, y) && goal.diffuse.At(x, y) == RayLight(sky.coefficients, sky.sky, m.diffuse)
      && goal.starlight.Has(x, y) && goal.starlight.At(x, y) == RayLight(sky.coefficients, sky.sky, m.starlight)
  {
    hide TraceHalo, RayLight, RayAperture;
    var goal := GoalOf(p);
    assert goal.direct.Has(x, y) && goal.apertureDirect.Has(x, y) && goal.moon.Has(x, y);
    assert goal.moonAperture.Has(x, y) && goal.diffuse.Has(x, y) && goal.starlight.Has(x, y);
  }

  ghost predicate Shaped(goal: Goal, w: nat, h: nat) {
    && goal.passes == PASSES
    && goal.direct.width == w && goal.direct.height == h
    && goal.diffuse.width == w && goal.diffuse.height == h
    && goal.apertureDirect.width == w && goal.apertureDirect.height == h
    && goal.moon.width == w && goal.moon.height == h
    && goal.moonAperture.width == w && goal.moonAperture.height == h
    && goal.starlight.width == w && goal.starlight.height == h
  }

  ghost function ComponentsAt(goal: Goal, w: nat, h: nat, x: int, y: int): Components
    requires Shaped(goal, w, h) && InGrid(w, h, x, y)
  {
    Components(goal.direct.At(x, y), Passes(goal.diffuse, goal.spill, goal.passes).At(x, y),
               Passes(goal.apertureDirect, goal.spill, goal.passes).At(x, y), goal.moon.At(x, y),
               goal.moonAperture.At(x, y), Passes(goal.starlight, goal.spill, goal.passes).At(x, y))
  }

  /** The plain solve of one map cell: trace, relax four times, publish. */
  ghost function SolvedAt(p: Problem, x: int, y: int): Light
    requires Typed(p.model) && InGrid(p.mapWidth, p.mapHeight, x, y)
  {
    Publish(p.model, ComponentsAt(GoalOf(p), p.Width(), p.Height(), x + PASSES, y + PASSES))
  }

  // ---- the imperative halo and spill --------------------------------------

  method AllAreContinuous(l: Lattice, faces: seq<Face>) returns (ok: bool)
    ensures ok == AllContinuous(l, faces)
  {
    for i := 0 to |faces|
      invariant forall j :: 0 <= j < i ==> l.continuous(faces[j])
    {
      if !l.continuous(faces[i]) {
        return false;
      }
    }
    return true;
  }

  method IsPassable(l: Lattice, event: Event) returns (ok: bool)
    ensures ok == Passable(l, event)
  {
    ok := EventIsObserved(l, event);
    if ok && event.valid {
      ok := AllAreContinuous(l, event.faces);
    } else {
      ok := false;
    }
  }

  /** The cursor loop of halo_cell(). */
  method WalkToHalo(l: Lattice, start: CursorState) returns (ok: bool)
    requires start.events <= start.limit && NonNegative(start.crossed)
    ensures ok == Reaches(l, start)
  {
    hide Advance, Passable;
    var cursor := new Cursor(start);
    var status := 1;
    AdvanceCounts(l, cursor.State());
    while true
      invariant cursor.events <= cursor.limit && NonNegative(cursor.crossed)
      invariant Reaches(l, cursor.State()) == Reaches(l, start)
      decreases cursor.limit - cursor.events
    {
      AdvanceCounts(l, cursor.State());
      var event;
      status, event := cursor.Next(l);
      if status != 1 {
        return status == 0;
      }
      var passable := IsPassable(l, event);
      if !passable {
        return false;
      }
    }
  }

  lemma AdvanceCounts(l: Lattice, c: CursorState)
    requires c.events <= c.limit
    ensures var o := Advance(l, c);
      o.status == 1 ==> o.cursor.events == c.events + 1 <= c.limit == o.cursor.limit
  {
    hide EventOf;
  }

  /** halo_cell() */
  method FindHaloCell(p: Problem, x: int, y: int) returns (cell: Cell)
    ensures cell == HaloCell(p, x, y)
  {
    hide Reaches, SegmentInit;
    var l := p.lattice;
    if !InCoordinates(x, y) || !Observed(l, p.site) {
      return NOWHERE;
    }
    var mx, my := x - PASSES, y - PASSES;
    var sx, sy := Clamp(mx, p.mapWidth), Clamp(my, p.mapHeight);
    if sx != mx || sy != my {
      var start := SegmentInit(l, p.site, sx, sy, Vec(mx - sx, my - sy, 0));
      SegmentFresh(l, p.site, sx, sy, Vec(mx - sx, my - sy, 0));
      if start.failed {
        return NOWHERE;
      }
      var reached := WalkToHalo(l, start);
      if !reached {
        return NOWHERE;
      }
    }
    cell := l.resolve(p.site, mx, my, 0);
    if cell.site == NULL || !Observed(l, cell.site) {
      cell := NOWHERE;
    }
  }

  /** spill_coefficient() */
  method ComputeSpill(p: Problem, x: int, y: int, dx: int, dy: int) returns (coefficient: nat)
    ensures coefficient == SpillCoefficient(p, x, y, dx, dy)
  {
    hide HaloCell, StepCoefficient;
    if dx < -1 || dx > 1 || dy < -1 || dy > 1 || (dx == 0 && dy == 0) || !InCoordinates(x, y) {
      return 0;
    }
    var cell := FindHaloCell(p, x + dx, y + dy);
    if cell.site == NULL {
      return 0;
    }
    coefficient := StepSpill(p.lattice, cell, -dx, -dy);
  }

  method StepSpill(l: Lattice, cell: Cell, dx: int, dy: int) returns (coefficient: nat)
    ensures coefficient == StepCoefficient(l, cell, dx, dy)
  {
    hide Advance, SegmentInit, Passable;
    var start := SegmentInit(l, cell.site, cell.x, cell.y, Vec(dx, dy, 0));
    SegmentFresh(l, cell.site, cell.x, cell.y, Vec(dx, dy, 0));
    if start.failed {
      return 0;
    }
    var cursor := new Cursor(start);
    var status, event := cursor.Next(l);
    if status != 1 {
      return 0;
    }
    var passable := IsPassable(l, event);
    if !passable {
      return 0;
    }
    coefficient := SCALE;
    for i := 0 to |event.faces|
      invariant coefficient == Weakest(l, event.faces, i)
    {
      coefficient := Min(coefficient, l.light(event.faces[i]).coefficient);
    }
  }
}
