/**
 One row of each stage of a celestial solve: the sky, sun and moon rays, the
 spill table, and what a row of a buffer must hold afterwards. Buffers are
 two-dimensional arrays whose first contents are arbitrary.
 */
module SolverRows {
  import opened FixedPoint
  import opened Relaxation
  import opened Lattices
  import opened Rays
  import opened Solver

  /** Eight coefficients of every scratch cell, by row. */
  type Table = seq<seq<seq<nat>>>

  /** The slot of a neighbour among the eight. */
  function Slot(dx: int, dy: int): int {
    var n := (dy + 1) * 3 + dx + 1;
    if n > 4 then n - 1 else n
  }

  ghost predicate TableShape(t: Table, w: nat, h: nat) {
    |t| == h && forall y :: 0 <= y < h ==> |t[y]| == w && forall x :: 0 <= x < w ==> |t[y][x]| == 8
  }

  /** relax_spill() from a table; it is only ever asked about a neighbour. */
  function TableRead(t: Table, x: int, y: int, dx: int, dy: int): nat {
    var n := Slot(dx, dy);
    if 0 <= y < |t| && 0 <= x < |t[y]| && 0 <= n < |t[y][x]| then t[y][x][n] else 0
  }

  // ---- rows ----------------------------------------------------------------

  ghost predicate Fits(a: array2<int>, g: Grid) {
    a.Length0 == g.height && a.Length1 == g.width
  }

  /** The first n rows of an array hold a grid's. */
  ghost predicate RowsAre(a: array2<int>, g: Grid, n: nat)
    reads a
  {
    Fits(a, g) && n <= g.height
    && forall x, y :: 0 <= y < n && 0 <= x < g.width ==> a[y, x] == g.At(x, y)
  }

  /** A nonzero cell among the first n of row y. */
  ghost predicate LitCells(g: Grid, y: int, n: int) {
    0 <= y < g.height && exists x :: 0 <= x < n && x < g.width && g.At(x, y) != 0
  }

  lemma LitCellNext(g: Grid, y: int, n: nat)
    requires g.Has(n, y)
    ensures LitCells(g, y, n + 1) <==> LitCells(g, y, n) || g.At(n, y) != 0
  {}

  lemma NoneLit(g: Grid, y: int)
    ensures !LitCells(g, y, 0)
  {}

  ghost predicate LitRow(g: Grid, y: int) { LitCells(g, y, g.width) }

  ghost predicate LitRows(g: Grid, n: nat) {
    exists y :: 0 <= y < n && LitRow(g, y)
  }

  lemma LitNext(g: Grid, n: nat)
    ensures LitRows(g, n + 1) <==> LitRows(g, n) || LitRow(g, n)
  {
    if LitRow(g, n) {
      assert LitRows(g, n + 1);
    }
  }

  lemma UnlitWithin(g: Grid)
    requires !LitRows(g, g.height)
    ensures Within(g, 0)
  {
    forall x, y | g.Has(x, y)
      ensures g.At(x, y) == 0
    {
      assert !LitRow(g, y);
    }
  }

  lemma SnapshotIs(a: array2<int>, g: Grid)
    requires RowsAre(a, g, g.height)
    ensures Snapshot(a) == g
  {
    SameGrid(Snapshot(a), g);
  }

  /** halo_ray(), then every step of the ray. */
  method TraceCell(p: Problem, s: Source, x: nat, y: nat) returns (ray: Ray)
    ensures fresh(ray) && ray.Valid() && ray.State() == Backtrace(p, s, x, y)
    ensures Sound(ray.State())
  {
    hide Trace, RayStep, RayInit, HaloCell;
    var cell := FindHaloCell(p, x, y);
    var direction, elevation := SourceDirection(p.model, s), SourceElevation(p.model, s);
    InitSound(p.lattice, cell.site, cell.x, cell.y, direction, elevation);
    if cell.site == NULL {
      ray := new Ray.Ended();
    } else {
      ray := new Ray(p.lattice, cell.site, cell.x, cell.y, direction, elevation);
    }
    TraceRay(p.lattice, ray);
  }

  method TraceRay(l: Lattice, ray: Ray)
    requires ray.Valid() && Sound(ray.State())
    modifies ray, ray.cursor, ray.coefficients, ray.apertures
    ensures ray.Valid() && ray.State() == Trace(l, old(ray.State()))
  {
    hide RayStep, Sound;
    ghost var start := ray.State();
    TraceStep(l, ray.State());
    while !ray.done
      invariant ray.Valid() && Sound(ray.State())
      invariant Trace(l, ray.State()) == Trace(l, start)
      decreases Steps(l, ray.State())
    {
      TraceStep(l, ray.State());
      ray.Step(l);
      TraceStep(l, ray.State());
    }
  }

  lemma TraceStep(l: Lattice, r: RayState)
    requires Sound(r)
    ensures Sound(RayStep(l, r))
    ensures if r.done then Trace(l, r) == r
            else Trace(l, r) == Trace(l, RayStep(l, r)) && Steps(l, r) == 1 + Steps(l, RayStep(l, r))
  {
    StepSound(l, r);
    hide RayStep;
  }

  // ---- one row of a stage --------------------------------------------------

  /** Row y of an array holds a grid's row y. */
  ghost predicate RowIs(a: array2<int>, g: Grid, y: int)
    reads a
  {
    Fits(a, g) && 0 <= y < g.height && forall x :: 0 <= x < g.width ==> a[y, x] == g.At(x, y)
  }

  /** No other row of an array has changed. */
  twostate predicate OthersKept(a: array2<int>, y: int)
    reads a
  {
    forall x, v :: 0 <= v < a.Length0 && 0 <= x < a.Length1 && v != y ==> a[v, x] == old(a[v, x])
  }

  /** One row of the sky stage: a single ray lights both fields. */
  method SkyRow(p: Problem, diffuse: array2<int>, starlight: array2<int>, y: nat,
                ghost d: Grid, ghost s: Grid) returns (litDiffuse: bool, litStarlight: bool)
    requires d == LightGrid(p, Sky, p.model.diffuse) && s == LightGrid(p, Sky, p.model.starlight)
    requires diffuse != starlight && Fits(diffuse, d) && Fits(starlight, s) && y < p.Height()
    modifies diffuse, starlight
    ensures RowIs(diffuse, d, y) && OthersKept(diffuse, y) && (litDiffuse <==> LitRow(d, y))
    ensures RowIs(starlight, s, y) && OthersKept(starlight, y) && (litStarlight <==> LitRow(s, y))
  {
    hide LightAt, LitCells;
    NoneLit(d, y);
    NoneLit(s, y);
    litDiffuse, litStarlight := false, false;
    var x := 0;
    while x < diffuse.Length1
      invariant 0 <= x <= diffuse.Length1
      invariant forall u :: 0 <= u < x ==> diffuse[y, u] == d.At(u, y) && starlight[y, u] == s.At(u, y)
      invariant OthersKept(diffuse, y) && OthersKept(starlight, y)
      invariant litDiffuse <==> LitCells(d, y, x)
      invariant litStarlight <==> LitCells(s, y, x)
    {
      var value, star := SkyCell(p, x, y);
      LitCellNext(d, y, x);
      LitCellNext(s, y, x);
      diffuse[y, x] := value;
      starlight[y, x] := star;
      litDiffuse := litDiffuse || value != 0;
      litStarlight := litStarlight || star != 0;
      x := x + 1;
    }
  }

  method SkyCell(p: Problem, x: nat, y: nat) returns (value: int, star: int)
    ensures value == LightAt(p, Sky, p.model.diffuse, x, y) && star == LightAt(p, Sky, p.model.starlight, x, y)
  {
    hide Backtrace;
    var ray := TraceCell(p, Sky, x, y);
    var cs, ap := ray.coefficients[..ray.count], ray.apertures[..ray.count];
    var unused;
    value, unused := RayValue(cs, ap, ray.sky, p.model.diffuse);
    star, unused := RayValue(cs, ap, ray.sky, p.model.starlight);
  }

  /** One cell of a sun or moon transport. */
  method TransportCell(p: Problem, s: Source, strength: int, x: nat, y: nat) returns (value: int, aperture: int)
    ensures value == LightAt(p, s, strength, x, y) && aperture == ApertureAt(p, s, strength, x, y)
  {
    hide Backtrace;
    var ray := TraceCell(p, s, x, y);
    value, aperture := RayValue(ray.coefficients[..ray.count], ray.apertures[..ray.count], ray.sky, strength);
  }

  /** transport_row() */
  method TransportRow(p: Problem, s: Source, strength: int, values: array2<int>, apertures: array2<int>, y: nat,
                      ghost light: Grid, ghost aperture: Grid) returns (lit: bool)
    requires light == LightGrid(p, s, strength) && aperture == ApertureGrid(p, s, strength)
    requires values != apertures && Fits(values, light) && Fits(apertures, aperture) && y < p.Height()
    modifies values, apertures
    ensures RowIs(values, light, y) && OthersKept(values, y)
    ensures RowIs(apertures, aperture, y) && OthersKept(apertures, y) && (lit <==> LitRow(aperture, y))
  {
    hide LightAt, ApertureAt, LitCells;
    NoneLit(aperture, y);
    lit := false;
    var x := 0;
    while x < values.Length1
      invariant 0 <= x <= values.Length1
      invariant forall u :: 0 <= u < x ==> values[y, u] == light.At(u, y) && apertures[y, u] == aperture.At(u, y)
      invariant OthersKept(values, y) && OthersKept(apertures, y)
      invariant lit <==> LitCells(aperture, y, x)
    {
      var value, share := TransportCell(p, s, strength, x, y);
      assert light.Has(x, y);
      LitCellNext(aperture, y, x);
      values[y, x] := value;
      apertures[y, x] := share;
      lit := lit || share != 0;
      x := x + 1;
    }
  }

  /** A row of zeros, which is what an absent moon would have lit. */
  method ClearRow(a: array2<int>, y: nat)
    requires y < a.Length0
    modifies a
    ensures OthersKept(a, y) && forall x :: 0 <= x < a.Length1 ==> a[y, x] == 0
  {
    var x := 0;
    while x < a.Length1
      invariant 0 <= x <= a.Length1 && OthersKept(a, y)
      invariant forall u :: 0 <= u < x ==> a[y, u] == 0
    {
      a[y, x] := 0;
      x := x + 1;
    }
  }

  /** No moon, no moonlight: skipping the stage equals tracing it. */
  lemma NoMoon(p: Problem, s: Source)
    ensures Within(LightGrid(p, s, 0), 0) && Within(ApertureGrid(p, s, 0), 0)
  {
    hide Backtrace;
    forall x, y | InGrid(p.Width(), p.Height(), x, y)
      ensures LightAt(p, s, 0, x, y) == 0 && ApertureAt(p, s, 0, x, y) == 0
    {
      CarryZero(Backtrace(p, s, x, y).coefficients);
    }
  }

  // ---- the spill table -----------------------------------------------------

  /** Row y of the table answers as the lattice does for every neighbour. */
  ghost predicate TableRow(t: Table, p: Problem, y: int) {
    forall x, dx, dy :: 0 <= x < p.Width() && Neighbour(p.Width(), p.Height(), x, y, dx, dy)
      ==> TableRead(t, x, y, dx, dy) == SpillCoefficient(p, x, y, dx, dy)
  }

  ghost predicate TableRows(t: Table, p: Problem, n: nat) {
    TableShape(t, p.Width(), p.Height()) && forall y :: 0 <= y < n ==> TableRow(t, p, y)
  }

  /** A filled table and the lattice relax every cell alike. */
  lemma TableSpill(t: Table, p: Problem)
    requires TableRows(t, p, p.Height())
    ensures SameSpill(p.Width(), p.Height(), 0, 0, (x, y, dx, dy) => TableRead(t, x, y, dx, dy), SpillOf(p))
  {
    hide TableRead, SpillCoefficient;
    forall x, y, dx, dy | InGrid(p.Width(), p.Height(), x, y) && Neighbour(p.Width(), p.Height(), x, y, dx, dy)
      ensures TableRead(t, x, y, dx, dy) == SpillOf(p)(0 + x, 0 + y, dx, dy)
    {
      assert TableRow(t, p, y);
    }
  }

  /** A cell's slot for (dx, dy), if that is a neighbour, holds its coefficient. */
  ghost predicate Answers(cell: seq<nat>, p: Problem, x: int, y: int, dx: int, dy: int) {
    Neighbour(p.Width(), p.Height(), x, y, dx, dy) ==>
      0 <= Slot(dx, dy) < |cell| && cell[Slot(dx, dy)] == SpillCoefficient(p, x, y, dx, dy)
  }

  /** Filling one slot answers its neighbour and disturbs no other. */
  lemma SlotUpdated(cell: seq<nat>, p: Problem, x: int, y: int, dx: int, dy: int, c: nat)
    requires |cell| == 8 && Neighbour(p.Width(), p.Height(), x, y, dx, dy)
    requires c == SpillCoefficient(p, x, y, dx, dy)
    ensures 0 <= Slot(dx, dy) < 8
    ensures Answers(cell[Slot(dx, dy) := c], p, x, y, dx, dy)
    ensures forall u, v :: Answers(cell, p, x, y, u, v) ==> Answers(cell[Slot(dx, dy) := c], p, x, y, u, v)
  {
    hide SpillCoefficient;
  }

  lemma NoAnswerNeeded(cell: seq<nat>, p: Problem, x: int, y: int, dx: int, dy: int)
    ensures !Neighbour(p.Width(), p.Height(), x, y, dx, dy) ==> Answers(cell, p, x, y, dx, dy)
  {}

  /** Offsets beyond the eight neighbours ask nothing. */
  lemma NoneAnswered(cell: seq<nat>, p: Problem, x: int, y: int)
    ensures forall dx, dy :: !(-1 <= dx <= 1) || !(-1 <= dy <= 1) ==> Answers(cell, p, x, y, dx, dy)
  {
    forall dx, dy | !(-1 <= dx <= 1) || !(-1 <= dy <= 1)
      ensures Answers(cell, p, x, y, dx, dy)
    {
      NoAnswerNeeded(cell, p, x, y, dx, dy);
    }
  }

  /** The eight coefficients of one cell; a neighbour outside the grid keeps
   whatever the slot held. */
  method FillCell(p: Problem, x: nat, y: nat, before: seq<nat>) returns (cell: seq<nat>)
    requires |before| == 8 && x < p.Width() && y < p.Height()
    ensures |cell| == 8
    ensures forall dx, dy :: Answers(cell, p, x, y, dx, dy)
  {
    hide SpillCoefficient, Answers, Slot;
    cell := before;
    for dy := -1 to 2
      invariant |cell| == 8
      invariant forall u, v :: -1 <= u <= 1 && -1 <= v < dy ==> Answers(cell, p, x, y, u, v)
    {
      for dx := -1 to 2
        invariant |cell| == 8
        invariant forall u, v :: -1 <= u <= 1 && -1 <= v && (v < dy || (v == dy && u < dx)) ==>
          Answers(cell, p, x, y, u, v)
      {
        ghost var held := cell;
        if !((dx == 0 && dy == 0) || x + dx < 0 || y + dy < 0 || x + dx >= p.Width() || y + dy >= p.Height()) {
          var coefficient := ComputeSpill(p, x, y, dx, dy);
          SlotUpdated(cell, p, x, y, dx, dy, coefficient);
          cell := cell[Slot(dx, dy) := coefficient];
        } else {
          NoAnswerNeeded(cell, p, x, y, dx, dy);
        }
        assert Answers(cell, p, x, y, dx, dy);
        assert forall u, v :: Answers(held, p, x, y, u, v) ==> Answers(cell, p, x, y, u, v);
      }
    }
    NoneAnswered(cell, p, x, y);
  }

  /** spill_table_fill_row() */
  method FillRow(p: Problem, t: Table, y: nat) returns (r: Table)
    requires TableRows(t, p, y) && y < p.Height()
    ensures TableRows(r, p, y + 1)
  {
    hide SpillCoefficient, Slot;
    var row: seq<seq<nat>> := t[y];
    var x := 0;
    while x < p.Width()
      invariant 0 <= x <= p.Width() && |row| == p.Width()
      invariant forall u :: 0 <= u < p.Width() ==> |row[u]| == 8
      invariant forall u, dx, dy :: 0 <= u < x ==> Answers(row[u], p, u, y, dx, dy)
    {
      var cell := FillCell(p, x, y, row[x]);
      row := row[x := cell];
      x := x + 1;
    }
    r := t[y := row];
    forall v | 0 <= v < y
      ensures TableRow(r, p, v)
    {
      assert TableRow(t, p, v);
    }
    forall u, dx, dy | 0 <= u < p.Width() && Neighbour(p.Width(), p.Height(), u, y, dx, dy)
      ensures TableRead(r, u, y, dx, dy) == SpillCoefficient(p, u, y, dx, dy)
    {
      assert Answers(row[u], p, u, y, dx, dy);
    }
  }
}
