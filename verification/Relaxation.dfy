/**
 The relaxation of celestial_model.c, by which light spills sideways: pass by
 pass a cell takes the brightest of what it has and what any of the eight cells
 around it can send, weakened by the seam between them and by the distance.
 */
module Relaxation {
  import opened Arithmetic
  import opened FixedPoint

  /** Passes of the relaxation, which is also the halo's thickness. */
  const PASSES: nat := 4
  const CARDINAL: nat := 192
  const DIAGONAL: nat := 181

  /** How much of the light of the cell (dx, dy) away reaches a cell, in 256ths. */
  type SpillFn = (int, int, int, int) -> nat

  predicate InGrid(w: nat, h: nat, x: int, y: int) {
    0 <= x < w && 0 <= y < h
  }

  /** A grid by rows: cell (x, y) is rows[y][x]. */
  datatype Raster = Raster(width: nat, height: nat, rows: seq<seq<int>>) {
    predicate Has(x: int, y: int) { InGrid(width, height, x, y) }

    ghost predicate Rectangular() {
      |rows| == height && forall y :: 0 <= y < height ==> |rows[y]| == width
    }

    function At(x: int, y: int): int
      requires Rectangular() && Has(x, y)
    {
      rows[y][x]
    }
  }

  type Grid = g: Raster | g.Rectangular() witness Raster(0, 0, [])

  /** Two grids with the same cells are equal. */
  lemma SameGrid(a: Grid, b: Grid)
    requires a.width == b.width && a.height == b.height
    requires forall x, y :: a.Has(x, y) ==> a.At(x, y) == b.At(x, y)
    ensures a == b
  {
    forall y | 0 <= y < a.height
      ensures a.rows[y] == b.rows[y]
    {
      forall x | 0 <= x < a.width
        ensures a.rows[y][x] == b.rows[y][x]
      {
        assert a.Has(x, y) && a.At(x, y) == b.At(x, y);
      }
    }
  }

  /** Whether (dx, dy) steps to a neighbour of (x, y) inside the grid. */
  predicate Neighbour(w: nat, h: nat, x: int, y: int, dx: int, dy: int) {
    -1 <= dx <= 1 && -1 <= dy <= 1 && !(dx == 0 && dy == 0) && InGrid(w, h, x + dx, y + dy)
  }

  /** The light left of a neighbour's value after crossing to a cell. */
  function Offer(value: int, coefficient: nat, dx: int, dy: int): (r: int)
    ensures 0 <= r <= Max(value, 0)
  {
    Transmit(Transmit(value, Min(coefficient, SCALE)), if dx != 0 && dy != 0 then DIAGONAL else CARDINAL)
  }

  /** The light a neighbour offers. */
  function Candidate(g: Grid, spill: SpillFn, x: int, y: int, dx: int, dy: int): (r: int)
    requires g.Has(x, y) && Neighbour(g.width, g.height, x, y, dx, dy)
  {
    Offer(g.At(x + dx, y + dy), spill(x, y, dx, dy), dx, dy)
  }

  /** The offset of the k-th neighbour, row by row. */
  function OffsetY(k: nat): int { if k < 3 then -1 else if k < 6 then 0 else 1 }

  function OffsetX(k: nat): int { k - 3 * (OffsetY(k) + 1) - 1 }

  /** The best of a cell and its first k neighbours, taken row by row. */
  function Best(g: Grid, spill: SpillFn, x: int, y: int, k: nat): int
    requires g.Has(x, y) && k <= 9
  {
    if k == 0 then g.At(x, y)
    else
      var best := Best(g, spill, x, y, k - 1);
      var dx, dy := OffsetX(k - 1), OffsetY(k - 1);
      if Neighbour(g.width, g.height, x, y, dx, dy) then Max(best, Candidate(g, spill, x, y, dx, dy)) else best
  }

  function RelaxCell(g: Grid, spill: SpillFn, x: int, y: int): int
    requires g.Has(x, y)
  {
    Best(g, spill, x, y, 9)
  }

  /** Whether v is the maximum of a cell's own light and all its offers. */
  ghost predicate IsRelaxed(g: Grid, spill: SpillFn, x: int, y: int, v: int)
    requires g.Has(x, y)
  {
    && g.At(x, y) <= v
    && (forall dx, dy :: Neighbour(g.width, g.height, x, y, dx, dy) ==> Candidate(g, spill, x, y, dx, dy) <= v)
    && (v == g.At(x, y)
        || exists dx, dy :: Neighbour(g.width, g.height, x, y, dx, dy) && v == Candidate(g, spill, x, y, dx, dy))
  }

  lemma {:induction false} BestIsMax(g: Grid, spill: SpillFn, x: int, y: int, k: nat)
    requires g.Has(x, y) && k <= 9
    ensures var v := Best(g, spill, x, y, k);
      && g.At(x, y) <= v
      && (forall dx, dy :: Neighbour(g.width, g.height, x, y, dx, dy) && (dy + 1) * 3 + dx + 1 < k
                           ==> Candidate(g, spill, x, y, dx, dy) <= v)
      && (v == g.At(x, y)
          || exists dx, dy :: Neighbour(g.width, g.height, x, y, dx, dy) && v == Candidate(g, spill, x, y, dx, dy))
    decreases k
  {
    hide Candidate;
    if k > 0 {
      BestIsMax(g, spill, x, y, k - 1);
    }
  }

  /** One relaxed cell is exactly the maximum the header promises. */
  lemma RelaxCellIsMax(g: Grid, spill: SpillFn, x: int, y: int)
    requires g.Has(x, y)
    ensures IsRelaxed(g, spill, x, y, RelaxCell(g, spill, x, y))
  {
    BestIsMax(g, spill, x, y, 9);
  }

  lemma NoOffer(g: Grid, spill: SpillFn, x: int, y: int, dx: int, dy: int)
    requires g.Has(x, y) && Neighbour(g.width, g.height, x, y, dx, dy) && g.At(x + dx, y + dy) == 0
    ensures Candidate(g, spill, x, y, dx, dy) == 0
  {
    hide Transmit;
  }

  lemma OneOffer(g: Grid, spill: SpillFn, x: int, y: int, dx: int, dy: int)
    requires g.Has(x, y) && Neighbour(g.width, g.height, x, y, dx, dy) && g.At(x + dx, y + dy) >= 0
    ensures var through := Round(g.At(x + dx, y + dy) * Min(spill(x, y, dx, dy), 256), 256);
      Candidate(g, spill, x, y, dx, dy) == Round(through * if dx != 0 && dy != 0 then 181 else 192, 256)
  {
    hide Round;
  }

  /** What a single lit cell (a, b) gives: itself all its light, a neighbour the
   light that comes through the seam from it, then three quarters of it or, over a
   corner, about as much as the square root of a half; and others nothing. */
  lemma PointSource(g: Grid, spill: SpillFn, x: int, y: int, a: int, b: int)
    requires g.Has(x, y) && g.Has(a, b) && g.At(a, b) >= 0
    requires forall i, j :: g.Has(i, j) && !(i == a && j == b) ==> g.At(i, j) == 0
    ensures var through := Round(g.At(a, b) * Min(spill(x, y, a - x, b - y), 256), 256);
      RelaxCell(g, spill, x, y)
      == if x == a && y == b then g.At(a, b)
         else if !(-1 <= a - x <= 1 && -1 <= b - y <= 1) then 0
         else Round(through * if a != x && b != y then 181 else 192, 256)
  {
    hide Round, RelaxCell, Candidate, InGrid;
    RelaxCellIsMax(g, spill, x, y);
    var v, dx, dy := RelaxCell(g, spill, x, y), a - x, b - y;
    forall i, j | Neighbour(g.width, g.height, x, y, i, j) && !(i == dx && j == dy)
      ensures Candidate(g, spill, x, y, i, j) == 0
    {
      NoOffer(g, spill, x, y, i, j);
    }
    if -1 <= dx <= 1 && -1 <= dy <= 1 && !(dx == 0 && dy == 0) {
      assert Neighbour(g.width, g.height, x, y, dx, dy);
      OneOffer(g, spill, x, y, dx, dy);
    }
  }

  /** The falloff over a corner is the square root of a half, in 256ths. */
  lemma Diagonal()
    ensures 2 * DIAGONAL * DIAGONAL <= SCALE * SCALE < 2 * (DIAGONAL + 1) * (DIAGONAL + 1) && 4 * CARDINAL == 3 * SCALE
  {}

  /** One pass over the whole grid. */
  ghost function Pass(g: Grid, spill: SpillFn): (r: Grid)
    ensures r.width == g.width && r.height == g.height
    ensures forall x, y :: g.Has(x, y) ==> r.At(x, y) == RelaxCell(g, spill, x, y)
  {
    Raster(g.width, g.height, seq(g.height, y requires 0 <= y < g.height =>
      seq(g.width, x requires 0 <= x < g.width => RelaxCell(g, spill, x, y))))
  }

  /** k passes. */
  ghost function Passes(g: Grid, spill: SpillFn, k: nat): (r: Grid)
    ensures r.width == g.width && r.height == g.height
  {
    if k == 0 then g else Pass(Passes(g, spill, k - 1), spill)
  }

  // ---- bounds ------------------------------------------------------------

  ghost predicate Within(g: Grid, bound: int) {
    forall x, y :: g.Has(x, y) ==> 0 <= g.At(x, y) <= bound
  }

  lemma {:induction false} BestWithin(g: Grid, spill: SpillFn, x: int, y: int, k: nat, bound: int)
    requires g.Has(x, y) && k <= 9 && Within(g, bound)
    ensures 0 <= Best(g, spill, x, y, k) <= bound
    decreases k
  {
    if k > 0 {
      BestWithin(g, spill, x, y, k - 1, bound);
    }
  }

  /** Relaxation spreads light without ever exceeding the brightest source. */
  lemma {:induction false} PassesWithin(g: Grid, spill: SpillFn, k: nat, bound: int)
    requires Within(g, bound)
    ensures Within(Passes(g, spill, k), bound)
    decreases k
  {
    if k > 0 {
      hide Best;
      PassesWithin(g, spill, k - 1, bound);
      var p := Passes(g, spill, k - 1);
      forall x, y | p.Has(x, y)
        ensures 0 <= Pass(p, spill).At(x, y) <= bound
      {
        BestWithin(p, spill, x, y, 9, bound);
      }
    }
  }

  /** An unlit field relaxes to itself, whatever the coefficients. */
  lemma UnlitStays(g: Grid, spill: SpillFn, k: nat)
    requires Within(g, 0)
    ensures Passes(g, spill, k) == g
  {
    PassesWithin(g, spill, k, 0);
    SameGrid(Passes(g, spill, k), g);
  }

  /** A cell never loses light to relaxation. */
  lemma {:induction false} PassesGrow(g: Grid, spill: SpillFn, k: nat, x: int, y: int)
    requires g.Has(x, y)
    ensures g.At(x, y) <= Passes(g, spill, k).At(x, y)
    decreases k
  {
    if k > 0 {
      PassesGrow(g, spill, k - 1, x, y);
      BestIsMax(Passes(g, spill, k - 1), spill, x, y, 9);
    }
  }

  // ---- the halo ----------------------------------------------------------

  /** Grid a lies in grid b at offset (ox, oy), and the two agree on every
   cell at least m cells inside a. */
  ghost predicate Embedded(a: Grid, b: Grid, ox: int, oy: int, m: nat) {
    && 0 <= ox && 0 <= oy && ox + a.width <= b.width && oy + a.height <= b.height
    && forall x, y :: m <= x < a.width - m && m <= y < a.height - m ==> a.At(x, y) == b.At(ox + x, oy + y)
  }

  /** Both spill functions give the same coefficients between a's cells. */
  ghost predicate SameSpill(w: nat, h: nat, ox: int, oy: int, spill: SpillFn, wide: SpillFn) {
    forall x, y, dx, dy :: InGrid(w, h, x, y) && Neighbour(w, h, x, y, dx, dy)
      ==> spill(x, y, dx, dy) == wide(ox + x, oy + y, dx, dy)
  }

  lemma CandidateAgrees(a: Grid, spill: SpillFn, b: Grid, wide: SpillFn,
                        ox: int, oy: int, m: nat, x: int, y: int, dx: int, dy: int)
    requires Embedded(a, b, ox, oy, m) && SameSpill(a.width, a.height, ox, oy, spill, wide)
    requires m + 1 <= x < a.width - m - 1 && m + 1 <= y < a.height - m - 1
    requires -1 <= dx <= 1 && -1 <= dy <= 1 && !(dx == 0 && dy == 0)
    ensures Candidate(a, spill, x, y, dx, dy) == Candidate(b, wide, ox + x, oy + y, dx, dy)
  {
    assert Neighbour(a.width, a.height, x, y, dx, dy);
    assert a.At(x + dx, y + dy) == b.At(ox + (x + dx), oy + (y + dy));
    assert ox + (x + dx) == ox + x + dx && oy + (y + dy) == oy + y + dy;
  }

  lemma {:induction false} BestAgrees(a: Grid, spill: SpillFn, b: Grid, wide: SpillFn,
                                      ox: int, oy: int, m: nat, x: int, y: int, k: nat)
    requires k <= 9
    requires Embedded(a, b, ox, oy, m) && SameSpill(a.width, a.height, ox, oy, spill, wide)
    requires m + 1 <= x < a.width - m - 1 && m + 1 <= y < a.height - m - 1
    ensures Best(a, spill, x, y, k) == Best(b, wide, ox + x, oy + y, k)
    decreases k
  {
    assert a.At(x, y) == b.At(ox + x, oy + y);
    hide Raster.At, Candidate;
    if k > 0 {
      BestAgrees(a, spill, b, wide, ox, oy, m, x, y, k - 1);
      var dx, dy := OffsetX(k - 1), OffsetY(k - 1);
      if !(dx == 0 && dy == 0) {
        CandidateAgrees(a, spill, b, wide, ox, oy, m, x, y, dx, dy);
      }
    }
  }

  lemma PassAgrees(a: Grid, spill: SpillFn, b: Grid, wide: SpillFn, ox: int, oy: int, m: nat)
    requires Embedded(a, b, ox, oy, m) && SameSpill(a.width, a.height, ox, oy, spill, wide)
    ensures Embedded(Pass(a, spill), Pass(b, wide), ox, oy, m + 1)
  {
    forall x, y | m + 1 <= x < a.width - (m + 1) && m + 1 <= y < a.height - (m + 1)
      ensures Pass(a, spill).At(x, y) == Pass(b, wide).At(ox + x, oy + y)
    {
      BestAgrees(a, spill, b, wide, ox, oy, m, x, y, 9);
    }
  }

  /** The halo is sufficient: after k passes every cell at least k inside the
   smaller grid is what it would have been in any larger grid. */
  lemma {:induction false} HaloSufficient(a: Grid, spill: SpillFn, b: Grid, wide: SpillFn,
                                          ox: int, oy: int, k: nat)
    requires Embedded(a, b, ox, oy, 0) && SameSpill(a.width, a.height, ox, oy, spill, wide)
    ensures Embedded(Passes(a, spill, k), Passes(b, wide, k), ox, oy, k)
    decreases k
  {
    hide Embedded, SameSpill, Pass;
    if k > 0 {
      HaloSufficient(a, spill, b, wide, ox, oy, k - 1);
      PassAgrees(Passes(a, spill, k - 1), spill, Passes(b, wide, k - 1), wide, ox, oy, k - 1);
    }
  }

  /** Only the coefficients between cells of the grid matter. */
  lemma {:induction false} SpillInside(g: Grid, spill: SpillFn, other: SpillFn, x: int, y: int, k: nat)
    requires g.Has(x, y) && k <= 9 && SameSpill(g.width, g.height, 0, 0, spill, other)
    ensures Best(g, spill, x, y, k) == Best(g, other, x, y, k)
    decreases k
  {
    if k > 0 {
      SpillInside(g, spill, other, x, y, k - 1);
      var dx, dy := OffsetX(k - 1), OffsetY(k - 1);
      assert Neighbour(g.width, g.height, x, y, dx, dy) ==> spill(x, y, dx, dy) == other(0 + x, 0 + y, dx, dy);
    }
  }

  // ---- the imperative pass -----------------------------------------------

  /** The grid an array holds. */
  ghost function Snapshot(a: array2<int>): (g: Grid)
    reads a
    ensures g.width == a.Length1 && g.height == a.Length0
    ensures forall x, y :: g.Has(x, y) ==> g.At(x, y) == a[y, x]
  {
    Raster(a.Length1, a.Length0, seq(a.Length0, y requires 0 <= y < a.Length0 reads a =>
      seq(a.Length1, x requires 0 <= x < a.Length1 reads a => a[y, x])))
  }

  /** One row of the neighbour loops of a cell. */
  method RelaxAcross(values: array2<int>, x: nat, y: nat, dy: int, spill: SpillFn, own: int) returns (best: int)
    requires InGrid(values.Length1, values.Length0, x, y) && -1 <= dy <= 1
    requires own == Best(Snapshot(values), spill, x, y, (dy + 1) * 3)
    ensures best == Best(Snapshot(values), spill, x, y, (dy + 1) * 3 + 3)
  {
    hide Transmit, Best;
    ghost var g := Snapshot(values);
    best := own;
    for dx := -1 to 2
      invariant best == Best(g, spill, x, y, (dy + 1) * 3 + dx + 1)
    {
      BestStep(g, spill, x, y, dx, dy);
      if !((dx == 0 && dy == 0) || x + dx < 0 || y + dy < 0
           || x + dx >= values.Length1 || y + dy >= values.Length0) {
        var coefficient := Min(spill(x, y, dx, dy), SCALE);
        var candidate := Transmit(values[y + dy, x + dx], coefficient);
        candidate := Transmit(candidate, if dx != 0 && dy != 0 then DIAGONAL else CARDINAL);
        best := Max(best, candidate);
      }
    }
  }

  /** The neighbour loops of one cell. */
  method RelaxOne(values: array2<int>, x: nat, y: nat, spill: SpillFn) returns (best: int)
    requires InGrid(values.Length1, values.Length0, x, y)
    ensures best == RelaxCell(Snapshot(values), spill, x, y)
  {
    best := values[y, x];
    BestStart(Snapshot(values), spill, x, y);
    hide Best;
    for dy := -1 to 2
      invariant best == Best(Snapshot(values), spill, x, y, (dy + 1) * 3)
    {
      best := RelaxAcross(values, x, y, dy, spill, best);
    }
  }

  lemma BestStart(g: Grid, spill: SpillFn, x: int, y: int)
    requires g.Has(x, y)
    ensures Best(g, spill, x, y, 0) == g.At(x, y)
  {}

  /** How the neighbour (dx, dy) enters the maximum. */
  lemma BestStep(g: Grid, spill: SpillFn, x: int, y: int, dx: int, dy: int)
    requires g.Has(x, y) && -1 <= dx <= 1 && -1 <= dy <= 1
    ensures Best(g, spill, x, y, (dy + 1) * 3 + dx + 2)
         == if Neighbour(g.width, g.height, x, y, dx, dy)
            then Max(Best(g, spill, x, y, (dy + 1) * 3 + dx + 1), Candidate(g, spill, x, y, dx, dy))
            else Best(g, spill, x, y, (dy + 1) * 3 + dx + 1)
  {
    assert OffsetY((dy + 1) * 3 + dx + 1) == dy;
    hide Candidate;
  }

  /** celestial_model_relax_row(): write row y of next from values. */
  method RelaxRow(values: array2<int>, next: array2<int>, y: nat, spill: SpillFn)
    requires values != next && next.Length0 == values.Length0 && next.Length1 == values.Length1
    requires y < values.Length0
    modifies next
    ensures forall x :: 0 <= x < next.Length1 ==> next[y, x] == RelaxCell(Snapshot(values), spill, x, y)
    ensures forall x, v :: InGrid(next.Length1, next.Length0, x, v) && v != y ==> next[v, x] == old(next[v, x])
  {
    ghost var g := Snapshot(values);
    var x := 0;
    while x < values.Length1
      invariant 0 <= x <= values.Length1
      invariant Snapshot(values) == g
      invariant forall u :: 0 <= u < x ==> next[y, u] == RelaxCell(g, spill, u, y)
      invariant forall u, v :: InGrid(next.Length1, next.Length0, u, v) && v != y ==> next[v, u] == old(next[v, u])
    {
      var best := RelaxOne(values, x, y, spill);
      next[y, x] := best;
      x := x + 1;
    }
  }

  /** One pass, row by row, into the other grid. */
  method RelaxAll(values: array2<int>, next: array2<int>, spill: SpillFn)
    requires values != next && next.Length0 == values.Length0 && next.Length1 == values.Length1
    modifies next
    ensures Snapshot(next) == Pass(Snapshot(values), spill)
  {
    hide RelaxCell;
    ghost var g := Snapshot(values);
    var y := 0;
    while y < values.Length0
      invariant 0 <= y <= values.Length0 && Snapshot(values) == g
      invariant forall x, v :: 0 <= v < y && 0 <= x < next.Length1 ==> next[v, x] == RelaxCell(g, spill, x, v)
    {
      RelaxRow(values, next, y, spill);
      y := y + 1;
    }
    SameGrid(Snapshot(next), Pass(g, spill));
  }

  /** Whether any cell of a grid is lit. */
  method IsActive(values: array2<int>) returns (active: bool)
    ensures active <==> exists x, y :: InGrid(values.Length1, values.Length0, x, y) && values[y, x] != 0
  {
    active := false;
    for y := 0 to values.Length0
      invariant active <==> exists x, v :: InGrid(values.Length1, values.Length0, x, v) && v < y && values[v, x] != 0
    {
      for x := 0 to values.Length1
        invariant active <==> exists u, v ::
          InGrid(values.Length1, values.Length0, u, v) && (v < y || (v == y && u < x)) && values[v, u] != 0
      {
        active := active || values[y, x] != 0;
      }
    }
  }

  lemma LitSomewhere(values: array2<int>)
    requires exists x, y :: InGrid(values.Length1, values.Length0, x, y) && values[y, x] != 0
    ensures !Within(Snapshot(values), 0)
  {
    var x, y :| InGrid(values.Length1, values.Length0, x, y) && values[y, x] != 0;
    assert Snapshot(values).At(x, y) == values[y, x];
  }

  /** The check of the dimensions, which divides, is that the bytes of the grid
   are no more than a size_t may count. */
  lemma SizeFits(w: nat, h: nat, sizeMax: nat)
    requires h > 0
    ensures w <= sizeMax / 4 / h <==> 4 * (w * h) <= sizeMax
  {
    var cells := sizeMax / 4;
    DivBounds(cells, h);
    if w <= cells / h {
      MulLe(w, cells / h, h);
    } else {
      MulLe(cells / h + 1, w, h);
    }
  }

  /** celestial_model_relax(): four passes that end in the grid itself, or none
   when nothing is lit, for which no scratch grid is needed. */
  method Relax(values: array2<int>, spill: SpillFn, sizeMax: nat, granted: bool) returns (ok: bool)
    modifies values
    ensures var w, h := values.Length1, values.Length0;
      ok <==> w > 0 && h > 0 && 4 * (w * h) <= sizeMax && (granted || Within(old(Snapshot(values)), 0))
    ensures ok ==> Snapshot(values) == Passes(old(Snapshot(values)), spill, PASSES)
    ensures !ok ==> unchanged(values)
  {
    hide Pass, Passes, Snapshot;
    if values.Length1 == 0 || values.Length0 == 0 {
      return false;
    }
    SizeFits(values.Length1, values.Length0, sizeMax);
    if values.Length1 > sizeMax / 4 / values.Length0 {
      return false;
    }
    ghost var g := Snapshot(values);
    var active := IsActive(values);
    if !active {
      UnlitStays(g, spill, PASSES);
      return true;
    }
    LitSomewhere(values);
    if !granted {
      return false;
    }
    RelaxPasses(values, spill);
    ok := true;
  }

  /** The passes, by turns into a scratch grid and back. */
  method RelaxPasses(values: array2<int>, spill: SpillFn)
    modifies values
    ensures Snapshot(values) == Passes(old(Snapshot(values)), spill, PASSES)
  {
    hide Pass, Passes, Snapshot;
    ghost var g := Snapshot(values);
    var scratch := new int[values.Length0, values.Length1];
    var from, to := values, scratch;
    var pass := 0;
    NoPass(g, spill);
    while pass < PASSES
      invariant 0 <= pass <= PASSES
      invariant (from, to) == if pass % 2 == 0 then (values, scratch) else (scratch, values)
      invariant Snapshot(from) == Passes(g, spill, pass)
    {
      RelaxAll(from, to, spill);
      OnePass(g, spill, pass);
      from, to := to, from;
      pass := pass + 1;
    }
    // The passes are even in number, so the copy back is never needed.
    assert from == values;
  }

  lemma NoPass(g: Grid, spill: SpillFn)
    ensures Passes(g, spill, 0) == g
  {}

  lemma OnePass(g: Grid, spill: SpillFn, k: nat)
    ensures Passes(g, spill, k + 1) == Pass(Passes(g, spill, k), spill)
  {}
}
