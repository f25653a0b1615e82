/**
 Which light one cell spills into the next: the faces of the one or four cells
 between them, read off the lattice without a cursor.
 */
module SpillFaces {
  import opened FixedPoint
  import opened Lattices
  import opened Traversal
  import opened Solver

  predicate IsStep(dx: int, dy: int) { -1 <= dx <= 1 && -1 <= dy <= 1 && !(dx == 0 && dy == 0) }

  /** The cell a displacement leads to from another cell. */
  function Beside(l: Lattice, cell: Cell, dx: int, dy: int): Cell { l.resolve(cell.site, cell.x + dx, cell.y + dy, 0) }

  /** The faces between a cell and the one a step away: one to a side, and all
   four of the two by two cells around a corner. */
  function FacesBetween(l: Lattice, cell: Cell, dx: int, dy: int): seq<Face> {
    var here, there := Beside(l, cell, 0, 0), Beside(l, cell, dx, dy);
    if dx == 0 || dy == 0 then [Face(here, there, Vec(dx, dy, 0))]
    else
      var side, other := Beside(l, cell, dx, 0), Beside(l, cell, 0, dy);
      [Face(here, side, Vec(dx, 0, 0)), Face(here, other, Vec(0, dy, 0)),
       Face(side, there, Vec(0, dy, 0)), Face(other, there, Vec(dx, 0, 0))]
  }

  /** A face between two cells that may be used, and that joins them. */
  predicate Joins(l: Lattice, face: Face) {
    && face.from.site != NULL && face.to.site != NULL
    && l.observe(face.from.site) && l.observe(face.to.site) && l.continuous(face)
  }

  predicate AllJoin(l: Lattice, faces: seq<Face>) { forall i :: 0 <= i < |faces| ==> Joins(l, faces[i]) }

  /** The least light any of some faces lets through, and no more than all of it. */
  ghost predicate IsLeast(l: Lattice, faces: seq<Face>, r: nat) {
    && r <= SCALE
    && (forall i :: 0 <= i < |faces| ==> r <= l.light(faces[i]).coefficient)
    && (r == SCALE || exists i :: 0 <= i < |faces| && r == l.light(faces[i]).coefficient)
  }

  // ---- the tie of one step -------------------------------------------------

  lemma {:induction false} FlatFaces(l: Lattice, c: CursorState, axes: Axes, n: nat)
    requires 12 <= n <= 24 && !axes.z
    ensures FacesUpTo(l, c, axes, n) == FacesUpTo(l, c, axes, 12)
    decreases n
  {
    hide FaceAt;
    if n > 12 {
      FlatFaces(l, c, axes, n - 1);
      assert AxesOf((n - 1) / 3).z;
    }
  }

  function FaceIf(l: Lattice, c: CursorState, axes: Axes, mask: nat, axis: nat): seq<Face>
    requires mask < 8 && axis < 3
  {
    if IsFace(axes, AxesOf(mask), axis) then [FaceAt(l, c, AxesOf(mask), axis)] else []
  }

  lemma MaskFaces(l: Lattice, c: CursorState, axes: Axes, mask: nat)
    requires mask < 4 && !axes.z
    ensures FacesUpTo(l, c, axes, 3 * mask + 3)
         == FacesUpTo(l, c, axes, 3 * mask) + FaceIf(l, c, axes, mask, 0) + FaceIf(l, c, axes, mask, 1)
  {
    hide FacesUpTo, FaceAt;
    FacesStep(l, c, axes, mask, 0);
    FacesStep(l, c, axes, mask, 1);
    FacesStep(l, c, axes, mask, 2);
  }

  lemma TakenFaces(l: Lattice, c: CursorState, axes: Axes)
    ensures FaceIf(l, c, axes, 1, 0) == FaceIf(l, c, axes, 2, 1) == []
    ensures FaceIf(l, c, axes, 3, 0) == FaceIf(l, c, axes, 3, 1) == []
  {
    hide FaceAt;
  }

  lemma Chain(s: seq<Face>, a: seq<Face>, b: seq<Face>, c: seq<Face>, d: seq<Face>)
    requires s == [] + a + b
    ensures s + [] + c + d + [] + [] + [] == a + b + c + d
    ensures s + [] + c + d + [] == s + [] + c + d
  {}

  lemma PlaneFaces(l: Lattice, c: CursorState, axes: Axes)
    requires !axes.z
    ensures FacesUpTo(l, c, axes, 24)
         == FaceIf(l, c, axes, 0, 0) + FaceIf(l, c, axes, 0, 1) + FaceIf(l, c, axes, 1, 1) + FaceIf(l, c, axes, 2, 0)
  {
    FlatFaces(l, c, axes, 24);
    FacesStart(l, c, axes);
    TakenFaces(l, c, axes);
    hide FacesUpTo, FaceIf;
    MaskFaces(l, c, axes, 0);
    MaskFaces(l, c, axes, 1);
    MaskFaces(l, c, axes, 2);
    MaskFaces(l, c, axes, 3);
    Chain(FacesUpTo(l, c, axes, 3), FaceIf(l, c, axes, 0, 0), FaceIf(l, c, axes, 0, 1), FaceIf(l, c, axes, 1, 1),
          FaceIf(l, c, axes, 2, 0));
  }

  /** The cursor of one step from a cell. */
  function Stepping(cell: Cell, dx: int, dy: int): CursorState {
    CursorState(cell.site, Vec(cell.x, cell.y, 0), Vec(dx, dy, 0), Vec(cell.x + dx, cell.y + dy, 0), ZERO, 0,
                MAX_EVENTS, true, false)
  }

  lemma StepStarts(l: Lattice, cell: Cell, dx: int, dy: int)
    requires IsStep(dx, dy)
    ensures var c := SegmentInit(l, cell.site, cell.x, cell.y, Vec(dx, dy, 0));
      if InCoordinates(cell.x, cell.y) && Beside(l, cell, 0, 0).site != NULL then c == Stepping(cell, dx, dy)
      else c.failed
  {}

  lemma StepCrosses(cell: Cell, dx: int, dy: int)
    requires IsStep(dx, dy)
    ensures FirstAxes(Vec(dx, dy, 0), ZERO) == Axes(dx != 0, dy != 0, false)
  {
    var d, axes := Vec(dx, dy, 0), FirstAxes(Vec(dx, dy, 0), ZERO);
    assert d.At(0) == dx && d.At(1) == dy && d.At(2) == 0;
    forall a: nat, b: nat | a < 3 && b < 3 && d.At(a) != 0 && d.At(b) != 0
      ensures NotAfter(d, ZERO, a, b)
    {}
  }

  lemma StepTouches(l: Lattice, cell: Cell, dx: int, dy: int, mask: Axes)
    requires IsStep(dx, dy) && mask.Within(Axes(dx != 0, dy != 0, false))
    ensures Touched(l, Stepping(cell, dx, dy), mask)
         == Beside(l, cell, if mask.x then dx else 0, if mask.y then dy else 0)
  {}

  lemma StepFace(l: Lattice, cell: Cell, dx: int, dy: int, mask: nat, axis: nat)
    requires IsStep(dx, dy) && mask < 3 && axis < 2
    ensures var axes, far := Axes(dx != 0, dy != 0, false), AxesOf(mask);
      var sx, sy := if far.x then dx else 0, if far.y then dy else 0;
      FaceIf(l, Stepping(cell, dx, dy), axes, mask, axis)
      == if !IsFace(axes, far, axis) then []
         else if axis == 0 then [Face(Beside(l, cell, sx, sy), Beside(l, cell, dx, sy), Vec(dx, 0, 0))]
         else [Face(Beside(l, cell, sx, sy), Beside(l, cell, sx, dy), Vec(0, dy, 0))]
  {
    hide Touched, Beside;
    var axes, far := Axes(dx != 0, dy != 0, false), AxesOf(mask);
    if IsFace(axes, far, axis) {
      StepTouches(l, cell, dx, dy, far);
      StepTouches(l, cell, dx, dy, far.With(axis));
    }
  }

  lemma StepFaces(l: Lattice, cell: Cell, dx: int, dy: int)
    requires IsStep(dx, dy)
    ensures FacesUpTo(l, Stepping(cell, dx, dy), Axes(dx != 0, dy != 0, false), 24) == FacesBetween(l, cell, dx, dy)
  {
    var c, axes := Stepping(cell, dx, dy), Axes(dx != 0, dy != 0, false);
    PlaneFaces(l, c, axes);
    hide FaceIf, FacesUpTo, Beside, Stepping;
    StepFace(l, cell, dx, dy, 0, 0);
    StepFace(l, cell, dx, dy, 0, 1);
    StepFace(l, cell, dx, dy, 1, 1);
    StepFace(l, cell, dx, dy, 2, 0);
  }

  /** Every cell a step touches is the end of one of its faces. */
  lemma StepResolved(l: Lattice, cell: Cell, dx: int, dy: int)
    requires IsStep(dx, dy)
    ensures var faces := FacesBetween(l, cell, dx, dy);
      ResolvedUpTo(l, Stepping(cell, dx, dy), Axes(dx != 0, dy != 0, false), 8)
      <==> forall i :: 0 <= i < |faces| ==> faces[i].from.site != NULL && faces[i].to.site != NULL
  {
    hide Touched, Beside, Stepping;
    var c, axes, faces := Stepping(cell, dx, dy), Axes(dx != 0, dy != 0, false), FacesBetween(l, cell, dx, dy);
    forall mask: Axes | mask.Within(axes)
      ensures Touched(l, c, mask) == Beside(l, cell, if mask.x then dx else 0, if mask.y then dy else 0)
      ensures AxesOf(Mask(mask)) == mask
    {
      StepTouches(l, cell, dx, dy, mask);
      MaskOf(mask);
    }
    assert NO_AXES.Within(axes) && axes.Within(axes);
    if ResolvedUpTo(l, c, axes, 8) {
      forall mask: Axes | mask.Within(axes)
        ensures Beside(l, cell, if mask.x then dx else 0, if mask.y then dy else 0).site != NULL
      {
        assert AxesOf(Mask(mask)).Within(axes);
      }
      assert Beside(l, cell, 0, 0).site != NULL by { assert NO_AXES.Within(axes); }
      assert Beside(l, cell, dx, dy).site != NULL by { assert axes.Within(axes); }
      if dx != 0 && dy != 0 {
        assert Axes(true, false, false).Within(axes) && Axes(false, true, false).Within(axes);
      }
    } else {
      var m: nat :| m < 8 && AxesOf(m).Within(axes) && Touched(l, c, AxesOf(m)).site == NULL;
      var mask := AxesOf(m);
      assert Beside(l, cell, if mask.x then dx else 0, if mask.y then dy else 0).site == NULL;
      assert |faces| > 0;
      if dx != 0 && dy != 0 {
        assert faces[0].from.site == NULL || faces[0].to.site == NULL
            || faces[3].from.site == NULL || faces[3].to.site == NULL;
      } else {
        assert faces[0].from.site == NULL || faces[0].to.site == NULL;
      }
    }
  }

  // ---- spill ---------------------------------------------------------------

  /** The one event of a step. */
  lemma StepEvent(l: Lattice, cell: Cell, dx: int, dy: int)
    requires IsStep(dx, dy)
    ensures var o, faces := Advance(l, Stepping(cell, dx, dy)), FacesBetween(l, cell, dx, dy);
      && o.status == 1 && o.event.faces == faces
      && (o.event.valid <==> forall i :: 0 <= i < |faces| ==> faces[i].from.site != NULL && faces[i].to.site != NULL)
  {
    hide FacesUpTo, ResolvedUpTo, CellsUpTo, Touched, FacesBetween, FirstAxes;
    StepCrosses(cell, dx, dy);
    StepFaces(l, cell, dx, dy);
    StepResolved(l, cell, dx, dy);
    AdvanceEvent(l, Stepping(cell, dx, dy));
  }

  lemma PassableJoins(l: Lattice, event: Event)
    requires event.valid <==> forall i :: 0 <= i < |event.faces| ==>
               event.faces[i].from.site != NULL && event.faces[i].to.site != NULL
    ensures Passable(l, event) <==> AllJoin(l, event.faces)
  {
    var faces := event.faces;
    if AllJoin(l, faces) {
      forall i | 0 <= i < |faces|
        ensures Observed(l, faces[i].from.site) && Observed(l, faces[i].to.site) && l.continuous(faces[i])
        ensures faces[i].from.site != NULL && faces[i].to.site != NULL
      {
        assert Joins(l, faces[i]);
      }
    }
  }

  lemma {:induction false} WeakestIsLeast(l: Lattice, faces: seq<Face>, n: nat)
    requires n <= |faces|
    ensures IsLeast(l, faces[..n], Weakest(l, faces, n))
    decreases n
  {
    if n > 0 {
      WeakestIsLeast(l, faces, n - 1);
      var before, some := faces[..n - 1], faces[..n];
      assert some == before + [faces[n - 1]];
      var r, s := Weakest(l, faces, n - 1), Weakest(l, faces, n);
      assert some[n - 1] == faces[n - 1];
      if s == r && r != SCALE {
        var i :| 0 <= i < |before| && r == l.light(before[i]).coefficient;
        assert some[i] == before[i];
      }
    }
  }

  /** Only one number is the least of some faces. */
  lemma LeastUnique(l: Lattice, faces: seq<Face>, r: nat, s: nat)
    requires IsLeast(l, faces, r) && IsLeast(l, faces, s)
    ensures r == s
  {}

  lemma FacesStartHere(l: Lattice, cell: Cell, dx: int, dy: int)
    ensures AllJoin(l, FacesBetween(l, cell, dx, dy)) ==> Beside(l, cell, 0, 0).site != NULL
  {
    hide Beside;
    var faces := FacesBetween(l, cell, dx, dy);
    assert |faces| > 0 && faces[0].from == Beside(l, cell, 0, 0);
  }

  /** The coefficient of a step is that of the faces it crosses. */
  lemma StepIsLeast(l: Lattice, cell: Cell, dx: int, dy: int)
    requires IsStep(dx, dy)
    ensures var faces, r := FacesBetween(l, cell, dx, dy), StepCoefficient(l, cell, dx, dy);
      if InCoordinates(cell.x, cell.y) && AllJoin(l, faces) then IsLeast(l, faces, r) else r == 0
  {
    hide Advance, SegmentInit, FacesBetween, Passable, AllJoin, Beside, Joins, IsLeast;
    var faces := FacesBetween(l, cell, dx, dy);
    StepStarts(l, cell, dx, dy);
    StepEvent(l, cell, dx, dy);
    PassableJoins(l, Advance(l, Stepping(cell, dx, dy)).event);
    WeakestIsLeast(l, faces, |faces|);
    assert faces[..|faces|] == faces;
    FacesStartHere(l, cell, dx, dy);
  }

  /** Light spills into a cell from the one a step away exactly through the faces
   between them, from there to here, if every one joins its cells: as much as the
   weakest of them lets through. */
  lemma SpillIsLeast(p: Problem, x: int, y: int, dx: int, dy: int)
    requires IsStep(dx, dy) && InCoordinates(x, y)
    ensures var cell, r := HaloCell(p, x + dx, y + dy), SpillCoefficient(p, x, y, dx, dy);
      var faces := FacesBetween(p.lattice, cell, -dx, -dy);
      if cell.site != NULL && InCoordinates(cell.x, cell.y) && AllJoin(p.lattice, faces)
      then IsLeast(p.lattice, faces, r) else r == 0
  {
    hide HaloCell, StepCoefficient, FacesBetween, AllJoin, IsLeast;
    StepIsLeast(p.lattice, HaloCell(p, x + dx, y + dy), -dx, -dy);
  }
}
