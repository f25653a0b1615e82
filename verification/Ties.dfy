/**
 What an event lists: the corners of the box between a position and where the
 event goes, and the edges between neighbouring corners, and nothing else.
 */
module Ties {
  import opened Lattices
  import opened Traversal
  import opened Seams

  function Plus(p: Vec, n: Vec): Vec { Vec(p.x + n.x, p.y + n.y, p.z + n.z) }

  /** A corner of the box an event goes through. */
  predicate IsCorner(c: CursorState, axes: Axes, p: Vec) {
    var there := Step(c.position, c.direction, axes);
    (p.x == c.position.x || p.x == there.x) && (p.y == c.position.y || p.y == there.y)
    && (p.z == c.position.z || p.z == there.z)
  }

  /** The edge from a corner to the next along a normal of the way ahead. */
  predicate IsEdge(c: CursorState, axes: Axes, p: Vec, n: Vec) {
    IsUnit(n) && IsCorner(c, axes, p) && IsCorner(c, axes, Plus(p, n))
    && n.x * c.direction.x >= 0 && n.y * c.direction.y >= 0 && n.z * c.direction.z >= 0
  }

  function FaceOf(l: Lattice, origin: Handle, p: Vec, n: Vec): Face {
    Face(Resolved(l, origin, p), Resolved(l, origin, Plus(p, n)), n)
  }

  /** A tie crosses only axes there is a way along. */
  predicate Crossable(c: CursorState, axes: Axes) {
    (axes.x ==> c.direction.x != 0) && (axes.y ==> c.direction.y != 0) && (axes.z ==> c.direction.z != 0)
  }

  /** Every listed face is an edge, crossed from the corner behind to the one ahead. */
  lemma FaceIsEdge(l: Lattice, c: CursorState, axes: Axes, i: nat) returns (p: Vec, n: Vec)
    requires Crossable(c, axes) && i < |FacesUpTo(l, c, axes, 24)|
    ensures IsEdge(c, axes, p, n) && FacesUpTo(l, c, axes, 24)[i] == FaceOf(l, c.origin, p, n)
  {
    hide FacesUpTo;
    var mask, axis := FaceListed(l, c, axes, 24, i);
    p, n := Step(c.position, c.direction, mask), ZERO.Put(axis, Unit(c.direction.At(axis)));
    EdgeOfMask(c, axes, mask, axis);
    assert Step(c.position, c.direction, mask.With(axis)) == Plus(p, n);
  }

  lemma EdgeOfMask(c: CursorState, axes: Axes, mask: Axes, axis: nat)
    requires Crossable(c, axes) && axis < 3 && IsFace(axes, mask, axis)
    ensures var p, n := Step(c.position, c.direction, mask), ZERO.Put(axis, Unit(c.direction.At(axis)));
      IsEdge(c, axes, p, n) && Step(c.position, c.direction, mask.With(axis)) == Plus(p, n)
  {}

  /** Every edge is listed. */
  lemma EdgeIsFace(l: Lattice, c: CursorState, axes: Axes, p: Vec, n: Vec) returns (i: nat)
    requires Crossable(c, axes) && IsEdge(c, axes, p, n)
    ensures i < |FacesUpTo(l, c, axes, 24)| && FacesUpTo(l, c, axes, 24)[i] == FaceOf(l, c.origin, p, n)
  {
    hide FacesUpTo;
    var axis: nat := if n.x != 0 then 0 else if n.y != 0 then 1 else 2;
    var mask := Axes(p.x != c.position.x, p.y != c.position.y, p.z != c.position.z);
    i := FaceFound(l, c, axes, 24, mask, axis);
  }

  lemma {:induction false} CellFound(l: Lattice, c: CursorState, axes: Axes, n: nat, m: nat)
    requires m < n <= 8 && m != 0 && AxesOf(m).Within(axes)
    ensures Touched(l, c, AxesOf(m)) in CellsUpTo(l, c, axes, n)
    decreases n
  {
    hide Touched;
    if m < n - 1 {
      CellFound(l, c, axes, n - 1, m);
    }
  }

  lemma {:induction false} CellListed(l: Lattice, c: CursorState, axes: Axes, n: nat, cell: Cell) returns (m: nat)
    requires n <= 8 && cell in CellsUpTo(l, c, axes, n)
    ensures 0 < m < n && AxesOf(m).Within(axes) && cell == Touched(l, c, AxesOf(m))
    decreases n
  {
    hide Touched;
    if cell in CellsUpTo(l, c, axes, n - 1) {
      m := CellListed(l, c, axes, n - 1, cell);
    } else {
      m := n - 1;
    }
  }

  lemma CornerOfMask(c: CursorState, axes: Axes, mask: Axes)
    requires Crossable(c, axes) && mask.Within(axes)
    ensures IsCorner(c, axes, Step(c.position, c.direction, mask))
    ensures mask != NO_AXES ==> Step(c.position, c.direction, mask) != c.position
  {}

  lemma MaskOfCorner(c: CursorState, axes: Axes, p: Vec) returns (mask: Axes)
    requires IsCorner(c, axes, p)
    ensures mask.Within(axes) && p == Step(c.position, c.direction, mask)
  {
    mask := Axes(p.x != c.position.x, p.y != c.position.y, p.z != c.position.z);
  }

  lemma FirstCrossable(c: CursorState)
    ensures Crossable(c, FirstAxes(c.direction, c.crossed))
  {}

  /** The faces of an event are the edges of its box. */
  lemma FacesAreEdges(l: Lattice, c: CursorState, f: Face)
    ensures var axes := FirstAxes(c.direction, c.crossed);
      f in EventOf(l, c).faces <==> exists p: Vec, n: Vec :: IsEdge(c, axes, p, n) && f == FaceOf(l, c.origin, p, n)
  {
    hide FirstAxes, FacesUpTo, CellsUpTo, ResolvedUpTo, IsEdge, FaceOf;
    var axes := FirstAxes(c.direction, c.crossed);
    FirstCrossable(c);
    if f in FacesUpTo(l, c, axes, 24) {
      var i :| 0 <= i < |FacesUpTo(l, c, axes, 24)| && FacesUpTo(l, c, axes, 24)[i] == f;
      var p, n := FaceIsEdge(l, c, axes, i);
    }
    if p: Vec, n: Vec :| IsEdge(c, axes, p, n) && f == FaceOf(l, c.origin, p, n) {
      var i := EdgeIsFace(l, c, axes, p, n);
    }
  }

  /** Its cells are those of the corners, all but the one it comes from, and it is
   valid exactly when every corner's resolves. */
  lemma CellsAreCorners(l: Lattice, c: CursorState, cell: Cell)
    ensures var event, axes := EventOf(l, c), FirstAxes(c.direction, c.crossed);
      && event.destination == Resolved(l, c.origin, Step(c.position, c.direction, axes))
      && (cell in event.cells <==>
            exists p: Vec :: IsCorner(c, axes, p) && p != c.position && cell == Resolved(l, c.origin, p))
      && (event.valid <==> forall p: Vec :: IsCorner(c, axes, p) ==> Resolved(l, c.origin, p).site != NULL)
  {
    hide FirstAxes, FacesUpTo, CellsUpTo, IsCorner;
    var axes := FirstAxes(c.direction, c.crossed);
    FirstCrossable(c);
    if cell in CellsUpTo(l, c, axes, 8) {
      var m := CellListed(l, c, axes, 8, cell);
      CornerOfMask(c, axes, AxesOf(m));
    }
    if p: Vec :| IsCorner(c, axes, p) && p != c.position && cell == Resolved(l, c.origin, p) {
      var mask := MaskOfCorner(c, axes, p);
      MaskOf(mask);
      CellFound(l, c, axes, 8, Mask(mask));
    }
    CornersResolve(l, c, axes);
  }

  lemma CornersResolve(l: Lattice, c: CursorState, axes: Axes)
    requires Crossable(c, axes)
    ensures ResolvedUpTo(l, c, axes, 8) <==>
              forall p: Vec :: IsCorner(c, axes, p) ==> Resolved(l, c.origin, p).site != NULL
  {
    hide IsCorner, Step, AxesOf;
    if ResolvedUpTo(l, c, axes, 8) {
      forall p: Vec | IsCorner(c, axes, p)
        ensures Resolved(l, c.origin, p).site != NULL
      {
        var mask := MaskOfCorner(c, axes, p);
        MaskOf(mask);
      }
    } else {
      var m: nat :| m < 8 && AxesOf(m).Within(axes) && Touched(l, c, AxesOf(m)).site == NULL;
      CornerOfMask(c, axes, AxesOf(m));
    }
  }
}
