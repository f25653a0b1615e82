/**
 Walking a segment both ways: on a lattice whose faces are seams, continuous
 from both sides or from neither, and whose cells are the same from wherever
 they are resolved, a segment is passable forwards exactly when it is backwards.
 */
module Seams {
  import opened Lattices
  import opened Traversal
  import opened TraversalOrder
  import opened Solver

  /** The same cell, its level counted from another origin. */
  predicate SameCell(a: Cell, b: Cell) { a.site == b.site && a.x == b.x && a.y == b.y }

  /** One face crossed in opposite directions. */
  predicate Opposite(f: Face, g: Face) {
    SameCell(f.from, g.to) && SameCell(f.to, g.from) && g.normal == Negate(f.normal)
  }

  ghost predicate Seamless(l: Lattice) {
    forall f: Face, g: Face :: Opposite(f, g) ==> l.continuous(f) == l.continuous(g)
  }

  function Offset(r: Vec, p: Vec, d: Vec, q: Vec): Vec {
    Vec(q.x + r.x - p.x - d.x, q.y + r.y - p.y - d.y, q.z + r.z - p.z - d.z)
  }

  function Resolved(l: Lattice, origin: Handle, r: Vec): Cell { l.resolve(origin, r.x, r.y, r.z) }

  /** From both ends of a displacement, p by one origin and q by another, the
   points between them are the same cells. */
  ghost predicate SameWay(l: Lattice, a: Handle, p: Vec, d: Vec, b: Handle, q: Vec) {
    forall r: Vec :: InPath(p, d, r) ==> SameCell(Resolved(l, a, r), Resolved(l, b, Offset(r, p, d, q)))
  }

  // ---- the faces of a tie --------------------------------------------------

  function Without(axes: Axes, mask: Axes): Axes {
    Axes(axes.x && !mask.x, axes.y && !mask.y, axes.z && !mask.z)
  }

  /** Every listed face is one of the tie's. */
  lemma {:induction false} FaceListed(l: Lattice, c: CursorState, axes: Axes, n: nat, i: nat)
    returns (mask: Axes, axis: nat)
    requires n <= 24 && i < |FacesUpTo(l, c, axes, n)|
    ensures axis < 3 && IsFace(axes, mask, axis) && FacesUpTo(l, c, axes, n)[i] == FaceAt(l, c, mask, axis)
    decreases n
  {
    hide FaceAt;
    if i < |FacesUpTo(l, c, axes, n - 1)| {
      mask, axis := FaceListed(l, c, axes, n - 1, i);
    } else {
      mask, axis := AxesOf((n - 1) / 3), (n - 1) % 3;
    }
  }

  /** Every face of a tie is listed. */
  lemma {:induction false} FaceFound(l: Lattice, c: CursorState, axes: Axes, n: nat, mask: Axes, axis: nat)
    returns (i: nat)
    requires n <= 24 && axis < 3 && IsFace(axes, mask, axis) && 3 * Mask(mask) + axis < n
    ensures i < |FacesUpTo(l, c, axes, n)| && FacesUpTo(l, c, axes, n)[i] == FaceAt(l, c, mask, axis)
    decreases n
  {
    hide FaceAt;
    MaskOf(mask);
    if 3 * Mask(mask) + axis == n - 1 {
      PairNumber(Mask(mask), axis);
      i := |FacesUpTo(l, c, axes, n)| - 1;
    } else {
      i := FaceFound(l, c, axes, n - 1, mask, axis);
    }
  }

  lemma PairNumber(mask: nat, axis: nat)
    requires axis < 3
    ensures (3 * mask + axis) / 3 == mask && (3 * mask + axis) % 3 == axis
  {}

  /** The cells of a tie, and of the tie the way back crosses there. */
  ghost predicate TiesMatch(l: Lattice, c: CursorState, r: CursorState, axes: Axes) {
    && r.direction == Negate(c.direction)
    && (forall axis: nat :: axis < 3 && axes.Has(axis) ==> c.direction.At(axis) != 0)
    && forall mask: Axes :: mask.Within(axes) ==> SameCell(Touched(l, c, mask), Touched(l, r, Without(axes, mask)))
  }

  lemma MatchBack(l: Lattice, c: CursorState, r: CursorState, axes: Axes)
    requires TiesMatch(l, c, r, axes)
    ensures TiesMatch(l, r, c, axes)
  {
    hide Touched;
    forall mask: Axes | mask.Within(axes)
      ensures SameCell(Touched(l, r, mask), Touched(l, c, Without(axes, mask)))
    {
      assert Without(axes, Without(axes, mask)) == mask;
      assert Without(axes, mask).Within(axes);
    }
  }

  lemma AxesBack(axes: Axes, mask: Axes, axis: nat)
    requires axis < 3 && IsFace(axes, mask, axis)
    ensures var other := Without(axes, mask.With(axis));
      && IsFace(axes, other, axis) && other.With(axis) == Without(axes, mask)
      && mask.Within(axes) && mask.With(axis).Within(axes) && axes.Has(axis)
  {}

  lemma NormalBack(d: Vec, axis: nat)
    requires axis < 3 && d.At(axis) != 0
    ensures ZERO.Put(axis, Unit(Negate(d).At(axis))) == Negate(ZERO.Put(axis, Unit(d.At(axis))))
  {}

  /** A face of a tie, and the same face of the tie on the way back. */
  lemma FaceBack(l: Lattice, c: CursorState, r: CursorState, axes: Axes, mask: Axes, axis: nat)
    requires TiesMatch(l, c, r, axes) && axis < 3 && IsFace(axes, mask, axis)
    ensures var other := Without(axes, mask.With(axis));
      IsFace(axes, other, axis) && Opposite(FaceAt(l, c, mask, axis), FaceAt(l, r, other, axis))
  {
    hide Touched, Without, IsFace, Axes.With, Axes.Within, Axes.Has, Vec.Put, Vec.At, Unit, SameCell, Negate;
    AxesBack(axes, mask, axis);
    NormalBack(c.direction, axis);
    assert SameCell(Touched(l, c, mask), Touched(l, r, Without(axes, mask)));
    assert SameCell(Touched(l, c, mask.With(axis)), Touched(l, r, Without(axes, mask.With(axis))));
  }

  function TieFaces(l: Lattice, c: CursorState, axes: Axes): seq<Face> { FacesUpTo(l, c, axes, 24) }

  /** Every face of a tie is one of the tie on the way back. */
  lemma TieBack(l: Lattice, c: CursorState, r: CursorState, axes: Axes, i: nat) returns (j: nat)
    requires TiesMatch(l, c, r, axes) && i < |TieFaces(l, c, axes)|
    ensures j < |TieFaces(l, r, axes)| && Opposite(TieFaces(l, c, axes)[i], TieFaces(l, r, axes)[j])
  {
    hide FacesUpTo, FaceAt, TiesMatch;
    var mask, axis := FaceListed(l, c, axes, 24, i);
    FaceBack(l, c, r, axes, mask, axis);
    j := FaceFound(l, r, axes, 24, Without(axes, mask.With(axis)), axis);
  }

  predicate FacesObserved(l: Lattice, faces: seq<Face>) {
    forall i :: 0 <= i < |faces| ==> Observed(l, faces[i].from.site) && Observed(l, faces[i].to.site)
  }

  lemma TiePassable(l: Lattice, c: CursorState, r: CursorState, axes: Axes)
    requires Seamless(l) && TiesMatch(l, c, r, axes)
    ensures AllContinuous(l, TieFaces(l, c, axes)) ==> AllContinuous(l, TieFaces(l, r, axes))
    ensures FacesObserved(l, TieFaces(l, c, axes)) ==> FacesObserved(l, TieFaces(l, r, axes))
  {
    hide TieFaces, TiesMatch;
    MatchBack(l, c, r, axes);
    var f, g := TieFaces(l, c, axes), TieFaces(l, r, axes);
    forall j | 0 <= j < |g|
      ensures AllContinuous(l, f) ==> l.continuous(g[j])
      ensures FacesObserved(l, f) ==> Observed(l, g[j].from.site) && Observed(l, g[j].to.site)
    {
      var i := TieBack(l, r, c, axes, j);
      assert Opposite(g[j], f[i]);
    }
  }

  // ---- events --------------------------------------------------------------

  lemma AxisBack(p: int, d: int, n: int, crossed: bool, stepped: bool, q: int)
    requires 0 <= n <= Abs(d) && (crossed ==> d != 0 && n < Abs(d)) && (stepped ==> crossed)
    ensures var there := p + Signed(d, n) + if stepped then Unit(d) else 0;
      var rest := Abs(d) - (n + if crossed then 1 else 0);
      q + Signed(-d, rest) + (if crossed && !stepped then Unit(-d) else 0) == q + there - p - d
  {}

  /** The tie of an event, and the tie at the same place on the way back. */
  lemma EventBack(l: Lattice, a: Handle, p: Vec, d: Vec, b: Handle, q: Vec, c: Vec)
    requires SameWay(l, a, p, d, b, q) && Cut(d, c) && c != Total(d)
    ensures TiesMatch(l, Standing(a, Position(p, d, c), d),
                      Standing(b, Position(q, Negate(d), Mirror(d, After(d, c))), Negate(d)), FirstAxes(d, c))
  {
    hide InPath, FirstAxes, Cut, Total;
    var axes := FirstAxes(d, c);
    var s := Standing(a, Position(p, d, c), d);
    var t := Standing(b, Position(q, Negate(d), Mirror(d, After(d, c))), Negate(d));
    TouchedInPath(p, d, c);
    CutInside(d, c);
    forall mask: Axes | mask.Within(axes)
      ensures SameCell(Touched(l, s, mask), Touched(l, t, Without(axes, mask)))
    {
      var r := Step(Position(p, d, c), d, mask);
      AxisBack(p.x, d.x, c.x, axes.x, mask.x, q.x);
      AxisBack(p.y, d.y, c.y, axes.y, mask.y, q.y);
      AxisBack(p.z, d.z, c.z, axes.z, mask.z, q.z);
      assert Step(t.position, Negate(d), Without(axes, mask)) == Offset(r, p, d, q);
      assert Touched(l, s, mask) == Resolved(l, a, r);
    }
  }

  lemma CutInside(d: Vec, c: Vec)
    requires Cut(d, c) && c != Total(d)
    ensures 0 <= c.x <= Abs(d.x) && 0 <= c.y <= Abs(d.y) && 0 <= c.z <= Abs(d.z)
    ensures FirstAxes(d, c).x ==> d.x != 0 && c.x < Abs(d.x)
    ensures FirstAxes(d, c).y ==> d.y != 0 && c.y < Abs(d.y)
    ensures FirstAxes(d, c).z ==> d.z != 0 && c.z < Abs(d.z)
  {
    assert 0 <= c.At(0) <= Abs(d.At(0)) && 0 <= c.At(1) <= Abs(d.At(1)) && 0 <= c.At(2) <= Abs(d.At(2));
    if IsFirst(d, c, 0) {
      NoOvershoot(d, c, 0);
    }
    if IsFirst(d, c, 1) {
      NoOvershoot(d, c, 1);
    }
    if IsFirst(d, c, 2) {
      NoOvershoot(d, c, 2);
    }
  }

  // ---- whole segments ------------------------------------------------------

  /** What the way back meets is what the way there met. */
  lemma ResolvesBack(l: Lattice, a: Handle, p: Vec, d: Vec, b: Handle, q: Vec)
    requires ResolvesAlong(l, a, p, d) && SameWay(l, a, p, d, b, q)
    ensures ResolvesAlong(l, b, q, Negate(d))
  {
    forall t: Vec | InPath(q, Negate(d), t)
      ensures l.resolve(b, t.x, t.y, t.z).site != NULL
    {
      var r := Vec(p.x + d.x + t.x - q.x, p.y + d.y + t.y - q.y, p.z + d.z + t.z - q.z);
      assert InPath(p, d, r) && Offset(r, p, d, q) == t;
      assert SameCell(Resolved(l, a, r), Resolved(l, b, t));
    }
  }

  /** One event of a segment and the same event of the segment back. */
  lemma PassableBack(l: Lattice, a: Handle, p: Vec, d: Vec, b: Handle, q: Vec,
                     forth: seq<Event>, behind: seq<Event>, i: nat)
    requires Seamless(l) && SameWay(l, a, p, d, b, q) && Cut(d, ZERO)
    requires AreEvents(l, a, p, d, Cuts(d, ZERO), forth) && AreEvents(l, b, q, Negate(d), Cuts(d, ZERO), behind)
    requires |forth| == |behind| && i < |forth|
    ensures Passable(l, forth[i]) <==> Passable(l, behind[|forth| - 1 - i])
  {
    hide Cut, Cuts, FirstAxes, Negate, Position, Seamless, SameWay, TiesMatch, AllContinuous, FacesUpTo, After, Mirror;
    var s, j := Cuts(d, ZERO), |forth| - 1 - i;
    assert IsEvent(l, a, p, d, s, forth[i], i);
    assert IsEvent(l, b, q, Negate(d), s, behind[j], j);
    NegateFirst(d, s[j]);
    CutsFollow(d, ZERO, i);
    CutsMirror(d, j);
    BackStep(d, s[i]);
    EventBack(l, a, p, d, b, q, s[i]);
    var axes := FirstAxes(d, s[i]);
    var c, r := Standing(a, Position(p, d, s[i]), d), Standing(b, Position(q, Negate(d), s[j]), Negate(d));
    TiePassable(l, c, r, axes);
    MatchBack(l, c, r, axes);
    TiePassable(l, r, c, axes);
  }

  lemma AllPassableBack(l: Lattice, a: Handle, p: Vec, d: Vec, b: Handle, q: Vec, forth: seq<Event>, behind: seq<Event>)
    requires Seamless(l) && SameWay(l, a, p, d, b, q) && Cut(d, ZERO)
    requires AreEvents(l, a, p, d, Cuts(d, ZERO), forth) && AreEvents(l, b, q, Negate(d), Cuts(d, ZERO), behind)
    ensures AllPassable(l, forth) <==> AllPassable(l, behind)
  {
    hide Passable, Seamless, SameWay, Cut, IsEvent, Cuts;
    var n := |forth|;
    forall i: nat | i < n
      ensures Passable(l, forth[i]) <==> Passable(l, behind[n - 1 - i])
    {
      PassableBack(l, a, p, d, b, q, forth, behind, i);
    }
    forall i: nat | i < n
      ensures AllPassable(l, behind) ==> Passable(l, forth[i])
      ensures AllPassable(l, forth) ==> Passable(l, behind[i])
    {
      assert Passable(l, forth[n - 1 - i]) <==> Passable(l, behind[n - 1 - (n - 1 - i)]);
    }
  }

  /** A segment across seams is passable in both directions or in neither. */
  lemma ReachesBack(l: Lattice, a: Handle, x: int, y: int, d: Vec, b: Handle, bx: int, by_: int)
    requires Seamless(l) && InReach(d) && InCoordinates(x, y) && InCoordinates(bx, by_)
    requires ResolvesAlong(l, a, Vec(x, y, 0), d) && SameWay(l, a, Vec(x, y, 0), d, b, Vec(bx, by_, 0))
    ensures var c, r := SegmentInit(l, a, x, y, d), SegmentInit(l, b, bx, by_, Negate(d));
      && !c.failed && c.events <= c.limit && !r.failed && r.events <= r.limit
      && (Reaches(l, c) <==> Reaches(l, r))
  {
    hide Seamless, SameWay, ResolvesAlong, SegmentInit, Drain, Cut, Reaches, AllPassable, AreEvents, Cuts;
    var p, q := Vec(x, y, 0), Vec(bx, by_, 0);
    ResolvesBack(l, a, p, d, b, q);
    SegmentExact(l, a, x, y, d);
    SegmentExact(l, b, bx, by_, Negate(d));
    NegateCuts(d, ZERO);
    var c, r := SegmentInit(l, a, x, y, d), SegmentInit(l, b, bx, by_, Negate(d));
    ReachesMeansWalk(l, c);
    ReachesMeansWalk(l, r);
    AllPassableBack(l, a, p, d, b, q, Drain(l, c).events, Drain(l, r).events);
  }
}
