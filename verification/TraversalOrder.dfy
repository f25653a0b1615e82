/**
 What celestial_solver_next() guarantees over a whole segment: every event
 crosses exactly the earliest pending axes, no axis overshoots, the traversal
 ends on its endpoint within the event bound, and walking the segment
 backwards meets the same cells and crosses the same axis sets in reverse.
 */
module TraversalOrder {
  import opened Lattices
  import opened Traversal
  import opened Arithmetic

  /** The last crossing of every axis is strictly before the next of any. */
  predicate Separated(d: Vec, c: Vec, a: nat, b: nat)
    requires a < 3 && b < 3
  {
    (2 * c.At(a) - 1) * Abs(d.At(b)) < (2 * c.At(b) + 1) * Abs(d.At(a))
  }

  ghost predicate Ordered(d: Vec, c: Vec) {
    forall a: nat, b: nat :: a < 3 && b < 3 && d.At(a) != 0 && d.At(b) != 0 ==> Separated(d, c, a, b)
  }

  /** Crossing counts that a traversal of displacement d may show. */
  ghost predicate Cut(d: Vec, c: Vec) {
    && (forall a: nat :: a < 3 ==> 0 <= c.At(a) <= Abs(d.At(a)))
    && Ordered(d, c)
  }

  function Total(d: Vec): Vec { Vec(Abs(d.x), Abs(d.y), Abs(d.z)) }

  function Sum(c: Vec): int { c.x + c.y + c.z }

  function Mirror(d: Vec, c: Vec): Vec { Vec(Abs(d.x) - c.x, Abs(d.y) - c.y, Abs(d.z) - c.z) }

  /** The cut after the next event. */
  function After(d: Vec, c: Vec): Vec { Count(c, FirstAxes(d, c)) }

  lemma AfterAt(d: Vec, c: Vec, a: nat)
    requires a < 3
    ensures After(d, c).At(a) == c.At(a) + if IsFirst(d, c, a) then 1 else 0
  {}

  // ---- one event -----------------------------------------------------------

  /** Some axis is always first. */
  lemma SomeFirst(d: Vec, c: Vec) returns (a: nat)
    requires d != ZERO && NonNegative(c)
    ensures a < 3 && IsFirst(d, c, a)
  {
    hide NotAfter;
    a := if d.x != 0 then 0 else if d.y != 0 then 1 else 2;
    assert d.At(a) != 0;
    NotAfterTotal(d, c, 0, 0);
    NotAfterTotal(d, c, 1, 1);
    NotAfterTotal(d, c, 2, 2);
    if d.y != 0 && !NotAfter(d, c, a, 1) {
      NotAfterTotal(d, c, a, 1);
      a := 1;
    }
    if d.z != 0 && !NotAfter(d, c, a, 2) {
      NotAfterTotal(d, c, a, 2);
      if d.x != 0 {
        NotAfterTransitive(d, c, 2, a, 0);
      }
      if d.y != 0 {
        NotAfterTransitive(d, c, 2, a, 1);
      }
      a := 2;
    }
  }

  /** The last crossing of one axis is before any past the end of another. */
  lemma PastTotal(da: nat, db: nat)
    requires db > 0
    ensures (2 * db - 1) * da < (2 * da + 1) * db
  {
    assert (2 * db - 1) * da == 2 * (da * db) - da;
    assert (2 * da + 1) * db == 2 * (da * db) + db;
  }

  lemma BelowTotal(ca: nat, da: nat, cb: nat, db: nat)
    requires cb < db && da > 0
    requires (2 * ca + 1) * db <= (2 * cb + 1) * da
    ensures ca < da
  {
    if ca >= da {
      MulLe(2 * cb + 1, 2 * db - 1, da);
      MulLe(2 * da + 1, 2 * ca + 1, db);
      PastTotal(da, db);
    }
  }

  /** No axis is crossed past its displacement while another is pending. */
  lemma NoOvershoot(d: Vec, c: Vec, a: nat)
    requires Cut(d, c) && c != Total(d)
    requires a < 3 && IsFirst(d, c, a)
    ensures c.At(a) < Abs(d.At(a))
  {
    var b: nat := if c.x < Abs(d.x) then 0 else if c.y < Abs(d.y) then 1 else 2;
    assert c.At(0) <= Abs(d.At(0)) && c.At(1) <= Abs(d.At(1)) && c.At(2) <= Abs(d.At(2));
    assert c.At(b) < Abs(d.At(b));
    assert NotAfter(d, c, a, b);
    BelowTotal(c.At(a), Abs(d.At(a)), c.At(b), Abs(d.At(b)));
  }

  /** Times of two first axes are equal, and no later axis ties with them. */
  lemma FirstBefore(d: Vec, c: Vec, a: nat, b: nat)
    requires a < 3 && b < 3 && NonNegative(c)
    requires IsFirst(d, c, a) && d.At(b) != 0
    ensures IsFirst(d, c, b) ==> (2 * c.At(a) + 1) * Abs(d.At(b)) == (2 * c.At(b) + 1) * Abs(d.At(a))
    ensures !IsFirst(d, c, b) ==> (2 * c.At(a) + 1) * Abs(d.At(b)) < (2 * c.At(b) + 1) * Abs(d.At(a))
  {
    if !IsFirst(d, c, b) {
      var e: nat :| e < 3 && d.At(e) != 0 && !NotAfter(d, c, b, e);
      CrossMultiply(2 * c.At(a) + 1, Abs(d.At(a)), 2 * c.At(e) + 1, Abs(d.At(e)), 2 * c.At(b) + 1, Abs(d.At(b)));
    }
  }

  lemma PairTimes(ca: nat, da: nat, cb: nat, db: nat, na: nat, nb: nat)
    requires da > 0 && db > 0 && ca <= na <= ca + 1 && cb <= nb <= cb + 1
    requires (2 * ca - 1) * db < (2 * cb + 1) * da
    requires na > ca && nb > cb ==> (2 * ca + 1) * db == (2 * cb + 1) * da
    requires na > ca && nb == cb ==> (2 * ca + 1) * db < (2 * cb + 1) * da
    ensures (2 * na - 1) * db < (2 * nb + 1) * da
  {
    assert (2 * (ca + 1) - 1) * db == (2 * ca + 1) * db;
    assert (2 * (cb + 1) + 1) * da == (2 * cb + 1) * da + 2 * da;
  }

  /** One pair of axes stays separated over an event. */
  lemma PairSeparated(d: Vec, c: Vec, a: nat, b: nat)
    requires a < 3 && b < 3 && d.At(a) != 0 && d.At(b) != 0
    requires NonNegative(c) && Separated(d, c, a, b)
    ensures Separated(d, After(d, c), a, b)
  {
    AfterAt(d, c, a);
    AfterAt(d, c, b);
    if IsFirst(d, c, a) {
      FirstBefore(d, c, a, b);
    }
    hide After, IsFirst;
    PairTimes(c.At(a), Abs(d.At(a)), c.At(b), Abs(d.At(b)), After(d, c).At(a), After(d, c).At(b));
  }

  lemma CutAfter(d: Vec, c: Vec)
    requires Cut(d, c) && c != Total(d)
    ensures Cut(d, After(d, c))
  {
    assert c.At(0) >= 0 && c.At(1) >= 0 && c.At(2) >= 0;
    var next := After(d, c);
    hide After;
    forall a: nat | a < 3
      ensures 0 <= next.At(a) <= Abs(d.At(a))
    {
      AfterAt(d, c, a);
      if IsFirst(d, c, a) {
        NoOvershoot(d, c, a);
      }
    }
    forall a: nat, b: nat | a < 3 && b < 3 && d.At(a) != 0 && d.At(b) != 0
      ensures Separated(d, next, a, b)
    {
      PairSeparated(d, c, a, b);
    }
  }

  lemma CutStart(d: Vec)
    ensures Cut(d, ZERO)
  {
    forall a: nat, b: nat | a < 3 && b < 3 && d.At(a) != 0 && d.At(b) != 0
      ensures Separated(d, ZERO, a, b)
    {
      assert (2 * ZERO.At(a) - 1) * Abs(d.At(b)) == 0 - Abs(d.At(b));
    }
  }

  lemma StationaryCut(d: Vec, c: Vec)
    requires Cut(d, c) && d == ZERO
    ensures c == Total(d)
  {
    assert c.At(0) <= Abs(d.At(0)) && c.At(1) <= Abs(d.At(1)) && c.At(2) <= Abs(d.At(2));
    assert c.At(0) >= 0 && c.At(1) >= 0 && c.At(2) >= 0;
  }

  /** Every event makes progress towards the end. */
  lemma Progress(d: Vec, c: Vec)
    requires Cut(d, c) && c != Total(d)
    ensures FirstAxes(d, c) != NO_AXES
    ensures Sum(c) < Sum(After(d, c)) <= Sum(Total(d))
  {
    assert c.At(0) >= 0 && c.At(1) >= 0 && c.At(2) >= 0;
    if d == ZERO {
      StationaryCut(d, c);
    }
    var a := SomeFirst(d, c);
    CutAfter(d, c);
    var n := After(d, c);
    assert n.At(0) <= Abs(d.At(0)) && n.At(1) <= Abs(d.At(1)) && n.At(2) <= Abs(d.At(2));
    hide IsFirst;
    assert FirstAxes(d, c).Has(a);
  }

  // ---- the whole run -------------------------------------------------------

  /** The cuts of a traversal from c on, the present one first. */
  ghost function Cuts(d: Vec, c: Vec): (s: seq<Vec>)
    requires Cut(d, c)
    ensures |s| >= 1 && s[0] == c
    decreases Sum(Total(d)) - Sum(c)
  {
    if c == Total(d) then [c]
    else
      Progress(d, c);
      CutAfter(d, c);
      [c] + Cuts(d, After(d, c))
  }

  /** The cut after a whole traversal's k-th event. */
  lemma {:induction false} CutsFollow(d: Vec, c: Vec, i: nat)
    requires Cut(d, c) && i < |Cuts(d, c)|
    ensures var s := Cuts(d, c);
      && Cut(d, s[i])
      && (i + 1 < |s| ==> s[i] != Total(d) && s[i + 1] == After(d, s[i]))
      && (i + 1 == |s| ==> s[i] == Total(d))
    decreases i
  {
    if c != Total(d) {
      CutAfter(d, c);
      hide Cut, After, Total;
      var next := After(d, c);
      assert Cuts(d, c) == [c] + Cuts(d, next);
      if i > 0 {
        CutsFollow(d, next, i - 1);
      }
    }
  }

  // ---- walking backwards ---------------------------------------------------

  lemma MirrorCut(d: Vec, c: Vec)
    requires Cut(d, c)
    ensures Cut(d, Mirror(d, c))
  {
    var m := Mirror(d, c);
    assert forall a: nat :: a < 3 ==> m.At(a) == Abs(d.At(a)) - c.At(a);
    hide Mirror;
    forall a: nat, b: nat | a < 3 && b < 3 && d.At(a) != 0 && d.At(b) != 0
      ensures Separated(d, m, a, b)
    {
      assert Separated(d, c, b, a);
      MirrorTimes(Abs(d.At(a)), c.At(a), Abs(d.At(b)), c.At(b));
    }
  }

  lemma MirrorTimes(da: nat, ca: int, db: nat, cb: int)
    ensures (2 * (da - ca) - 1) * db == 2 * (da * db) - (2 * ca + 1) * db
    ensures (2 * (db - cb) + 1) * da == 2 * (da * db) - (2 * cb - 1) * da
    ensures (2 * (da - ca) + 1) * db == 2 * (da * db) - (2 * ca - 1) * db
  {}

  /** Walking back from after an event, the same axes are first. */
  lemma MirrorFirst(d: Vec, c: Vec, a: nat)
    requires Cut(d, c) && a < 3
    ensures IsFirst(d, Mirror(d, After(d, c)), a) <==> IsFirst(d, c, a)
  {
    var m := Mirror(d, After(d, c));
    assert c.At(0) >= 0 && c.At(1) >= 0 && c.At(2) >= 0;
    forall b: nat | b < 3
      ensures m.At(b) == Abs(d.At(b)) - c.At(b) - if IsFirst(d, c, b) then 1 else 0
    {
      AfterAt(d, c, b);
    }
    if d.At(a) != 0 {
      var e := SomeFirst(d, c);
      hide Mirror, After, Ordered;
      if IsFirst(d, c, a) {
        forall b: nat | b < 3 && d.At(b) != 0
          ensures NotAfter(d, m, a, b)
        {
          MirrorFirstPair(d, c, m, a, b);
        }
      } else {
        MirrorFirstPair(d, c, m, e, a);
      }
    }
  }

  lemma MirrorPairTimes(ca: nat, da: nat, cb: nat, db: nat, tie: bool)
    requires if tie then (2 * ca + 1) * db == (2 * cb + 1) * da else (2 * cb - 1) * da < (2 * ca + 1) * db
    ensures var ma, mb := da - ca - 1, db - cb - if tie then 1 else 0;
      && (2 * ma + 1) * db <= (2 * mb + 1) * da
      && (!tie ==> (2 * ma + 1) * db < (2 * mb + 1) * da)
  {
    MirrorTimes(da, ca + 1, db, cb);
    MirrorTimes(db, cb, da, ca + 1);
    MirrorTimes(db, cb + 1, da, ca + 1);
  }

  /** How the crossing times of a first axis and any other compare. */
  lemma PairFacts(d: Vec, c: Vec, a: nat, b: nat)
    requires a < 3 && b < 3 && Cut(d, c)
    requires IsFirst(d, c, a) && d.At(b) != 0
    ensures if IsFirst(d, c, b)
            then (2 * c.At(a) + 1) * Abs(d.At(b)) == (2 * c.At(b) + 1) * Abs(d.At(a))
            else (2 * c.At(b) - 1) * Abs(d.At(a)) < (2 * c.At(a) + 1) * Abs(d.At(b))
  {
    assert c.At(0) >= 0 && c.At(1) >= 0 && c.At(2) >= 0;
    FirstBefore(d, c, a, b);
    assert Separated(d, c, b, a);
  }

  lemma MirrorFirstPair(d: Vec, c: Vec, m: Vec, a: nat, b: nat)
    requires a < 3 && b < 3 && Cut(d, c)
    requires m.At(a) == Abs(d.At(a)) - c.At(a) - 1
    requires m.At(b) == Abs(d.At(b)) - c.At(b) - if IsFirst(d, c, b) then 1 else 0
    requires IsFirst(d, c, a) && d.At(b) != 0
    ensures NotAfter(d, m, a, b)
    ensures !IsFirst(d, c, b) ==> !NotAfter(d, m, b, a)
  {
    PairFacts(d, c, a, b);
    assert c.At(a) >= 0 && c.At(b) >= 0;
    hide IsFirst, Cut, Vec.At;
    MirrorPairTimes(c.At(a), Abs(d.At(a)), c.At(b), Abs(d.At(b)), IsFirst(d, c, b));
  }

  /** The event before a cut, walked backwards, is that same event. */
  lemma BackStep(d: Vec, c: Vec)
    requires Cut(d, c) && c != Total(d)
    ensures Cut(d, Mirror(d, After(d, c)))
    ensures FirstAxes(d, Mirror(d, After(d, c))) == FirstAxes(d, c)
    ensures After(d, Mirror(d, After(d, c))) == Mirror(d, c)
  {
    CutAfter(d, c);
    MirrorCut(d, After(d, c));
    MirrorFirst(d, c, 0);
    MirrorFirst(d, c, 1);
    MirrorFirst(d, c, 2);
    hide Cut, IsFirst;
  }

  /** A segment's cuts read the same from either end. */
  lemma {:induction false} CutsMirror(d: Vec, j: nat)
    requires Cut(d, ZERO) && j < |Cuts(d, ZERO)|
    ensures Cuts(d, ZERO)[j] == Mirror(d, Cuts(d, ZERO)[|Cuts(d, ZERO)| - 1 - j])
    decreases j
  {
    hide Cut, Cuts, FirstAxes, After;
    var s := Cuts(d, ZERO);
    var k := |s| - 1 - j;
    CutsFollow(d, ZERO, k);
    if j > 0 {
      CutsMirror(d, j - 1);
      CutsFollow(d, ZERO, j - 1);
      BackStep(d, s[k]);
    }
  }

  function Negate(d: Vec): Vec { Vec(-d.x, -d.y, -d.z) }

  /** Negating a displacement changes no cut and no event. */
  lemma {:induction false} NegateCuts(d: Vec, c: Vec)
    requires Cut(d, c)
    ensures Cut(Negate(d), c) && Cuts(Negate(d), c) == Cuts(d, c)
    decreases Sum(Total(d)) - Sum(c)
  {
    NegateCut(d, c);
    if c != Total(d) {
      NegateFirst(d, c);
      CutAfter(d, c);
      Progress(d, c);
      hide Cut, IsFirst, FirstAxes;
      NegateCuts(d, After(d, c));
    }
  }

  lemma NegateCut(d: Vec, c: Vec)
    requires Cut(d, c)
    ensures Cut(Negate(d), c)
  {
    var n := Negate(d);
    assert forall a: nat :: a < 3 ==> n.At(a) == -d.At(a);
    hide Negate;
    forall a: nat, b: nat | a < 3 && b < 3 && n.At(a) != 0 && n.At(b) != 0
      ensures Separated(n, c, a, b)
    {
      assert Separated(d, c, a, b);
    }
  }

  lemma NegateFirst(d: Vec, c: Vec)
    ensures FirstAxes(Negate(d), c) == FirstAxes(d, c)
  {
    var n := Negate(d);
    assert forall a: nat :: a < 3 ==> n.At(a) == -d.At(a);
    hide Negate;
    forall a: nat, b: nat | a < 3 && b < 3
      ensures NotAfter(n, c, a, b) <==> NotAfter(d, c, a, b)
    {}
  }

  // ---- a segment's cursor --------------------------------------------------

  function Signed(d: int, n: int): int { if d > 0 then n else -n }

  /** Where a cut of a traversal from p stands. */
  function Position(p: Vec, d: Vec, c: Vec): Vec {
    Vec(p.x + Signed(d.x, c.x), p.y + Signed(d.y, c.y), p.z + Signed(d.z, c.z))
  }

  /** A point in the box a displacement spans. */
  predicate InPath(p: Vec, d: Vec, q: Vec) {
    && Between(Min(p.x, p.x + d.x), q.x, Max(p.x, p.x + d.x))
    && Between(Min(p.y, p.y + d.y), q.y, Max(p.y, p.y + d.y))
    && Between(Min(p.z, p.z + d.z), q.z, Max(p.z, p.z + d.z))
  }

  /** The lattice resolves everything a displacement can come by. */
  ghost predicate ResolvesAlong(l: Lattice, origin: Handle, p: Vec, d: Vec) {
    forall q: Vec :: InPath(p, d, q) ==> l.resolve(origin, q.x, q.y, q.z).site != NULL
  }

  /** A cursor as far as the cells and faces around it go. */
  function Standing(origin: Handle, p: Vec, d: Vec): CursorState {
    CursorState(origin, p, d, ZERO, ZERO, 0, 0, false, false)
  }

  lemma {:induction false} FacesSame(l: Lattice, c: CursorState, axes: Axes, n: nat)
    requires n <= 24
    ensures FacesUpTo(l, c, axes, n) == FacesUpTo(l, Standing(c.origin, c.position, c.direction), axes, n)
  {
    if n > 0 {
      FacesSame(l, c, axes, n - 1);
      hide FacesUpTo;
    }
  }

  /** A live cursor on its way along displacement d from p. */
  ghost predicate Travelling(c: CursorState, p: Vec, d: Vec) {
    && !c.failed && c.segment && c.limit == MAX_EVENTS
    && c.direction == d && d != ZERO && InReach(d)
    && Cut(d, c.crossed)
    && c.position == Position(p, d, c.crossed)
    && c.endpoint == Vec(p.x + d.x, p.y + d.y, p.z + d.z)
    && c.events <= Sum(c.crossed)
  }

  /** Event i of a traversal whose cuts are s. */
  ghost predicate IsEvent(l: Lattice, origin: Handle, p: Vec, d: Vec, s: seq<Vec>, e: Event, i: nat)
    requires i + 1 < |s|
  {
    var to := Position(p, d, s[i + 1]);
    && e.axes == FirstAxes(d, s[i]) && e.axes != NO_AXES
    && e.valid && e.faces == FacesUpTo(l, Standing(origin, Position(p, d, s[i]), d), e.axes, 24)
    && (e.terminal <==> i + 2 == |s|)
    && e.destination == l.resolve(origin, to.x, to.y, to.z)
  }

  ghost predicate AreEvents(l: Lattice, origin: Handle, p: Vec, d: Vec, s: seq<Vec>, events: seq<Event>) {
    |events| + 1 == |s|
    && forall i: nat :: i < |events| ==> IsEvent(l, origin, p, d, s, events[i], i)
  }

  lemma EndIffTotal(p: Vec, d: Vec, c: Vec)
    requires Cut(d, c)
    ensures Position(p, d, c) == Vec(p.x + d.x, p.y + d.y, p.z + d.z) <==> c == Total(d)
  {
    assert c.At(0) >= 0 && c.At(1) >= 0 && c.At(2) >= 0;
    hide Ordered;
  }

  lemma ReachTotal(d: Vec)
    requires InReach(d)
    ensures Sum(Total(d)) < MAX_EVENTS
  {}

  /** One step of a travelling cursor. */
  lemma TravelStep(l: Lattice, c: CursorState, p: Vec, d: Vec)
    requires Travelling(c, p, d) && ResolvesAlong(l, c.origin, p, d) && c.crossed != Total(d)
    ensures var o := Advance(l, c);
      && o.status == 1 && o.cursor.origin == c.origin && o.cursor.crossed == After(d, c.crossed)
      && Travelling(o.cursor, p, d)
      && o.event.axes == FirstAxes(d, c.crossed) && o.event.axes != NO_AXES && o.event.valid
      && o.event.faces == FacesUpTo(l, Standing(c.origin, c.position, d), o.event.axes, 24)
      && (o.event.terminal <==> o.cursor.crossed == Total(d))
      && o.event.destination == l.resolve(c.origin, o.cursor.position.x, o.cursor.position.y, o.cursor.position.z)
  {
    hide Cut, FirstAxes, CellsUpTo, FacesUpTo, ResolvedUpTo, ResolvesAlong, Total, Sum;
    EndIffTotal(p, d, c.crossed);
    Progress(d, c.crossed);
    CutAfter(d, c.crossed);
    ReachTotal(d);
    EndIffTotal(p, d, After(d, c.crossed));
    StepPosition(p, d, c.crossed, FirstAxes(d, c.crossed));
    FacesSame(l, c, FirstAxes(d, c.crossed), 24);
    TieResolves(l, c, p, d);
  }

  lemma TieResolves(l: Lattice, c: CursorState, p: Vec, d: Vec)
    requires Travelling(c, p, d) && ResolvesAlong(l, c.origin, p, d) && c.crossed != Total(d)
    ensures ResolvedUpTo(l, c, FirstAxes(d, c.crossed), 8)
  {
    hide Cut, FirstAxes, InPath, Position, Step;
    TouchedInPath(p, d, c.crossed);
  }

  /** Every cell of a tie lies in the displacement's box. */
  lemma TouchedInPath(p: Vec, d: Vec, c: Vec)
    requires Cut(d, c) && c != Total(d)
    ensures forall mask: Axes :: mask.Within(FirstAxes(d, c)) ==> InPath(p, d, Step(Position(p, d, c), d, mask))
  {
    CutAfter(d, c);
    var n := After(d, c);
    assert c.At(0) >= 0 && c.At(1) >= 0 && c.At(2) >= 0;
    assert n.At(0) <= Abs(d.At(0)) && n.At(1) <= Abs(d.At(1)) && n.At(2) <= Abs(d.At(2));
    assert c.At(0) <= Abs(d.At(0)) && c.At(1) <= Abs(d.At(1)) && c.At(2) <= Abs(d.At(2));
    hide Ordered, FirstAxes;
  }

  lemma StepPosition(p: Vec, d: Vec, c: Vec, axes: Axes)
    ensures Step(Position(p, d, c), d, axes) == Position(p, d, Count(c, axes))
  {}

  /** A drained walk is the next event and the walk from there. */
  lemma DrainStep(l: Lattice, c: CursorState)
    requires c.events <= c.limit && Advance(l, c).status == 1
    ensures var o := Advance(l, c);
      && o.cursor.events <= o.cursor.limit && o.cursor.limit == c.limit
      && var rest := Drain(l, o.cursor);
      Drain(l, c) == Walk([o.event] + rest.events, rest.status, rest.cursor)
  {
    hide EventOf, Step, Count;
  }

  lemma DrainEnd(l: Lattice, c: CursorState)
    requires c.events <= c.limit && Advance(l, c).status != 1
    ensures Drain(l, c) == Walk([], Advance(l, c).status, Advance(l, c).cursor)
  {
    hide Advance;
  }

  /** A travelling cursor that has crossed everything stops where it is. */
  lemma TravelEnd(l: Lattice, c: CursorState, p: Vec, d: Vec)
    requires Travelling(c, p, d) && c.crossed == Total(d)
    ensures Advance(l, c).status == 0 && Advance(l, c).cursor == c && c.position == c.endpoint
  {
    EndIffTotal(p, d, c.crossed);
    hide Cut, Position, Total, EventOf;
  }

  /** The event of one cut before the events of the rest. */
  lemma EventsCons(l: Lattice, origin: Handle, p: Vec, d: Vec, c: Vec, t: seq<Vec>, e: Event, rest: seq<Event>)
    requires t != [] && IsEvent(l, origin, p, d, [c] + t, e, 0) && AreEvents(l, origin, p, d, t, rest)
    ensures AreEvents(l, origin, p, d, [c] + t, [e] + rest)
  {
    hide FirstAxes, FacesUpTo, Position;
    var s, events := [c] + t, [e] + rest;
    forall i: nat | i < |events|
      ensures IsEvent(l, origin, p, d, s, events[i], i)
    {
      if i > 0 {
        assert IsEvent(l, origin, p, d, t, rest[i - 1], i - 1);
      }
    }
  }

  /** A travelling cursor's remaining events are its remaining cuts'. */
  lemma {:induction false} DrainExact(l: Lattice, c: CursorState, p: Vec, d: Vec)
    requires Travelling(c, p, d) && ResolvesAlong(l, c.origin, p, d) && c.events <= c.limit
    ensures var w := Drain(l, c);
      && w.status == 0 && !w.cursor.failed
      && w.cursor.position == c.endpoint && w.cursor.crossed == Total(d)
      && AreEvents(l, c.origin, p, d, Cuts(d, c.crossed), w.events)
    decreases Sum(Total(d)) - Sum(c.crossed)
  {
    hide Cut, Drain, Advance, FirstAxes, ResolvesAlong, Position, FacesUpTo, Total, Sum;
    if c.crossed == Total(d) {
      TravelEnd(l, c, p, d);
      DrainEnd(l, c);
    } else {
      TravelStep(l, c, p, d);
      DrainStep(l, c);
      Progress(d, c.crossed);
      var o := Advance(l, c);
      DrainExact(l, o.cursor, p, d);
      EventsCons(l, c.origin, p, d, c.crossed, Cuts(d, o.cursor.crossed), o.event, Drain(l, o.cursor).events);
    }
  }

  /** A walk that ends exactly on its endpoint, event by event through the
   earliest pending crossings. */
  ghost predicate WalksExactly(l: Lattice, origin: Handle, p: Vec, d: Vec, w: Walk)
    requires Cut(d, ZERO)
  {
    && w.status == 0 && !w.cursor.failed && w.cursor.position == Vec(p.x + d.x, p.y + d.y, p.z + d.z)
    && AreEvents(l, origin, p, d, Cuts(d, ZERO), w.events)
    && |w.events| <= Abs(d.x) + Abs(d.y) + Abs(d.z)
  }

  /** celestial_solver_segment_init() then celestial_solver_next() until it
   stops: exact, never failing and never at its event bound, wherever the
   lattice resolves the box the segment spans. */
  lemma SegmentExact(l: Lattice, origin: Handle, x: int, y: int, d: Vec)
    requires ResolvesAlong(l, origin, Vec(x, y, 0), d) && InReach(d)
    requires -COORDINATE_MAX <= x <= COORDINATE_MAX && -COORDINATE_MAX <= y <= COORDINATE_MAX
    ensures var c := SegmentInit(l, origin, x, y, d);
      && !c.failed && c.events <= c.limit && Cut(d, ZERO)
      && WalksExactly(l, origin, Vec(x, y, 0), d, Drain(l, c))
  {
    hide Cut, SegmentInit, Travelling, ResolvesAlong, Drain, WalksExactly;
    CutStart(d);
    SegmentStart(l, origin, x, y, d);
    if d == ZERO {
      Stationary(l, origin, x, y);
    } else {
      Moving(l, SegmentInit(l, origin, x, y, d), Vec(x, y, 0), d);
    }
  }

  lemma Moving(l: Lattice, c: CursorState, p: Vec, d: Vec)
    requires Travelling(c, p, d) && ResolvesAlong(l, c.origin, p, d) && c.events <= c.limit && c.crossed == ZERO
    ensures Cut(d, ZERO) && WalksExactly(l, c.origin, p, d, Drain(l, c))
  {
    hide *;
    Setting(c, p, d);
    DrainExact(l, c, p, d);
    CutsLength(d, ZERO);
    SumTotal(d);
    EventsCount(l, c.origin, p, d, Cuts(d, ZERO), Drain(l, c).events);
    Walked(l, c, p, d, Drain(l, c));
  }

  lemma SumTotal(d: Vec)
    ensures Sum(Total(d)) - Sum(ZERO) == Abs(d.x) + Abs(d.y) + Abs(d.z)
  {}

  lemma Setting(c: CursorState, p: Vec, d: Vec)
    requires Travelling(c, p, d)
    ensures Cut(d, c.crossed) && c.endpoint == Vec(p.x + d.x, p.y + d.y, p.z + d.z)
  {
    hide Cut;
  }

  lemma Walked(l: Lattice, c: CursorState, p: Vec, d: Vec, w: Walk)
    requires Cut(d, ZERO) && |Cuts(d, ZERO)| <= Abs(d.x) + Abs(d.y) + Abs(d.z) + 1
    requires c.endpoint == Vec(p.x + d.x, p.y + d.y, p.z + d.z)
    requires w.status == 0 && !w.cursor.failed && w.cursor.position == c.endpoint
    requires AreEvents(l, c.origin, p, d, Cuts(d, ZERO), w.events) && |w.events| + 1 == |Cuts(d, ZERO)|
    ensures WalksExactly(l, c.origin, p, d, w)
  {
    hide Cut, Cuts, AreEvents;
  }

  lemma EventsCount(l: Lattice, origin: Handle, p: Vec, d: Vec, s: seq<Vec>, events: seq<Event>)
    requires AreEvents(l, origin, p, d, s, events)
    ensures |events| + 1 == |s|
  {
    hide IsEvent;
  }

  lemma SegmentStart(l: Lattice, origin: Handle, x: int, y: int, d: Vec)
    requires ResolvesAlong(l, origin, Vec(x, y, 0), d) && InReach(d)
    requires -COORDINATE_MAX <= x <= COORDINATE_MAX && -COORDINATE_MAX <= y <= COORDINATE_MAX
    ensures var c := SegmentInit(l, origin, x, y, d);
      && !c.failed && c.events <= c.limit && c.crossed == ZERO && c.origin == origin
      && c.endpoint == Vec(x + d.x, y + d.y, d.z)
      && (d != ZERO ==> Travelling(c, Vec(x, y, 0), d))
  {
    CutStart(d);
    hide Cut;
  }

  lemma Stationary(l: Lattice, origin: Handle, x: int, y: int)
    requires ResolvesAlong(l, origin, Vec(x, y, 0), ZERO)
    requires -COORDINATE_MAX <= x <= COORDINATE_MAX && -COORDINATE_MAX <= y <= COORDINATE_MAX
    ensures var c := SegmentInit(l, origin, x, y, ZERO);
      && c.events <= c.limit && Cut(ZERO, ZERO)
      && WalksExactly(l, origin, Vec(x, y, 0), ZERO, Drain(l, c))
  {
    CutStart(ZERO);
    hide Cut;
  }

  lemma {:induction false} CutsLength(d: Vec, c: Vec)
    requires Cut(d, c)
    ensures |Cuts(d, c)| <= Sum(Total(d)) - Sum(c) + 1
    decreases Sum(Total(d)) - Sum(c)
  {
    hide Cut;
    if c != Total(d) {
      Progress(d, c);
      CutAfter(d, c);
      CutsLength(d, After(d, c));
    }
  }

  /** Walking a segment backwards crosses the same axes in reverse order. */
  lemma SegmentReversed(l: Lattice, origin: Handle, x: int, y: int, d: Vec,
                        back: Lattice, from: Handle, ax: int, ay: int)
    requires ResolvesAlong(l, origin, Vec(x, y, 0), d) && InReach(d)
    requires ResolvesAlong(back, from, Vec(ax, ay, 0), Negate(d))
    requires -COORDINATE_MAX <= x <= COORDINATE_MAX && -COORDINATE_MAX <= y <= COORDINATE_MAX
    requires -COORDINATE_MAX <= ax <= COORDINATE_MAX && -COORDINATE_MAX <= ay <= COORDINATE_MAX
    ensures var c, r := SegmentInit(l, origin, x, y, d), SegmentInit(back, from, ax, ay, Negate(d));
      && c.events <= c.limit && r.events <= r.limit
      && var forth, behind := Drain(l, c).events, Drain(back, r).events;
      && |behind| == |forth|
      && forall i: nat :: i < |forth| ==> forth[i].axes == behind[|forth| - 1 - i].axes
  {
    hide AreEvents;
    SegmentExact(l, origin, x, y, d);
    SegmentExact(back, from, ax, ay, Negate(d));
    NegateCuts(d, ZERO);
    SameAxes(d, l, origin, Vec(x, y, 0), Drain(l, SegmentInit(l, origin, x, y, d)).events,
             back, from, Vec(ax, ay, 0), Drain(back, SegmentInit(back, from, ax, ay, Negate(d))).events);
  }

  lemma SameAxes(d: Vec, l: Lattice, origin: Handle, p: Vec, forth: seq<Event>,
                 back: Lattice, from: Handle, q: Vec, behind: seq<Event>)
    requires Cut(d, ZERO)
    requires AreEvents(l, origin, p, d, Cuts(d, ZERO), forth)
    requires AreEvents(back, from, q, Negate(d), Cuts(d, ZERO), behind)
    ensures |behind| == |forth|
    ensures forall i: nat :: i < |forth| ==> forth[i].axes == behind[|forth| - 1 - i].axes
  {
    hide Cut, Cuts, FirstAxes, Negate, Position;
    var s := Cuts(d, ZERO);
    forall i: nat | i < |forth|
      ensures forth[i].axes == behind[|forth| - 1 - i].axes
    {
      var j := |forth| - 1 - i;
      assert IsEvent(l, origin, p, d, s, forth[i], i);
      assert IsEvent(back, from, q, Negate(d), s, behind[j], j);
      NegateFirst(d, s[j]);
      CutsFollow(d, ZERO, i);
      CutsMirror(d, j);
      BackStep(d, s[i]);
    }
  }
}
