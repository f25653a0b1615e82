/**
 A closure as the solver's lattice: what the solver may rely on when it solves
 a fragment of any built closure.
 */
module ClosureSolve {
  import opened Lattices
  import opened Traversal
  import opened TraversalOrder
  import opened Solver
  import opened Seams
  import opened L = ClosureLattice

  /** closure_ops over a closure's lattice. */
  function SolverLattice(v: View): Lattice
    requires v.Valid()
  {
    Lattice((site: Handle, x: int, y: int, z: int) => Resolve(v, site, x, y, z),
            (site: Handle) => true,
            (site: Handle) => Dimensions(v, site),
            (face: Face) => OnMaps(v, face) && L.Sky(v, face),
            (face: Face) => OnMaps(v, face) && Continuous(v, face),
            (face: Face) => if OnMaps(v, face) then L.Light(v, face) else Crossing(0, false))
  }

  /** lattice_dimensions() */
  function Dimensions(v: View, site: Handle): (int, int) {
    if IsFragment(v, site) then (v.fragments[site - 1].width, v.fragments[site - 1].height) else (v.width, v.height)
  }

  // ---- seams ---------------------------------------------------------------

  lemma SameValue(v: View, a: Cell, b: Cell)
    requires v.Valid() && SameCell(a, b)
    ensures InMap(v, a) <==> InMap(v, b)
    ensures InMap(v, a) ==> L.Value(v, a) == L.Value(v, b)
  {}

  /** The closure's faces are seams. */
  lemma ClosureSeamless(v: View)
    requires v.Valid()
    ensures Seamless(SolverLattice(v))
  {
    forall f: Face, g: Face | Opposite(f, g)
      ensures SolverLattice(v).continuous(f) == SolverLattice(v).continuous(g)
    {
      SameValue(v, f.from, g.to);
      SameValue(v, f.to, g.from);
      hide L.Value, ClosureCodec.Bit, ContinuityBit, View.Valid, InMap;
      assert f.Reversed().normal == g.normal && g.Reversed().normal == f.normal;
    }
  }

  // ---- segments ------------------------------------------------------------

  /** Within one depth of the air everything resolves. */
  lemma LevelResolves(v: View, site: Handle, p: Vec, d: Vec)
    requires v.Valid() && IsHandle(v, site) && p.z == 0 && d.z == 0
    ensures ResolvesAlong(SolverLattice(v), site, p, d)
  {
    forall q: Vec | InPath(p, d, q)
      ensures SolverLattice(v).resolve(site, q.x, q.y, q.z).site != NULL
    {
      HandleInAir(v, site, q.x, q.y);
    }
  }

  lemma HandleInAir(v: View, site: Handle, x: int, y: int)
    requires v.Valid() && IsHandle(v, site)
    ensures Resolve(v, site, x, y, 0).site != NULL
  {
    hide CellAt;
    ResolvedPlace(v, site, x, y, 0);
    if IsFragment(v, site) {
      FragmentOnLevel(v, site);
      RaysResolve(v, site, x, y, 0);
    }
  }

  /** From a cell that was resolved, the way back meets the same cells. */
  lemma ClosureSameWay(v: View, a: Handle, p: Vec, d: Vec)
    requires v.Valid() && IsHandle(v, a) && p.z == 0 && d.z == 0
    ensures var b := Resolve(v, a, p.x + d.x, p.y + d.y, 0);
      b.site != NULL && IsHandle(v, b.site) && SameWay(SolverLattice(v), a, p, d, b.site, Vec(b.x, b.y, 0))
  {
    hide CellAt, IsHandle;
    var b := Resolve(v, a, p.x + d.x, p.y + d.y, 0);
    HandleInAir(v, a, p.x + d.x, p.y + d.y);
    ResolvedPlace(v, a, p.x + d.x, p.y + d.y, 0);
    forall r: Vec | InPath(p, d, r)
      ensures SameCell(Resolved(SolverLattice(v), a, r),
                       Resolved(SolverLattice(v), b.site, Offset(r, p, d, Vec(b.x, b.y, 0))))
    {
      PathIndependent(v, a, p.x + d.x, p.y + d.y, 0, r.x - p.x - d.x, r.y - p.y - d.y, r.z);
      hide Resolve;
      assert p.x + d.x + (r.x - p.x - d.x) == r.x && p.y + d.y + (r.y - p.y - d.y) == r.y;
    }
  }

  /** Whatever the cell bits, well-formed or not, the halo of a fragment is
   reached from the map exactly when the map is reached from the halo. */
  lemma HaloBothWays(v: View, site: Handle, x: int, y: int, dx: int, dy: int)
    requires v.Valid() && IsHandle(v, site) && InCoordinates(x, y) && InReach(Vec(dx, dy, 0))
    ensures var l, cell := SolverLattice(v), Resolve(v, site, x + dx, y + dy, 0);
      cell.site != NULL
      && (InCoordinates(cell.x, cell.y) ==>
            (HaloReached(l, site, x, y, dx, dy) <==> HaloReached(l, cell.site, cell.x, cell.y, -dx, -dy)))
  {
    hide SolverLattice, Resolve, Seamless, SameWay, ResolvesAlong, IsHandle, Reaches, SegmentInit;
    var p, d := Vec(x, y, 0), Vec(dx, dy, 0);
    ClosureSeamless(v);
    LevelResolves(v, site, p, d);
    ClosureSameWay(v, site, p, d);
    var cell := Resolve(v, site, x + dx, y + dy, 0);
    if InCoordinates(cell.x, cell.y) {
      ReachesBack(SolverLattice(v), site, x, y, d, cell.site, cell.x, cell.y);
    }
  }
}
