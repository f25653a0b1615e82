/**
 Spill on a closure: the faces it goes through are those of the map's own cells,
 and they join them whichever way the light goes.
 */
module ClosureSpill {
  import opened Lattices
  import opened Solver
  import opened SpillFaces
  import opened Seams
  import opened ClosureSolve
  import opened L = ClosureLattice
  import ClosureIndex
  import Relaxation

  /** A scratch cell by the coordinates of the map it belongs to. */
  function MapCell(p: Problem, x: int, y: int): Cell { Cell(p.site, x - Relaxation.PASSES, y - Relaxation.PASSES, 0) }

  /** A solve on a closure, of one of its fragments. */
  ghost predicate Solves(p: Problem, v: View) {
    v.Valid() && IsHandle(v, p.site) && p.lattice == SolverLattice(v)
  }

  // ---- seams ---------------------------------------------------------------

  /** Crossed backwards, every face is one of the way there. */
  lemma FaceBackwards(l: Lattice, site: Handle, x: int, y: int, dx: int, dy: int, i: nat) returns (j: nat)
    requires IsStep(dx, dy) && i < |FacesBetween(l, Cell(site, x, y, 0), dx, dy)|
    ensures var there, back := FacesBetween(l, Cell(site, x, y, 0), dx, dy),
                               FacesBetween(l, Cell(site, x + dx, y + dy, 0), -dx, -dy);
      j < |back| && Opposite(there[i], back[j])
  {
    j := |FacesBetween(l, Cell(site, x, y, 0), dx, dy)| - 1 - i;
  }

  lemma JoinsBackwards(l: Lattice, site: Handle, x: int, y: int, dx: int, dy: int)
    requires Seamless(l) && IsStep(dx, dy)
    ensures AllJoin(l, FacesBetween(l, Cell(site, x, y, 0), dx, dy))
        ==> AllJoin(l, FacesBetween(l, Cell(site, x + dx, y + dy, 0), -dx, -dy))
  {
    hide FacesBetween, Seamless, Opposite, SameCell;
    var here, there := Cell(site, x, y, 0), Cell(site, x + dx, y + dy, 0);
    var forth, back := FacesBetween(l, here, dx, dy), FacesBetween(l, there, -dx, -dy);
    if AllJoin(l, forth) {
      forall j: nat | j < |back|
        ensures Joins(l, back[j])
      {
        var i := FaceBackwards(l, site, x + dx, y + dy, -dx, -dy, j);
        assert Cell(site, x + dx + -dx, y + dy + -dy, 0) == here;
        assert Joins(l, forth[i]);
        SeamJoins(l, back[j], forth[i]);
      }
    }
  }

  lemma SeamJoins(l: Lattice, f: Face, g: Face)
    requires Seamless(l) && Opposite(f, g) && Joins(l, g)
    ensures Joins(l, f)
  {}

  // ---- the map's own cells -------------------------------------------------

  lemma MapCellSite(p: Problem, x: int, y: int)
    ensures MapCell(p, x, y).site == p.site
  {}

  /** A halo cell is the map's own resolution of its place. */
  lemma HaloIsMapCell(p: Problem, x: int, y: int)
    requires HaloCell(p, x, y).site != NULL
    ensures HaloCell(p, x, y) == Beside(p.lattice, MapCell(p, x, y), 0, 0)
  {
    hide HaloReached;
  }

  lemma ResolvesAs(v: View, site: Handle, x: int, y: int, z: int)
    requires v.Valid()
    ensures SolverLattice(v).resolve(site, x, y, z) == Resolve(v, site, x, y, z)
    ensures Resolve(v, site, x, y, z).z == z
  {
    hide ClosureIndex.ValueAt, Finder;
  }

  lemma SameBeside(v: View, p: Problem, x: int, y: int, sx: int, sy: int)
    requires Solves(p, v) && HaloCell(p, x, y).site != NULL
    ensures Beside(p.lattice, HaloCell(p, x, y), sx, sy) == Beside(p.lattice, MapCell(p, x, y), sx, sy)
  {
    hide HaloCell, SolverLattice, Resolve, View.Valid, IsHandle, MapCell;
    HaloIsMapCell(p, x, y);
    var m, c := MapCell(p, x, y), HaloCell(p, x, y);
    assert m.site == p.site by { MapCellSite(p, x, y); }
    ResolvesAs(v, p.site, m.x, m.y, 0);
    ResolvesAs(v, p.site, m.x + sx, m.y + sy, 0);
    ResolvesAs(v, c.site, c.x + sx, c.y + sy, 0);
    PathIndependent(v, p.site, m.x, m.y, 0, sx, sy, 0);
  }

  lemma SameFaces(v: View, p: Problem, x: int, y: int, dx: int, dy: int)
    requires Solves(p, v) && HaloCell(p, x, y).site != NULL
    ensures FacesBetween(p.lattice, HaloCell(p, x, y), dx, dy) == FacesBetween(p.lattice, MapCell(p, x, y), dx, dy)
  {
    hide HaloCell, Beside, MapCell, Solves;
    SameBeside(v, p, x, y, 0, 0);
    SameBeside(v, p, x, y, dx, 0);
    SameBeside(v, p, x, y, 0, dy);
    SameBeside(v, p, x, y, dx, dy);
  }

  /** On a closure what spills into a cell comes through the faces from the map's
   neighbouring cell to the map's own: the coefficient is the least of them where
   all of them join their cells, and nothing otherwise. */
  lemma ClosureSpills(v: View, p: Problem, x: int, y: int, dx: int, dy: int)
    requires Solves(p, v) && IsStep(dx, dy) && InCoordinates(x, y)
    ensures var cell, r := HaloCell(p, x + dx, y + dy), SpillCoefficient(p, x, y, dx, dy);
      var faces := FacesBetween(p.lattice, MapCell(p, x + dx, y + dy), -dx, -dy);
      if cell.site != NULL && InCoordinates(cell.x, cell.y) && AllJoin(p.lattice, faces)
      then IsLeast(p.lattice, faces, r) else r == 0
  {
    hide HaloCell, SpillCoefficient, FacesBetween, AllJoin, IsLeast, MapCell, Solves;
    SpillIsLeast(p, x, y, dx, dy);
    if HaloCell(p, x + dx, y + dy).site != NULL {
      SameFaces(v, p, x + dx, y + dy, -dx, -dy);
    }
  }

  /** Between two cells of a solve the faces that light spills through one way join
   their cells exactly when the faces it would spill through the other way do. */
  lemma SpillsBothWays(v: View, p: Problem, x: int, y: int, dx: int, dy: int)
    requires Solves(p, v) && IsStep(dx, dy)
    requires HaloCell(p, x, y).site != NULL && HaloCell(p, x + dx, y + dy).site != NULL
    ensures AllJoin(p.lattice, FacesBetween(p.lattice, HaloCell(p, x + dx, y + dy), -dx, -dy))
       <==> AllJoin(p.lattice, FacesBetween(p.lattice, HaloCell(p, x, y), dx, dy))
  {
    hide HaloCell, FacesBetween, AllJoin, Seamless, SolverLattice, View.Valid, IsHandle;
    ClosureSeamless(v);
    var l, here, there := p.lattice, MapCell(p, x, y), MapCell(p, x + dx, y + dy);
    SameFaces(v, p, x, y, dx, dy);
    SameFaces(v, p, x + dx, y + dy, -dx, -dy);
    JoinsBackwards(l, p.site, here.x, here.y, dx, dy);
    JoinsBackwards(l, p.site, there.x, there.y, -dx, -dy);
    assert Cell(p.site, there.x + -dx, there.y + -dy, 0) == here && Cell(p.site, here.x + dx, here.y + dy, 0) == there;
  }
}
