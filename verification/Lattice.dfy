/**
 The abstract lattice celestial_solver.c traverses: opaque map handles, cells
 with coordinates local to a map, faces between cells, and the callbacks a
 lattice provides. A lattice answers the same question the same way for the
 whole of a solve, so its callbacks are pure functions here.
 */
module Lattices {

  /** An opaque map handle; 0 is the NULL of an unresolved cell. */
  type Handle = nat
  const NULL: Handle := 0

  datatype Vec = Vec(x: int, y: int, z: int) {
    function At(axis: nat): int
      requires axis < 3
    {
      if axis == 0 then x else if axis == 1 then y else z
    }

    function Put(axis: nat, value: int): (v: Vec)
      requires axis < 3
      ensures v.At(axis) == value
      ensures forall a: nat :: a < 3 && a != axis ==> v.At(a) == At(a)
    {
      if axis == 0 then Vec(value, y, z) else if axis == 1 then Vec(x, value, z) else Vec(x, y, value)
    }
  }

  const ZERO := Vec(0, 0, 0)

  /** One step along one axis. */
  predicate IsUnit(n: Vec) {
    n in {Vec(1, 0, 0), Vec(-1, 0, 0), Vec(0, 1, 0), Vec(0, -1, 0), Vec(0, 0, 1), Vec(0, 0, -1)}
  }

  /** A cell of a map; z counts from the level a traversal began at. */
  datatype Cell = Cell(site: Handle, x: int, y: int, z: int)

  /** Where two cells meet; the normal points out of the first into the second. */
  datatype Face = Face(from: Cell, to: Cell, normal: Vec) {
    /** The same face crossed the other way. */
    function Reversed(): Face {
      Face(to, from, Vec(-normal.x, -normal.y, -normal.z))
    }
  }

  datatype Crossing = Crossing(coefficient: nat, aperture: bool)

  datatype Lattice = Lattice(
    // A point in the origin map's coordinates; a NULL map is a failure.
    resolve: (Handle, int, int, int) -> Cell,
    // Whether a consulted map may be used; always true without the hook.
    observe: Handle -> bool,
    dimensions: Handle -> (int, int),
    sky: Face -> bool,
    continuous: Face -> bool,
    light: Face -> Crossing)

  /** observe(): an unresolved map is never reported. */
  predicate Observed(l: Lattice, site: Handle) {
    site == NULL || l.observe(site)
  }
}
