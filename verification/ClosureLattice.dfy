/**
 The solver lattice of celestial_closure.c: a cell lies on the fragment that
 covers it and, where none does, on a record of its depth that stands for air
 and counts in window coordinates.
 */
module ClosureLattice {
  import opened Packets
  import opened ClosureCodec
  import opened ClosureRoundTrip
  import opened ClosureIndex
  import opened Lattices
  import FixedPoint
  import Rays

  const OUTSIDE_DEPTH_MIN: int := -6
  const OUTSIDE_DEPTHS: int := 59

  const CONTINUOUS_NORTH: nat := 0x4_0000
  const CONTINUOUS_EAST: nat := 0x8_0000
  const CONTINUOUS_SOUTH: nat := 0x10_0000
  const CONTINUOUS_WEST: nat := 0x20_0000
  const CONTINUOUS_DOWN: nat := 0x80_0000
  const OVERHEAD_WEIGHT: nat := 0x100_0000
  const OVERHEAD_APERTURE: nat := 0x400_0000

  /** A built closure, seen as values. */
  datatype View = View(fragments: seq<Fragment>, width: nat, height: nat) {
    ghost predicate Valid() { Buildable(fragments, width, height) }
  }

  // ---- handles -------------------------------------------------------------

  /** Handles stand for the addresses of the lattice's own records: fragment i
   is i + 1, and the open air of each depth comes after every fragment. */
  predicate IsFragment(v: View, site: Handle) { 1 <= site <= |v.fragments| }

  function OutsideOf(depth: int): int { depth - OUTSIDE_DEPTH_MIN + FRAGMENTS_MAX + 1 }

  predicate DepthInAir(depth: int) { OUTSIDE_DEPTH_MIN <= depth < OUTSIDE_DEPTH_MIN + OUTSIDE_DEPTHS }

  predicate IsOutside(site: Handle) {
    DepthInAir(site - FRAGMENTS_MAX - 1 + OUTSIDE_DEPTH_MIN)
  }

  predicate IsHandle(v: View, site: Handle) { IsFragment(v, site) || IsOutside(site) }

  /** Where a point in a handle's coordinates is: its depth and window cell. */
  function Located(v: View, site: Handle, x: int, y: int, z: int): Vec {
    if IsFragment(v, site) then
      var f := v.fragments[site - 1];
      Vec(f.x + x, f.y + y, f.depth + z)
    else Vec(x, y, site - FRAGMENTS_MAX - 1 + OUTSIDE_DEPTH_MIN + z)
  }

  // ---- resolving -----------------------------------------------------------

  /** The first fragment from i on that covers a cell, plus one; or zero. */
  function Finder(fs: seq<Fragment>, at: Vec, i: nat): (n: nat)
    requires i <= |fs|
    ensures n == 0 ==> forall j :: i <= j < |fs| ==> !Covers(fs[j], at.z, at.x, at.y)
    ensures n != 0 ==> i < n <= |fs| && Covers(fs[n - 1], at.z, at.x, at.y)
    decreases |fs| - i
  {
    if i == |fs| then 0
    else if Covers(fs[i], at.z, at.x, at.y) then i + 1
    else Finder(fs, at, i + 1)
  }

  /** The lattice's cell for a place, z relative to the traversal's origin. */
  function CellAt(v: View, at: Vec, z: int): Cell
    requires AllTyped(v.fragments)
  {
    if !DepthInAir(at.z) then Cell(NULL, 0, 0, z)
    else
      var n := Finder(v.fragments, at, 0);
      if n != 0 && ValueAt(v.fragments, at.z, at.x, at.y) != 0 then
        Cell(n, at.x - v.fragments[n - 1].x, at.y - v.fragments[n - 1].y, z)
      else Cell(OutsideOf(at.z), at.x, at.y, z)
  }

  /** lattice_resolve() as a function. */
  function Resolve(v: View, site: Handle, x: int, y: int, z: int): Cell
    requires AllTyped(v.fragments)
  {
    if !IsHandle(v, site) then Cell(NULL, 0, 0, z) else CellAt(v, Located(v, site, x, y, z), z)
  }

  /** A resolved cell names the place it was resolved for. */
  lemma ResolvedPlace(v: View, site: Handle, x: int, y: int, z: int)
    requires v.Valid() && IsHandle(v, site)
    ensures var c, at := Resolve(v, site, x, y, z), Located(v, site, x, y, z);
      && (c.site != NULL <==> DepthInAir(at.z))
      && c.z == z
      && (c.site != NULL ==> IsHandle(v, c.site) && Located(v, c.site, c.x, c.y, 0) == at)
  {
    hide ValueAt;
  }

  lemma Moved(v: View, site: Handle, x: int, y: int, z: int, dx: int, dy: int, dz: int)
    ensures var at := Located(v, site, x, y, z);
      Located(v, site, x + dx, y + dy, z + dz) == Vec(at.x + dx, at.y + dy, at.z + dz)
  {}

  lemma AnyHeight(v: View, at: Vec, z: int, z': int)
    requires AllTyped(v.fragments)
    ensures CellAt(v, at, z).(z := z') == CellAt(v, at, z')
  {
    hide ValueAt, Finder;
  }

  /** Path independence: from any resolved cell, its handle and local coordinates
   lead to exactly the cell the original handle does, and fail where it fails. */
  lemma PathIndependent(v: View, site: Handle, x: int, y: int, z: int, dx: int, dy: int, dz: int)
    requires v.Valid() && IsHandle(v, site) && Resolve(v, site, x, y, z).site != NULL
    ensures var c := Resolve(v, site, x, y, z);
      Resolve(v, c.site, c.x + dx, c.y + dy, dz).(z := z + dz) == Resolve(v, site, x + dx, y + dy, z + dz)
  {
    hide ValueAt, Finder, IsHandle, CellAt, AllTyped, Located, DepthInAir;
    ResolvedPlace(v, site, x, y, z);
    var c := Resolve(v, site, x, y, z);
    Moved(v, site, x, y, z, dx, dy, dz);
    Moved(v, c.site, c.x, c.y, 0, dx, dy, dz);
    AnyHeight(v, Located(v, site, x + dx, y + dy, z + dz), dz, z + dz);
  }

  /** One place has one name: two points resolve to the same handle and local
   coordinates exactly when they are the same place. */
  lemma OneName(v: View, a: Handle, x: int, y: int, z: int, b: Handle, x': int, y': int, z': int)
    requires v.Valid() && IsHandle(v, a) && IsHandle(v, b)
    requires Resolve(v, a, x, y, z).site != NULL && Resolve(v, b, x', y', z').site != NULL
    ensures var c, d := Resolve(v, a, x, y, z), Resolve(v, b, x', y', z');
      (c.site == d.site && c.x == d.x && c.y == d.y) <==> Located(v, a, x, y, z) == Located(v, b, x', y', z')
  {
    hide ValueAt, Finder, IsHandle;
    ResolvedPlace(v, a, x, y, z);
    ResolvedPlace(v, b, x', y', z');
  }

  /** The depth of a handle's own level. */
  function DepthOf(v: View, site: Handle): int { Located(v, site, 0, 0, 0).z }

  /** A handle of one of the closure's own depths, where every ray of a solve
   begins: a fragment, or the open air beside one. */
  predicate OnLevel(v: View, site: Handle) { IsHandle(v, site) && -DEPTH_MAX <= DepthOf(v, site) <= DEPTH_MAX }

  lemma FragmentOnLevel(v: View, site: Handle)
    requires v.Valid() && IsFragment(v, site)
    ensures OnLevel(v, site)
  {
    assert FragmentValid(v.fragments[site - 1], v.width, v.height);
  }

  /** The open air reaches above everything a ray can: from every closure depth,
   a ray's every point and the one after it resolve. */
  lemma RaysResolve(v: View, site: Handle, x: int, y: int, z: int)
    requires v.Valid() && OnLevel(v, site) && 0 <= z <= Rays.RAY_EVENTS + 1
    ensures Resolve(v, site, x, y, z).site != NULL
  {
    hide View.Valid, CellAt;
    Moved(v, site, 0, 0, 0, x, y, z);
    ResolvedPlace(v, site, x, y, z);
  }

  // ---- values --------------------------------------------------------------

  /** A cell of a fragment lies in it. */
  predicate InMap(v: View, c: Cell) {
    IsFragment(v, c.site) ==>
      0 <= c.x < v.fragments[c.site - 1].width && 0 <= c.y < v.fragments[c.site - 1].height
  }

  /** lattice_value(): zero for open air, outside records and unresolved cells. */
  function Value(v: View, c: Cell): (value: nat)
    requires AllTyped(v.fragments) && InMap(v, c)
    ensures value < UINT32
  {
    if !IsFragment(v, c.site) then 0
    else
      var f := v.fragments[c.site - 1];
      var value := CellValue(f, f.x + c.x, f.y + c.y);
      if value == OUTSIDE_RECORD then 0 else value
  }

  /** Resolved cells lie in their map, and carry the closure's own value: zero
   only where the closure has none or an outside record. */
  lemma ResolvedValue(v: View, site: Handle, x: int, y: int, z: int)
    requires v.Valid() && IsHandle(v, site)
    ensures var c, at := Resolve(v, site, x, y, z), Located(v, site, x, y, z);
      && InMap(v, c)
      && (c.site != NULL ==>
           var value := ValueAt(v.fragments, at.z, at.x, at.y);
           Value(v, c) == if value == OUTSIDE_RECORD then 0 else value)
  {
    var at := Located(v, site, x, y, z);
    var n := Finder(v.fragments, at, 0);
    hide Disjoint, SkyClear, CellValue, AllFragmentsValid, AllTyped;
    if n == 0 {
      ScanMisses(v.fragments, at.z, at.x, at.y, 0);
    } else {
      ScanFinds(v.fragments, at.z, at.x, at.y, 0, n - 1);
    }
  }

  // ---- faces ---------------------------------------------------------------

  /** continuity_bit(): the bit that stands for a direction out of a cell. */
  function ContinuityBit(normal: Vec): (weight: nat)
    ensures weight > 0
  {
    if normal.x > 0 then CONTINUOUS_EAST
    else if normal.x < 0 then CONTINUOUS_WEST
    else if normal.y > 0 then CONTINUOUS_SOUTH
    else if normal.y < 0 then CONTINUOUS_NORTH
    else if normal.z > 0 then CONTINUOUS_UP
    else CONTINUOUS_DOWN
  }

  predicate OnMaps(v: View, face: Face) { InMap(v, face.from) && InMap(v, face.to) }

  predicate SlotsAgree(v: View, a: Cell, b: Cell)
    requires AllTyped(v.fragments) && InMap(v, a) && InMap(v, b)
  {
    Value(v, a) != 0 && Value(v, b) != 0 ==> v.fragments[a.site - 1].slot == v.fragments[b.site - 1].slot
  }

  /** lattice_continuous() */
  predicate Continuous(v: View, face: Face)
    requires AllTyped(v.fragments) && OnMaps(v, face)
  {
    if face.from.site == NULL || face.to.site == NULL then face.from.site == face.to.site
    else
      var from, to := Value(v, face.from), Value(v, face.to);
      && SlotsAgree(v, face.from, face.to)
      && (from == 0 || Bit(from, ContinuityBit(face.normal)))
      && (to == 0 || Bit(to, ContinuityBit(face.Reversed().normal)))
  }

  /** Light that passes a face one way would pass it the other way. */
  lemma ContinuousReversed(v: View, face: Face)
    requires AllTyped(v.fragments) && OnMaps(v, face)
    ensures Continuous(v, face.Reversed()) == Continuous(v, face)
  {
    var n := face.normal;
    assert Vec(-(-n.x), -(-n.y), -(-n.z)) == n && face.Reversed().Reversed() == face;
    hide Value, Bit, ContinuityBit;
  }

  /** class_coefficient */
  function ClassCoefficient(class_: nat): nat
    requires class_ < 4
  {
    [0, 192, 224, FixedPoint.SCALE][class_]
  }

  predicate IsClass(coefficient: nat) { coefficient in {0, 192, 224, FixedPoint.SCALE} }

  function ClassAt(value: nat, weight: nat): nat
    requires weight > 0
  {
    value / weight % 4
  }

  function Pow4(face: nat): (weight: nat)
    requires face < 5
    ensures weight > 0
  {
    [1, 4, 16, 64, 256][face]
  }

  function ApertureWeight(face: nat): (weight: nat)
    requires face < 5
    ensures weight > 0
  {
    [1024, 2048, 4096, 8192, 16384][face]
  }

  /** cell_face() of a cell's face, 0 down to 4 west. */
  function CellFace(v: View, c: Cell, face: nat): (r: Crossing)
    requires AllTyped(v.fragments) && InMap(v, c) && face < 5
    ensures IsClass(r.coefficient)
  {
    if c.site == NULL then Crossing(0, false)
    else
      var value := Value(v, c);
      if value == 0 then Crossing(FixedPoint.SCALE, false)
      else Crossing(ClassCoefficient(ClassAt(value, Pow4(face))), Bit(value, ApertureWeight(face)))
  }

  /** The floor a vertical face crosses: above an authorized cell whose upper
   neighbour is outside the closure, the one the authorized cell recorded. */
  function Floor(v: View, upper: Cell, lower: Cell): (r: Crossing)
    requires AllTyped(v.fragments) && InMap(v, upper) && InMap(v, lower)
    ensures IsClass(r.coefficient)
  {
    var below := if lower.site != NULL then Value(v, lower) else 0;
    if upper.site != NULL && Value(v, upper) == 0 && below != 0 then
      Crossing(ClassCoefficient(ClassAt(below, OVERHEAD_WEIGHT)), Bit(below, OVERHEAD_APERTURE))
    else CellFace(v, upper, 0)
  }

  function Cover(v: View, lower: Cell): (r: nat)
    requires AllTyped(v.fragments) && InMap(v, lower)
    ensures r == 0 || r == FixedPoint.SCALE
  {
    if lower.site == NULL then 0
    else if Value(v, lower) == 0 || Bit(Value(v, lower), COVER_OPEN) then FixedPoint.SCALE
    else 0
  }

  /** lattice_light() */
  function Light(v: View, face: Face): (r: Crossing)
    requires AllTyped(v.fragments) && OnMaps(v, face)
    ensures IsClass(r.coefficient)
  {
    if face.normal.z != 0 then
      var upper := if face.normal.z > 0 then face.to else face.from;
      var lower := if face.normal.z > 0 then face.from else face.to;
      var floor, cover := Floor(v, upper, lower), Cover(v, lower);
      Crossing(if floor.coefficient < cover then floor.coefficient else cover, floor.aperture)
    else if face.normal.x < 0 then CellFace(v, face.from, 4)
    else if face.normal.x > 0 then CellFace(v, face.from, 2)
    else if face.normal.y < 0 then CellFace(v, face.from, 1)
    else if face.normal.y > 0 then CellFace(v, face.from, 3)
    else Crossing(FixedPoint.SCALE, false)
  }

  /** A vertical face transmits the same both ways. */
  lemma VerticalReversed(v: View, face: Face)
    requires AllTyped(v.fragments) && OnMaps(v, face) && face.normal.z != 0
    ensures Light(v, face.Reversed()) == Light(v, face)
  {
    hide Value, Floor, Cover;
  }

  /** The bits of a cell fully open upward. */
  predicate OpenUp(value: nat) {
    && Bit(value, COVER_OPEN) && Bit(value, CONTINUOUS_UP)
    && ClassAt(value, OVERHEAD_WEIGHT) == 3 && !Bit(value, OVERHEAD_APERTURE)
  }

  /** lattice_sky() */
  predicate Sky(v: View, face: Face)
    requires AllTyped(v.fragments) && OnMaps(v, face)
  {
    var from := Value(v, face.from);
    if from != 0 then
      || Bit(from, SKY_EXIT)
      || (face.to.site != NULL && !IsFragment(v, face.to.site)
          && Located(v, face.to.site, 0, 0, 0).z > DEPTH_MAX && OpenUp(from))
    else face.from.site != NULL && Value(v, face.to) == 0
  }

  /** A sky exit skips nothing: above a cell that claims one there is, in every
   built closure, no cell the solver would have solved. */
  lemma SkyExitSkipsNothing(v: View, site: Handle, x: int, y: int, z: int)
    requires v.Valid() && IsHandle(v, site) && Resolve(v, site, x, y, z).site != NULL
    requires InMap(v, Resolve(v, site, x, y, z)) && Bit(Value(v, Resolve(v, site, x, y, z)), SKY_EXIT)
    ensures var above := Resolve(v, site, x, y, z + 1);
      above.site != NULL && InMap(v, above) && Value(v, above) == 0
  {
    hide Resolve, ValueAt, CellValue, Value, IsHandle, InMap, Located, DepthInAir;
    ResolvedPlace(v, site, x, y, z);
    ResolvedPlace(v, site, x, y, z + 1);
    ResolvedValue(v, site, x, y, z + 1);
    Moved(v, site, x, y, z, 0, 0, 1);
    SkyExitAbove(v, Resolve(v, site, x, y, z), Located(v, site, x, y, z));
  }

  lemma SkyExitAbove(v: View, c: Cell, at: Vec)
    requires v.Valid() && InMap(v, c) && Bit(Value(v, c), SKY_EXIT)
    requires c.site != NULL && IsHandle(v, c.site) && Located(v, c.site, c.x, c.y, 0) == at
    ensures ValueAt(v.fragments, at.z + 1, at.x, at.y) in {0, OUTSIDE_RECORD}
    ensures DepthInAir(at.z + 1)
  {
    var f := v.fragments[c.site - 1];
    assert FragmentValid(f, v.width, v.height) && Covers(f, f.depth, at.x, at.y);
    if f.depth == DEPTH_MAX {
      OutsideWindow(v.fragments, v.width, v.height, at.z + 1, at.x, at.y);
    }
    hide ValueAt, CellValue;
  }

  /** A sky taken for a fully open top is one light() would have let through:
   full transmission and no aperture. */
  lemma OpenTopTransmits(v: View, face: Face)
    requires AllTyped(v.fragments) && OnMaps(v, face) && face.normal.z > 0
    requires Value(v, face.from) != 0 && !Bit(Value(v, face.from), SKY_EXIT) && Sky(v, face)
    requires face.from.site != NULL
    ensures Light(v, face) == Crossing(FixedPoint.SCALE, false)
  {
    hide Bit, ClassAt;
  }

  // ---- the lattice and its index -------------------------------------------

  /** lattice_resolve() over the built index. */
  method ResolveCell(c: Closure, site: Handle, x: int, y: int, z: int) returns (cell: Cell)
    requires c.Valid()
    ensures cell == Resolve(View(c.fragments, c.width, c.height), site, x, y, z)
  {
    hide CellAt;
    ghost var v := View(c.fragments, c.width, c.height);
    var at: Vec;
    if 1 <= site <= |c.fragments| {
      var f := c.fragments[site - 1];
      at := Vec(x + f.x, y + f.y, f.depth + z);
    } else if IsOutside(site) {
      at := Vec(x, y, site - FRAGMENTS_MAX - 1 + OUTSIDE_DEPTH_MIN + z);
    } else {
      return Cell(NULL, 0, 0, z);
    }
    cell := CellOf(c, at, z);
  }

  method CellOf(c: Closure, at: Vec, z: int) returns (cell: Cell)
    requires c.Valid()
    ensures cell == CellAt(View(c.fragments, c.width, c.height), at, z)
  {
    ghost var v := View(c.fragments, c.width, c.height);
    if !DepthInAir(at.z) {
      return Cell(NULL, 0, 0, z);
    }
    var n := FragmentOf(c, at);
    if n != 0 {
      var f := c.fragments[n - 1];
      var value := c.Value(at.z, at.x, at.y);
      if value != 0 {
        return Cell(n, at.x - f.x, at.y - f.y, z);
      }
    }
    return Cell(OutsideOf(at.z), at.x, at.y, z);
  }

  /** The index entry of a place: the linear search's fragment. */
  method FragmentOf(c: Closure, at: Vec) returns (n: nat)
    requires c.Valid()
    ensures n == Finder(c.fragments, at, 0)
  {
    if at.z < -DEPTH_MAX || at.z > DEPTH_MAX || at.x < 0 || at.y < 0 || at.x >= c.width || at.y >= c.height {
      NoneOutside(c.fragments, c.width, c.height, at);
      return 0;
    }
    n := c.index[at.z + DEPTH_MAX, at.y, at.x];
    assert InBox(c.width, c.height, at.z, at.x, at.y);
    assert EntryIs(n, c.fragments, |c.fragments|, at.z, at.x, at.y);
    FinderUnique(c.fragments, at, n);
  }

  lemma NoneOutside(fs: seq<Fragment>, w: int, h: int, at: Vec)
    requires AllFragmentsValid(fs, w, h)
    requires !DepthValid(at.z) || at.x < 0 || at.y < 0 || at.x >= w || at.y >= h
    ensures Finder(fs, at, 0) == 0
  {
    forall j | 0 <= j < |fs|
      ensures !Covers(fs[j], at.z, at.x, at.y)
    {
      assert FragmentValid(fs[j], w, h);
    }
  }

  lemma CoverUnique(fs: seq<Fragment>, at: Vec, i: nat, j: nat)
    requires Disjoint(fs) && i < |fs| && j < |fs|
    requires Covers(fs[i], at.z, at.x, at.y) && Covers(fs[j], at.z, at.x, at.y)
    ensures i == j
  {}

  lemma FinderUnique(fs: seq<Fragment>, at: Vec, n: nat)
    requires Disjoint(fs) && EntryIs(n, fs, |fs|, at.z, at.x, at.y)
    ensures Finder(fs, at, 0) == n
  {
    var m := Finder(fs, at, 0);
    hide Disjoint;
    if m != 0 && n != 0 {
      CoverUnique(fs, at, m - 1, n - 1);
    }
  }
}
