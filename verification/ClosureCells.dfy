/**
 What the bits of a closure's cell mean: a wall to each side and below, a floor
 above, and which neighbours the cell goes on into.
 */
module ClosureCells {
  import opened Arithmetic
  import opened Packets
  import opened ClosureCodec
  import opened ClosureIndex
  import opened Lattices
  import opened L = ClosureLattice
  import opened ClosureSolve

  /** A face of a cell, with what it lets through and whether that is an opening. */
  datatype Wall = Opaque(opening: bool) | Glass(opening: bool) | Grate(opening: bool) | Open(opening: bool) {
    function Kind(): nat { match this case Opaque(_) => 0 case Glass(_) => 1 case Grate(_) => 2 case Open(_) => 3 }

    function Lets(): Crossing {
      Crossing(match this case Opaque(_) => 0 case Glass(_) => 192 case Grate(_) => 224 case Open(_) => 256, opening)
    }
  }

  datatype Around<T> = Around(north: T, east: T, south: T, west: T)

  /** A cell of the closure. */
  datatype CellBits = CellBits(below: Wall, sides: Around<Wall>, coverOpen: bool, skyExit: bool,
                               joins: Around<bool>, joinsUp: bool, joinsDown: bool, above: Wall)

  // ---- numbers and their bits ----------------------------------------------

  function One(b: bool): nat { if b then 1 else 0 }

  /** The number with these bits, the lowest first. */
  function Number(bits: seq<bool>): nat {
    if bits == [] then 0 else One(bits[0]) + 2 * Number(bits[1..])
  }

  lemma HalfOf(n: nat, p: nat)
    requires p > 0
    ensures n / (2 * p) == n / p / 2
  {
    var q := n / p;
    DivBounds(n, p);
    var half, odd := q / 2, q % 2;
    assert q * p == 2 * half * p + odd * p by { assert q == 2 * half + odd; }
    assert 2 * half * p == 2 * p * half;
    assert odd == 0 || odd == 1;
    DivUnique(n, 2 * p, half, n - q * p + if odd == 1 then p else 0);
  }

  lemma {:induction false} BitsFrom(bits: seq<bool>, i: nat)
    requires i <= |bits|
    ensures Number(bits) / Power(i) == Number(bits[i..])
    decreases i
  {
    if i == 0 {
      assert bits[0..] == bits;
    } else {
      BitsFrom(bits, i - 1);
      HalfOf(Number(bits), Power(i - 1));
      assert bits[i - 1..][1..] == bits[i..];
    }
  }

  lemma {:induction false} NumberBelow(bits: seq<bool>)
    ensures Number(bits) < Power(|bits|)
  {
    if bits != [] {
      NumberBelow(bits[1..]);
    }
  }

  /** Bit i, as the lattice reads it. */
  lemma BitRead(bits: seq<bool>, i: nat)
    requires i < |bits|
    ensures Bit(Number(bits), Power(i)) == bits[i]
  {
    BitsFrom(bits, i);
    DivUnique(Number(bits[i..]), 2, Number(bits[i..][1..]), One(bits[i]));
    hide Power;
  }

  /** The two bits from i on. */
  lemma PairRead(bits: seq<bool>, i: nat)
    requires i + 1 < |bits|
    ensures ClassAt(Number(bits), Power(i)) == One(bits[i]) + 2 * One(bits[i + 1])
  {
    BitsFrom(bits, i);
    var n, rest := Number(bits[i..]), Number(bits[i + 2..]);
    assert n == One(bits[i]) + 2 * (One(bits[i + 1]) + 2 * rest) by {
      assert bits[i..][1..] == bits[i + 1..] && bits[i + 1..][1..] == bits[i + 2..];
    }
    DivUnique(n, 4, rest, One(bits[i]) + 2 * One(bits[i + 1]));
    hide Number, Power;
  }

  /** Powers of two by name. */
  lemma Powers()
    ensures Power(0) == 1 && Power(2) == 4 && Power(4) == 16 && Power(6) == 64 && Power(8) == 256
    ensures Power(10) == 1024 && Power(11) == 2048 && Power(12) == 4096 && Power(13) == 8192 && Power(14) == 16384
    ensures Power(15) == IN && Power(16) == COVER_OPEN && Power(17) == SKY_EXIT
    ensures Power(18) == 0x4_0000 && Power(19) == 0x8_0000 && Power(20) == 0x10_0000 && Power(21) == 0x20_0000
    ensures Power(22) == CONTINUOUS_UP && Power(23) == CONTINUOUS_DOWN && Power(24) == OVERHEAD_WEIGHT
    ensures Power(26) == OVERHEAD_APERTURE && Power(27) == OUTSIDE
    ensures Power(28) == VALUE_LIMIT
  {
    assert Power(2) == 4 && Power(4) == 16;
    assert Power(6) == 64 && Power(8) == 256;
    assert Power(10) == 1024 && Power(12) == 4096;
    assert Power(14) == 0x4000 && Power(16) == 0x1_0000;
    assert Power(18) == 0x4_0000 && Power(20) == 0x10_0000;
    assert Power(22) == 0x40_0000 && Power(24) == 0x100_0000;
  }

  // ---- cells ---------------------------------------------------------------

  /** Faces in the order of their numbers. */
  function WallAt(c: CellBits, face: nat): Wall
    requires face < 5
  {
    [c.below, c.sides.north, c.sides.east, c.sides.south, c.sides.west][face]
  }

  /** Bit i of a cell: five walls of two bits, whether each is an opening, the mark
   of a cell of the closure, what is over it, where it goes on, the floor above. */
  function BitAt(c: CellBits, i: nat): bool
    requires i < 28
  {
    if i < 10 then (if i % 2 == 0 then WallAt(c, i / 2).Kind() % 2 == 1 else WallAt(c, i / 2).Kind() / 2 == 1)
    else if i < 15 then WallAt(c, i - 10).opening
    else
      match i
      case 15 => true
      case 16 => c.coverOpen
      case 17 => c.skyExit
      case 18 => c.joins.north
      case 19 => c.joins.east
      case 20 => c.joins.south
      case 21 => c.joins.west
      case 22 => c.joinsUp
      case 23 => c.joinsDown
      case 24 => c.above.Kind() % 2 == 1
      case 25 => c.above.Kind() / 2 == 1
      case 26 => c.above.opening
      case _ => false
  }

  function BitsOf(c: CellBits): seq<bool> { seq(28, (i: nat) requires i < 28 => BitAt(c, i)) }

  /** A cell's value. */
  function Word(c: CellBits): nat { Number(BitsOf(c)) }

  /** Where a cell's value keeps each of its walls. */
  lemma WallRead(c: CellBits, face: nat)
    requires face < 5
    ensures ClassAt(Word(c), Pow4(face)) == WallAt(c, face).Kind()
    ensures Bit(Word(c), ApertureWeight(face)) == WallAt(c, face).opening
  {
    hide Number, Power, ClassAt, Bit, WallAt;
    Powers();
    PairRead(BitsOf(c), 2 * face);
    BitRead(BitsOf(c), 10 + face);
    assert 2 * face / 2 == face && (2 * face + 1) / 2 == face && 2 * face % 2 == 0 && (2 * face + 1) % 2 == 1;
    assert BitsOf(c)[10 + face] == BitAt(c, 10 + face);
    assert BitsOf(c)[2 * face] == BitAt(c, 2 * face) && BitsOf(c)[2 * face + 1] == BitAt(c, 2 * face + 1);
  }

  /** A neighbour to a side of a cell, across or along the map. */
  function Toward<T>(a: Around<T>, dx: int, dy: int): T {
    if dx > 0 then a.east else if dx < 0 then a.west else if dy > 0 then a.south else a.north
  }

  /** Where it keeps the neighbours it goes on into. */
  lemma JoinRead(c: CellBits, d: Vec)
    requires d != ZERO
    ensures Bit(Word(c), ContinuityBit(d))
         == if d.x != 0 || d.y != 0 then Toward(c.joins, d.x, d.y) else if d.z > 0 then c.joinsUp else c.joinsDown
  {
    hide Number, Power, Bit, ClassAt;
    var bit := if d.x > 0 then 19 else if d.x < 0 then 21 else if d.y > 0 then 20 else if d.y < 0 then 18
               else if d.z > 0 then 22 else 23;
    Powers();
    BitRead(BitsOf(c), bit);
    assert BitsOf(c)[bit] == BitAt(c, bit);
  }

  /** And what is over it. */
  lemma AboveRead(c: CellBits)
    ensures Bit(Word(c), COVER_OPEN) == c.coverOpen && Bit(Word(c), SKY_EXIT) == c.skyExit
    ensures ClassAt(Word(c), OVERHEAD_WEIGHT) == c.above.Kind() && Bit(Word(c), OVERHEAD_APERTURE) == c.above.opening
  {
    hide Number, Power, Bit, ClassAt;
    Powers();
    BitRead(BitsOf(c), 16);
    BitRead(BitsOf(c), 17);
    BitRead(BitsOf(c), 26);
    PairRead(BitsOf(c), 24);
    var bits := BitsOf(c);
    assert bits[16] == BitAt(c, 16) && bits[17] == BitAt(c, 17) && bits[26] == BitAt(c, 26);
    assert bits[24] == BitAt(c, 24) && bits[25] == BitAt(c, 25);
  }

  /** Every cell's value is one of the closure's, and valid but for a sky exit into
   a cell it goes on into or under a closed cover. */
  lemma WordValid(c: CellBits)
    ensures 0 < Word(c) < VALUE_LIMIT && Word(c) != OUTSIDE_RECORD
    ensures ValueValid(Word(c)) <==> !c.skyExit || (!c.joinsUp && c.coverOpen)
  {
    hide Number, Power, Bit;
    Powers();
    NumberBelow(BitsOf(c));
    BitRead(BitsOf(c), 15);
    BitRead(BitsOf(c), 22);
    BitRead(BitsOf(c), 27);
    AboveRead(c);
    var bits := BitsOf(c);
    assert bits[15] == BitAt(c, 15) && bits[22] == BitAt(c, 22) && bits[27] == BitAt(c, 27);
    assert !Bit(0, IN) && Bit(OUTSIDE_RECORD, OUTSIDE) by { NoBits(); }
  }

  lemma NoBits()
    ensures !Bit(0, IN) && Bit(OUTSIDE_RECORD, OUTSIDE)
  {}

  function WithWall(c: CellBits, face: nat, wall: Wall): CellBits
    requires face < 5
  {
    var s := c.sides;
    if face == 0 then c.(below := wall)
    else
      c.(sides := if face == 1 then s.(north := wall) else if face == 2 then s.(east := wall)
                  else if face == 3 then s.(south := wall) else s.(west := wall))
  }

  lemma WallChanged(c: CellBits, face: nat, wall: Wall, other: nat)
    requires face < 5 && other < 5
    ensures var e := WithWall(c, face, wall);
      && WallAt(e, other) == (if other == face then wall else WallAt(c, other))
      && e.joins == c.joins && e.joinsUp == c.joinsUp && e.joinsDown == c.joinsDown
      && e.coverOpen == c.coverOpen && e.skyExit == c.skyExit && e.above == c.above
      && (wall == WallAt(c, face) ==> e == c)
  {}

  lemma SameKind(a: Wall, b: Wall)
    ensures a.Kind() == b.Kind() && a.opening == b.opening <==> a == b
  {}

  /** Another wall to one side changes the value, and what the lattice reads of any
   other side, of the joins and of what is above stays what it was. */
  lemma OneWallOnly(c: CellBits, face: nat, wall: Wall, other: nat, d: Vec)
    requires face < 5 && other < 5 && d != ZERO
    ensures var before, after := Word(c), Word(WithWall(c, face, wall));
      && (other != face ==> ClassAt(after, Pow4(other)) == ClassAt(before, Pow4(other))
                            && Bit(after, ApertureWeight(other)) == Bit(before, ApertureWeight(other)))
      && Bit(after, ContinuityBit(d)) == Bit(before, ContinuityBit(d))
      && Bit(after, COVER_OPEN) == Bit(before, COVER_OPEN) && Bit(after, SKY_EXIT) == Bit(before, SKY_EXIT)
      && ClassAt(after, OVERHEAD_WEIGHT) == ClassAt(before, OVERHEAD_WEIGHT)
      && Bit(after, OVERHEAD_APERTURE) == Bit(before, OVERHEAD_APERTURE)
      && (before == after <==> WallAt(c, face) == wall)
  {
    hide WithWall, WallAt, Word, ClassAt, Bit, Pow4, ApertureWeight, ContinuityBit;
    var e := WithWall(c, face, wall);
    WallChanged(c, face, wall, other);
    WallChanged(c, face, wall, face);
    WallRead(c, other);
    WallRead(e, other);
    WallRead(c, face);
    WallRead(e, face);
    SameKind(wall, WallAt(c, face));
    JoinRead(c, d);
    JoinRead(e, d);
    AboveRead(c);
    AboveRead(e);
  }

  // ---- every value ---------------------------------------------------------

  function LowBits(n: nat, count: nat): (bits: seq<bool>)
    ensures |bits| == count
    decreases count
  {
    if count == 0 then [] else [n % 2 == 1] + LowBits(n / 2, count - 1)
  }

  lemma {:induction false} BitsBack(n: nat, count: nat)
    requires n < Power(count)
    ensures Number(LowBits(n, count)) == n
    decreases count
  {
    if count > 0 {
      BitsBack(n / 2, count - 1);
      assert LowBits(n, count)[1..] == LowBits(n / 2, count - 1);
    }
  }

  function WallOf(low: bool, high: bool, opening: bool): (w: Wall)
    ensures (w.Kind() % 2 == 1) == low && (w.Kind() / 2 == 1) == high && w.opening == opening
  {
    if high then (if low then Open(opening) else Grate(opening)) else if low then Glass(opening) else Opaque(opening)
  }

  function CellOf(b: seq<bool>): CellBits
    requires |b| == 28
  {
    CellBits(WallOf(b[0], b[1], b[10]),
             Around(WallOf(b[2], b[3], b[11]), WallOf(b[4], b[5], b[12]),
                    WallOf(b[6], b[7], b[13]), WallOf(b[8], b[9], b[14])),
             b[16], b[17], Around(b[18], b[19], b[20], b[21]), b[22], b[23], WallOf(b[24], b[25], b[26]))
  }

  lemma CellOfBits(b: seq<bool>)
    requires |b| == 28 && b[15] && !b[27]
    ensures BitsOf(CellOf(b)) == b
  {
    hide WallOf;
    var c := CellOf(b);
    forall i: nat | i < 28
      ensures BitAt(c, i) == b[i]
    {
      if i < 10 {
        assert i / 2 == 0 || i / 2 == 1 || i / 2 == 2 || i / 2 == 3 || i / 2 == 4;
      }
    }
  }

  /** Every value a cell of a closure may have is that of some cell. */
  lemma ValueIsWord(value: nat) returns (c: CellBits)
    requires value < UINT32 && ValueValid(value) && value != 0 && value != OUTSIDE_RECORD
    ensures Word(c) == value
  {
    hide Number, Power, Bit;
    Powers();
    var bits := LowBits(value, 28);
    BitsBack(value, 28);
    BitRead(bits, 15);
    BitRead(bits, 27);
    CellOfBits(bits);
    c := CellOf(bits);
  }

  // ---- the lattice ---------------------------------------------------------

  /** What a place holds: open air, where the closure has nothing or an outside
   record, or one of its cells. */
  datatype Content = Air | Filled(cell: CellBits)

  predicate Holds(value: nat, content: Content) {
    match content case Air => value == 0 || value == OUTSIDE_RECORD case Filled(c) => value == Word(c)
  }

  const CLEAR_AIR := Crossing(256, false)

  /** Light that leaves a place to a side goes through its wall on that side. */
  function ThroughSide(from: Content, dx: int, dy: int): Crossing {
    match from case Air => CLEAR_AIR case Filled(c) => Toward(c.sides, dx, dy).Lets()
  }

  /** Light up or down goes through the floor of the upper place, or the one the
   lower recorded where the upper is air; and a closed cover stops it. */
  function ThroughFloor(lower: Content, upper: Content): Crossing {
    var floor := match upper
      case Filled(u) => u.below.Lets()
      case Air => if lower.Filled? then lower.cell.above.Lets() else CLEAR_AIR;
    if lower.Filled? && !lower.cell.coverOpen then floor.(coefficient := 0) else floor
  }

  function Through(from: Content, to: Content, d: Vec): Crossing {
    if d.z > 0 then ThroughFloor(from, to) else if d.z < 0 then ThroughFloor(to, from) else ThroughSide(from, d.x, d.y)
  }

  /** Whether a place goes on into the one beside it. */
  predicate GoesOn(content: Content, d: Vec) {
    match content
    case Air => true
    case Filled(c) =>
      if d.x != 0 || d.y != 0 then Toward(c.joins, d.x, d.y) else if d.z > 0 then c.joinsUp else c.joinsDown
  }

  /** A resolved cell that holds something. */
  ghost predicate CellHolds(v: View, c: Cell, content: Content) {
    AllTyped(v.fragments) && InMap(v, c) && c.site != NULL
    && L.Value(v, c) == match content case Air => 0 case Filled(bits) => Word(bits)
  }

  lemma FaceLets(v: View, c: Cell, content: Content, face: nat)
    requires CellHolds(v, c, content) && face < 5
    ensures CellFace(v, c, face) == match content case Air => CLEAR_AIR case Filled(bits) => WallAt(bits, face).Lets()
  {
    hide L.Value, WallAt, Word, ClassAt, Bit;
    if content.Filled? {
      WordValid(content.cell);
      WallRead(content.cell, face);
    }
  }

  lemma LightThrough(v: View, face: Face, from: Content, to: Content)
    requires CellHolds(v, face.from, from) && CellHolds(v, face.to, to) && IsUnit(face.normal)
    ensures L.Light(v, face) == Through(from, to, face.normal)
  {
    hide L.Value, Word, ClassAt, Bit, CellFace;
    var d := face.normal;
    if d.z == 0 {
      FaceLets(v, face.from, from, if d.x < 0 then 4 else if d.x > 0 then 2 else if d.y < 0 then 1 else 3);
    } else if d.z > 0 {
      FloorLets(v, face.from, face.to, from, to);
    } else {
      FloorLets(v, face.to, face.from, to, from);
    }
  }

  lemma FloorLets(v: View, lower: Cell, upper: Cell, a: Content, b: Content)
    requires CellHolds(v, lower, a) && CellHolds(v, upper, b)
    ensures var floor, cover := Floor(v, upper, lower), Cover(v, lower);
      Crossing(if floor.coefficient < cover then floor.coefficient else cover, floor.aperture) == ThroughFloor(a, b)
  {
    hide L.Value, Word, ClassAt, Bit, CellFace;
    FaceLets(v, upper, b, 0);
    if a.Filled? {
      AboveRead(a.cell);
      WordValid(a.cell);
    }
    if b.Filled? {
      WordValid(b.cell);
    }
  }

  /** Two cells of maps that share a profile's slot. */
  predicate SameSlot(v: View, a: Cell, b: Cell) {
    IsFragment(v, a.site) && IsFragment(v, b.site) && v.fragments[a.site - 1].slot == v.fragments[b.site - 1].slot
  }

  lemma Occupied(v: View, c: Cell, content: Content)
    requires CellHolds(v, c, content)
    ensures content.Filled? <==> L.Value(v, c) != 0
    ensures content.Filled? ==> IsFragment(v, c.site)
  {
    hide Word;
    if content.Filled? {
      WordValid(content.cell);
    }
  }

  /** A face joins two places exactly where both go on into each other and, if both
   are cells, their maps share a profile's slot. */
  lemma JoinedWhere(v: View, face: Face, from: Content, to: Content)
    requires CellHolds(v, face.from, from) && CellHolds(v, face.to, to) && IsUnit(face.normal)
    ensures Continuous(v, face)
       <==> GoesOn(from, face.normal) && GoesOn(to, face.Reversed().normal)
            && (from.Air? || to.Air? || SameSlot(v, face.from, face.to))
  {
    Occupied(v, face.from, from);
    Occupied(v, face.to, to);
    hide L.Value, Word, Bit;
    if from.Filled? {
      WordValid(from.cell);
      JoinRead(from.cell, face.normal);
    }
    if to.Filled? {
      WordValid(to.cell);
      JoinRead(to.cell, face.Reversed().normal);
    }
    hide ContinuityBit;
  }

  /** An upward face leaves for the sky out of a cell that claims it, out of a top
   that is open all the way, and out of air into air. */
  lemma SkyWhere(v: View, face: Face, from: Content, to: Content)
    requires CellHolds(v, face.from, from) && CellHolds(v, face.to, to) && IsUnit(face.normal)
    ensures L.Sky(v, face)
       <==> match from
            case Air => to.Air?
            case Filled(c) =>
              c.skyExit || (!IsFragment(v, face.to.site) && DepthOf(v, face.to.site) > DEPTH_MAX
                            && c.coverOpen && c.joinsUp && c.above == Open(false))
  {
    hide L.Value, Word, Bit, ClassAt, IsFragment;
    if from.Filled? {
      WordValid(from.cell);
      AboveRead(from.cell);
      JoinRead(from.cell, Vec(0, 0, 1));
    }
    if to.Filled? {
      WordValid(to.cell);
    }
    hide ContinuityBit;
  }

  // ---- places --------------------------------------------------------------

  /** The closure has some content at a place. */
  ghost predicate PlaceHolds(v: View, at: Vec, content: Content) {
    AllTyped(v.fragments) && Holds(ValueAt(v.fragments, at.z, at.x, at.y), content)
  }

  lemma PlaceCell(v: View, site: Handle, x: int, y: int, z: int, content: Content)
    requires v.Valid() && IsHandle(v, site) && Resolve(v, site, x, y, z).site != NULL
    requires PlaceHolds(v, Located(v, site, x, y, z), content)
    ensures CellHolds(v, Resolve(v, site, x, y, z), content)
  {
    hide ValueAt, Resolve, L.Value, Word, Located, IsHandle;
    ResolvedValue(v, site, x, y, z);
    if content.Filled? {
      WordValid(content.cell);
    }
  }

  /** What the solver sees between two neighbouring places of a built closure is
   what the closure has there: the wall named for the place the light goes to, the
   floor between them, and whether each goes on into the other. */
  lemma BetweenPlaces(v: View, site: Handle, x: int, y: int, z: int, d: Vec, from: Content, to: Content)
    requires v.Valid() && IsHandle(v, site) && IsUnit(d)
    requires Resolve(v, site, x, y, z).site != NULL && Resolve(v, site, x + d.x, y + d.y, z + d.z).site != NULL
    requires PlaceHolds(v, Located(v, site, x, y, z), from)
    requires PlaceHolds(v, Located(v, site, x + d.x, y + d.y, z + d.z), to)
    ensures var here, there := Resolve(v, site, x, y, z), Resolve(v, site, x + d.x, y + d.y, z + d.z);
      var l, face := SolverLattice(v), Face(here, there, d);
      && CellHolds(v, here, from) && CellHolds(v, there, to)
      && l.light(face) == Through(from, to, d)
      && (l.continuous(face) <==>
            GoesOn(from, d) && GoesOn(to, Vec(-d.x, -d.y, -d.z)) && (from.Air? || to.Air? || SameSlot(v, here, there)))
  {
    hide Resolve, L.Value, Word, Located, IsHandle, GoesOn, Through, SameSlot, View.Valid, Continuous, L.Light;
    PlaceCell(v, site, x, y, z, from);
    PlaceCell(v, site, x + d.x, y + d.y, z + d.z, to);
    var face := Face(Resolve(v, site, x, y, z), Resolve(v, site, x + d.x, y + d.y, z + d.z), d);
    LightThrough(v, face, from, to);
    JoinedWhere(v, face, from, to);
  }
}
