/**
 Which way a source of light lies: the eight azimuths as directions of the map,
 whose x grows eastwards and whose y grows southwards.
 */
module Azimuths {
  import opened Lattices
  import opened SquareRoot
  import opened Rays

  const EAST: nat := 3

  /** The azimuth a number of eighths further clockwise. */
  function Clockwise(azimuth: nat, eighths: nat): (a: nat)
    ensures NORTH <= a <= NORTHWEST
  {
    1 + (azimuth + 7 + eighths) % 8
  }

  /** A ray towards a source in the east walks east. */
  lemma EastWalksEast(elevation: int)
    requires 0 < elevation <= ZENITH
    ensures Direction(EAST, elevation).x >= 0 && Direction(EAST, elevation).y == 0
    ensures Direction(EAST, elevation).z == elevation
    ensures IsRoot(ZENITH * ZENITH - elevation * elevation, Direction(EAST, elevation).x)
  {
    MulSquare(elevation);
  }

  /** A quarter turn of the azimuth turns the ray clockwise on the map. */
  lemma QuarterTurn(azimuth: nat, elevation: int)
    requires NORTH <= azimuth <= NORTHWEST && 0 < elevation <= ZENITH
    ensures var d := Direction(azimuth, elevation);
      Direction(Clockwise(azimuth, 2), elevation) == Vec(-d.y, d.x, d.z)
  {
    hide Root;
  }

  /** The opposite azimuth lies the opposite way. */
  lemma HalfTurn(azimuth: nat, elevation: int)
    requires NORTH <= azimuth <= NORTHWEST && 0 < elevation <= ZENITH
    ensures var d := Direction(azimuth, elevation);
      Direction(Clockwise(azimuth, 4), elevation) == Vec(-d.x, -d.y, d.z)
  {
    hide Root;
  }

  function Sign(n: int): int { if n > 0 then 1 else if n < 0 then -1 else 0 }

  /** How far a ray goes along each axis: the whole of its horizontal part along
   a single one, the square root of half its square along either of two. */
  ghost function Whole(elevation: int): nat
    requires 0 < elevation <= ZENITH
  {
    MulSquare(elevation);
    Root(ZENITH * ZENITH - elevation * elevation)
  }

  ghost function Half(elevation: int): nat
    requires 0 < elevation <= ZENITH
  {
    MulSquare(elevation);
    Root((ZENITH * ZENITH - elevation * elevation) / 2)
  }

  lemma Walked(azimuth: nat, elevation: int)
    requires NORTH <= azimuth <= NORTHWEST && 0 < elevation <= ZENITH
    ensures var (dx, dy) := Delta(azimuth);
      var far := if dx != 0 && dy != 0 then Half(elevation) else Whole(elevation);
      Direction(azimuth, elevation) == Vec(-dx * far, -dy * far, elevation)
  {
    hide Root;
    MulSquare(elevation);
    var (dx, dy) := Delta(azimuth);
    var squared := ZENITH * ZENITH - elevation * elevation;
    assert HorizontalSquared(azimuth, elevation) == if dx != 0 && dy != 0 then squared / 2 else squared;
  }

  lemma BothVanish(elevation: int)
    requires 0 < elevation <= ZENITH
    ensures Whole(elevation) == 0 ==> Half(elevation) == 0
  {
    MulSquare(elevation);
    hide Root;
    var squared := ZENITH * ZENITH - elevation * elevation;
    RootIs(squared);
    RootIs(squared / 2);
  }

  lemma RootIs(n: nat)
    ensures IsRoot(n, Root(n)) && (n == 0 ==> Root(n) == 0)
  {}

  /** Between two neighbours a quarter turn apart an azimuth goes the way of both,
   the square root of half their square along either. */
  lemma Between(azimuth: nat, elevation: int)
    requires azimuth in {1, 3, 5, 7} && 0 < elevation <= ZENITH
    ensures var a, b := Direction(azimuth, elevation), Direction(Clockwise(azimuth, 2), elevation);
      var d, half := Direction(Clockwise(azimuth, 1), elevation), Half(elevation);
      d == Vec(half * (Sign(a.x) + Sign(b.x)), half * (Sign(a.y) + Sign(b.y)), elevation)
  {
    hide Direction, Whole, Half;
    Walked(azimuth, elevation);
    Walked(Clockwise(azimuth, 1), elevation);
    Walked(Clockwise(azimuth, 2), elevation);
    BothVanish(elevation);
  }
}
