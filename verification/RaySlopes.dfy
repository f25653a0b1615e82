/**
 How the slope of a ray orders its crossings: which counts of sideways and
 upward events it passes through, and which slopes fill its event bound.
 */
module RaySlopes {
  import opened Arithmetic
  import opened Lattices
  import opened Traversal
  import opened Rays
  import opened SquareRoot

  /** What a ray moves sideways for every d.z it rises. */
  function Sideways(d: Vec): nat { if d.x != 0 then Abs(d.x) else Abs(d.y) }

  /** A direction of the compass, tilted upwards. */
  predicate Compass(d: Vec) { d.z > 0 && (d.x == 0 || d.y == 0 || Abs(d.x) == Abs(d.y)) }

  /** The crossings of h events sideways and k upwards. */
  function Counts(d: Vec, h: nat, k: nat): Vec {
    Vec(if d.x != 0 then h else 0, if d.y != 0 then h else 0, k)
  }

  predicate UpBefore(d: Vec, h: nat, k: nat) { (2 * k + 1) * Sideways(d) < (2 * h + 1) * d.z }

  predicate SideBefore(d: Vec, h: nat, k: nat) { (2 * h + 1) * d.z < (2 * k + 1) * Sideways(d) }

  /** At some moment exactly h crossings sideways and k upwards lie behind. */
  predicate Passed(d: Vec, h: nat, k: nat) {
    (2 * h - 1) * d.z < (2 * k + 1) * Sideways(d) && (2 * k - 1) * Sideways(d) < (2 * h + 1) * d.z
  }

  /** None of h crossings sideways and k upwards fall together. */
  ghost predicate Untied(d: Vec, h: nat, k: nat) {
    forall a: nat, b: nat :: a < h && b < k ==> (2 * a + 1) * d.z != (2 * b + 1) * Sideways(d)
  }

  /** A slope that comes to its whole reach sideways and all 13 levels up one
   event at a time. */
  ghost predicate Skims(d: Vec) { Passed(d, DIRECT_REACH, 13) && Untied(d, DIRECT_REACH, 13) }

  lemma DirectionCompass(direction: nat, elevation: int)
    requires Above(direction, elevation)
    ensures Compass(Direction(direction, elevation))
    ensures Direction(direction, elevation).z == elevation
    ensures Sideways(Direction(direction, elevation)) == Root(HorizontalSquared(direction, elevation))
  {
    hide Root, HorizontalSquared;
  }

  /** The axes crossed next, by the slope. */
  lemma NextAxes(d: Vec, h: nat, k: nat)
    requires Compass(d)
    ensures var axes := FirstAxes(d, Counts(d, h, k));
      && (axes.z <==> !SideBefore(d, h, k)) && (axes.x || axes.y <==> !UpBefore(d, h, k))
      && (axes.x || axes.y || axes.z)
      && (axes.x <==> d.x != 0 && !UpBefore(d, h, k))
      && (axes.y <==> d.y != 0 && !UpBefore(d, h, k))
      && Count(Counts(d, h, k), axes)
         == Counts(d, h + (if axes.x || axes.y then 1 else 0), k + if axes.z then 1 else 0)
  {}

  /** Every event leads to counts the ray passes. */
  lemma PassedNext(d: Vec, h: nat, k: nat)
    requires Compass(d) && Passed(d, h, k)
    ensures Passed(d, h + (if UpBefore(d, h, k) then 0 else 1), k + if SideBefore(d, h, k) then 0 else 1)
  {
    var s, u := Sideways(d), d.z;
    assert (2 * (h + 1) - 1) * u == (2 * h + 1) * u && (2 * (k + 1) - 1) * s == (2 * k + 1) * s;
    MulLe(2 * k - 1, 2 * k + 1, s);
    MulLe(2 * h - 1, 2 * h + 1, u);
    MulLess(2 * h + 1, 2 * (h + 1) + 1, u);
    MulLe(2 * k + 1, 2 * (k + 1) + 1, s);
    if !UpBefore(d, h, k) && !SideBefore(d, h, k) {
      MulLess(0, 2 * h + 1, u);
      assert s > 0;
      MulLess(2 * k + 1, 2 * (k + 1) + 1, s);
    }
  }

  /** Events one at a time keep the crossings apart. */
  lemma UntiedNext(d: Vec, h: nat, k: nat)
    requires Compass(d) && Passed(d, h, k) && Untied(d, h, k)
    ensures SideBefore(d, h, k) ==> Untied(d, h + 1, k)
    ensures UpBefore(d, h, k) ==> Untied(d, h, k + 1)
  {
    forall a: nat, b: nat | a < h + 1 && b < k + 1 && (a < h || b < k)
      ensures (2 * a + 1) * d.z != (2 * b + 1) * Sideways(d)
    {
      if a == h {
        MulLe(2 * b + 1, 2 * k - 1, Sideways(d));
      } else if b == k {
        MulLe(2 * a + 1, 2 * h - 1, d.z);
      }
    }
  }

  /** On its way to the whole reach and all levels a skimming ray never leaves
   them early. */
  lemma SkimsOn(d: Vec, h: nat, k: nat)
    requires Skims(d) && h <= DIRECT_REACH && k <= 13 && h + k < DIRECT_REACH + 13
    ensures SideBefore(d, h, k) || UpBefore(d, h, k)
    ensures SideBefore(d, h, k) ==> h < DIRECT_REACH
    ensures UpBefore(d, h, k) ==> k < 13
  {
    if h == DIRECT_REACH {
      MulLe(2 * k + 1, 25, Sideways(d));
    } else if k == 13 {
      MulLe(2 * h + 1, 63, d.z);
    }
  }
}
