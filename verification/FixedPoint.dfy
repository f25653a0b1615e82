/**
 The deterministic fixed-point arithmetic of celestial_model.c: rounding
 division, scaling, transmission through one crossing, and the value of a
 traced ray.
 */
module FixedPoint {
  import opened Arithmetic

  /** The coefficient that lets everything through. */
  const SCALE: nat := 256
  const INT32_MAX: int := 0x7fff_ffff
  const INT32_MIN: int := -0x8000_0000
  const UINT16_MAX: nat := 65535

  /** Divide, rounding half up. The contract pins the unique nearest integer. */
  function Round(numerator: nat, denominator: nat): (r: nat)
    requires denominator > 0
    ensures (2 * r - 1) * denominator <= 2 * numerator < (2 * r + 1) * denominator
  {
    var half := denominator / 2 + denominator % 2;
    var q, m := numerator / denominator, numerator % denominator;
    assert numerator == q * denominator + m;
    assert 2 * numerator == 2 * q * denominator + 2 * m;
    assert (2 * q - 1) * denominator == 2 * q * denominator - denominator;
    assert (2 * q + 1) * denominator == 2 * q * denominator + denominator;
    assert (2 * (q + 1) + 1) * denominator == 2 * q * denominator + 3 * denominator;
    q + if m >= half then 1 else 0
  }

  /** The rounding contract has only one solution. */
  lemma RoundUnique(numerator: nat, denominator: nat, r: nat)
    requires denominator > 0
    requires (2 * r - 1) * denominator <= 2 * numerator < (2 * r + 1) * denominator
    ensures r == Round(numerator, denominator)
  {
    var s := Round(numerator, denominator);
    if r < s {
      assert (2 * r + 1) * denominator <= (2 * s - 1) * denominator by {
        MulLe(2 * r + 1, 2 * s - 1, denominator);
      }
    } else if s < r {
      assert (2 * s + 1) * denominator <= (2 * r - 1) * denominator by {
        MulLe(2 * s + 1, 2 * r - 1, denominator);
      }
    }
  }

  /** Rounding never exceeds an integer bound on the exact quotient. */
  lemma RoundAtMost(numerator: nat, denominator: nat, bound: nat)
    requires denominator > 0
    requires numerator <= bound * denominator
    ensures Round(numerator, denominator) <= bound
  {
    var r := Round(numerator, denominator);
    assert (2 * bound + 1) * denominator == 2 * (bound * denominator) + denominator;
    if r > bound {
      MulLe(2 * bound + 1, 2 * r - 1, denominator);
    }
  }

  lemma RoundMonotone(a: nat, b: nat, denominator: nat)
    requires denominator > 0 && a <= b
    ensures Round(a, denominator) <= Round(b, denominator)
  {
    var r, s := Round(a, denominator), Round(b, denominator);
    if r > s {
      MulLe(2 * s + 1, 2 * r - 1, denominator);
    }
  }

  /** Scale a value by scale / denominator, saturating at the int32 range;
   nonpositive values give 0. */
  function Scale(value: int, scale: nat, denominator: nat): (r: int)
    requires denominator > 0
    ensures 0 <= r <= INT32_MAX
  {
    if value <= 0 || scale == 0 then 0
    else
      var scaled := Round(value * scale, denominator);
      if scaled > INT32_MAX then INT32_MAX else scaled
  }

  /** A scale of at most one never increases a value, and never saturates. */
  lemma ScaleBounded(value: int, scale: nat, denominator: nat, bound: nat)
    requires denominator > 0 && bound <= INT32_MAX
    requires 0 <= value && value * scale <= bound * denominator
    ensures Scale(value, scale, denominator) == Round(value * scale, denominator) <= bound
  {
    if value > 0 && scale > 0 {
      RoundAtMost(value * scale, denominator, bound);
    } else {
      assert value * scale == 0;
      RoundUnique(0, denominator, 0);
    }
  }

  /** celestial_model_transmit(): what is left of a value after a crossing. */
  function Transmit(value: int, coefficient: nat): (r: int)
    requires coefficient <= SCALE
    ensures 0 <= r <= Max(value, 0)
  {
    var v := Max(value, 0);
    assert v * coefficient <= v * SCALE by { MulLe(coefficient, SCALE, v); }
    RoundAtMost(v * coefficient, SCALE, v);
    Round(v * coefficient, SCALE)
  }

  lemma TransmitZero(coefficient: nat)
    requires coefficient <= SCALE
    ensures Transmit(0, coefficient) == 0
  {}

  lemma TransmitMonotone(a: int, b: int, coefficient: nat)
    requires coefficient <= SCALE && a <= b
    ensures Transmit(a, coefficient) <= Transmit(b, coefficient)
  {
    MulLe(Max(a, 0), Max(b, 0), coefficient);
    RoundMonotone(Max(a, 0) * coefficient, Max(b, 0) * coefficient, SCALE);
  }

  /** A sum held to what an int32 can be. */
  function Saturate(value: int): (r: int)
    ensures INT32_MIN <= r <= INT32_MAX
    ensures INT32_MIN <= value <= INT32_MAX ==> r == value
  {
    if value > INT32_MAX then INT32_MAX else if value < INT32_MIN then INT32_MIN else value
  }

  // ---- rays -------------------------------------------------------------

  /** Coefficients are crossings receiver side first, each 0..256. */
  ghost predicate Coefficients(cs: seq<nat>) {
    forall i :: 0 <= i < |cs| ==> cs[i] <= SCALE
  }

  /** Light entering at the source side of the crossings, rounded at every
   crossing on its way to the receiver. */
  function Carry(cs: seq<nat>, light: int): (r: int)
    requires Coefficients(cs)
    ensures cs != [] ==> 0 <= r
    ensures r <= Max(light, 0)
    ensures 0 <= light ==> 0 <= r
    decreases |cs|
  {
    if cs == [] then light
    else
      var last := |cs| - 1;
      Carry(cs[..last], Transmit(light, cs[last]))
  }

  lemma {:induction false} CarryZero(cs: seq<nat>)
    requires Coefficients(cs)
    ensures Carry(cs, 0) == 0
    decreases |cs|
  {
    if cs != [] {
      TransmitZero(cs[|cs| - 1]);
      CarryZero(cs[..|cs| - 1]);
    }
  }

  /** A brighter source never gives a darker receiver. */
  lemma {:induction false} CarryMonotone(cs: seq<nat>, a: int, b: int)
    requires Coefficients(cs) && a <= b
    ensures Carry(cs, a) <= Carry(cs, b)
    decreases |cs|
  {
    if cs != [] {
      TransmitMonotone(a, b, cs[|cs| - 1]);
      CarryMonotone(cs[..|cs| - 1], Transmit(a, cs[|cs| - 1]), Transmit(b, cs[|cs| - 1]));
    }
  }

  /** Crossings apart: those nearer the receiver carry what those nearer the source
   leave of the light. */
  lemma {:induction false} CarryJoins(near: seq<nat>, far: seq<nat>, light: int)
    requires Coefficients(near) && Coefficients(far)
    ensures Coefficients(near + far) && Carry(near + far, light) == Carry(near, Carry(far, light))
    decreases |far|
  {
    if far == [] {
      assert near + far == near;
    } else {
      var last := |far| - 1;
      assert (near + far)[..|near| + last] == near + far[..last];
      CarryJoins(near, far[..last], Transmit(light, far[last]));
    }
  }

  /** One crossing leaves the light times its share of 256, to the nearest integer. */
  lemma CarryOne(coefficient: nat, light: nat)
    requires coefficient <= SCALE
    ensures Coefficients([coefficient]) && Carry([coefficient], light) == Round(light * coefficient, 256)
  {
    assert [coefficient][..0] == [];
    hide Round;
  }

  /** The received light and its aperture share, as the crossings' meaning. */
  function RayLight(cs: seq<nat>, sky: bool, source: int): (r: int)
    requires Coefficients(cs)
    ensures r <= Max(source, 0)
    ensures cs != [] || 0 <= source ==> 0 <= r
  {
    Carry(cs, if sky then source else 0)
  }

  /** All of the received light once any crossing is an aperture, else none. */
  function RayAperture(cs: seq<nat>, apertures: seq<bool>, sky: bool, source: int): (r: int)
    requires Coefficients(cs)
  {
    if true in apertures then RayLight(cs, sky, source) else 0
  }

  /** celestial_model_ray_value(): walk the crossings from the source side,
   carrying the whole light and the share that last passed an aperture. */
  method RayValue(coefficients: seq<nat>, apertures: seq<bool>, sky: bool, source: int)
    returns (value: int, aperture: int)
    requires |coefficients| == |apertures| && Coefficients(coefficients)
    ensures value == RayLight(coefficients, sky, source)
    ensures aperture == RayAperture(coefficients, apertures, sky, source)
  {
    value := if sky then source else 0;
    var spill := 0;
    var i := |coefficients|;
    assert coefficients[..i] == coefficients;
    while i > 0
      invariant 0 <= i <= |coefficients|
      invariant Carry(coefficients[..i], value) == RayLight(coefficients, sky, source)
      invariant spill == if true in apertures[i..] then value else 0
    {
      i := i - 1;
      assert coefficients[..i + 1][..i] == coefficients[..i];
      assert apertures[i..] == [apertures[i]] + apertures[i + 1..];
      value := Transmit(value, coefficients[i]);
      spill := Transmit(spill, coefficients[i]);
      if apertures[i] {
        spill := value;
      }
    }
    assert apertures[0..] == apertures;
    aperture := spill;
  }
}
