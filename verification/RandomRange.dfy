/**
 rng_range() and rng_chance() of math.c: unbiased integers from 64-bit draws by
 rejection. The stream of draws is a sequence, as rng_u64() would give them.
 */
module RandomRange {
  import opened Arithmetic

  const WORD: nat := 0x1_0000_0000_0000_0000
  const INT_MIN: int := -0x8000_0000
  const INT_MAX: int := 0x7fff_ffff

  // ---- the threshold -------------------------------------------------------

  /** Unsigned 64-bit negation. */
  function Negate(v: nat): nat
    requires v < WORD
  {
    (WORD - v) % WORD
  }

  /** The smallest draw that is not rejected. */
  function Threshold(span: nat): nat
    requires 0 < span < WORD
  {
    Negate(span) % span
  }

  /** The draws that are rejected are those left over from cutting the 64-bit
   words into spans: exactly 2^64 mod span of them. */
  lemma ThresholdIsRemainder(span: nat)
    requires 0 < span < WORD
    ensures Threshold(span) == WORD % span
    ensures WORD - Threshold(span) == WORD / span * span
  {
    var q, r := WORD / span, WORD % span;
    assert WORD == q * span + r;
    assert Negate(span) == WORD - span;
    assert q > 0;
    assert WORD - span == (q - 1) * span + r;
    DivUnique(WORD - span, span, q - 1, r);
  }

  // ---- counting ------------------------------------------------------------

  ghost function Hits(lo: nat, hi: nat, span: nat, r: nat): set<nat>
    requires span > 0
  {
    set v: nat | lo <= v < hi && v % span == r
  }

  /** Any span consecutive numbers hold each residue exactly once. */
  lemma OneHit(lo: nat, span: nat, r: nat)
    requires r < span
    ensures |Hits(lo, lo + span, span, r)| == 1
  {
    var q, s := lo / span, lo % span;
    assert lo == q * span + s;
    var v := if s <= r then lo + (r - s) else lo + span - (s - r);
    if s <= r {
      DivUnique(v, span, q, r);
    } else {
      assert (q + 1) * span == q * span + span;
      DivUnique(v, span, q + 1, r);
    }
    forall w: nat | lo <= w < lo + span && w % span == r
      ensures w == v
    {
      SameResidue(v, w, span);
    }
    assert Hits(lo, lo + span, span, r) == {v};
  }

  lemma SameResidue(v: nat, w: nat, span: nat)
    requires span > 0 && v % span == w % span && v < w + span && w < v + span
    ensures v == w
  {
    var a, b := v / span, w / span;
    assert v - w == span * (a - b) by {
      assert v == span * a + v % span && w == span * b + w % span;
    }
    if a > b {
      MulLe(1, a - b, span);
    } else if b > a {
      MulLe(1, b - a, span);
    }
  }

  /** q whole spans hold each residue exactly q times. */
  lemma {:induction false} HitsCounted(lo: nat, q: nat, span: nat, r: nat)
    requires r < span
    ensures |Hits(lo, lo + q * span, span, r)| == q
  {
    if q == 0 {
      assert Hits(lo, lo, span, r) == {};
    } else {
      var mid := lo + (q - 1) * span;
      assert mid + span == lo + q * span && mid >= lo;
      HitsCounted(lo, q - 1, span, r);
      OneHit(mid, span, r);
      HitsJoin(lo, mid, mid + span, span, r);
    }
  }

  lemma HitsJoin(lo: nat, mid: nat, hi: nat, span: nat, r: nat)
    requires span > 0 && lo <= mid <= hi
    ensures |Hits(lo, hi, span, r)| == |Hits(lo, mid, span, r)| + |Hits(mid, hi, span, r)|
  {
    var a, b := Hits(lo, mid, span, r), Hits(mid, hi, span, r);
    assert a !! b;
    assert Hits(lo, hi, span, r) == a + b;
  }

  // ---- the operations ------------------------------------------------------

  /** The result of one accepted draw. */
  function Result(min: int, max: int, draw: nat): int
    requires min <= max
  {
    min + draw % (max - min + 1)
  }

  /** Consecutive draws give consecutive results, from the least again after the
   greatest, and a draw of zero the least. */
  lemma ResultsInTurn(min: int, max: int, draw: nat)
    requires min <= max
    ensures Result(min, max, 0) == min
    ensures Result(min, max, draw + 1) == if Result(min, max, draw) == max then min else Result(min, max, draw) + 1
  {
    var span: nat := max - min + 1;
    var q, r := draw / span, draw % span;
    assert draw == q * span + r;
    if r == span - 1 {
      assert draw + 1 == (q + 1) * span;
      DivUnique(draw + 1, span, q + 1, 0);
    } else {
      DivUnique(draw + 1, span, q, r + 1);
    }
    DivUnique(0, span, 0, 0);
  }

  /** The draws that are accepted and give a result. */
  ghost function Giving(min: int, max: int, result: int): set<nat>
    requires INT_MIN <= min <= max <= INT_MAX
  {
    set v: nat | Threshold(max - min + 1) <= v < WORD && Result(min, max, v) == result
  }

  /** rng_range() is unbiased: whatever the range, every result in it is given by
   the same number of accepted draws, floor(2^64 / span) of them. */
  lemma Unbiased(min: int, max: int, result: int)
    requires INT_MIN <= min <= max <= INT_MAX && min <= result <= max
    ensures |Giving(min, max, result)| == WORD / (max - min + 1)
  {
    var span: nat := max - min + 1;
    ThresholdIsRemainder(span);
    HitsCounted(Threshold(span), WORD / span, span, result - min);
    assert Giving(min, max, result) == Hits(Threshold(span), WORD, span, result - min);
  }

  /** Nothing outside the range is ever given. */
  lemma InRange(min: int, max: int, result: int)
    requires INT_MIN <= min <= max <= INT_MAX
    ensures Giving(min, max, result) != {} <==> min <= result <= max
  {
    if min <= result <= max {
      Unbiased(min, max, result);
      var span: nat := max - min + 1;
      DivPositive(span);
    }
  }

  lemma DivPositive(span: nat)
    requires 0 < span <= 0x1_0000_0000
    ensures WORD / span > 0
  {
    assert WORD == WORD / span * span + WORD % span;
  }

  /** How many draws come before the first accepted one. */
  function Rejected(draws: seq<nat>, span: nat): (k: nat)
    requires 0 < span < WORD
    ensures k <= |draws| && forall i :: 0 <= i < k ==> draws[i] < Threshold(span)
    ensures k < |draws| ==> draws[k] >= Threshold(span)
  {
    if draws == [] || draws[0] >= Threshold(span) then 0 else 1 + Rejected(draws[1..], span)
  }

  /** The draws still to come, consumed from the front. */
  class Stream {
    var draws: seq<nat>

    ghost predicate Valid()
      reads this
    {
      forall i :: 0 <= i < |draws| ==> draws[i] < WORD
    }

    /** rng_range(): min when the range is invalid, else from the first draw that
     is not rejected; not done when the draws run out first. */
    method Range(min: int, max: int) returns (done: bool, value: int)
      requires Valid() && INT_MIN <= min <= INT_MAX && INT_MIN <= max <= INT_MAX
      modifies this
      ensures Valid()
      ensures max < min ==> done && value == min && draws == old(draws)
      ensures min <= max ==>
        var k := Rejected(old(draws), max - min + 1);
        && (done <==> k < |old(draws)|)
        && (done ==> value == Result(min, max, old(draws)[k]) && min <= value <= max && draws == old(draws)[k + 1..])
    {
      if max < min {
        return true, min;
      }
      var span: nat := max - min + 1;
      var draw;
      done, draw := Accept(span);
      value := if done then min + draw % span else min;
    }

    /** rng_chance(): whether the first accepted draw is a multiple of n. */
    method Chance(n: nat) returns (done: bool, hit: bool)
      requires Valid() && n < 0x1_0000_0000
      modifies this
      ensures Valid()
      ensures n == 0 ==> done && !hit && draws == old(draws)
      ensures n > 0 ==>
        var k := Rejected(old(draws), n);
        && (done <==> k < |old(draws)|)
        && (done ==> (hit <==> old(draws)[k] % n == 0) && draws == old(draws)[k + 1..])
    {
      if n == 0 {
        return true, false;
      }
      var draw;
      done, draw := Accept(n);
      hit := done && draw % n == 0;
    }

    /** The rejection loop of both. */
    method Accept(span: nat) returns (done: bool, draw: nat)
      requires Valid() && 0 < span < WORD
      modifies this
      ensures Valid()
      ensures done <==> Rejected(old(draws), span) < |old(draws)|
      ensures done ==> var k := Rejected(old(draws), span); draw == old(draws)[k] && draws == old(draws)[k + 1..]
    {
      var threshold := Threshold(span);
      ghost var k := 0;
      while draws != []
        invariant Valid() && 0 <= k <= |old(draws)| && draws == old(draws)[k..]
        invariant Rejected(old(draws), span) == k + Rejected(draws, span)
        decreases |draws|
      {
        draw := draws[0];
        draws := draws[1..];
        if draw >= threshold {
          return true, draw;
        }
        k := k + 1;
      }
      return false, 0;
    }
  }

  /** rng_chance() is fair: of the accepted draws, exactly one in n is a hit. */
  lemma ChanceFair(n: nat)
    requires 0 < n < 0x1_0000_0000
    ensures |Hits(Threshold(n), WORD, n, 0)| * n == WORD - Threshold(n)
  {
    ThresholdIsRemainder(n);
    HitsCounted(Threshold(n), WORD / n, n, 0);
  }
}
