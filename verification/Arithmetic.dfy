/**
 Integer facts the other modules share, among them row-major indexing: cell
 (x, y) of a rectangle w wide is entry x + w * y.
 */
module Arithmetic {

  const UINT64_MAX: nat := 0xffff_ffff_ffff_ffff

  function Max(a: int, b: int): int { if a < b then b else a }

  function Min(a: int, b: int): int { if a < b then a else b }

  /** Two to the power of n. */
  function Power(n: nat): (p: nat)
    ensures p > 0
  {
    if n == 0 then 1 else 2 * Power(n - 1)
  }

  lemma MulLe(a: int, b: int, c: int)
    requires a <= b && c >= 0
    ensures a * c <= b * c
  {}

  lemma MulLess(a: int, b: int, c: int)
    requires a < b && c > 0
    ensures a * c < b * c
  {}

  lemma CancelLe(a: int, b: int, c: int)
    requires a * c <= b * c && c > 0
    ensures a <= b
  {
    if a > b {
      MulLess(b, a, c);
    }
  }

  lemma CancelLess(a: int, b: int, c: int)
    requires a * c < b * c && c > 0
    ensures a < b
  {
    if a >= b {
      MulLe(b, a, c);
    }
  }

  lemma SwapFactors(a: int, b: int, c: int)
    ensures (a * b) * c == (a * c) * b
  {}

  lemma Distribute(a: int, b: int, c: int)
    ensures a * (b + c) == a * b + a * c
  {}

  lemma DivBounds(n: nat, d: nat)
    requires d > 0
    ensures 0 <= n / d && n / d * d <= n < (n / d + 1) * d
  {
    assert n == n / d * d + n % d;
  }

  lemma DivUnique(n: nat, d: nat, q: int, r: int)
    requires d > 0 && 0 <= r < d && n == r + d * q
    ensures n / d == q && n % d == r
  {
    var q', r' := n / d, n % d;
    assert n == r' + d * q';
    assert d * (q - q') == r' - r;
    if q < q' {
      MulLe(1, q' - q, d);
    } else if q > q' {
      MulLe(1, q - q', d);
    }
  }

  /** Coordinates determine the index. */
  lemma IndexFacts(w: nat, h: nat, x: int, y: int)
    requires 0 <= x < w && 0 <= y < h
    ensures 0 <= x + w * y < w * h
    ensures (x + w * y) % w == x && (x + w * y) / w == y
  {
    assert w * y + w == w * (y + 1) <= w * h by { MulLe(y + 1, h, w); }
    assert 0 <= w * y by { MulLe(0, y, w); }
    DivUnique(x + w * y, w, y, x);
  }

  /** The index determines the coordinates. */
  lemma CoordinateFacts(w: nat, h: nat, i: int)
    requires 0 <= i < w * h
    ensures w > 0 && 0 <= i % w < w && 0 <= i / w < h && i % w + w * (i / w) == i
  {
    assert w != 0;
    if i / w >= h {
      MulLe(h, i / w, w);
    }
  }
}
