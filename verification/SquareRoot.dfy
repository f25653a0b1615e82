/**
 The integer square root of celestial_solver.c and the ray directions built
 from it.
 */
module SquareRoot {
  import opened Arithmetic

  /** r is the square root of value, rounded down. */
  ghost predicate IsRoot(value: nat, r: nat) {
    r * r <= value < (r + 1) * (r + 1)
  }

  /** Every natural number has a root. */
  lemma {:induction false} RootExists(value: nat) returns (r: nat)
    ensures IsRoot(value, r)
    decreases value
  {
    if value == 0 {
      r := 0;
    } else {
      r := RootExists(value - 1);
      assert (r + 1) * (r + 1) == r * r + 2 * r + 1;
      if value >= (r + 1) * (r + 1) {
        r := r + 1;
        assert (r + 1) * (r + 1) == r * r + 2 * r + 1;
      }
    }
  }

  /** The root itself. */
  ghost function Root(value: nat): (r: nat)
    ensures IsRoot(value, r)
  {
    assert exists r: nat :: IsRoot(value, r) by {
      var r := RootExists(value);
    }
    var r: nat :| IsRoot(value, r);
    r
  }

  lemma RootUnique(value: nat, r: nat, s: nat)
    requires IsRoot(value, r) && IsRoot(value, s)
    ensures r == s
  {
    if r < s {
      SquareMonotone(r + 1, s);
    } else if s < r {
      SquareMonotone(s + 1, r);
    }
  }

  lemma SquareMonotone(a: nat, b: nat)
    requires a <= b
    ensures a * a <= b * b
  {
    assert a * a <= a * b <= b * b;
  }

  /** The digit the next trial decides: partial root q, a multiple of 2 * p. */
  ghost predicate Digit(value: nat, q: nat, p: nat) {
    q * q <= value < (q + 2 * p) * (q + 2 * p)
  }

  /** The state of the digit loop at digit p, or after the last digit. */
  ghost predicate Trial(value: nat, rest: nat, root: nat, bit: nat, q: nat, p: nat) {
    && rest + q * q == value
    && q + 2 * p <= 0x1_0000_0000
    && if bit == 0 then p == 0 && root == q && IsRoot(value, q) && q <= 0xffff_ffff
       else p > 0 && bit == p * p && root == 2 * (q * p) && Digit(value, q, p)
  }

  /** Trying the digit p of the partial root q: no 64-bit overflow, and the
   trial compares value with the square of the longer root. */
  lemma TryDigit(value: nat, rest: nat, root: nat, bit: nat, q: nat, p: nat)
    requires bit > 0 && Trial(value, rest, root, bit, q, p)
    ensures root + bit <= UINT64_MAX
    ensures (q + p) * (q + p) == q * q + root + bit
    ensures rest >= root + bit <==> (q + p) * (q + p) <= value
    ensures (q + p) * p == q * p + p * p
    ensures (q + 2 * p) * (q + 2 * p) == (q + p + p) * (q + p + p)
  {
    assert (q + p) * (q + p) == q * q + 2 * (q * p) + p * p;
    SquareMonotone(q + p, 0xffff_ffff);
  }

  /** The digit is kept. */
  lemma Accept(value: nat, rest: nat, root: nat, bit: nat, q: nat, p: nat, half: nat)
    requires bit > 0 && Trial(value, rest, root, bit, q, p) && rest >= root + bit
    requires if p == 1 then half == 0 else p == 2 * half
    ensures Trial(value, rest - (root + bit), root / 2 + bit, bit / 4, q + p, half)
  {
    TryDigit(value, rest, root, bit, q, p);
    if p > 1 {
      HalfSquare(p, half);
      assert (q + p) * p == 2 * ((q + p) * half);
    }
  }

  /** The digit is dropped. */
  lemma Reject(value: nat, rest: nat, root: nat, bit: nat, q: nat, p: nat, half: nat)
    requires bit > 0 && Trial(value, rest, root, bit, q, p) && rest < root + bit
    requires if p == 1 then half == 0 else p == 2 * half
    ensures Trial(value, rest, root / 2, bit / 4, q, half)
  {
    TryDigit(value, rest, root, bit, q, p);
    if p > 1 {
      HalfSquare(p, half);
      assert q * p == 2 * (q * half);
    }
  }

  lemma HalfSquare(p: nat, half: nat)
    requires p == 2 * half
    ensures p * p == 4 * (half * half) && p * p / 4 == half * half
  {}

  /** Sums of uint64_t, which wrap. */
  function Add64(a: nat, b: nat): (sum: nat)
    ensures sum <= UINT64_MAX
    ensures a + b <= UINT64_MAX ==> sum == a + b
  {
    (a + b) % (UINT64_MAX + 1)
  }

  /** celestial_solver_sqrt(), in sums that wrap: none of them does. root is
   twice the partial root q times the digit p under trial, and bit is p
   squared. */
  method Sqrt(value: nat) returns (r: nat)
    requires value <= UINT64_MAX
    ensures IsRoot(value, r) && r == Root(value)
    ensures r <= 0xffff_ffff
  {
    hide Power, Trial, IsRoot, Add64;
    var bit: nat := 0x4000_0000_0000_0000;
    ghost var k: nat, p: nat := 31, 0x8000_0000;
    PowersOf31();
    while bit > value
      invariant bit == 0 || (p == Power(k) && bit == p * p && p <= 0x8000_0000)
      invariant if bit == 0 then value == 0 else value < 4 * bit
      decreases bit
    {
      PowHalf(k);
      if k > 0 {
        HalfSquare(p, Power(k - 1));
      }
      bit := bit / 4;
      p := p / 2;
      k := if k == 0 then 0 else k - 1;
    }
    var rest: nat, root: nat := value, 0;
    ghost var q: nat := 0;
    FirstTrial(value, bit, p);
    p := if bit == 0 then 0 else p;
    while bit != 0
      invariant Trial(value, rest, root, bit, q, p)
      invariant bit > 0 ==> p == Power(k)
      decreases bit
    {
      PowHalf(k);
      TryDigit(value, rest, root, bit, q, p);
      ghost var half := if k == 0 then 0 else Power(k - 1);
      assert Add64(root, bit) == root + bit && Add64(root / 2, bit) == root / 2 + bit;
      if rest >= Add64(root, bit) {
        Accept(value, rest, root, bit, q, p, half);
        q := q + p;
        rest := rest - Add64(root, bit);
        root := Add64(root / 2, bit);
      } else {
        Reject(value, rest, root, bit, q, p, half);
        root := root / 2;
      }
      bit := bit / 4;
      p := half;
      k := if k == 0 then 0 else k - 1;
      LastDigit(value, rest, root, bit, q, p);
    }
    LastDigit(value, rest, root, bit, q, p);
    r := root;
    RootUnique(value, r, Root(value));
  }

  lemma FirstTrial(value: nat, bit: nat, p: nat)
    requires if bit == 0 then value == 0 else p >= 1 && bit == p * p && p <= 0x8000_0000 && value < 4 * bit
    ensures Trial(value, value, 0, bit, 0, if bit == 0 then 0 else p)
  {
    assert 0 * p == 0 && (2 * p) * (2 * p) == 4 * (p * p);
  }

  lemma LastDigit(value: nat, rest: nat, root: nat, bit: nat, q: nat, p: nat)
    requires Trial(value, rest, root, bit, q, p)
    ensures bit == 0 <==> p == 0
    ensures bit == 0 ==> IsRoot(value, root) && root <= 0xffff_ffff
  {}

  lemma PowHalf(k: nat)
    ensures Power(k) == if k == 0 then 1 else 2 * Power(k - 1)
  {}

  lemma {:induction false} PowAdd(a: nat, b: nat)
    ensures Power(a + b) == Power(a) * Power(b)
    decreases b
  {
    PowHalf(b);
    if b > 0 {
      PowHalf(a + b);
      hide Power;
      PowAdd(a, b - 1);
      DoubleFactor(Power(a), Power(b - 1));
    }
  }

  lemma DoubleFactor(a: nat, b: nat)
    ensures 2 * (a * b) == a * (2 * b)
  {}

  lemma PowersOf31()
    ensures Power(31) == 0x8000_0000
  {
    assert Power(2) == 4;
    hide Power;
    PowAdd(2, 2);
    PowAdd(4, 4);
    PowAdd(8, 8);
    PowAdd(16, 16);
    PowHalf(32);
  }
}
