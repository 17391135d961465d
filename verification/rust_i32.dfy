/** Rust's `i32` operations that the pressure driver uses, on unbounded integers:
    the representable range, `<<`, `|` on non-negative operands, `/` (which
    truncates toward zero, unlike Dafny's Euclidean `/`) and `std::cmp::min`. */
module RustI32 {

  const MIN: int := -0x8000_0000
  const MAX: int := 0x7FFF_FFFF
  const MODULUS: int := 0x1_0000_0000

  /** `x` is a value of type `i32`. */
  predicate InRange(x: int) {
    MIN <= x <= MAX
  }

  function Abs(x: int): (m: nat) {
    if x < 0 then -x else x
  }

  function Pow2(k: nat): (p: nat)
    ensures p > 0
  {
    if k == 0 then 1 else 2 * Pow2(k - 1)
  }

  lemma Pow2OfWordSizes()
    ensures Pow2(8) == 256
    ensures Pow2(31) == MAX + 1
  {
    assert Pow2(8) == 256;
    assert Pow2(16) == 256 * 256;
    assert Pow2(24) == 256 * 256 * 256;
  }

  /** Two's-complement reinterpretation of the low 32 bits of `n`. */
  function Wrap(n: int): (w: int)
    ensures InRange(w)
    ensures (w - n) % MODULUS == 0
    ensures InRange(n) ==> w == n
  {
    (n - MIN) % MODULUS + MIN
  }

  /** `x << s` on `i32`: bits shifted past bit 31 are discarded. A shift
      amount of 32 or more panics when overflow checks are on and is masked to
      its low five bits when they are off; the driver only ever shifts by 8,
      so such amounts are excluded. */
  function Shl(x: int, s: nat): (r: int)
    requires InRange(x) && s < 32
    ensures InRange(r)
    ensures InRange(x * Pow2(s)) ==> r == x * Pow2(s)
  {
    Wrap(x * Pow2(s))
  }

  /** Bitwise OR of two naturals, one binary digit at a time. */
  function BitOr(a: nat, b: nat): (r: nat)
    decreases a + b
  {
    if a == 0 then b
    else if b == 0 then a
    else 2 * BitOr(a / 2, b / 2) + (if a % 2 == 1 || b % 2 == 1 then 1 else 0)
  }

  /** `a | b` on `i32` for non-negative operands (the only ones the driver
      combines). */
  function Or(a: int, b: int): (r: int)
    requires 0 <= a <= MAX && 0 <= b <= MAX
    ensures 0 <= r <= MAX
    ensures a % 256 == 0 && b < 256 ==> r == a + b
  {
    Pow2OfWordSizes();
    BitOrBelow(a, b, 31);
    BitOrOfByteAligned(a, b);
    BitOr(a, b)
  }

  lemma BitOrOfByteAligned(a: nat, b: nat)
    ensures a % 256 == 0 && b < 256 ==> BitOr(a, b) == a + b
  {
    if a % 256 == 0 && b < 256 {
      assert Pow2(8) == 256;
      assert a == (a / 256) * Pow2(8);
      BitOrOfDisjoint(a / 256, b, 8);
    }
  }

  /** OR never sets a bit above the highest bit of its operands. */
  lemma {:induction false} BitOrBelow(a: nat, b: nat, k: nat)
    requires a < Pow2(k) && b < Pow2(k)
    ensures BitOr(a, b) < Pow2(k)
    decreases k
  {
    if k == 0 || a == 0 || b == 0 {
    } else {
      BitOrBelow(a / 2, b / 2, k - 1);
    }
  }

  /** OR-ing a multiple of `2^k` with a number below `2^k` is plain
      addition: their set bits do not overlap. */
  lemma {:induction false} BitOrOfDisjoint(c: nat, b: nat, k: nat)
    requires b < Pow2(k)
    ensures BitOr(c * Pow2(k), b) == c * Pow2(k) + b
    decreases k
  {
    var a := c * Pow2(k);
    if k == 0 || a == 0 || b == 0 {
    } else {
      var m := Pow2(k - 1);
      assert a == 2 * (c * m);
      assert a / 2 == c * m && a % 2 == 0;
      BitOrOfDisjoint(c, b / 2, k - 1);
      assert BitOr(a, b) == 2 * (c * m + b / 2) + b % 2;
    }
  }

  /** `x << 8 | y` is `x * 256 + y` for a byte `x` and a byte `y`. */
  lemma ShiftOrIsBigEndian(x: int, y: int)
    requires 0 <= x < 256 && 0 <= y < 256
    ensures Shl(x, 8) == x * 256
    ensures Or(Shl(x, 8), y) == x * 256 + y
  {
    assert Pow2(8) == 256;
    BitOrOfDisjoint(x, y, 8);
  }

  /** `a / b` on `i32` for a positive divisor: the quotient truncated toward
      zero. The remainder `a - q * b` is smaller than the divisor and carries
      the dividend's sign. */
  function Div(a: int, b: int): (q: int)
    requires InRange(a) && 0 < b <= MAX
    ensures InRange(q)
    ensures a >= 0 ==> q >= 0
    ensures a <= 0 ==> q <= 0
    ensures Abs(a - q * b) < b
    ensures a - q * b == 0 || (a - q * b < 0 <==> a < 0)
  {
    if a >= 0 then
      EuclideanBounds(a, b);
      a / b
    else
      var n := -a;
      EuclideanBounds(n, b);
      assert a - (-(n / b)) * b == -(n % b);
      -(n / b)
  }

  lemma EuclideanBounds(n: int, b: int)
    requires n >= 0 && b > 0
    ensures 0 <= n / b <= n
    ensures n == (n / b) * b + n % b
  {
    if n / b > 0 {
      assert (n / b) * b >= n / b by {
        MulMonotoneInRight(n / b, 1, b);
      }
    }
  }

  lemma MulMonotoneInRight(x: int, b1: int, b2: int)
    requires x >= 0 && b1 <= b2
    ensures x * b1 <= x * b2
  {
  }

  /** The two conditions in `Div`'s contract pin the quotient down. */
  lemma DivUnique(a: int, b: int, q: int)
    requires InRange(a) && 0 < b <= MAX
    requires Abs(a - q * b) < b
    requires a - q * b == 0 || (a - q * b < 0 <==> a < 0)
    ensures q == Div(a, b)
  {
    var p := Div(a, b);
    assert (p - q) * b == (a - q * b) - (a - p * b);
    MulSmallIsZero(p - q, b);
  }

  lemma MulSmallIsZero(x: int, b: int)
    requires b > 0 && -b < x * b < b
    ensures x == 0
  {
  }

  /** Rust's quotient equals Dafny's Euclidean one on non-negative dividends
      and exceeds it by one on negative dividends that the divisor does not
      divide. */
  lemma DivVersusEuclidean(a: int, b: int)
    requires InRange(a) && 0 < b <= MAX
    ensures a >= 0 || a % b == 0 ==> Div(a, b) == a / b
    ensures a < 0 && a % b != 0 ==> Div(a, b) == a / b + 1
  {
    var q := if a >= 0 || a % b == 0 then a / b else a / b + 1;
    assert a == (a / b) * b + a % b;
    assert q * b == (if a >= 0 || a % b == 0 then (a / b) * b else (a / b) * b + b);
    DivUnique(a, b, q);
  }

  /** Seven divided by six, negated: Rust gives -1 where Dafny's `/` gives -2. */
  lemma DivOfNegativeTruncates()
    ensures Div(-7, 6) == -1
    ensures -7 / 6 == -2
  {
    DivVersusEuclidean(-7, 6);
  }

  /** Truncating division by a positive divisor is monotone in the dividend. */
  lemma DivMonotone(a1: int, a2: int, b: int)
    requires InRange(a1) && InRange(a2) && 0 < b <= MAX
    requires a1 <= a2
    ensures Div(a1, b) <= Div(a2, b)
  {
    if a1 >= 0 {
      EuclideanMonotone(a1, a2, b);
    } else if a2 <= 0 {
      EuclideanMonotone(-a2, -a1, b);
    }
  }

  lemma EuclideanMonotone(a1: int, a2: int, b: int)
    requires 0 < b && a1 <= a2
    ensures a1 / b <= a2 / b
  {
    var d := a1 / b - a2 / b;
    assert d * b == (a1 - a1 % b) - (a2 - a2 % b);
    MulBelow(d, b);
  }

  lemma MulBelow(x: int, b: int)
    requires b > 0 && x * b < b
    ensures x <= 0
  {
  }

  /** `std::cmp::min`. */
  function Min(a: int, b: int): (m: int)
    ensures m <= a && m <= b
    ensures m == a || m == b
  {
    if a <= b then a else b
  }
}
