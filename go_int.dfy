/**
 * Go's `int` on a 32-bit target, as the fraction code takes it (it counts
 * 31 magnitude bits), together with the Go operators whose semantics differ
 * from Dafny's unbounded, Euclidean integers, and the ways a Go call can end
 * without producing a value.
 */
module GoInt {

  /** The true minimum of a 32-bit int, -2^31. */
  const IntMin: int := -0x8000_0000

  /** `MaxInt` as the library defines it: 2^31 - 1. */
  const MaxInt: int := 0x7FFF_FFFF

  /** `MinInt` as the library defines it: -(MaxInt - 1) = -2^31 + 2, two above the true minimum. */
  const MinInt: int := -(MaxInt - 1)

  const Modulus: int := 0x1_0000_0000

  /** A Go `int` value. */
  type Int = x: int | IntMin <= x <= MaxInt

  /** How a Go call can end without a value. */
  datatype Failure =
    | NilResult          // the function returns a nil *Fraction
    | OverflowPanic      // the function panics: a value does not fit
    | ZeroPanic          // the function panics: inverting or dividing by a zero fraction
    | DivideByZeroPanic  // the Go runtime panics: integer or big.Int division by zero
    | SliceBoundsPanic   // the Go runtime panics: a slice expression out of range
    | NilReceiverPanic   // the Go runtime panics: a method reads a field of a nil receiver

  /** The magnitude of x: x or its negation, whichever is not negative. */
  function Abs(x: int): (r: nat)
    ensures r == x || r == -x
  {
    if x < 0 then -x else x
  }

  /** Narrowing an unbounded (or 64-bit) integer to a 32-bit int: two's-complement wrap-around. */
  function Wrap(m: int): (r: Int)
    ensures (r - m) % Modulus == 0
    ensures IntMin <= m <= MaxInt ==> r == m
  {
    (m - IntMin) % Modulus + IntMin
  }

  /** Go's unary minus on an int: it wraps, so the negation of -2^31 is -2^31 itself. */
  function Neg(x: Int): (r: Int)
    ensures x != IntMin ==> r == -x
    ensures x == IntMin ==> r == IntMin
  {
    Wrap(-(x as int))
  }

  /** Go's negation is an involution on every int, the wrapped minimum included. */
  lemma NegNeg(x: Int)
    ensures Neg(Neg(x)) == x
  {
  }

  /** Go's `/` on integers: the quotient truncated toward zero. */
  function Quot(a: int, b: int): (q: int)
    requires b != 0
    ensures q == 0 || (q > 0 <==> (a > 0) == (b > 0))
  {
    EuclidNat(Abs(a), Abs(b));
    if (a >= 0) == (b > 0) then Abs(a) / Abs(b) else -(Abs(a) / Abs(b))
  }

  /** The truncating quotient leaves a remainder smaller than the divisor, with the sign of the dividend. */
  lemma QuotSpec(a: int, b: int)
    requires b != 0
    ensures Abs(a - b * Quot(a, b)) < Abs(b)
    ensures a - b * Quot(a, b) == 0 || (a - b * Quot(a, b) > 0 <==> a > 0)
    ensures Abs(Quot(a, b)) <= Abs(a)
  {
    var m: int, n: int := Abs(a), Abs(b);
    EuclidNat(m, n);
    TruncatedRemainder(a, b, m, n, m / n, m % n, Quot(a, b));
  }

  /** The remainder of a truncated division, sign case by sign case, over plain integers. */
  lemma TruncatedRemainder(a: int, b: int, m: int, n: int, q: int, r: int, t: int)
    requires m == (if a < 0 then -a else a) && n == (if b < 0 then -b else b)
    requires m == n * q + r && 0 <= r < n && 0 <= q <= m
    requires t == if (a >= 0) == (b > 0) then q else -q
    ensures a - b * t == (if a >= 0 then r else -r)
    ensures Abs(t) == q
  {
    if a >= 0 && b > 0 {
      assert b * t == n * q;
    } else if a >= 0 {
      assert b * t == (-n) * (-q) == n * q;
    } else if b > 0 {
      assert b * t == n * (-q) == -(n * q);
    } else {
      assert b * t == (-n) * q == -(n * q);
    }
  }

  lemma EuclidNat(m: nat, n: nat)
    requires n > 0
    ensures m == n * (m / n) + m % n && 0 <= m % n < n && 0 <= m / n <= m
  {
    var q, r := m / n, m % n;
    assert m == n * q + r && 0 <= r < n;
    if q > 0 {
      MulMonotone(q, n);
      assert q * n >= q;
    }
  }

  /** Go's `%` on integers: the remainder of truncated division, carrying the sign of the dividend. */
  function Rem(a: int, b: int): (r: int)
    requires b != 0
    ensures Abs(r) < Abs(b)
    ensures r == 0 || (r > 0 <==> a > 0)
    ensures a == b * Quot(a, b) + r
  {
    QuotSpec(a, b);
    a - b * Quot(a, b)
  }

  /** An exact division: the truncating quotient is the ordinary one. */
  lemma QuotExact(a: int, b: int, k: int)
    requires b != 0 && a == b * k
    ensures Quot(a, b) == k
  {
    AbsMul(b, k);
    DivExact(Abs(a), Abs(b), Abs(k));
    MulSign(b, k);
  }

  lemma MulSign(b: int, k: int)
    ensures b > 0 && k > 0 ==> b * k > 0
    ensures b < 0 && k < 0 ==> b * k > 0
    ensures b > 0 && k < 0 ==> b * k < 0
    ensures b < 0 && k > 0 ==> b * k < 0
  {
    if b != 0 && k != 0 {
      AbsMul(b, k);
      MulMonotone(Abs(b), Abs(k));
    }
  }

  lemma DivExact(m: nat, n: nat, k: nat)
    requires n > 0 && m == n * k
    ensures m / n == k
  {
    var q, r := m / n, m % n;
    assert n * (k - q) == r;
    if k - q >= 1 {
      MulMonotone(n, k - q);
    } else if q - k >= 1 {
      MulMonotone(n, q - k);
    }
  }

  lemma AbsMul(x: int, y: int)
    ensures Abs(x * y) == Abs(x) * Abs(y)
  {
    if x < 0 && y < 0 {
      assert x * y == (-x) * (-y);
    } else if x < 0 {
      assert x * y == -((-x) * y);
    } else if y < 0 {
      assert x * y == -(x * (-y));
    }
  }

  lemma MulMonotone(x: nat, y: int)
    requires y >= 1
    ensures x * y >= x
  {
    if y > 1 {
      MulMonotone(x, y - 1);
      assert x * y == x * (y - 1) + x;
    }
  }

  /** Halving an even number: truncating and Euclidean quotients agree. */
  lemma QuotHalf(a: int)
    requires a % 2 == 0
    ensures Quot(a, 2) == a / 2 && a == 2 * (a / 2)
  {
    QuotExact(a, 2, a / 2);
  }
}
