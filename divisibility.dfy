/**
 * The mathematical greatest common divisor (Euclid's algorithm) and the facts
 * about it that the binary gcd, reduction to lowest terms and the fraction
 * products rely on.
 */
module Divisibility {

  ghost predicate Divides(d: int, n: int) {
    exists k :: n == d * k
  }

  /**
   * The reference gcd of two naturals, by Euclid's subtractive algorithm;
   * MathGcd(0, 0) == 0.
   */
  function MathGcd(a: nat, b: nat): nat
    decreases a + b
  {
    if a == 0 then b
    else if b == 0 then a
    else if a >= b then MathGcd(a - b, b)
    else MathGcd(a, b - a)
  }

  lemma DividesIntro(d: int, n: int, k: int)
    requires n == d * k
    ensures Divides(d, n)
  {
  }

  lemma DividesLinear(d: int, a: int, b: int, x: int, y: int)
    requires Divides(d, a) && Divides(d, b)
    ensures Divides(d, a * x + b * y)
  {
    var ka :| a == d * ka;
    var kb :| b == d * kb;
    assert a * x + b * y == d * (ka * x + kb * y);
  }

  lemma DividesMul(d: int, a: int, x: int)
    requires Divides(d, a)
    ensures Divides(d, a * x) && Divides(d, x * a)
  {
    var ka :| a == d * ka;
    assert a * x == d * (ka * x);
    assert x * a == d * (ka * x);
  }

  lemma DividesTrans(a: int, b: int, c: int)
    requires Divides(a, b) && Divides(b, c)
    ensures Divides(a, c)
  {
    var k1 :| b == a * k1;
    var k2 :| c == b * k2;
    assert c == a * (k1 * k2);
  }

  /** A positive multiple is at least its divisor. */
  lemma DividesLe(d: nat, n: nat)
    requires Divides(d, n) && n > 0
    ensures d <= n
  {
    var k :| n == d * k;
    MulNonPositive(d, k);
    LeMul(d, k);
  }

  lemma MulNonPositive(d: nat, k: int)
    ensures k <= 0 ==> d * k <= 0
  {
    if k <= 0 {
      assert d * k == -(d * -k);
    }
  }

  lemma LeMul(d: nat, k: int)
    ensures k >= 1 ==> d <= d * k
  {
    if k > 1 {
      LeMul(d, k - 1);
      assert d * k == d * (k - 1) + d;
    }
  }

  lemma DividesAntisym(x: nat, y: nat)
    requires Divides(x, y) && Divides(y, x)
    ensures x == y
  {
    if x == 0 {
      var k :| y == x * k;
    } else if y == 0 {
      var k :| x == y * k;
    } else {
      DividesLe(x, y);
      DividesLe(y, x);
    }
  }

  lemma {:induction false} GcdDividesBoth(a: nat, b: nat)
    ensures Divides(MathGcd(a, b), a) && Divides(MathGcd(a, b), b)
    decreases a + b
  {
    var g := MathGcd(a, b);
    if a == 0 {
      DividesIntro(g, a, 0);
      DividesIntro(g, b, 1);
    } else if b == 0 {
      DividesIntro(g, a, 1);
      DividesIntro(g, b, 0);
    } else if a >= b {
      GcdDividesBoth(a - b, b);
      DividesLinear(g, a - b, b, 1, 1);
    } else {
      GcdDividesBoth(a, b - a);
      DividesLinear(g, a, b - a, 1, 1);
    }
  }

  lemma {:induction false} CommonDivisorDividesGcd(a: nat, b: nat, c: int)
    requires Divides(c, a) && Divides(c, b)
    ensures Divides(c, MathGcd(a, b))
    decreases a + b
  {
    if a != 0 && b != 0 {
      if a >= b {
        DividesLinear(c, a, b, 1, -1);
        CommonDivisorDividesGcd(a - b, b, c);
      } else {
        DividesLinear(c, b, a, 1, -1);
        CommonDivisorDividesGcd(a, b - a, c);
      }
    }
  }

  /** MathGcd is the greatest common divisor in the divisibility order, and that determines it. */
  lemma GcdUnique(a: nat, b: nat, g: nat)
    requires Divides(g, a) && Divides(g, b)
    requires forall c: nat :: Divides(c, a) && Divides(c, b) ==> Divides(c, g)
    ensures g == MathGcd(a, b)
  {
    GcdDividesBoth(a, b);
    CommonDivisorDividesGcd(a, b, g);
    DividesAntisym(g, MathGcd(a, b));
  }

  lemma {:induction false} GcdPositive(a: nat, b: nat)
    requires a > 0 || b > 0
    ensures MathGcd(a, b) > 0
    decreases a + b
  {
    if a > 0 && b > 0 {
      if a >= b {
        GcdPositive(a - b, b);
      } else {
        GcdPositive(a, b - a);
      }
    }
  }

  lemma GcdBounded(a: nat, b: nat)
    ensures a > 0 ==> MathGcd(a, b) <= a
    ensures b > 0 ==> MathGcd(a, b) <= b
  {
    GcdDividesBoth(a, b);
    if a > 0 {
      DividesLe(MathGcd(a, b), a);
    }
    if b > 0 {
      DividesLe(MathGcd(a, b), b);
    }
  }

  lemma GcdComm(a: nat, b: nat)
    ensures MathGcd(a, b) == MathGcd(b, a)
  {
    GcdDividesBoth(a, b);
    GcdDividesBoth(b, a);
    CommonDivisorDividesGcd(a, b, MathGcd(b, a));
    CommonDivisorDividesGcd(b, a, MathGcd(a, b));
    DividesAntisym(MathGcd(a, b), MathGcd(b, a));
  }

  lemma GcdSelf(a: nat)
    ensures MathGcd(a, a) == a
  {
    if a > 0 {
      assert a % a == 0;
    }
  }

  lemma {:induction false} GcdOne(a: nat)
    ensures MathGcd(a, 1) == 1 && MathGcd(1, a) == 1
  {
    if a > 1 {
      GcdOne(a - 1);
    }
  }

  /** Scaling both arguments scales the gcd. */
  lemma {:induction false} GcdScale(c: nat, a: nat, b: nat)
    ensures MathGcd(c * a, c * b) == c * MathGcd(a, b)
    decreases a + b
  {
    if c == 0 {
      assert c * a == 0 && c * b == 0;
    } else if a == 0 {
      assert c * a == 0;
    } else if b == 0 {
      assert c * b == 0;
    } else if a >= b {
      LeMul(c, a);
      MulMonotoneIn(c, b, a);
      assert c * a - c * b == c * (a - b);
      GcdScale(c, a - b, b);
    } else {
      LeMul(c, b);
      MulMonotoneIn(c, a, b);
      assert c * b - c * a == c * (b - a);
      GcdScale(c, a, b - a);
    }
  }

  lemma MulMonotoneIn(c: nat, x: nat, y: nat)
    requires x <= y
    ensures c * x <= c * y
  {
    assert c * y - c * x == c * (y - x);
  }

  /** The quotient and remainder of Euclidean division are unique. */
  lemma ModUnique(a: int, b: int, q: int, r: int)
    requires b > 0 && a == b * q + r && 0 <= r < b
    ensures a / b == q && a % b == r
  {
    var q', r' := a / b, a % b;
    assert b * (q - q') == r' - r;
    if q - q' >= 1 {
      LeMul(b, q - q');
    } else if q' - q >= 1 {
      LeMul(b, q' - q);
    }
  }

  /** Subtracting one argument from the other keeps the gcd. */
  lemma GcdSub(a: nat, b: nat)
    requires a >= b
    ensures MathGcd(a - b, b) == MathGcd(a, b)
  {
  }

  /** With an odd partner, a factor two does not change the gcd. */
  lemma GcdHalfOdd(a: nat, b: nat)
    requires a % 2 == 0 && b % 2 == 1
    ensures MathGcd(a / 2, b) == MathGcd(a, b)
  {
    var g := MathGcd(a / 2, b);
    GcdDividesBoth(a / 2, b);
    assert a == a / 2 * 2;
    DividesMul(g, a / 2, 2);
    forall c: nat | Divides(c, a) && Divides(c, b)
      ensures Divides(c, g)
    {
      OddDividesHalf(a, b, c);
      CommonDivisorDividesGcd(a / 2, b, c);
    }
    GcdUnique(a, b, g);
  }

  /** A common divisor of an even and an odd number is odd, so it divides half the even one. */
  lemma OddDividesHalf(a: int, b: int, c: int)
    requires a % 2 == 0 && b % 2 == 1
    requires Divides(c, a) && Divides(c, b)
    ensures Divides(c, a / 2)
  {
    var kb :| b == c * kb;
    ParityMul(c, kb);
    assert c % 2 == 1;
    var ka :| a == c * ka;
    ParityMul(c, ka);
    assert ka % 2 == 0;
    var h := ka / 2;
    assert ka == 2 * h;
    assert a == 2 * (c * h);
    ModUnique(a, 2, c * h, 0);
    DividesIntro(c, a / 2, h);
  }

  /** The parity of a product is the product of the parities. */
  lemma ParityMul(x: int, y: int)
    ensures (x * y) % 2 == (x % 2) * (y % 2)
  {
    var a, r := x / 2, x % 2;
    var b, s := y / 2, y % 2;
    assert x == 2 * a + r && y == 2 * b + s;
    assert x * y == (2 * a + r) * (2 * b + s);
    assert (2 * a + r) * (2 * b + s) == 2 * (2 * a * b + a * s + r * b) + r * s;
    ModUnique(x * y, 2, 2 * a * b + a * s + r * b, r * s);
  }

  /** Euclid's lemma: a divisor of a product, coprime to one factor, divides the other. */
  lemma EuclidLemma(a: nat, b: nat, c: nat)
    requires Divides(a, b * c) && MathGcd(a, b) == 1
    ensures Divides(a, c)
  {
    var ca: nat, cb: nat := c * a, b * c;
    assert MathGcd(ca, cb) == c by {
      assert c * b == cb;
      GcdScale(c, a, b);
    }
    assert Divides(a, ca) by {
      DividesIntro(a, ca, c);
    }
    CommonDivisorDividesGcd(ca, cb, a);
  }

  /** Dividing out the gcd leaves coprime quotients. */
  lemma CoprimeQuotients(a: nat, b: nat)
    requires a > 0 || b > 0
    ensures MathGcd(a, b) > 0
    ensures var g := MathGcd(a, b);
      a % g == 0 && b % g == 0 && MathGcd(a / g, b / g) == 1
  {
    var g := MathGcd(a, b);
    GcdPositive(a, b);
    GcdDividesBoth(a, b);
    ExactQuotient(a, g);
    ExactQuotient(b, g);
    CancelGcd(g, a / g, b / g, a, b);
  }

  /** When g is the gcd of g * ka and g * kb, the cofactors ka and kb are coprime. */
  lemma CancelGcd(g: nat, ka: nat, kb: nat, a: nat, b: nat)
    requires g > 0 && a == g * ka && b == g * kb && MathGcd(a, b) == g
    ensures MathGcd(ka, kb) == 1
  {
    GcdOfMultiples(g, ka, kb, a, b);
    CancelOne(g, MathGcd(ka, kb));
  }

  lemma CancelOne(g: int, m: int)
    requires g > 0 && g * m == g
    ensures m == 1
  {
    assert m * g == 1 * g;
    MulCancel(m, 1, g);
  }

  /** GcdScale for arguments already known to be the products. */
  lemma GcdOfMultiples(c: nat, a: nat, b: nat, ca: nat, cb: nat)
    requires ca == c * a && cb == c * b
    ensures MathGcd(ca, cb) == c * MathGcd(a, b)
  {
    GcdScale(c, a, b);
  }

  lemma ExactQuotient(a: nat, g: nat)
    requires g > 0 && Divides(g, a)
    ensures a % g == 0 && a == g * (a / g) && a / g >= 0
  {
    var k :| a == g * k;
    ModUnique(a, g, k, 0);
  }

  /** Two coprime pairs with the same ratio are equal: lowest terms are unique. */
  lemma CoprimeRatioUnique(n1: nat, d1: nat, n2: nat, d2: nat)
    requires d1 > 0 && d2 > 0
    requires MathGcd(n1, d1) == 1 && MathGcd(n2, d2) == 1
    requires n1 * d2 == n2 * d1
    ensures n1 == n2 && d1 == d2
  {
    assert Divides(d1, d2) by {
      GcdComm(n1, d1);
      DividesIntro(d1, n1 * d2, n2);
      EuclidLemma(d1, n1, d2);
    }
    assert Divides(d2, d1) by {
      GcdComm(n2, d2);
      DividesIntro(d2, n2 * d1, n1);
      EuclidLemma(d2, n2, d1);
    }
    DividesAntisym(d1, d2);
    MulCancel(n1, n2, d1);
  }

  lemma MulCancel(x: int, y: int, d: int)
    requires d != 0 && x * d == y * d
    ensures x == y
  {
    assert (x - y) * d == 0;
  }
}
