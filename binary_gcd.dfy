/**
 * `greatestCommonDivisor` of mathUtils/fraction.go: Stein's binary gcd
 * (Knuth, TAOCP volume 2, section 4.5.2, algorithm B) on 32-bit ints.
 * It keeps both operands negative, because -2^31 has no positive
 * counterpart, and it panics when the gcd would be 2^31.
 */
module BinaryGcd {
  import opened Wrappers
  import opened GoInt
  import opened Divisibility

  function Pow2(k: nat): (r: nat)
    ensures r >= 1
  {
    if k == 0 then 1 else 2 * Pow2(k - 1)
  }

  lemma {:induction false} Pow2Add(a: nat, b: nat)
    ensures Pow2(a + b) == Pow2(a) * Pow2(b)
    decreases a
  {
    if a > 0 {
      Pow2Add(a - 1, b);
      assert Pow2(a + b) == 2 * (Pow2(a - 1) * Pow2(b));
    }
  }

  lemma Pow2Of31()
    ensures Pow2(31) == -IntMin
  {
    assert Pow2(5) == 32;
    assert Pow2(10) == 1024;
    assert Pow2(15) == 32768;
    assert Pow2(20) == 1048576;
    assert Pow2(25) == 33554432;
    assert Pow2(30) == 1073741824;
  }

  /** Below 2^31 a cofactor of 2^31 is still even. */
  lemma CofactorOfMinEven(x: int, k: nat)
    requires k < 31 && Pow2(k) * x == -IntMin
    ensures x % 2 == 0
  {
    Pow2Of31();
    Pow2Add(31 - k, k);
    assert Pow2(31 - k) == 2 * Pow2(30 - k);
    EvenCofactor(x, Pow2(k), Pow2(31 - k), Pow2(30 - k));
  }

  /** If p * x == m * p with p non-zero and m even, then x is even. */
  lemma EvenCofactor(x: int, p: int, m: int, h: int)
    requires p >= 1 && p * x == m * p && m == 2 * h
    ensures x % 2 == 0
  {
    assert x * p == m * p;
    MulCancel(x, m, p);
  }

  /**
   * What greatestCommonDivisor(u, v) returns: a panic when the gcd is taken
   * to be 2^31, else the gcd of the absolute values, reached through the
   * same shortcuts the source takes.
   */
  function Gcd(u: Int, v: Int): (r: Result<Int, Failure>)
    requires (u == 0 || v == 0) ==> u != IntMin && v != IntMin
    ensures r.Ok? ==> r.value == MathGcd(Abs(u), Abs(v))
    ensures r.Ok? && (u != 0 || v != 0) ==> r.value > 0
    ensures r.Err? <==>
      ((u == 0 || v == 0) && (u == MinInt || v == MinInt)) || (u == IntMin && v == IntMin)
    ensures r.Err? ==> r.error == OverflowPanic
  {
    if u == 0 || v == 0 then
      if u == MinInt || v == MinInt then Err(OverflowPanic)
      else
        GcdComm(0, Abs(v));
        Ok(Abs(u) + Abs(v))
    else if Abs(u) == 1 || Abs(v) == 1 then
      GcdOne(Abs(u));
      GcdOne(Abs(v));
      Ok(1)
    else if u == IntMin && v == IntMin then Err(OverflowPanic)
    else
      GcdBounded(Abs(u), Abs(v));
      GcdPositive(Abs(u), Abs(v));
      Ok(MathGcd(Abs(u), Abs(v)))
  }

  /** A successful result is the greatest common divisor in the divisibility order. */
  lemma GcdIsGreatest(u: Int, v: Int)
    requires (u == 0 || v == 0) ==> u != IntMin && v != IntMin
    ensures Gcd(u, v).Ok? ==>
      var g := Gcd(u, v).value;
      Divides(g, u) && Divides(g, v) &&
      forall c: int :: Divides(c, u) && Divides(c, v) ==> Divides(c, g)
  {
    var r := Gcd(u, v);
    if r.Ok? {
      var g := r.value;
      GcdDividesBoth(Abs(u), Abs(v));
      DividesAbs(g, u);
      DividesAbs(g, v);
      forall c: int | Divides(c, u) && Divides(c, v)
        ensures Divides(c, g)
      {
        DividesAbs(c, u);
        DividesAbs(c, v);
        CommonDivisorDividesGcd(Abs(u), Abs(v), c);
      }
    }
  }

  lemma DividesAbs(d: int, n: int)
    ensures Divides(d, n) <==> Divides(d, Abs(n))
  {
    if Divides(d, n) && n < 0 {
      var k :| n == d * k;
      DividesIntro(d, Abs(n), -k);
    }
    if Divides(d, Abs(n)) && n < 0 {
      var k :| Abs(n) == d * k;
      DividesIntro(d, n, -k);
    }
  }

  /** The binary gcd as the source runs it, step by step. */
  method GreatestCommonDivisor(u0: Int, v0: Int) returns (r: Result<Int, Failure>)
    requires (u0 == 0 || v0 == 0) ==> u0 != IntMin && v0 != IntMin
    ensures r == Gcd(u0, v0)
  {
    if u0 == 0 || v0 == 0 {
      if u0 == MinInt || v0 == MinInt {
        return Err(OverflowPanic);
      }
      return Ok(Abs(u0) + Abs(v0));
    }
    if Abs(u0) == 1 || Abs(v0) == 1 {
      return Ok(1);
    }
    var u: Int, v: Int := u0, v0;
    if u > 0 {
      u := -u;
    }
    if v > 0 {
      v := -v;
    }
    var k;
    u, v, k := CastOutTwos(u, v);
    if k == 31 {
      Pow2Of31();
      LeMul(Pow2(31), Abs(u));
      LeMul(Pow2(31), Abs(v));
      return Err(OverflowPanic);
    }
    NotBothMinimal(u0, v0, u, v, k);
    var g := OddPartGcd(u, v);
    GcdScale(Pow2(k), Abs(u), Abs(v));
    GcdBounded(Abs(u0), Abs(v0));
    assert g * Pow2(k) == Pow2(k) * g;
    return Ok(g * Pow2(k));
  }

  /** B1: divide both (negative) operands by their common power of two, at most 2^31. */
  method CastOutTwos(u0: Int, v0: Int) returns (u: Int, v: Int, k: nat)
    requires u0 < 0 && v0 < 0
    ensures u < 0 && v < 0 && k <= 31
    ensures Abs(u0) == Pow2(k) * Abs(u) && Abs(v0) == Pow2(k) * Abs(v)
    ensures k < 31 ==> u % 2 == 1 || v % 2 == 1
  {
    u, v, k := u0, v0, 0;
    while u % 2 == 0 && v % 2 == 0 && k < 31
      invariant 0 <= k <= 31
      invariant u < 0 && v < 0
      invariant Abs(u0) == Pow2(k) * Abs(u) && Abs(v0) == Pow2(k) * Abs(v)
    {
      HalveKeepsProduct(u, k);
      HalveKeepsProduct(v, k);
      u, v := Quot(u, 2), Quot(v, 2);
      k := k + 1;
    }
  }

  lemma HalveKeepsProduct(u: int, k: nat)
    requires u < 0 && u % 2 == 0
    ensures Quot(u, 2) == u / 2 < 0
    ensures Pow2(k) * Abs(u) == Pow2(k + 1) * Abs(u / 2)
  {
    QuotHalf(u);
    assert Pow2(k) * Abs(u) == (2 * Pow2(k)) * Abs(u / 2);
  }

  /** Below 2^31 common factors of two, not both operands can have been -2^31. */
  lemma NotBothMinimal(u0: int, v0: int, u: int, v: int, k: nat)
    requires k < 31 && (u % 2 == 1 || v % 2 == 1)
    requires Abs(u0) == Pow2(k) * Abs(u) && Abs(v0) == Pow2(k) * Abs(v)
    ensures !(u0 == IntMin && v0 == IntMin)
  {
    if u0 == IntMin && v0 == IntMin {
      CofactorOfMinEven(Abs(u), k);
      CofactorOfMinEven(Abs(v), k);
      assert false;
    }
  }

  /**
   * t, once its factors of two are cast out, may replace u (when positive) or
   * v (when negative) without changing the gcd; replacing the operand does not
   * increase its magnitude.
   */
  ghost predicate Replaces(u: int, v: int, t: int, G: nat) {
    u < 0 && v < 0 && t != 0 &&
    (t > 0 ==> v % 2 == 1 && Abs(t) < Abs(u) && MathGcd(Abs(t), Abs(v)) == G) &&
    (t < 0 ==> u % 2 == 1 && Abs(t) <= Abs(v) && MathGcd(Abs(u), Abs(t)) == G)
  }

  /** B2-B6 on two negative operands of which one is odd: the gcd of their absolute values. */
  method OddPartGcd(u0: Int, v0: Int) returns (g: Int)
    requires u0 < 0 && v0 < 0 && (u0 % 2 == 1 || v0 % 2 == 1)
    ensures g == MathGcd(Abs(u0), Abs(v0))
  {
    var u, v := u0, v0;
    ghost var G := MathGcd(Abs(u0), Abs(v0));
    // B2: t takes the place of u when positive, of v when negative.
    var t: Int;
    if u % 2 == 1 {
      t := v;
    } else {
      QuotHalf(u);
      GcdHalfOdd(Abs(u), Abs(v));
      t := -Quot(u, 2);
    }
    var first := true;
    while first || t != 0
      invariant u < 0 && v < 0
      invariant first ==> Replaces(u, v, t, G)
      invariant !first ==> u % 2 == 1 && v % 2 == 1 && t == (v - u) / 2 && MathGcd(Abs(u), Abs(v)) == G
      decreases Abs(u) + Abs(v) + (if first then 1 else 0)
    {
      if !first {
        StepKeepsGcd(u, v, t);
      }
      first := false;
      ghost var m := Abs(u) + Abs(v);
      u, v := ResetMax(u, v, t, G);
      // B6: the difference of two odd numbers is even.
      OddDifference(u, v);
      t := Quot(v - u, 2);
    }
    GcdSelf(Abs(u));
    g := -u;
  }

  /** B3-B5: cast out factors of two from t, then let it replace max(|u|, |v|). */
  method ResetMax(u0: Int, v0: Int, t0: Int, ghost G: nat) returns (u: Int, v: Int)
    requires Replaces(u0, v0, t0, G)
    ensures u < 0 && v < 0 && u % 2 == 1 && v % 2 == 1 && MathGcd(Abs(u), Abs(v)) == G
    ensures t0 > 0 ==> v == v0 && Abs(u) < Abs(u0)
    ensures t0 < 0 ==> u == u0 && Abs(v) <= Abs(t0)
  {
    var t := StripTwos(t0, if t0 > 0 then Abs(v0) else Abs(u0));
    u, v := u0, v0;
    if t > 0 {
      u := -t;
    } else {
      v := t;
    }
  }

  /** B3/B4: divide t by two while it is even; with an odd w, gcd(|t|, w) is unchanged. */
  method StripTwos(t0: Int, ghost w: nat) returns (t: Int)
    requires t0 != 0
    ensures t != 0 && t % 2 == 1 && (t > 0 <==> t0 > 0) && Abs(t) <= Abs(t0)
    ensures w % 2 == 1 ==> MathGcd(Abs(t), w) == MathGcd(Abs(t0), w)
    ensures w % 2 == 1 ==> MathGcd(w, Abs(t)) == MathGcd(w, Abs(t0))
  {
    t := t0;
    while t % 2 == 0
      invariant t != 0 && (t > 0 <==> t0 > 0) && Abs(t) <= Abs(t0)
      invariant w % 2 == 1 ==> MathGcd(Abs(t), w) == MathGcd(Abs(t0), w)
      invariant w % 2 == 1 ==> MathGcd(w, Abs(t)) == MathGcd(w, Abs(t0))
      decreases Abs(t)
    {
      if w % 2 == 1 {
        HalveKeepsGcd(t, w);
      }
      QuotHalf(t);
      t := Quot(t, 2);
    }
  }

  lemma OddDifference(u: int, v: int)
    requires u % 2 == 1 && v % 2 == 1
    ensures (v - u) % 2 == 0 && Quot(v - u, 2) == (v - u) / 2 && v - u == 2 * ((v - u) / 2)
  {
    QuotHalf(v - u);
  }

  /** Halving an even t keeps its sign and its gcd with an odd partner. */
  lemma HalveKeepsGcd(t: int, w: nat)
    requires t != 0 && t % 2 == 0 && w % 2 == 1
    ensures Quot(t, 2) == t / 2 && t / 2 != 0 && (t / 2 > 0 <==> t > 0) && Abs(t / 2) < Abs(t)
    ensures MathGcd(Abs(t / 2), w) == MathGcd(Abs(t), w)
    ensures MathGcd(w, Abs(t / 2)) == MathGcd(w, Abs(t))
  {
    QuotHalf(t);
    assert Abs(t / 2) == Abs(t) / 2;
    GcdHalfOdd(Abs(t), w);
    GcdComm(w, Abs(t / 2));
    GcdComm(w, Abs(t));
  }

  /** B6 keeps the gcd: t replaces the larger of |u| and |v|. */
  lemma StepKeepsGcd(u: int, v: int, t: int)
    requires u < 0 && v < 0 && u % 2 == 1 && v % 2 == 1 && t == (v - u) / 2 && t != 0
    ensures Replaces(u, v, t, MathGcd(Abs(u), Abs(v)))
  {
    var a: nat, b: nat := -u, -v;
    assert a % 2 == 1 && b % 2 == 1;
    if t > 0 {
      assert (a - b) / 2 == t;
      SubHalfKeepsGcd(a, b);
    } else {
      assert (b - a) / 2 == -t;
      SubHalfKeepsGcd(b, a);
      GcdComm(a, b);
      GcdComm(a, -t);
    }
  }

  lemma SubHalfKeepsGcd(a: nat, b: nat)
    requires a > b && a % 2 == 1 && b % 2 == 1
    ensures MathGcd((a - b) / 2, b) == MathGcd(a, b)
  {
    assert (a - b) % 2 == 0;
    GcdSub(a, b);
    GcdHalfOdd(a - b, b);
  }
}
