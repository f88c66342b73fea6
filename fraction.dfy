/**
 * mathUtils/fraction.go: a fraction of two 32-bit ints. The nil pointers the
 * Go functions return and the panics they raise are Result failures. Pow is
 * the only chain that calls a method on a result that may be nil; there the
 * call is modelled by NilPow, or as the nil-dereference panic of MultiplyBy.
 */
module Fractions {
  import opened Wrappers
  import opened GoInt
  import opened Divisibility
  import opened BinaryGcd

  /** The rational number a numerator and a non-zero denominator stand for. */
  ghost function ValueOf(n: int, d: int): real
    requires d != 0
  {
    n as real / d as real
  }

  /** Numerator and denominator. NewFraction(n, d) is the constructor Fraction(n, d): it checks nothing. */
  datatype Fraction = Fraction(numerator: Int, denominator: Int) {

    ghost function Value(): real
      requires denominator != 0
    {
      ValueOf(numerator, denominator)
    }

    /** Lowest terms: a positive denominator sharing no factor with the numerator. */
    ghost predicate Lowest() {
      denominator > 0 && MathGcd(GoInt.Abs(numerator), denominator) == 1
    }

    /** Two fractions are equal when both parts are. */
    function Equals(f2: Fraction): (r: bool)
      ensures r <==> this == f2
    {
      numerator == f2.numerator && denominator == f2.denominator
    }

    /** The fraction in lowest terms; the fraction itself when it is already there. */
    function Reduce(): (r: Result<Fraction, Failure>)
      requires numerator != IntMin
      ensures numerator == 0 ==> r == Ok(Zero)
      ensures denominator != 0 ==> r.Ok?
      ensures r.Ok? ==> r.value.numerator != IntMin
      ensures r.Ok? && denominator != 0 ==> r.value.denominator != 0 && r.value.Value() == Value()
      ensures denominator > 0 ==> r.Ok? && r.value.Lowest()
      ensures Lowest() ==> r == Ok(this)
      ensures r.Ok? ==> r.value == this || r.value.Lowest()
      ensures r.Err? ==> r.error == NilResult && denominator == 0 && GoInt.Abs(numerator) > 1
    {
      if numerator == 0 then
        Ok(Zero)
      else
        var u: Int := GoInt.Abs(numerator);
        var g := Gcd(u, denominator).value;
        if g == 1 then Ok(this) else ReduceBy(numerator, denominator, g)
    }

    /** 1/f, not reduced; zero cannot be inverted, and a MinInt numerator is refused. */
    function Invert(): (r: Result<Fraction, Failure>)
      ensures r.Err? <==> numerator == 0 || numerator == MinInt
      ensures r.Err? ==> r.error == (if numerator == 0 then ZeroPanic else OverflowPanic)
      ensures r.Ok? ==> r.value.denominator != 0
      ensures r.Ok? && numerator != IntMin ==> r.value.denominator > 0
      ensures r.Ok? && numerator != IntMin && !(numerator < 0 && denominator == IntMin) && denominator != 0 ==>
        IsInverse(r.value, this)
      ensures numerator == IntMin ==> r == Ok(Fraction(Neg(denominator), IntMin))
    {
      if numerator == 0 then Err(ZeroPanic)
      else if numerator == MinInt then Err(OverflowPanic)
      else if numerator < 0 then
        InvertValue(numerator, denominator);
        Ok(Fraction(Neg(denominator), Neg(numerator)))
      else
        InvertValue(numerator, denominator);
        Ok(Fraction(denominator, numerator))
    }

    /** -f, not reduced; a MinInt numerator is refused. */
    function Negate(): (r: Result<Fraction, Failure>)
      ensures r.Err? <==> numerator == MinInt
      ensures r.Err? ==> r.error == OverflowPanic
      ensures r.Ok? ==> r.value.denominator == denominator
      ensures r.Ok? && numerator != IntMin && denominator != 0 ==> r.value.Value() == -Value()
      ensures numerator == IntMin ==> r == Ok(this)
    {
      if numerator == MinInt then Err(OverflowPanic)
      else
        NegateValue(numerator, denominator);
        Ok(Fraction(Neg(numerator), denominator))
    }

    /** |f|: f itself when the numerator is not negative, else its negation. */
    function Abs(): (r: Result<Fraction, Failure>)
      ensures numerator >= 0 ==> r == Ok(this)
      ensures r.Err? <==> numerator == MinInt
      ensures r.Ok? && numerator != IntMin ==> r.value.numerator >= 0 && r.value.denominator == denominator
      ensures r.Ok? && numerator != IntMin && denominator > 0 ==>
        r.value.Value() == if Value() < 0.0 then -Value() else Value()
      ensures numerator == IntMin ==> r == Ok(this)
    {
      SignOfValue(numerator, denominator);
      if numerator >= 0 then Ok(this) else Negate()
    }

    /**
     * The product in lowest terms. Each numerator is first divided by its
     * gcd with the other denominator, as in Knuth 4.5.1; over positive
     * denominators the checked products fail exactly when these
     * cross-cancelled products leave the int range (CancelledProductFits).
     * For operands in lowest terms that is when the product in lowest terms
     * does not fit; 131072/131072 times 131071/131073 overflows although the
     * product is 131071/131073.
     */
    function MultiplyBy(ff: Fraction): (r: Result<Fraction, Failure>)
      requires denominator == 0 ==> ff.numerator != IntMin
      requires ff.denominator == 0 ==> numerator != IntMin
      ensures numerator == 0 || ff.numerator == 0 ==> r == Ok(Zero)
      ensures r.Ok? ==> r.value.denominator != 0
      ensures denominator == 0 || ff.denominator == 0 ==> (r.Ok? <==> numerator == 0 || ff.numerator == 0)
      ensures denominator > 0 && ff.denominator > 0 ==>
        (r.Err? ==> r.error == OverflowPanic) &&
        (r.Ok? ==> r.value.Lowest() && IsProduct(r.value, this, ff))
      ensures denominator > 0 && ff.denominator > 0 && numerator != 0 && ff.numerator != 0 ==>
        (r.Ok? <==> CancelledProductFits(this, ff))
    {
      if numerator == 0 || ff.numerator == 0 then
        ZeroProduct(this, ff);
        Ok(Zero)
      else
        var d1 :- Gcd(numerator, ff.denominator);
        var d2 :- Gcd(ff.numerator, denominator);
        ProductOverZero(this, ff, d1, d2);
        ProductFits(this, ff, d1, d2);
        MultiplyCancelled(this, ff, d1, d2)
    }

    /** The quotient in lowest terms: this times the inverse of ff. */
    function DivideBy(ff: Fraction): (r: Result<Fraction, Failure>)
      requires denominator == 0 ==> ff.denominator != IntMin
      ensures ff.numerator == 0 ==> r == Err(ZeroPanic)
      ensures ff.numerator == MinInt ==> r == Err(OverflowPanic)
      ensures numerator == 0 && ff.numerator != 0 && ff.numerator != MinInt ==> r == Ok(Zero)
      ensures denominator > 0 && ff.denominator > 0 && ff.numerator != IntMin ==>
        (r.Err? ==> r.error == OverflowPanic || r.error == ZeroPanic) &&
        (r.Ok? ==> r.value.Lowest() && IsQuotient(r.value, this, ff))
      ensures denominator > 0 && ff.denominator > 0 && numerator != 0 && ff.numerator !in {0, MinInt, IntMin} ==>
        (r.Ok? <==> CancelledProductFits(this,
          Fraction(if ff.numerator < 0 then -ff.denominator else ff.denominator, GoInt.Abs(ff.numerator))))
    {
      if ff.numerator == 0 then Err(ZeroPanic)
      else
        var inv :- ff.Invert();
        assert inv.numerator == IntMin ==> ff.denominator == IntMin;
        var r := MultiplyBy(inv);
        QuotientValue(this, ff, inv, r);
        r
    }

    /**
     * This fraction raised to an integer power, by repeated squaring; a
     * negative power inverts first.
     */
    function Pow(power: Int): (r: Result<Fraction, Failure>)
      requires power != IntMin
      requires denominator == 0 && numerator == IntMin ==> power <= 1
      ensures power == 1 ==> r == Ok(this)
      ensures power == 0 ==> r == Ok(One)
      ensures r.Ok? && power != 1 ==> r.value.denominator != 0
      ensures numerator == 0 && power < 0 ==> r == Err(ZeroPanic)
      ensures numerator == 0 && power >= 2 ==> r == Ok(Zero)
      ensures denominator > 0 && !(numerator == IntMin && power < 0) ==>
        (r.Err? ==> r.error == OverflowPanic || r.error == ZeroPanic) &&
        (r.Ok? ==> r.value.denominator > 0 && (power < 0 ==> numerator != 0) && IsPower(r.value, this, power))
      ensures denominator > 0 && !(numerator == IntMin && power < 0) && (power >= 2 || power <= -2) && r.Ok? ==>
        r.value.Lowest()
      decreases PowMeasure(power), 2
    {
      if power == 1 then Ok(this)
      else if power == 0 then Ok(One)
      else if power < 0 then PowNegative(power)
      else PowPositive(power)
    }

    /** Pow for a negative power: the inverse raised to the opposite power. */
    function PowNegative(power: Int): (r: Result<Fraction, Failure>)
      requires IntMin < power < 0
      ensures r.Ok? ==> r.value.denominator != 0
      ensures numerator == 0 ==> r == Err(ZeroPanic)
      ensures denominator > 0 && numerator != IntMin ==>
        (r.Err? ==> r.error == OverflowPanic || r.error == ZeroPanic) &&
        (r.Ok? ==> r.value.denominator > 0 && numerator != 0 && IsPower(r.value, this, power))
      ensures denominator > 0 && numerator != IntMin && power <= -2 && r.Ok? ==> r.value.Lowest()
      decreases PowMeasure(power), 1
    {
      if power == MinInt then PowMinInt(power)
      else
        var call :- PowNegativeCall(this, power);
        var r := call.0.Pow(call.1);
        PowNegativeStep(this, call.0, power, r);
        r
    }

    /** Pow for the power MinInt, whose opposite is computed as twice -(MinInt / 2). */
    function PowMinInt(power: Int): (r: Result<Fraction, Failure>)
      requires power == MinInt
      ensures r.Ok? ==> r.value.denominator != 0
      ensures numerator == 0 ==> r == Err(ZeroPanic)
      ensures denominator > 0 && numerator != IntMin ==>
        (r.Err? ==> r.error == OverflowPanic || r.error == ZeroPanic) &&
        (r.Ok? ==> r.value.denominator > 0 && numerator != 0 && r.value.Lowest() && IsPower(r.value, this, power))
      decreases PowMeasure(power), 0
    {
      var inv :- Invert();
      var square := inv.Pow(2);
      HalfOfMinInt(power);
      var half := -(Quot(power, 2));
      if square == Err(NilResult) then NilPow(half)
      else
        var sq :- square;
        var r := sq.Pow(half);
        PowMinIntStep(this, inv, sq, power, half, r);
        r
    }

    /**
     * Pow for a power of at least two: a power of the square, times this once
     * more when the power is odd. A nil square or a nil power of it becomes
     * the receiver of the next call.
     */
    function PowPositive(power: Int): (r: Result<Fraction, Failure>)
      requires power >= 2
      requires denominator == 0 ==> numerator != IntMin
      ensures r.Ok? ==> r.value.denominator != 0
      ensures numerator == 0 ==> r == Ok(Zero)
      ensures denominator > 0 ==>
        (r.Err? ==> r.error == OverflowPanic) &&
        (r.Ok? ==> r.value.denominator > 0 && r.value.Lowest() && IsPower(r.value, this, power))
      decreases PowMeasure(power), 1
    {
      var square := MultiplyBy(this);
      QuotHalf(power - power % 2);
      if square == Err(NilResult) then
        if power % 2 == 0 then NilPow(Quot(power, 2)) else Err(NilReceiverPanic)
      else
        var ff :- square;
        if power % 2 == 0 then
          var r := ff.Pow(Quot(power, 2));
          PowEvenStep(this, ff, power, r);
          r
        else
          var pr := ff.Pow(Quot(power, 2));
          if pr == Err(NilResult) then Err(NilReceiverPanic)
          else
            var p :- pr;
            var r := p.MultiplyBy(this);
            PowOddStep(this, ff, p, power, r);
            r
    }

    /** The remainder part of the mixed number, made non-negative: 3 for 7/4 and for -7/4. */
    function GetProperNumerator(): (r: Result<Int, Failure>)
      ensures r.Err? <==> denominator == 0
      ensures r.Err? ==> r.error == DivideByZeroPanic
      ensures r.Ok? ==> 0 <= r.value < GoInt.Abs(denominator)
      ensures r.Ok? ==> r.value == GoInt.Abs(numerator - denominator * Quot(numerator, denominator))
    {
      if denominator == 0 then Err(DivideByZeroPanic)
      else Ok(GoInt.Abs(Rem(numerator, denominator)))
    }

    /** The whole part of the mixed number, truncated toward zero: 1 for 7/4, -1 for -7/4. */
    function GetProperWhole(): (r: Result<Int, Failure>)
      ensures r.Err? <==> denominator == 0
      ensures r.Err? ==> r.error == DivideByZeroPanic
      ensures r.Ok? && !(numerator == IntMin && denominator == -1) ==> r.value == Quot(numerator, denominator)
      ensures r.Ok? && numerator == IntMin && denominator == -1 ==> r.value == IntMin
    {
      if denominator == 0 then Err(DivideByZeroPanic)
      else
        QuotFits(numerator, denominator);
        Ok(Wrap(Quot(numerator, denominator)))
    }

    /** The fraction as an int: its whole part. */
    function IntValue(): (r: Result<Int, Failure>)
      ensures r == GetProperWhole()
    {
      if denominator == 0 then Err(DivideByZeroPanic)
      else Ok(Wrap(Quot(numerator, denominator)))
    }
  }

  /**
   * Pow called on a nil receiver: the branches for the powers 1 and 0 return
   * without reading the receiver, and every other branch dereferences it.
   */
  function NilPow(power: Int): (r: Result<Fraction, Failure>)
    ensures r.Ok? <==> power == 0
    ensures r.Ok? ==> r.value == One
    ensures r.Err? ==> r.error == (if power == 1 then NilResult else NilReceiverPanic)
  {
    if power == 1 then Err(NilResult)
    else if power == 0 then Ok(One)
    else Err(NilReceiverPanic)
  }

  /**
   * The receiver and the power of the recursive call in Pow's branch for a
   * negative power other than MinInt: the inverse and Go's negation of the
   * power. The power shrinks on every call except at -2^31, which Go negates
   * to itself.
   */
  function PowNegativeCall(f: Fraction, power: Int): (r: Result<(Fraction, Int), Failure>)
    requires power < 0 && power != MinInt
    ensures r.Err? <==> f.Invert().Err?
    ensures r.Err? ==> r.error == f.Invert().error
    ensures r.Ok? ==> r.value.0 == f.Invert().value
    ensures r.Ok? ==> r.value.1 == if power == IntMin then IntMin else -power
    ensures r.Ok? ==> (PowMeasure(r.value.1) < PowMeasure(power) <==> power != IntMin)
  {
    var inv :- f.Invert();
    Ok((inv, Neg(power)))
  }

  /** Pow recurses on a smaller power, counting the inversion of a negative power as a step. */
  function PowMeasure(power: int): nat {
    if power >= 0 then 2 * power else 2 * -power + 1
  }

  /** -(MinInt / 2) in Go's truncating division. */
  lemma HalfOfMinInt(power: int)
    requires power == MinInt
    ensures power == 2 * Quot(power, 2) && 2 <= -(Quot(power, 2)) <= MaxInt
    ensures PowMeasure(-(Quot(power, 2))) < PowMeasure(power)
  {
    QuotHalf(power);
  }

  /** An even power is a power of the square. */
  lemma PowEvenStep(f: Fraction, ff: Fraction, power: int, r: Result<Fraction, Failure>)
    requires power >= 2 && power % 2 == 0 && ff.denominator != 0
    requires f.denominator > 0 ==> ff.denominator > 0 && IsProduct(ff, f, f)
    requires f.denominator > 0 && r.Ok? ==> r.value.denominator > 0 && IsPower(r.value, ff, power / 2)
    ensures f.denominator > 0 && r.Ok? ==> IsPower(r.value, f, power)
  {
    if f.denominator > 0 && r.Ok? {
      EvenPow(r.value.Value(), ff.Value(), f.Value(), power / 2, power);
    }
  }

  /** An odd power is a power of the square, times one more factor. */
  lemma PowOddStep(f: Fraction, ff: Fraction, p: Fraction, power: int, r: Result<Fraction, Failure>)
    requires power >= 2 && power % 2 == 1 && ff.denominator != 0 && p.denominator != 0
    requires f.denominator > 0 ==> ff.denominator > 0 && IsProduct(ff, f, f)
    requires f.denominator > 0 ==> p.denominator > 0 && IsPower(p, ff, power / 2)
    requires f.denominator > 0 && r.Ok? ==> r.value.denominator != 0 && IsProduct(r.value, p, f)
    ensures f.denominator > 0 && r.Ok? ==> IsPower(r.value, f, power)
  {
    if f.denominator > 0 && r.Ok? {
      var v, k := f.Value(), power / 2;
      assert r.value.Value() == p.Value() * v;
      assert p.Value() == RealPow(ff.Value(), k);
      OddPow(v, ff.Value(), k, power);
    }
  }

  /** A negative power is the opposite power of the inverse. */
  lemma PowNegativeStep(f: Fraction, inv: Fraction, power: int, r: Result<Fraction, Failure>)
    requires power < 0 && f.numerator != 0 && inv.denominator != 0
    requires f.denominator > 0 && f.numerator != IntMin ==> IsInverse(inv, f)
    requires f.denominator > 0 && f.numerator != IntMin && r.Ok? ==>
      r.value.denominator > 0 && IsPower(r.value, inv, -power)
    ensures f.denominator > 0 && f.numerator != IntMin && r.Ok? ==> IsPower(r.value, f, power)
  {
  }

  /** For MinInt the inverse is squared first, then raised to -MinInt/2. */
  lemma PowMinIntStep(f: Fraction, inv: Fraction, sq: Fraction, power: int, half: int, r: Result<Fraction, Failure>)
    requires half >= 1 && power == -2 * half
    requires f.numerator != 0 && inv.denominator != 0 && sq.denominator != 0
    requires f.denominator > 0 && f.numerator != IntMin ==> IsInverse(inv, f)
    requires f.denominator > 0 && f.numerator != IntMin ==> sq.denominator > 0 && IsPower(sq, inv, 2)
    requires f.denominator > 0 && f.numerator != IntMin && r.Ok? ==>
      r.value.denominator > 0 && IsPower(r.value, sq, half)
    ensures f.denominator > 0 && f.numerator != IntMin && r.Ok? ==> IsPower(r.value, f, power)
  {
    if f.denominator > 0 && f.numerator != IntMin && r.Ok? {
      var w := inv.Value();
      assert sq.Value() == RealPow(w, 2);
      SquarePow(w);
      EvenPow(r.value.Value(), sq.Value(), w, half, -power);
    }
  }

  /** x to a natural power. */
  ghost function RealPow(x: real, k: nat): real {
    if k == 0 then 1.0 else x * RealPow(x, k - 1)
  }

  lemma {:induction false} RealPowAdd(x: real, a: nat, b: nat)
    ensures RealPow(x, a + b) == RealPow(x, a) * RealPow(x, b)
  {
    if a > 0 {
      RealPowAdd(x, a - 1, b);
      var p, q := RealPow(x, a - 1), RealPow(x, b);
      assert RealPow(x, a + b) == x * RealPow(x, a - 1 + b);
      MulAssoc(x, p, q);
    }
  }

  lemma MulAssoc(x: real, y: real, z: real)
    ensures x * (y * z) == (x * y) * z
  {
  }

  lemma MulSwap(x: real, y: real, z: real, w: real)
    ensures (x * y) * (z * w) == (x * z) * (y * w)
  {
  }

  lemma {:induction false} RealPowMul(x: real, y: real, k: nat)
    ensures RealPow(x * y, k) == RealPow(x, k) * RealPow(y, k)
  {
    if k > 0 {
      RealPowMul(x, y, k - 1);
      var p, q := RealPow(x, k - 1), RealPow(y, k - 1);
      assert RealPow(x * y, k) == (x * y) * (p * q);
      MulSwap(x, y, p, q);
    }
  }

  /** Squaring first halves the exponent. */
  lemma PowOfSquare(x: real, k: nat)
    ensures RealPow(x * x, k) == RealPow(x, 2 * k)
  {
    RealPowMul(x, x, k);
    RealPowAdd(x, k, k);
  }

  lemma SquarePow(x: real)
    ensures RealPow(x, 2) == x * x
  {
    assert RealPow(x, 1) == x;
  }

  lemma EvenPow(rv: real, a: real, v: real, k: nat, n: int)
    requires a == v * v && rv == RealPow(a, k) && n == 2 * k
    ensures rv == RealPow(v, n)
  {
    PowOfSquare(v, k);
  }

  lemma OddPow(v: real, a: real, k: nat, n: int)
    requires a == v * v && n == 2 * k + 1
    ensures RealPow(a, k) * v == RealPow(v, n)
  {
    PowOfSquare(v, k);
    RealPowAdd(v, 2 * k, 1);
    assert RealPow(v, 1) == v;
  }

  const Zero := Fraction(0, 1)
  const One := Fraction(1, 1)
  const OneHalf := Fraction(1, 2)
  const OneThird := Fraction(1, 3)
  const TwoThirds := Fraction(2, 3)
  const OneQuarter := Fraction(1, 4)
  const TwoQuarters := Fraction(2, 4)
  const ThreeQuarters := Fraction(3, 4)
  const OneFifth := Fraction(1, 5)
  const TwoFifths := Fraction(2, 5)
  const ThreeFifths := Fraction(3, 5)
  const FourFifths := Fraction(4, 5)

  /** The rest of MultiplyBy, once the cross gcds d1 and d2 are known. */
  function MultiplyCancelled(f: Fraction, ff: Fraction, d1: Int, d2: Int): (r: Result<Fraction, Failure>)
    requires f.numerator != 0 && ff.numerator != 0
    requires d1 == MathGcd(Abs(f.numerator), Abs(ff.denominator))
    requires d2 == MathGcd(Abs(ff.numerator), Abs(f.denominator))
    ensures r.Ok? ==> r.value.denominator != 0
    ensures f.denominator > 0 && ff.denominator > 0 ==>
      (r.Err? ==> r.error == OverflowPanic) &&
      (r.Ok? ==> r.value.Lowest() && IsProduct(r.value, f, ff))
  {
    CrossCancel(f.numerator, ff.denominator, d1);
    CrossCancel(ff.numerator, f.denominator, d2);
    var a :- MulAndCheck(Quot(f.numerator, d1), Quot(ff.numerator, d2));
    var b :- MulPosAndCheck(Quot(f.denominator, d2), Quot(ff.denominator, d1));
    ProductValue(f, ff, d1, d2);
    GetReducedFraction(a, b)
  }

  /** A zero denominator on either side makes the checked denominator product 0, which GetReducedFraction refuses. */
  lemma ProductOverZero(f: Fraction, ff: Fraction, d1: Int, d2: Int)
    requires f.numerator != 0 && ff.numerator != 0
    requires d1 == MathGcd(Abs(f.numerator), Abs(ff.denominator))
    requires d2 == MathGcd(Abs(ff.numerator), Abs(f.denominator))
    ensures f.denominator == 0 || ff.denominator == 0 ==> MultiplyCancelled(f, ff, d1, d2).Err?
  {
    CrossCancel(f.numerator, ff.denominator, d1);
    CrossCancel(ff.numerator, f.denominator, d2);
    var x, y := Quot(f.denominator, d2), Quot(ff.denominator, d1);
    if x == 0 || y == 0 {
      assert x * y == 0;
    }
  }

  /**
   * Whether both checked products of MultiplyBy fit: the numerators and the
   * denominators after each numerator is divided by its gcd with the other
   * denominator.
   */
  predicate CancelledProductFits(f: Fraction, ff: Fraction)
    requires f.numerator != 0 && ff.numerator != 0
  {
    var g1, g2 := MathGcd(Abs(f.numerator), Abs(ff.denominator)), MathGcd(Abs(ff.numerator), Abs(f.denominator));
    GcdPositive(Abs(f.numerator), Abs(ff.denominator));
    GcdPositive(Abs(ff.numerator), Abs(f.denominator));
    MinInt <= Quot(f.numerator, g1) * Quot(ff.numerator, g2) <= MaxInt &&
    Quot(f.denominator, g2) * Quot(ff.denominator, g1) <= MaxInt
  }

  /** Over positive denominators MultiplyCancelled fails exactly when a checked product does not fit. */
  lemma ProductFits(f: Fraction, ff: Fraction, d1: Int, d2: Int)
    requires f.numerator != 0 && ff.numerator != 0
    requires d1 == MathGcd(Abs(f.numerator), Abs(ff.denominator))
    requires d2 == MathGcd(Abs(ff.numerator), Abs(f.denominator))
    ensures f.denominator > 0 && ff.denominator > 0 ==>
      (MultiplyCancelled(f, ff, d1, d2).Ok? <==> CancelledProductFits(f, ff))
  {
    CrossCancel(f.numerator, ff.denominator, d1);
    CrossCancel(ff.numerator, f.denominator, d2);
    ProductValue(f, ff, d1, d2);
  }

  lemma ZeroProduct(f: Fraction, ff: Fraction)
    requires f.numerator == 0 || ff.numerator == 0
    ensures f.denominator != 0 && ff.denominator != 0 ==> Zero.Value() == f.Value() * ff.Value()
  {
    if f.denominator != 0 && ff.denominator != 0 {
      DivMulCancel(0.0, f.denominator as real);
      DivMulCancel(0.0, ff.denominator as real);
    }
  }

  /** A gcd that divides x: the quotient is exact and stays an Int. */
  lemma CrossCancel(x: Int, y: Int, g: Int)
    requires x != 0 && g == MathGcd(Abs(x), Abs(y))
    ensures g > 0 && IntMin <= Quot(x, g) <= MaxInt && IntMin <= Quot(y, g) <= MaxInt
    ensures x == g * Quot(x, g) && y == g * Quot(y, g)
    ensures y > 0 ==> Quot(y, g) > 0
    ensures y == 0 ==> Quot(y, g) == 0
  {
    var ax: nat, ay: nat := Abs(x), Abs(y);
    CoprimeQuotients(ax, ay);
    DivideOut(x, g);
    DivideOut(y, g);
  }

  /** Cancelling the cross gcds keeps the product's value. */
  lemma ProductValue(f: Fraction, ff: Fraction, d1: int, d2: int)
    requires d1 > 0 && d2 > 0
    requires f.numerator == d1 * Quot(f.numerator, d1) && ff.denominator == d1 * Quot(ff.denominator, d1)
    requires ff.numerator == d2 * Quot(ff.numerator, d2) && f.denominator == d2 * Quot(f.denominator, d2)
    ensures f.denominator > 0 && ff.denominator > 0 ==> Quot(f.denominator, d2) * Quot(ff.denominator, d1) > 0
    ensures f.denominator > 0 && ff.denominator > 0 ==>
      ValueOf(Quot(f.numerator, d1) * Quot(ff.numerator, d2), Quot(f.denominator, d2) * Quot(ff.denominator, d1))
        == f.Value() * ff.Value()
  {
    if f.denominator <= 0 || ff.denominator <= 0 {
      return;
    }
    var q1, q2, q3, q4 := Quot(f.numerator, d1), Quot(ff.numerator, d2), Quot(f.denominator, d2), Quot(ff.denominator, d1);
    assert q3 > 0 && q4 > 0 by {
      MulSign(d2, q3);
      MulSign(d1, q4);
    }
    MulSign(q3, q4);
    CrossValue(q1, q2, q3, q4, d1, d2);
  }

  lemma CrossValue(q1: int, q2: int, q3: int, q4: int, d1: int, d2: int)
    requires q3 > 0 && q4 > 0 && d1 > 0 && d2 > 0
    ensures d2 * q3 != 0 && d1 * q4 != 0 && q3 * q4 != 0
    ensures ValueOf(d1 * q1, d2 * q3) * ValueOf(d2 * q2, d1 * q4) == ValueOf(q1 * q2, q3 * q4)
  {
    MulSign(d2, q3);
    MulSign(d1, q4);
    MulSign(q3, q4);
    var x1, x2, x3, x4, e1, e2 := q1 as real, q2 as real, q3 as real, q4 as real, d1 as real, d2 as real;
    assert ValueOf(d1 * q1, d2 * q3) == (e1 * x1) / (e2 * x3);
    assert ValueOf(d2 * q2, d1 * q4) == (e2 * x2) / (e1 * x4);
    assert ValueOf(q1 * q2, q3 * q4) == (x1 * x2) / (x3 * x4);
    RealCross(x1, x2, x3, x4, e1, e2);
  }

  lemma RealCross(x1: real, x2: real, x3: real, x4: real, e1: real, e2: real)
    requires x3 != 0.0 && x4 != 0.0 && e1 != 0.0 && e2 != 0.0
    ensures ((e1 * x1) / (e2 * x3)) * ((e2 * x2) / (e1 * x4)) == (x1 * x2) / (x3 * x4)
  {
    var a, b, c, d := e1 * x1, e2 * x3, e2 * x2, e1 * x4;
    var n, m, e := x1 * x2, x3 * x4, e1 * e2;
    assert b != 0.0 && d != 0.0 && m != 0.0 && e != 0.0;
    RealMulFrac(a, b, c, d);
    assert a * c == e * n by {
      MulSwap(e1, x1, e2, x2);
    }
    assert b * d == e * m by {
      MulSwap(e2, x3, e1, x4);
      assert e2 * e1 == e;
    }
    RealScale(n, m, e);
    calc {
      (a / b) * (c / d);
      (a * c) / (b * d);
      (e * n) / (e * m);
      n / m;
    }
  }

  /** The value of r is the product of the values of f and ff. */
  ghost predicate IsProduct(r: Fraction, f: Fraction, ff: Fraction)
    requires r.denominator != 0 && f.denominator != 0 && ff.denominator != 0
  {
    r.Value() == f.Value() * ff.Value()
  }

  /** The value of r is the inverse of the value of f. */
  ghost predicate IsInverse(r: Fraction, f: Fraction)
    requires r.denominator != 0 && f.denominator != 0 && f.numerator != 0
  {
    r.Value() == 1.0 / f.Value()
  }

  /** The value of r is the value of f divided by that of ff. */
  ghost predicate IsQuotient(r: Fraction, f: Fraction, ff: Fraction)
    requires r.denominator != 0 && f.denominator != 0 && ff.denominator != 0 && ff.numerator != 0
  {
    r.Value() == f.Value() / ff.Value()
  }

  /** The value of r is the value of f raised to an integer power. */
  ghost predicate IsPower(r: Fraction, f: Fraction, power: int)
    requires r.denominator != 0 && f.denominator != 0 && (power < 0 ==> f.numerator != 0)
  {
    r.Value() == if power >= 0 then RealPow(f.Value(), power) else RealPow(1.0 / f.Value(), -power)
  }

  /** Multiplying by the inverse divides. */
  lemma QuotientValue(f: Fraction, ff: Fraction, inv: Fraction, r: Result<Fraction, Failure>)
    requires ff.numerator != 0
    requires f.denominator > 0 && ff.denominator > 0 && inv.denominator > 0 ==> IsInverse(inv, ff)
    requires f.denominator > 0 && inv.denominator > 0 && r.Ok? ==> r.value.denominator != 0 && IsProduct(r.value, f, inv)
    ensures f.denominator > 0 && ff.denominator > 0 && inv.denominator > 0 && r.Ok? ==> IsQuotient(r.value, f, ff)
  {
    if f.denominator > 0 && ff.denominator > 0 && inv.denominator > 0 && r.Ok? {
      var x, y := f.Value(), ff.Value();
      DivMulCancel(ff.numerator as real, ff.denominator as real);
      DivMulCancel(x, y);
      DivMulCancel(1.0, y);
    }
  }

  /** `numerator / denominator` checks nothing else, but the quotient of -2^31 by -1 wraps. */
  lemma QuotFits(n: Int, d: Int)
    requires d != 0
    ensures !(n == IntMin && d == -1) ==> IntMin <= Quot(n, d) <= MaxInt
    ensures n == IntMin && d == -1 ==> Quot(n, d) == -IntMin
  {
    QuotSpec(n, d);
    if d == -1 {
      QuotExact(n, d, -(n as int));
    } else if n < 0 {
      assert Quot(n, d) * d >= n || Quot(n, d) >= n;
    }
  }

  /**
   * A fraction with a positive denominator, built from a validated pair:
   * a zero denominator is refused, and a negative one is moved to the
   * numerator unless either part equals MinInt.
   */
  function GetFraction(n: Int, d: Int): (r: Result<Fraction, Failure>)
    ensures r.Err? <==> d == 0 || (d < 0 && (n == MinInt || d == MinInt))
    ensures r.Err? ==> r.error == NilResult
    ensures r.Ok? && d != IntMin ==> r.value.denominator > 0
    ensures r.Ok? && d != IntMin && n != IntMin ==> r.value.Value() == ValueOf(n, d)
  {
    if d == 0 then Err(NilResult)
    else if d < 0 then
      if n == MinInt || d == MinInt then Err(NilResult)
      else
        NegateBoth(n, d);
        Ok(Fraction(Neg(n), Neg(d)))
    else Ok(Fraction(n, d))
  }

  /**
   * X Y/Z: the fraction whole + n/d (whole - n/d for a negative whole),
   * refused for a denominator that is not positive or a negative n. The
   * numerator whole*d +/- n is computed in int, where it wraps.
   */
  function GetWholeFraction(whole: Int, n: Int, d: Int): (r: Result<Fraction, Failure>)
    ensures r.Err? <==> d <= 0 || n < 0 || Wrap(WholeNumerator(whole, n, d)) < MinInt
    ensures r.Err? ==> r.error == NilResult
    ensures r.Ok? ==> r.value == Fraction(Wrap(WholeNumerator(whole, n, d)), d)
    ensures r.Ok? && MinInt <= WholeNumerator(whole, n, d) <= MaxInt ==>
      r.value.Value() == if whole < 0 then whole as real - ValueOf(n, d) else whole as real + ValueOf(n, d)
  {
    if d == 0 then Err(NilResult)
    else if d < 0 then Err(NilResult)
    else if n < 0 then Err(NilResult)
    else
      var value := if whole < 0 then Wrap(whole * d - n) else Wrap(whole * d + n);
      if value < MinInt || value > MaxInt then Err(NilResult)
      else
        WholeValue(whole, n, d);
        Ok(Fraction(value, d))
  }

  /** The exact numerator of X Y/Z over Z. */
  function WholeNumerator(whole: int, n: int, d: int): int {
    if whole < 0 then whole * d - n else whole * d + n
  }

  /**
   * A reduced fraction from a pair: nil for a zero denominator, Zero for a
   * zero numerator. A denominator equal to MinInt is halved first when the
   * numerator is even; a negative denominator is moved to the numerator
   * unless either part then equals MinInt; finally both are divided by
   * their gcd.
   */
  function GetReducedFraction(n: Int, d: Int): (r: Result<Fraction, Failure>)
    ensures d == 0 ==> r == Err(NilResult)
    ensures d != 0 && n == 0 ==> r == Ok(Zero)
    ensures r.Ok? ==> r.value.denominator != 0
    ensures r.Err? <==>
      (d == 0 || (n == IntMin && d == IntMin) ||
       (d < 0 && !(d == MinInt && n % 2 == 0) && (n == MinInt || d == MinInt)))
    ensures r.Err? && d != 0 ==> r.error == (if n == IntMin then OverflowPanic else NilResult)
    ensures r.Ok? && d != IntMin && !(n == IntMin && d < 0) ==>
      r.value.Lowest() && r.value.Value() == ValueOf(n, d)
  {
    if d == 0 then Err(NilResult)
    else if n == 0 then Ok(Zero)
    else
      if d == MinInt && n % 2 == 0 then
        HalveValue(n, d, true);
        QuotHalf(n);
        QuotHalf(d);
        ReduceSigned(Quot(n, 2), Quot(d, 2))
      else
        ReduceSigned(n, d)
  }

  /**
   * The rest of GetReducedFraction: a negative denominator moved to the
   * numerator unless either part equals MinInt, then both parts divided by
   * their gcd.
   */
  function ReduceSigned(n: Int, d: Int): (r: Result<Fraction, Failure>)
    requires n != 0 && d != 0
    ensures r.Ok? ==> r.value.denominator != 0
    ensures r.Err? <==> (d < 0 && (n == MinInt || d == MinInt)) || (n == IntMin && d == IntMin)
    ensures r.Err? ==> r.error == (if n == IntMin && d == IntMin then OverflowPanic else NilResult)
    ensures r.Ok? && d != IntMin && !(n == IntMin && d < 0) ==>
      r.value.Lowest() && r.value.Value() == ValueOf(n, d)
  {
    if d < 0 && (n == MinInt || d == MinInt) then Err(NilResult)
    else
      NegateBoth(n, d);
      if d < 0 then DivideByGcd(Neg(n), Neg(d)) else DivideByGcd(n, d)
  }

  /** The last step of GetReducedFraction: both parts divided by their gcd. */
  function DivideByGcd(n: Int, d: Int): (r: Result<Fraction, Failure>)
    requires n != 0 && d != 0
    ensures r.Err? <==> n == IntMin && d == IntMin
    ensures r.Err? ==> r.error == OverflowPanic
    ensures r.Ok? ==> r.value.denominator != 0 && r.value.Value() == ValueOf(n, d)
    ensures r.Ok? && d > 0 ==> r.value.Lowest()
  {
    var g :- Gcd(n, d);
    LowestByGcd(n, d, g);
    Ok(Fraction(Quot(n, g), Quot(d, g)))
  }

  /** Moving the sign of a negative denominator to the numerator keeps the value. */
  lemma NegateBoth(n: Int, d: Int)
    ensures d < 0 && d != IntMin ==> Neg(d) > 0
    ensures d < 0 && n != IntMin && d != IntMin ==> ValueOf(Neg(n), Neg(d)) == ValueOf(n, d)
  {
    if d < 0 && n != IntMin && d != IntMin {
      RealNegBoth(n as real, d as real);
    }
  }

  lemma RealNegBoth(x: real, y: real)
    requires y != 0.0
    ensures (-x) / (-y) == x / y
  {
    RealScale(x, y, -1.0);
  }

  lemma DivMulCancel(x: real, y: real)
    requires y != 0.0
    ensures (x / y) * y == x
  {
  }

  lemma RealDivAdd(w: real, x: real, y: real)
    requires y != 0.0
    ensures (w * y + x) / y == w + x / y
  {
    DivMulCancel(x, y);
    DivMulCancel(w * y + x, y);
    assert (w + x / y) * y == w * y + x;
  }

  lemma RealRecip(x: real, y: real)
    requires x != 0.0 && y != 0.0
    ensures y / x == 1.0 / (x / y)
  {
    DivMulCancel(x, y);
    DivMulCancel(y, x);
    DivMulCancel(1.0, x / y);
  }

  lemma RealScale(x: real, y: real, z: real)
    requires y != 0.0 && z != 0.0
    ensures (z * x) / (z * y) == x / y
  {
    DivMulCancel(x, y);
    DivMulCancel(z * x, z * y);
  }

  lemma RealMulFrac(a: real, b: real, c: real, d: real)
    requires b != 0.0 && d != 0.0
    ensures (a / b) * (c / d) == (a * c) / (b * d)
  {
    DivMulCancel(a, b);
    DivMulCancel(c, d);
    DivMulCancel(a * c, b * d);
  }

  lemma HalveValue(n: Int, d: Int, halve: bool)
    requires d != 0 && (halve ==> n % 2 == 0 && d % 2 == 0)
    ensures halve ==> Quot(d, 2) != 0 && ValueOf(Quot(n, 2), Quot(d, 2)) == ValueOf(n, d)
  {
    if halve {
      QuotHalf(n);
      QuotHalf(d);
      ScaleValue(Quot(n, 2), Quot(d, 2), 2);
    }
  }

  /** Multiplying numerator and denominator by the same non-zero factor keeps the value. */
  lemma ScaleValue(n: int, d: int, c: int)
    requires d != 0 && c != 0
    ensures c * d != 0 && ValueOf(c * n, c * d) == ValueOf(n, d)
  {
    var x, y, z := n as real, d as real, c as real;
    assert (c * n) as real == z * x && (c * d) as real == z * y;
    RealScale(x, y, z);
  }

  /** Dividing a pair with positive denominator by its gcd gives lowest terms and the same value. */
  lemma LowestByGcd(n: Int, d: Int, g: int)
    requires d != 0 && n != 0
    requires g == MathGcd(Abs(n), Abs(d))
    ensures g > 0 && IntMin <= Quot(n, g) <= MaxInt && IntMin <= Quot(d, g) <= MaxInt
    ensures d > 0 ==> Fraction(Quot(n, g), Quot(d, g)).Lowest()
    ensures Quot(d, g) != 0 && ValueOf(Quot(n, g), Quot(d, g)) == ValueOf(n, d)
  {
    var an: nat, ad: nat := Abs(n), Abs(d);
    CoprimeQuotients(an, ad);
    DivideOut(n, g);
    DivideOut(d, g);
    ScaleValue(Quot(n, g), Quot(d, g), g);
  }

  /** Dividing by a positive divisor: the quotient is exact and no larger in magnitude. */
  lemma DivideOut(x: Int, g: int)
    requires g > 0 && Abs(x) % g == 0
    ensures Abs(Quot(x, g)) == Abs(x) / g <= Abs(x)
    ensures IntMin <= Quot(x, g) <= MaxInt
    ensures x == g * Quot(x, g)
    ensures (Quot(x, g) < 0 <==> x < 0) && (Quot(x, g) == 0 <==> x == 0)
  {
    var a: nat := Abs(x);
    EuclidNat(a, g);
    var q := a / g;
    assert a == g * q;
    if x < 0 {
      assert Quot(x, g) == -q;
      assert x == g * -q;
    }
    if q == 0 {
      assert a == 0;
    }
  }

  /** Both parts divided by their gcd g > 1, the sign moved to the numerator. */
  function ReduceBy(n: Int, d: Int, g: Int): (r: Result<Fraction, Failure>)
    requires n != 0 && n != IntMin && g != 1
    requires g == MathGcd(Abs(n), Abs(d))
    ensures r.Ok? <==> d != 0
    ensures r.Ok? ==> r.value.Lowest() && r.value.numerator != IntMin && r.value.Value() == ValueOf(n, d)
    ensures r.Err? ==> r.error == NilResult && d == 0 && Abs(n) > 1
  {
    ReduceNormalizes(n, d, g);
    GetFraction(Quot(n, g), Quot(d, g))
  }

  /** Reduce divides by a gcd that is neither 0 nor 1: the quotients are exact and stay in range. */
  lemma ReduceNormalizes(n: Int, d: Int, g: Int)
    requires n != 0 && n != IntMin && g != 1
    requires g == MathGcd(Abs(n), Abs(d))
    ensures g > 1
    ensures IntMin < Quot(n, g) <= MaxInt && IntMin <= Quot(d, g) <= MaxInt
    ensures d != 0 ==> Quot(d, g) != 0 && ValueOf(Quot(n, g), Quot(d, g)) == ValueOf(n, d)
    ensures d != 0 ==> MathGcd(Abs(Quot(n, g)), Abs(Quot(d, g))) == 1
    ensures Quot(d, g) != MinInt && Quot(d, g) != IntMin && Quot(n, g) != MinInt
    ensures d == 0 ==> Quot(d, g) == 0
  {
    var an: nat, ad: nat := Abs(n), Abs(d);
    CoprimeQuotients(an, ad);
    DivideOut(n, g);
    DivideOut(d, g);
    HalfBound(an, g);
    HalfBound(ad, g);
    if d != 0 {
      ScaleValue(Quot(n, g), Quot(d, g), g);
    }
  }

  /** A quotient by at least two is at most half. */
  lemma HalfBound(a: nat, g: int)
    requires g >= 2
    ensures 2 * (a / g) <= a
  {
    EuclidNat(a, g);
    LeMul(a / g, g);
    MulMonotoneIn(a / g, 2, g);
  }

  lemma InvertValue(n: Int, d: Int)
    requires n != 0
    ensures d != 0 && n != IntMin && !(n < 0 && d == IntMin) ==>
      ValueOf(if n < 0 then Neg(d) else d, if n < 0 then Neg(n) else n) == 1.0 / ValueOf(n, d)
  {
    if d != 0 && n != IntMin && !(n < 0 && d == IntMin) {
      var x, y := n as real, d as real;
      RealRecip(x, y);
      if n < 0 {
        RealNegBoth(y, x);
      }
    }
  }

  lemma NegateValue(n: Int, d: Int)
    ensures n != IntMin && d != 0 ==> ValueOf(Neg(n), d) == -ValueOf(n, d)
  {
  }

  lemma SignOfValue(n: int, d: int)
    ensures d > 0 ==> (ValueOf(n, d) < 0.0 <==> n < 0)
  {
    if d > 0 {
      DivMulCancel(n as real, d as real);
    }
  }

  lemma WholeValue(whole: Int, n: Int, d: Int)
    requires d > 0
    ensures ValueOf(WholeNumerator(whole, n, d), d) ==
      if whole < 0 then whole as real - ValueOf(n, d) else whole as real + ValueOf(n, d)
  {
    var w, x, y := whole as real, n as real, d as real;
    assert (whole * d) as real == w * y;
    if whole < 0 {
      RealDivAdd(w, -x, y);
      assert (w * y - x) / y == w - x / y;
    } else {
      RealDivAdd(w, x, y);
    }
  }

  /** mulAndCheck: the exact product, or an overflow panic outside [MinInt, MaxInt]. */
  function MulAndCheck(x: Int, y: Int): (r: Result<Int, Failure>)
    ensures r.Ok? <==> MinInt <= x * y <= MaxInt
    ensures r.Ok? ==> r.value == x * y
    ensures r.Err? ==> r.error == OverflowPanic
  {
    var m := x * y;
    if m < MinInt || m > MaxInt then Err(OverflowPanic) else Ok(m)
  }

  /**
   * mulPosAndCheck: meant for non-negative factors, it only checks the upper
   * bound, so a negative product below -2^31 wraps when narrowed to int.
   */
  function MulPosAndCheck(x: Int, y: Int): (r: Result<Int, Failure>)
    ensures r.Ok? <==> x * y <= MaxInt
    ensures r.Ok? && x >= 0 && y >= 0 ==> r.value == x * y
    ensures r.Ok? ==> r.value == Wrap(x * y)
    ensures r.Err? ==> r.error == OverflowPanic
  {
    var m := x * y;
    if m > MaxInt then Err(OverflowPanic) else Ok(Wrap(m))
  }

  /** addAndCheck: the exact sum, or an overflow panic outside [MinInt, MaxInt]. */
  function AddAndCheck(x: Int, y: Int): (r: Result<Int, Failure>)
    ensures r.Ok? <==> MinInt <= x + y <= MaxInt
    ensures r.Ok? ==> r.value == x + y
    ensures r.Err? ==> r.error == OverflowPanic
  {
    var s := x + y;
    if s < MinInt || s > MaxInt then Err(OverflowPanic) else Ok(s)
  }

  /** subAndCheck: the exact difference, or an overflow panic outside [MinInt, MaxInt]. */
  function SubAndCheck(x: Int, y: Int): (r: Result<Int, Failure>)
    ensures r.Ok? <==> MinInt <= x - y <= MaxInt
    ensures r.Ok? ==> r.value == x - y
    ensures r.Err? ==> r.error == OverflowPanic
  {
    var s := x - y;
    if s < MinInt || s > MaxInt then Err(OverflowPanic) else Ok(s)
  }

  /** Zero, the fraction itself, and a reduced fraction all reduce to themselves. */
  lemma ReduceIdempotent(f: Fraction)
    requires f.numerator != IntMin
    ensures f.Reduce().Ok? ==> f.Reduce().value.Reduce() == f.Reduce()
  {
  }

  /** 2/4 reduces to 1/2. */
  lemma TwoQuartersReduceToOneHalf()
    ensures TwoQuarters.Reduce() == Ok(OneHalf)
  {
    assert MathGcd(2, 4) == 2;
    QuotExact(2, 2, 1);
    QuotExact(4, 2, 2);
  }

  /** The library's constant fractions have the values their names say; all but TwoQuarters are in lowest terms. */
  lemma LibraryConstants()
    ensures Zero.Value() == 0.0 && One.Value() == 1.0
    ensures OneHalf.Value() == 0.5 && OneThird.Value() == 1.0 / 3.0 && TwoThirds.Value() == 2.0 / 3.0
    ensures OneQuarter.Value() == 0.25 && TwoQuarters.Value() == 0.5 && ThreeQuarters.Value() == 0.75
    ensures OneFifth.Value() == 0.2 && TwoFifths.Value() == 0.4
    ensures ThreeFifths.Value() == 0.6 && FourFifths.Value() == 0.8
    ensures Zero.Lowest() && One.Lowest() && OneHalf.Lowest() && OneThird.Lowest() && TwoThirds.Lowest()
    ensures OneQuarter.Lowest() && ThreeQuarters.Lowest()
    ensures OneFifth.Lowest() && TwoFifths.Lowest() && ThreeFifths.Lowest() && FourFifths.Lowest()
    ensures !TwoQuarters.Lowest()
  {
    assert MathGcd(2, 4) == 2;
  }

  /** Squaring n/0 divides both numerators by |n| and both zero denominators to 0: GetReducedFraction(1, 0) is nil. */
  lemma SquareOverZero(f: Fraction)
    requires f.denominator == 0 && f.numerator != 0 && f.numerator != MinInt && f.numerator != IntMin
    ensures f.MultiplyBy(f) == Err(NilResult)
  {
    var n := f.numerator;
    var g := GoInt.Abs(n);
    assert Gcd(n, 0) == Ok(g);
    QuotExact(n, g, if n > 0 then 1 else -1);
    assert MulAndCheck(Quot(n, g), Quot(n, g)) == Ok(1);
    assert MulPosAndCheck(Quot(0, g), Quot(0, g)) == Ok(0);
  }

  /**
   * A power of at least two of n/0: the square is nil, so Pow(2) returns nil
   * and every higher power calls a method on that nil and panics.
   */
  lemma PowOverZero(f: Fraction, power: Int)
    requires f.denominator == 0 && f.numerator != 0 && f.numerator != MinInt && f.numerator != IntMin
    requires power >= 2
    ensures f.Pow(power) == if power == 2 then Err(NilResult) else Err(NilReceiverPanic)
  {
    SquareOverZero(f);
    QuotHalf(power - power % 2);
  }

  /** NewFraction(3, 0) raised to the powers 1, 0, -1, 2, 3 and 4. */
  lemma PowOverZeroExamples()
    ensures Fraction(3, 0).Pow(1) == Ok(Fraction(3, 0))
    ensures Fraction(3, 0).Pow(0) == Ok(One)
    ensures Fraction(3, 0).Pow(-1) == Ok(Fraction(0, 3))
    ensures Fraction(3, 0).Pow(2) == Err(NilResult)
    ensures Fraction(3, 0).Pow(3) == Err(NilReceiverPanic)
    ensures Fraction(3, 0).Pow(4) == Err(NilReceiverPanic)
  {
    var f := Fraction(3, 0);
    assert f.Invert() == Ok(Fraction(0, 3));
    assert Neg(-1) == 1;
    PowOverZero(f, 2);
    PowOverZero(f, 3);
    PowOverZero(f, 4);
  }

  /**
   * Inverting twice gives back the very same pair exactly when neither
   * inversion is refused.
   */
  lemma InvertInvert(f: Fraction)
    requires f.denominator > 0
    ensures (f.Invert().Ok? && f.Invert().value.Invert() == Ok(f)) <==>
      (f.numerator != 0 && f.numerator != MinInt && !(f.numerator < 0 && f.denominator == -MinInt))
  {
    NegNeg(f.numerator);
    NegNeg(f.denominator);
  }

  /** Negating twice gives back the same pair exactly when neither negation is refused. */
  lemma NegateNegate(f: Fraction)
    ensures (f.Negate().Ok? && f.Negate().value.Negate() == Ok(f)) <==>
      (f.numerator != MinInt && f.numerator != -MinInt)
  {
    NegNeg(f.numerator);
  }

  /** Taking the absolute value twice changes nothing more. */
  lemma AbsIdempotent(f: Fraction)
    ensures f.Abs().Ok? ==> f.Abs().value.Abs() == f.Abs()
  {
  }

  /**
   * The whole part and the proper numerator resolve a fraction into a mixed
   * number: numerator == whole * denominator +/- proper, the sign being the
   * numerator's, with 0 <= proper < |denominator|.
   */
  lemma MixedNumber(f: Fraction)
    requires f.denominator != 0 && !(f.numerator == IntMin && f.denominator == -1)
    ensures f.GetProperWhole().Ok? && f.GetProperNumerator().Ok?
    ensures var w, p := f.GetProperWhole().value, f.GetProperNumerator().value;
      0 <= p < Abs(f.denominator) &&
      f.numerator == w * f.denominator + (if f.numerator < 0 then -p else p)
  {
    var q, r := Quot(f.numerator, f.denominator), Rem(f.numerator, f.denominator);
    assert f.numerator == f.denominator * q + r;
  }

  /** The two examples of the documentation: 7/4 is 1 3/4, and -7/4 is -1 3/4. */
  lemma MixedNumberExamples()
    ensures Fraction(7, 4).GetProperWhole() == Ok(1) && Fraction(7, 4).GetProperNumerator() == Ok(3)
    ensures Fraction(-7, 4).GetProperWhole() == Ok(-1) && Fraction(-7, 4).GetProperNumerator() == Ok(3)
  {
  }

  /** The value of r is the sum (isAdd) or the difference of the values of f and ff. */
  ghost predicate IsSum(r: Fraction, f: Fraction, ff: Fraction, isAdd: bool)
    requires r.denominator != 0 && f.denominator != 0 && ff.denominator != 0
  {
    r.Value() == if isAdd then f.Value() + ff.Value() else f.Value() - ff.Value()
  }

  /**
   * What addSub computes for f + ff (isAdd) or f - ff. Zero is the identity;
   * coprime denominators give the unreduced (u*v' +/- u'*v) / (v*v');
   * otherwise the branch WideSumOrDifference, whose numerator depends only
   * on the exact cross sum modulo d1 = gcd(v, v').
   */
  function SumOrDifference(f: Fraction, ff: Fraction, isAdd: bool): (r: Result<Fraction, Failure>)
    requires f.denominator == 0 || ff.denominator == 0 ==> f.denominator != IntMin && ff.denominator != IntMin
    ensures f.numerator == 0 ==> r == if isAdd then Ok(ff) else ff.Negate()
    ensures f.numerator != 0 && ff.numerator == 0 ==> r == Ok(f)
    ensures f.numerator != 0 && ff.numerator != 0 && MathGcd(Abs(f.denominator), Abs(ff.denominator)) == 1 ==>
      r == CoprimeSumOrDifference(f, ff, isAdd)
    ensures f.numerator != 0 && ff.numerator != 0 && MathGcd(Abs(f.denominator), Abs(ff.denominator)) != 1 && r.Ok? ==>
      0 <= r.value.numerator < MathGcd(Abs(f.denominator), Abs(ff.denominator))
    ensures f.numerator != 0 && ff.numerator != 0 && Gcd(f.denominator, ff.denominator).Err? ==> r == Err(OverflowPanic)
    ensures var g := Gcd(f.denominator, ff.denominator);
      f.numerator != 0 && ff.numerator != 0 && g.Ok? && g.value != 1 ==> r == WideSumOrDifference(f, ff, isAdd, g.value)
  {
    if f.numerator == 0 then (if isAdd then Ok(ff) else ff.Negate())
    else if ff.numerator == 0 then Ok(f)
    else
      var d1 :- Gcd(f.denominator, ff.denominator);
      if d1 == 1 then CoprimeSumOrDifference(f, ff, isAdd)
      else WideSumOrDifference(f, ff, isAdd, d1)
  }

  /** The branch for coprime denominators: checked products and sum, not reduced. */
  function CoprimeSumOrDifference(f: Fraction, ff: Fraction, isAdd: bool): (r: Result<Fraction, Failure>)
    ensures r.Ok? <==>
      (MinInt <= f.numerator * ff.denominator <= MaxInt && MinInt <= ff.numerator * f.denominator <= MaxInt &&
       MinInt <= CrossSum(f, ff, isAdd) <= MaxInt && f.denominator * ff.denominator <= MaxInt)
    ensures r.Err? ==> r.error == OverflowPanic
    ensures r.Ok? ==> r.value.numerator == CrossSum(f, ff, isAdd) && r.value.denominator == Wrap(f.denominator * ff.denominator)
    ensures r.Ok? && f.denominator > 0 && ff.denominator > 0 ==>
      r.value.denominator > 0 && IsSum(r.value, f, ff, isAdd)
  {
    var n :- CheckedCrossSum(f, ff, isAdd);
    var d :- MulPosAndCheck(f.denominator, ff.denominator);
    CoprimeSumValue(f, ff, isAdd, Fraction(n, d));
    Ok(Fraction(n, d))
  }

  /** (u*v' +/- u'*v) / (v*v') has the value of the sum or difference. */
  lemma CoprimeSumValue(f: Fraction, ff: Fraction, isAdd: bool, r: Fraction)
    ensures (f.denominator > 0 && ff.denominator > 0 && r.numerator == CrossSum(f, ff, isAdd) &&
             r.denominator == f.denominator * ff.denominator) ==>
      r.denominator > 0 && IsSum(r, f, ff, isAdd)
  {
    if f.denominator > 0 && ff.denominator > 0 && r.numerator == CrossSum(f, ff, isAdd) &&
      r.denominator == f.denominator * ff.denominator {
      MulSign(f.denominator, ff.denominator);
      CrossSumValue(f, ff, isAdd);
    }
  }

  /** The numerator of the coprime branch, u*v' +/- u'*v, computed with the checked primitives. */
  function CheckedCrossSum(f: Fraction, ff: Fraction, isAdd: bool): (r: Result<Int, Failure>)
    ensures r.Ok? <==>
      (MinInt <= f.numerator * ff.denominator <= MaxInt && MinInt <= ff.numerator * f.denominator <= MaxInt &&
       MinInt <= CrossSum(f, ff, isAdd) <= MaxInt)
    ensures r.Err? ==> r.error == OverflowPanic
    ensures r.Ok? ==> r.value == CrossSum(f, ff, isAdd)
  {
    var uvp :- MulAndCheck(f.numerator, ff.denominator);
    var upv :- MulAndCheck(ff.numerator, f.denominator);
    if isAdd then AddAndCheck(uvp, upv) else SubAndCheck(uvp, upv)
  }

  /** u*v' +/- u'*v, the numerator of the sum over the product of the denominators. */
  function CrossSum(f: Fraction, ff: Fraction, isAdd: bool): int {
    if isAdd then f.numerator * ff.denominator + ff.numerator * f.denominator
    else f.numerator * ff.denominator - ff.numerator * f.denominator
  }

  /**
   * The branch for denominators sharing a factor d1 > 1, as written: the
   * full cross sum t is reduced modulo d1 in place, d2 = gcd(t mod d1, d1),
   * and (t mod d1) / d2 becomes the numerator.
   */
  function WideSumOrDifference(f: Fraction, ff: Fraction, isAdd: bool, d1: Int): (r: Result<Fraction, Failure>)
    requires d1 == MathGcd(Abs(f.denominator), Abs(ff.denominator)) && d1 != 1
    ensures d1 == 0 ==> r == Err(DivideByZeroPanic)
    ensures r.Err? && d1 != 0 ==> r.error == OverflowPanic
    ensures r.Ok? ==> 0 <= r.value.numerator < d1
    ensures r.Ok? ==> (r.value.numerator == 0 <==> CrossSum(f, ff, isAdd) % d1 == 0)
    ensures d1 != 0 ==>
      var d2 := SecondGcd(CrossSum(f, ff, isAdd), d1);
      (r.Ok? <==> Quot(f.denominator, d1) * Quot(ff.denominator, d2) <= MaxInt) &&
      (r.Ok? ==> r.value.denominator == Wrap(Quot(f.denominator, d1) * Quot(ff.denominator, d2)))
  {
    if d1 == 0 then Err(DivideByZeroPanic)
    else
      var t := CrossSum(f, ff, isAdd) % d1;
      var d2 := if t == 0 then d1 else Gcd(t, d1).value;
      WideQuotient(CrossSum(f, ff, isAdd), f.denominator, ff.denominator, d1, t, d2);
      var w := t / d2;
      if Abs(w) > MaxInt then Err(OverflowPanic)
      else
        var den :- MulPosAndCheck(Quot(f.denominator, d1), Quot(ff.denominator, d2));
        Ok(Fraction(w, den))
  }

  /** Knuth's d2 for a numerator t and a common factor d1: gcd(t mod d1, d1), which is d1 when d1 divides t. */
  function SecondGcd(t: int, d1: nat): (d2: nat)
    requires d1 > 0
    ensures 0 < d2 <= d1
  {
    GcdPositive(t % d1, d1);
    GcdBounded(t % d1, d1);
    if t % d1 == 0 then d1 else MathGcd(t % d1, d1)
  }

  /** The facts the as-written wide branch needs: exact quotients, and a numerator in [0, d1). */
  lemma WideQuotient(s: int, v: Int, v': Int, d1: Int, t: int, d2: int)
    requires d1 > 1 && d1 == MathGcd(Abs(v), Abs(v')) && t == s % d1
    requires d2 == if t == 0 then d1 else MathGcd(t, d1)
    ensures d2 > 0 && 0 <= t / d2 < d1 && (t / d2 == 0 <==> t == 0)
    ensures v == d1 * Quot(v, d1) && IntMin <= Quot(v, d1) <= MaxInt
    ensures v' == d2 * Quot(v', d2) && IntMin <= Quot(v', d2) <= MaxInt
  {
    CommonFactor(v, v', d1);
    KnuthDivides(s, d1, t, d2, v');
    DivideOut(v', d2);
    if t != 0 {
      GcdBounded(t, d1);
    }
    SmallQuotient(t, d2, d1);
  }

  /** A remainder below d1 divided by a divisor no larger than it stays below d1, and is 0 only for 0. */
  lemma SmallQuotient(t: int, d2: int, d1: int)
    requires 0 <= t < d1 && d2 > 0 && (t != 0 ==> d2 <= t)
    ensures 0 <= t / d2 < d1 && (t / d2 == 0 <==> t == 0)
  {
    EuclidNat(t, d2);
  }

  /** The gcd of two denominators divides both exactly. */
  lemma CommonFactor(v: Int, v': Int, d1: int)
    requires d1 > 0 && d1 == MathGcd(Abs(v), Abs(v'))
    ensures v == d1 * Quot(v, d1) && IntMin <= Quot(v, d1) <= MaxInt
    ensures v' == d1 * Quot(v', d1) && IntMin <= Quot(v', d1) <= MaxInt
    ensures Divides(d1, v')
  {
    var a: nat, b: nat := Abs(v), Abs(v');
    GcdDividesBoth(a, b);
    ExactQuotient(a, d1);
    ExactQuotient(b, d1);
    DivideOut(v, d1);
    DivideOut(v', d1);
    DividesIntro(d1, v', Quot(v', d1));
  }

  lemma CrossSumValue(f: Fraction, ff: Fraction, isAdd: bool)
    ensures f.denominator > 0 && ff.denominator > 0 ==>
      ValueOf(CrossSum(f, ff, isAdd), f.denominator * ff.denominator) ==
        if isAdd then f.Value() + ff.Value() else f.Value() - ff.Value()
  {
    if f.denominator > 0 && ff.denominator > 0 {
      var x, p, y, q := f.numerator as real, f.denominator as real, ff.numerator as real, ff.denominator as real;
      assert (f.numerator * ff.denominator) as real == x * q;
      assert (ff.numerator * f.denominator) as real == y * p;
      assert (f.denominator * ff.denominator) as real == p * q;
      RealAddFrac(x, p, y, q, isAdd);
    }
  }

  /** Fractions with different denominators, put over the product of the denominators. */
  lemma RealAddFrac(x: real, p: real, y: real, q: real, isAdd: bool)
    requires p != 0.0 && q != 0.0
    ensures (if isAdd then x / p + y / q else x / p - y / q) ==
      (if isAdd then x * q + y * p else x * q - y * p) / (p * q)
  {
    RealScale(x, p, q);
    RealScale(y, q, p);
    assert q * x == x * q && q * p == p * q && p * y == y * p;
    DivMulCancel(x * q, p * q);
    DivMulCancel(y * p, p * q);
    DivMulCancel(x * q + y * p, p * q);
    DivMulCancel(x * q - y * p, p * q);
  }

  /** A big.Int, whose arithmetic methods overwrite their receiver and return it. */
  class BigInt {
    var value: int

    constructor (x: int)
      ensures value == x
    {
      value := x;
    }

    /** z.Mul(x, y): z = x * y, returning z. */
    method Mul(x: BigInt, y: BigInt) returns (z: BigInt)
      modifies this
      ensures z == this && value == old(x.value) * old(y.value)
    {
      value := x.value * y.value;
      z := this;
    }

    method Add(x: BigInt, y: BigInt) returns (z: BigInt)
      modifies this
      ensures z == this && value == old(x.value) + old(y.value)
    {
      value := x.value + y.value;
      z := this;
    }

    method Sub(x: BigInt, y: BigInt) returns (z: BigInt)
      modifies this
      ensures z == this && value == old(x.value) - old(y.value)
    {
      value := x.value - y.value;
      z := this;
    }

    /** z.Mod(x, y): the Euclidean modulus, never negative. */
    method Mod(x: BigInt, y: BigInt) returns (z: BigInt)
      requires y.value != 0
      modifies this
      ensures z == this && value == old(x.value) % old(y.value)
    {
      value := x.value % y.value;
      z := this;
    }

    /** z.Div(x, y): the Euclidean quotient. */
    method Div(x: BigInt, y: BigInt) returns (z: BigInt)
      requires y.value != 0
      modifies this
      ensures z == this && value == old(x.value) / old(y.value)
    {
      value := x.value / y.value;
      z := this;
    }
  }

  /**
   * addSub step by step, the wide branch on big.Int receivers that each
   * operation overwrites: the result is exactly SumOrDifference.
   */
  method AddSub(f: Fraction, ff: Fraction, isAdd: bool) returns (r: Result<Fraction, Failure>)
    requires f.denominator == 0 || ff.denominator == 0 ==> f.denominator != IntMin && ff.denominator != IntMin
    ensures r == SumOrDifference(f, ff, isAdd)
  {
    if f.numerator == 0 {
      if isAdd {
        return Ok(ff);
      }
      return ff.Negate();
    }
    if ff.numerator == 0 {
      return Ok(f);
    }
    var g := GreatestCommonDivisor(f.denominator, ff.denominator);
    if g.Err? {
      return Err(g.error);
    }
    var d1 := g.value;
    if d1 == 1 {
      return CoprimeSumOrDifference(f, ff, isAdd);
    }
    r := AddSubWide(f, ff, isAdd, d1);
  }

  /** The 65-bit cross sum t = u*v' +/- u'*v of addSub, on fresh big.Int receivers. */
  method BigCrossSum(f: Fraction, ff: Fraction, isAdd: bool) returns (t: BigInt)
    ensures fresh(t) && t.value == CrossSum(f, ff, isAdd)
  {
    var uvpn := new BigInt(f.numerator);
    var uvpd := new BigInt(ff.denominator);
    var uvp := uvpn.Mul(uvpn, uvpd);
    var upvn := new BigInt(ff.numerator);
    var upvd := new BigInt(f.denominator);
    var upv := upvn.Mul(upvn, upvd);
    if isAdd {
      t := uvp.Add(uvp, upv);
    } else {
      t := uvp.Sub(uvp, upv);
    }
  }

  /** The wide branch of addSub on big.Int receivers; t ends up holding t mod d1. */
  method AddSubWide(f: Fraction, ff: Fraction, isAdd: bool, d1: Int) returns (r: Result<Fraction, Failure>)
    requires d1 == MathGcd(Abs(f.denominator), Abs(ff.denominator)) && d1 != 1
    ensures r == WideSumOrDifference(f, ff, isAdd, d1)
  {
    var t := BigCrossSum(f, ff, isAdd);
    if d1 == 0 {
      return Err(DivideByZeroPanic);
    }
    var d1t := new BigInt(d1);
    var m := t.Mod(t, d1t);
    var tmodd1 := m.value;
    var d2: int;
    if tmodd1 == 0 {
      d2 := d1;
    } else {
      var g := GreatestCommonDivisor(tmodd1, d1);
      d2 := g.value;
    }
    WideQuotient(CrossSum(f, ff, isAdd), f.denominator, ff.denominator, d1, tmodd1, d2);
    var d2t := new BigInt(d2);
    var w := t.Div(t, d2t);
    if Abs(w.value) > MaxInt {
      return Err(OverflowPanic);
    }
    var den := MulPosAndCheck(Quot(f.denominator, d1), Quot(ff.denominator, d2));
    if den.Err? {
      return Err(den.error);
    }
    return Ok(Fraction(w.value, den.value));
  }

  /**
   * addSub as Knuth 4.5.1 describes it, which the comments of the source
   * announce: t = u*(v'/d1) +/- u'*(v/d1), then d2 = gcd(t mod d1, d1), and
   * the result (t/d2) / ((v/d1)*(v'/d2)).
   */
  function AddSubIntended(f: Fraction, ff: Fraction, isAdd: bool): (r: Result<Fraction, Failure>)
    requires f.denominator == 0 || ff.denominator == 0 ==> f.denominator != IntMin && ff.denominator != IntMin
    ensures f.numerator == 0 ==> r == if isAdd then Ok(ff) else ff.Negate()
    ensures f.numerator != 0 && ff.numerator == 0 ==> r == Ok(f)
    ensures f.denominator > 0 && ff.denominator > 0 && f.numerator != 0 ==>
      (r.Err? ==> r.error == OverflowPanic) &&
      (r.Ok? ==> r.value.denominator > 0 && IsSum(r.value, f, ff, isAdd))
    ensures f.numerator != 0 && ff.numerator != 0 && Gcd(f.denominator, ff.denominator).Err? ==> r == Err(OverflowPanic)
    ensures f.numerator != 0 && ff.numerator != 0 && Gcd(f.denominator, ff.denominator) == Ok(1) ==>
      r == CoprimeSumOrDifference(f, ff, isAdd)
    ensures var g := Gcd(f.denominator, ff.denominator);
      f.numerator != 0 && ff.numerator != 0 && g.Ok? && g.value != 1 ==> r == KnuthSumOrDifference(f, ff, isAdd, g.value)
  {
    if f.numerator == 0 then (if isAdd then Ok(ff) else ff.Negate())
    else if ff.numerator == 0 then
      ZeroSum(f, ff, isAdd);
      Ok(f)
    else
      var d1 :- Gcd(f.denominator, ff.denominator);
      if d1 == 1 then CoprimeSumOrDifference(f, ff, isAdd)
      else KnuthSumOrDifference(f, ff, isAdd, d1)
  }

  lemma ZeroSum(f: Fraction, ff: Fraction, isAdd: bool)
    requires ff.numerator == 0
    ensures f.denominator != 0 && ff.denominator != 0 ==> IsSum(f, f, ff, isAdd)
  {
    if f.denominator != 0 && ff.denominator != 0 {
      DivMulCancel(0.0, ff.denominator as real);
    }
  }

  /** The corrected branch for denominators sharing a factor d1 > 1. */
  function KnuthSumOrDifference(f: Fraction, ff: Fraction, isAdd: bool, d1: Int): (r: Result<Fraction, Failure>)
    requires d1 == MathGcd(Abs(f.denominator), Abs(ff.denominator)) && d1 != 1
    ensures d1 == 0 ==> r == Err(DivideByZeroPanic)
    ensures r.Err? && d1 != 0 ==> r.error == OverflowPanic
    ensures r.Ok? && f.denominator > 0 && ff.denominator > 0 ==>
      r.value.denominator > 0 && IsSum(r.value, f, ff, isAdd)
    ensures d1 != 0 ==>
      var t := KnuthCrossSum(f, ff, isAdd, d1);
      var d2 := SecondGcd(t, d1);
      (r.Ok? <==> Abs(t / d2) <= MaxInt && Quot(f.denominator, d1) * Quot(ff.denominator, d2) <= MaxInt) &&
      (r.Ok? ==> r.value.numerator == t / d2 &&
                 r.value.denominator == Wrap(Quot(f.denominator, d1) * Quot(ff.denominator, d2)))
  {
    if d1 == 0 then Err(DivideByZeroPanic)
    else
      CommonFactor(f.denominator, ff.denominator, d1);
      var a, b := Quot(f.denominator, d1), Quot(ff.denominator, d1);
      var t := KnuthCrossSum(f, ff, isAdd, d1);
      var tm := t % d1;
      var d2 := if tm == 0 then d1 else Gcd(tm, d1).value;
      KnuthDivides(t, d1, tm, d2, ff.denominator);
      DivideOut(ff.denominator, d2);
      var w := t / d2;
      if Abs(w) > MaxInt then Err(OverflowPanic)
      else
        var c := Quot(ff.denominator, d2);
        var den :- MulPosAndCheck(a, c);
        KnuthValue(f, ff, isAdd, d1, d2, a, b, c, t, w);
        Ok(Fraction(w, den))
  }

  /** Knuth's numerator t = u*(v'/d1) +/- u'*(v/d1). */
  function KnuthCrossSum(f: Fraction, ff: Fraction, isAdd: bool, d1: int): int
    requires d1 != 0
  {
    var a, b := Quot(f.denominator, d1), Quot(ff.denominator, d1);
    if isAdd then f.numerator * b + ff.numerator * a else f.numerator * b - ff.numerator * a
  }

  /** d2 = gcd(t mod d1, d1) divides t, and divides v' because it divides d1. */
  lemma KnuthDivides(t: int, d1: int, tm: int, d2: int, v: Int)
    requires d1 > 1 && tm == t % d1 && Divides(d1, v)
    requires d2 == if tm == 0 then d1 else MathGcd(tm, d1)
    ensures d2 > 0 && t == d2 * (t / d2)
    ensures Abs(v) % d2 == 0
  {
    GcdPositive(tm, d1);
    GcdDividesBoth(tm, d1);
    assert Divides(d2, d1) && Divides(d2, tm) by {
      if tm == 0 {
        DividesIntro(d1, d1, 1);
        DividesIntro(d1, tm, 0);
      }
    }
    EuclidInt(t, d1);
    DividesLinear(d2, d1, tm, t / d1, 1);
    var k :| t == d2 * k;
    ModUnique(t, d2, k, 0);
    DividesTrans(d2, d1, v);
    var j :| v == d2 * j;
    AbsMul(d2, j);
    ModUnique(Abs(v), d2, Abs(j), 0);
  }

  lemma EuclidInt(a: int, b: int)
    requires b > 0
    ensures a == b * (a / b) + a % b
  {
  }

  lemma MulLeft(x: int, y: int, z: int)
    ensures x * (y * z) == y * (x * z) && (y * z) * x == y * (x * z)
  {
  }

  lemma MulDistrib(d: int, x: int, y: int)
    ensures d * x + d * y == d * (x + y) && d * x - d * y == d * (x - y)
  {
  }

  /** Knuth's reduced numerator and denominator have the value of the sum. */
  lemma KnuthValue(f: Fraction, ff: Fraction, isAdd: bool, d1: int, d2: int, a: int, b: int, c: int, t: int, w: int)
    requires d1 > 0 && d2 > 0
    requires f.denominator == d1 * a && ff.denominator == d1 * b && ff.denominator == d2 * c
    requires t == (if isAdd then f.numerator * b + ff.numerator * a else f.numerator * b - ff.numerator * a)
    requires t == d2 * w
    ensures f.denominator > 0 && ff.denominator > 0 ==>
      a * c > 0 && ValueOf(w, a * c) == if isAdd then f.Value() + ff.Value() else f.Value() - ff.Value()
  {
    if f.denominator > 0 && ff.denominator > 0 {
      var u, u', v, v' := f.numerator, ff.numerator, f.denominator, ff.denominator;
      MulNonPositive(d1, a);
      MulNonPositive(d2, c);
      MulSign(a, c);
      MulSign(a, v');
      CrossSumValue(f, ff, isAdd);
      MulLeft(u, d1, b);
      MulLeft(u', d1, a);
      MulDistrib(d1, u * b, u' * a);
      assert CrossSum(f, ff, isAdd) == d1 * t;
      MulLeft(v', d1, a);
      ScaleValue(t, a * v', d1);
      MulLeft(a, d2, c);
      ScaleValue(w, a * c, d2);
    }
  }

  // Discrepancies between the code as written and its evident intent, each
  // with an input that shows it and the corrected definition.

  /** GetFraction guards with MinInt, so 1 / -2^31 keeps a negative denominator and flips the sign. */
  lemma GetFractionMinIntGuard()
    ensures GetFraction(1, IntMin) == Ok(Fraction(-1, IntMin))
    ensures Fraction(-1, IntMin).Value() > 0.0 > ValueOf(1, IntMin)
    ensures GetFractionIntended(1, IntMin) == Err(NilResult)
  {
  }

  /** GetFraction with the true minimum in its guard: every result has a positive denominator and the value n/d. */
  function GetFractionIntended(n: Int, d: Int): (r: Result<Fraction, Failure>)
    ensures r.Err? <==> d == 0 || (d < 0 && (n == IntMin || d == IntMin))
    ensures r.Err? ==> r.error == NilResult
    ensures r.Ok? ==> r.value.denominator > 0 && r.value.Value() == ValueOf(n, d)
  {
    if d == 0 then Err(NilResult)
    else if d < 0 then
      if n == IntMin || d == IntMin then Err(NilResult)
      else
        NegateBoth(n, d);
        Ok(Fraction(Neg(n), Neg(d)))
    else Ok(Fraction(n, d))
  }

  /** Reduce only builds fractions from parts other than MinInt and -2^31, where both versions agree. */
  lemma GetFractionAgrees(n: Int, d: Int)
    requires n != MinInt && n != IntMin && d != MinInt && d != IntMin
    ensures GetFraction(n, d) == GetFractionIntended(n, d)
  {
  }

  /** GetReducedFraction does not halve -2^31, so 2 / -2^31 keeps a negative denominator and flips the sign. */
  lemma GetReducedFractionMinIntGuard()
    ensures GetReducedFraction(2, IntMin) == Ok(Fraction(-1, -0x4000_0000))
    ensures Fraction(-1, -0x4000_0000).Value() > 0.0 > ValueOf(2, IntMin)
    ensures GetReducedFractionIntended(2, IntMin) == Ok(Fraction(-1, 0x4000_0000))
  {
    assert MathGcd(2, 0x8000_0000) == 2 by {
      GcdOfDivisor(2, 0x8000_0000, 0x4000_0000);
    }
    QuotExact(-2, 2, -1);
    QuotExact(IntMin, 2, -0x4000_0000);
    QuotHalf(IntMin);
    QuotExact(2, 2, 1);
    QuotExact(0x4000_0000 * 2, 2, 0x4000_0000);
    QuotExact(-0x4000_0000, 1, -0x4000_0000);
    QuotExact(-1, 1, -1);
    assert GetReducedFractionIntended(2, IntMin) == ReduceSignedIntended(1, -0x4000_0000);
    assert MathGcd(1, 0x4000_0000) == 1 by {
      GcdOne(0x4000_0000);
    }
    QuotExact(1, 1, 1);
    QuotExact(0x4000_0000, 1, 0x4000_0000);
  }

  /** A divisor of b is the gcd of itself and b. */
  lemma GcdOfDivisor(a: nat, b: nat, k: nat)
    requires b == a * k
    ensures MathGcd(a, b) == a
  {
    DividesIntro(a, a, 1);
    DividesIntro(a, b, k);
    forall c: nat | Divides(c, a) && Divides(c, b)
      ensures Divides(c, a)
    {
    }
    GcdUnique(a, b, a);
  }

  /**
   * GetReducedFraction with the true minimum in the halving step and the
   * sign guard: every result is in lowest terms and has the value n/d.
   */
  function GetReducedFractionIntended(n: Int, d: Int): (r: Result<Fraction, Failure>)
    ensures d == 0 ==> r == Err(NilResult)
    ensures d != 0 && n == 0 ==> r == Ok(Zero)
    ensures r.Err? <==>
      (d == 0 || (d < 0 && ((n == IntMin && d != IntMin) || (d == IntMin && n % 2 == 1))))
    ensures r.Err? ==> r.error == NilResult
    ensures r.Ok? ==> r.value.Lowest() && r.value.Value() == ValueOf(n, d)
  {
    if d == 0 then Err(NilResult)
    else if n == 0 then
      DivMulCancel(0.0, d as real);
      Ok(Zero)
    else
      if d == IntMin && n % 2 == 0 then
        HalveValue(n, d, true);
        QuotHalf(n);
        QuotHalf(d);
        ReduceSignedIntended(Quot(n, 2), Quot(d, 2))
      else
        ReduceSignedIntended(n, d)
  }

  function ReduceSignedIntended(n: Int, d: Int): (r: Result<Fraction, Failure>)
    requires n != 0 && d != 0
    ensures r.Err? <==> d < 0 && (n == IntMin || d == IntMin)
    ensures r.Err? ==> r.error == NilResult
    ensures r.Ok? ==> r.value.Lowest() && r.value.Value() == ValueOf(n, d)
  {
    if d < 0 && (n == IntMin || d == IntMin) then Err(NilResult)
    else
      NegateBoth(n, d);
      if d < 0 then DivideByGcd(Neg(n), Neg(d)) else DivideByGcd(n, d)
  }

  /** MultiplyBy reduces with a positive denominator whenever both factors have one; there both versions agree. */
  lemma GetReducedFractionAgrees(n: Int, d: Int)
    requires d > 0
    ensures GetReducedFraction(n, d) == GetReducedFractionIntended(n, d)
  {
  }

  /**
   * Invert guards with MinInt, so a numerator of -2^31 is negated to itself:
   * -2^31/1 inverts to -1/-2^31, whose value is positive, and so does its
   * power -1. DivideBy by -2^31/1 multiplies by that inverse.
   */
  lemma InvertMinIntGuard()
    ensures Fraction(IntMin, 1).Invert() == Ok(Fraction(-1, IntMin))
    ensures Fraction(-1, IntMin).Value() > 0.0 > Fraction(IntMin, 1).Value()
    ensures Fraction(IntMin, 1).Pow(-1) == Ok(Fraction(-1, IntMin))
    ensures InvertIntended(Fraction(IntMin, 1)) == Err(OverflowPanic)
  {
  }

  /** Negate guards with MinInt, so -2^31/1 is its own negation and its own absolute value. */
  lemma NegateMinIntGuard()
    ensures Fraction(IntMin, 1).Negate() == Ok(Fraction(IntMin, 1))
    ensures Fraction(IntMin, 1).Abs() == Ok(Fraction(IntMin, 1))
    ensures Fraction(IntMin, 1).Value() < 0.0
    ensures NegateIntended(Fraction(IntMin, 1)) == Err(OverflowPanic)
    ensures AbsIntended(Fraction(IntMin, 1)) == Err(OverflowPanic)
  {
  }

  /**
   * Invert refusing every part it cannot negate: each result has a positive
   * denominator and is the reciprocal, and agrees with Invert.
   */
  function InvertIntended(f: Fraction): (r: Result<Fraction, Failure>)
    ensures r.Err? <==>
      f.numerator == 0 || f.numerator == MinInt || f.numerator == IntMin || (f.numerator < 0 && f.denominator == IntMin)
    ensures r.Err? ==> r.error == (if f.numerator == 0 then ZeroPanic else OverflowPanic)
    ensures r.Ok? ==> r == f.Invert() && r.value.denominator > 0
    ensures r.Ok? && f.denominator != 0 ==> IsInverse(r.value, f)
  {
    if f.numerator == 0 then Err(ZeroPanic)
    else if f.numerator == MinInt || f.numerator == IntMin || (f.numerator < 0 && f.denominator == IntMin) then
      Err(OverflowPanic)
    else f.Invert()
  }

  /** Negate refusing -2^31 as well: each result is the negation, and agrees with Negate. */
  function NegateIntended(f: Fraction): (r: Result<Fraction, Failure>)
    ensures r.Err? <==> f.numerator == MinInt || f.numerator == IntMin
    ensures r.Err? ==> r.error == OverflowPanic
    ensures r.Ok? ==> r == f.Negate() && r.value.denominator == f.denominator
    ensures r.Ok? && f.denominator != 0 ==> r.value.Value() == -f.Value()
  {
    if f.numerator == IntMin then Err(OverflowPanic) else f.Negate()
  }

  /** Abs refusing -2^31 as well: each result has a non-negative numerator and, over a positive denominator, the absolute value. */
  function AbsIntended(f: Fraction): (r: Result<Fraction, Failure>)
    ensures f.numerator >= 0 ==> r == Ok(f)
    ensures r.Err? <==> f.numerator == MinInt || f.numerator == IntMin
    ensures r.Ok? ==> r == f.Abs() && r.value.numerator >= 0 && r.value.denominator == f.denominator
    ensures r.Ok? && f.denominator > 0 ==>
      r.value.Value() == if f.Value() < 0.0 then -f.Value() else f.Value()
  {
    if f.numerator == IntMin then Err(OverflowPanic) else f.Abs()
  }

  /** DivideBy through InvertIntended: over positive denominators every result is the quotient in lowest terms. */
  function DivideByIntended(f: Fraction, ff: Fraction): (r: Result<Fraction, Failure>)
    requires f.denominator == 0 ==> ff.denominator != IntMin
    ensures ff.numerator == 0 ==> r == Err(ZeroPanic)
    ensures InvertIntended(ff).Ok? ==> r == f.DivideBy(ff)
    ensures f.denominator > 0 && ff.denominator > 0 ==>
      (r.Err? ==> r.error == OverflowPanic || r.error == ZeroPanic) &&
      (r.Ok? ==> r.value.Lowest() && IsQuotient(r.value, f, ff))
    ensures ff.numerator == MinInt || ff.numerator == IntMin ==> r == Err(OverflowPanic)
    ensures f.numerator == 0 && InvertIntended(ff).Ok? ==> r == Ok(Zero)
    ensures f.denominator > 0 && ff.denominator > 0 && f.numerator != 0 && ff.numerator !in {0, MinInt, IntMin} ==>
      (r.Ok? <==> CancelledProductFits(f,
        Fraction(if ff.numerator < 0 then -ff.denominator else ff.denominator, Abs(ff.numerator))))
  {
    if ff.numerator == 0 then Err(ZeroPanic)
    else
      var inv :- InvertIntended(ff);
      var r := f.MultiplyBy(inv);
      QuotientValue(f, ff, inv, r);
      r
  }

  /**
   * Pow tests the power against MinInt, so for -2^31 it takes the plain
   * negative branch, whose recursive call is on the inverse with Go's
   * -(-2^31), which is -2^31 again: the recursion never ends. One half is
   * such a receiver.
   */
  lemma PowMinIntGuard(f: Fraction)
    requires f.Invert().Ok?
    ensures IntMin != MinInt
    ensures PowNegativeCall(f, IntMin) == Ok((f.Invert().value, IntMin))
    ensures OneHalf.Invert() == Ok(Fraction(2, 1))
  {
  }

  /**
   * Pow with the true minimum in its guards: the power -2^31 is handled as
   * the square of the inverse raised to 2^30, and a negative power inverts
   * with InvertIntended.
   */
  function PowIntended(f: Fraction, power: Int): (r: Result<Fraction, Failure>)
    requires f.denominator == 0 && f.numerator == IntMin ==> power <= 1
    ensures power != IntMin && !(power < 0 && InvertIntended(f).Err?) ==> r == f.Pow(power)
    ensures power < 0 && InvertIntended(f).Err? ==> r == InvertIntended(f)
    ensures f.numerator == 0 && power < 0 ==> r == Err(ZeroPanic)
    ensures f.denominator > 0 ==>
      (r.Err? ==> r.error == OverflowPanic || r.error == ZeroPanic) &&
      (r.Ok? ==> r.value.denominator > 0 && (power < 0 ==> f.numerator != 0) && IsPower(r.value, f, power))
  {
    if power >= 0 then f.Pow(power)
    else
      var inv :- InvertIntended(f);
      if power == IntMin then
        // The inverse has a positive denominator, so its square is never nil.
        var sq :- inv.Pow(2);
        QuotHalf(power);
        var half := -(Quot(power, 2));
        var r := sq.Pow(half);
        PowMinIntStep(f, inv, sq, power, half, r);
        r
      else f.Pow(power)
  }

  /**
   * GetWholeFraction multiplies in int before widening, so 65536 0/65536
   * wraps to 0/65536 instead of being refused.
   */
  lemma GetWholeFractionWraps()
    ensures GetWholeFraction(65536, 0, 65536) == Ok(Fraction(0, 65536))
    ensures Fraction(0, 65536).Value() != 65536.0
    ensures GetWholeFractionIntended(65536, 0, 65536) == Err(NilResult)
  {
  }

  /** GetWholeFraction with the numerator computed exactly, then range-checked. */
  function GetWholeFractionIntended(whole: Int, n: Int, d: Int): (r: Result<Fraction, Failure>)
    ensures r.Err? <==> d <= 0 || n < 0 || !(MinInt <= WholeNumerator(whole, n, d) <= MaxInt)
    ensures r.Err? ==> r.error == NilResult
    ensures r.Ok? ==> r.value.denominator == d && r.value.numerator == WholeNumerator(whole, n, d)
    ensures r.Ok? ==>
      r.value.Value() == if whole < 0 then whole as real - ValueOf(n, d) else whole as real + ValueOf(n, d)
  {
    if d <= 0 || n < 0 then Err(NilResult)
    else
      var value := WholeNumerator(whole, n, d);
      if value < MinInt || value > MaxInt then Err(NilResult)
      else
        WholeValue(whole, n, d);
        Ok(Fraction(value, d))
  }

  /** addSub as written adds 1/2 and 1/2 to 0/1; Knuth's version gives 1/1. */
  lemma AddSubHalves()
    ensures SumOrDifference(OneHalf, OneHalf, true) == Ok(Fraction(0, 1))
    ensures OneHalf.Value() + OneHalf.Value() == 1.0
    ensures AddSubIntended(OneHalf, OneHalf, true) == Ok(One)
  {
    assert MathGcd(2, 2) == 2;
    QuotExact(2, 2, 1);
  }

  /** 1/4 + 1/6 as written is 0/6; Knuth's version gives 5/12. */
  lemma AddSubQuarterSixth()
    ensures SumOrDifference(OneQuarter, Fraction(1, 6), true) == Ok(Fraction(0, 6))
    ensures OneQuarter.Value() + Fraction(1, 6).Value() != 0.0
    ensures AddSubIntended(OneQuarter, Fraction(1, 6), true) == Ok(Fraction(5, 12))
  {
    assert MathGcd(4, 6) == 2;
    QuotExact(4, 2, 2);
    QuotExact(6, 2, 3);
    QuotExact(6, 1, 6);
  }

  /**
   * 100000 and 100002 share only the factor 2, and the halves multiply to
   * 2500050000, past MaxInt: both versions panic on 1/100000 + 1/100002.
   */
  lemma AddSubOverflow()
    ensures SumOrDifference(Fraction(1, 100000), Fraction(1, 100002), true) == Err(OverflowPanic)
    ensures AddSubIntended(Fraction(1, 100000), Fraction(1, 100002), true) == Err(OverflowPanic)
  {
    assert MathGcd(50000, 50001) == 1 by {
      GcdOne(50000);
    }
    GcdOfMultiples(2, 50000, 50001, 100000, 100002);
    QuotExact(100000, 2, 50000);
    QuotExact(100002, 2, 50001);
    QuotExact(100002, 1, 100002);
  }

  /** The square is one checked multiplication, so it succeeds exactly when the cross-cancelled square fits. */
  lemma PowSquare(f: Fraction)
    requires f.denominator > 0 && f.numerator != 0
    ensures f.Pow(2) == f.MultiplyBy(f)
    ensures f.Pow(2).Ok? <==> CancelledProductFits(f, f)
  {
    assert f.Pow(2) == f.PowPositive(2);
    QuotExact(2, 2, 1);
  }

  /** One half times one third is 1/6. */
  lemma MultiplyByExample()
    ensures OneHalf.MultiplyBy(OneThird) == Ok(Fraction(1, 6))
  {
    GcdOne(3);
    GcdOne(2);
    assert Gcd(1, 3) == Ok(1) && Gcd(1, 2) == Ok(1);
    QuotExact(2, 1, 2);
    QuotExact(3, 1, 3);
    assert GetReducedFraction(1, 6) == Ok(Fraction(1, 6));
  }

  /** 65536 squared is 2^32, past MaxInt: MultiplyBy panics. */
  lemma MultiplyByOverflowExample()
    ensures Fraction(65536, 1).MultiplyBy(Fraction(65536, 1)) == Err(OverflowPanic)
  {
    var f := Fraction(65536, 1);
    GcdOne(65536);
    QuotExact(65536, 1, 65536);
    assert !CancelledProductFits(f, f);
  }

  /**
   * MultiplyBy checks the cross-cancelled products, not the reduced result:
   * 131072/131072 times 131071/131073 overflows although the product is
   * 131071/131073.
   */
  lemma MultiplyByUnreducedOverflow()
    ensures Fraction(131072, 131072).MultiplyBy(Fraction(131071, 131073)) == Err(OverflowPanic)
    ensures Fraction(131072, 131072).Value() * Fraction(131071, 131073).Value() == Fraction(131071, 131073).Value()
  {
    GcdOne(131072);
    GcdOne(131071);
    assert MathGcd(131072, 131073) == 1;
    assert MathGcd(131071, 131072) == 1;
  }
}
