# go-commons-lang in Dafny

A model of three parts of the Go library go-commons-lang, with proofs about
each:

- the bounded exact fractions of `mathUtils/fraction.go`;
- the byte-string utilities of `stringUtils/stringUtils.go`;
- the word transforms of `wordUtils/wordUtils.go`.

The model sticks to the code as written. Where the code misbehaves, the
model keeps the behaviour as written and proves a corrected version beside
it under "## Findings".

## How the source is represented

- **Go `int`** is the 32-bit range (`GoInt.Int`). The code counts 31
  magnitude bits (`k < 31`, `BitLen() > 31`).
  - The library's `MinInt` is `-(MaxInt - 1)`, which is -2^31 + 2. It is
    used verbatim in every guard. The true minimum -2^31 is `GoInt.IntMin`.
  - Go's wrapping negation is `GoInt.Neg`, and narrowing to `int` is
    `GoInt.Wrap`.
  - Go's truncating `/` and `%` are `GoInt.Quot` and `GoInt.Rem`.
  - `big.Int`'s Euclidean `Mod` and `Div` are Dafny's own `%` and `/`.
  - `math.Abs(float64(x))` is read as the integer absolute value `GoInt.Abs`.
    That reading is exact for every int except -2^31, whose absolute value
    2^31 is no int: converting it back is implementation-defined in Go, so
    the members that use the converted value exclude it (see "## Left out").
    One place only compares it: `BinaryGcd.Gcd` reads the shortcut test
    `int(math.Abs(float64(u))) == 1` as `|u| == 1`, which is false at
    -2^31, so the model takes it that the conversion does not give 1 there.
  - The parity test `x & 1` is `x % 2`.
- **Failures.** A `nil` result, a `panic` and a Go runtime panic (integer
  division by zero, a slice out of range) are `Err` values of `Result`, one
  `GoInt.Failure` constructor per kind. Chained calls propagate them.
- **Fractions.** A `Fractions.Fraction` is a value: the pair the Go struct
  holds. `NewFraction` is the datatype constructor, and `Equals`
  compares both fields. Each fraction has a real-valued meaning (ghost
  `Value`). The properties about values are ghost predicates `IsProduct`,
  `IsInverse`, `IsQuotient`, `IsPower` and `IsSum`, each stated as an
  equation between real quotients.
- **The binary gcd** is the method `BinaryGcd.GreatestCommonDivisor`. It
  keeps the loops of Knuth's Algorithm B as the source has them. It is
  proved equal to the function `BinaryGcd.Gcd`, which gives the shortcut
  results and otherwise the mathematical gcd.
- **`addSub`** keeps the `big.Int` calls that overwrite their receiver, as
  methods of the class `Fractions.BigInt`. `Fractions.AddSub` is proved
  equal to the function `Fractions.SumOrDifference`.
- **Strings** are `seq<char>`, one character per byte, so byte offsets and
  rune counts agree.
  - `strings.Index` and `strings.LastIndex` are the functions
    `StringUtils.Index` and `StringUtils.LastIndex`. Each comes with its
    meaning: the first or last occurrence, or -1 when there is none.
  - The loops of `Remove`, `Repeat`, `RepeatWithSeparator`, `Reverse`,
    `ReverseDelimited` and the `Contains*`, `IsAny*`, `IsNone*`,
    `StartsWithAny*` and `EndsWithAny*` functions are methods. Each is
    proved against a function.
  - `Trim` is `strings.Trim(str, " ")`, which drops spaces only. Its doc
    comment speaks of control characters; the model follows the code.
- **Unicode** comes from the module `Runes`.
  - `unicode.IsSpace` is the full White_Space set.
  - The case predicates and mappings are a stand-in. They cover the ASCII
    letters and the Latin letter DŽ (U+01C4, U+01C5, U+01C6), which has
    distinct upper, title and lower forms.
- **Delimiter lists in the word transforms** are `Option<seq<string>>`.
  `None` is the nil list, meaning white space. `Some([])` is the explicit
  empty list, which leaves the string unchanged.
  - `WordUtils.CapitalizeDelimited`, `UncapitalizeDelimited` and
    `SwapCase` fill an array as the Go code fills its rune buffer.
  - `InitialsDelimited` writes into a buffer of `len/2 + 1` characters.

## Model

| member | source | states |
|---|---|---|
| GoInt.Wrap | mathUtils/fraction.go:99-101 | narrowing to a 32-bit int is congruent to its input modulo 2^32 and leaves in-range values alone |
| GoInt.Abs | mathUtils/fraction.go:150 | the magnitude math.Abs gives: x itself or its negation, never negative |
| GoInt.Quot | mathUtils/fraction.go:154 | Go's integer `/`: a nonzero quotient is positive exactly when the operands have the same sign (the remainder law is QuotSpec) |
| GoInt.Neg | mathUtils/fraction.go:126-127 | Go's negation is ordinary negation except at -2^31, which it maps to itself |
| GoInt.NegNeg | mathUtils/fraction.go:174-179 | Go's wrapping negation is an involution on every int |
| GoInt.Rem | mathUtils/fraction.go:248 | the truncating remainder is smaller in magnitude than the divisor, carries the dividend's sign and completes a == b*q + r with the truncating quotient |
| GoInt.QuotSpec | mathUtils/fraction.go:254-256 | the truncating quotient leaves a remainder below the divisor with the dividend's sign, and is no larger in magnitude than the dividend |
| GoInt.TruncatedRemainder | mathUtils/fraction.go:254-256 | sign case by sign case, dividend minus divisor times the truncated quotient is the remainder with the dividend's sign |
| GoInt.QuotExact | mathUtils/fraction.go:131-132 | on an exact division the truncating quotient is the mathematical one |
| BinaryGcd.Gcd | mathUtils/fraction.go:275-336 | fails with an overflow panic exactly when one argument is 0 and the other is MinInt, or both are -2^31 (whose gcd 2^31 overflows); otherwise the result is the mathematical gcd of the magnitudes, positive unless both are 0 |
| BinaryGcd.GcdIsGreatest | mathUtils/fraction.go:275-336 | a successful result divides both arguments, and every common divisor divides it |
| BinaryGcd.GreatestCommonDivisor | mathUtils/fraction.go:275-336 | the method with the source's loops returns exactly the result of Gcd (so the loops end) |
| BinaryGcd.CastOutTwos | mathUtils/fraction.go:297-306 | factors out the common power of two 2^k, with k at most 31, leaving at least one odd part when k < 31 |
| BinaryGcd.OddPartGcd | mathUtils/fraction.go:307-334 | with at least one odd argument, the subtract-and-halve loop returns the gcd of the magnitudes |
| BinaryGcd.ResetMax | mathUtils/fraction.go:324-331 | replacing the larger of u and v by -t or t keeps both odd and negative, keeps the gcd and shrinks the replaced one |
| BinaryGcd.StripTwos | mathUtils/fraction.go:320-323 | halving t while it is even leaves it odd, nonzero, with its sign, no larger, and with the same gcd against any odd number |
| Fractions.Fraction.Reduce | mathUtils/fraction.go:143-155 | numerator 0 gives Zero; a fraction already in lowest terms is returned itself; otherwise the result has the same value and, for a positive denominator, is in lowest terms |
| Fractions.Fraction.Equals | mathUtils/fraction.go:137-139 | true exactly when numerator and denominator both agree, that is when the two pairs are equal |
| Fractions.ReduceBy | mathUtils/fraction.go:150-154 | dividing both parts by a gcd above 1 gives a fraction in lowest terms with the same value, and fails with nil exactly when the denominator is zero |
| Fractions.Fraction.Invert | mathUtils/fraction.go:159-170 | fails exactly for numerator 0 (zero panic) or MinInt (overflow panic); a numerator of -2^31 gives -d/-2^31 with Go's wrapping negation; otherwise the denominator is positive and, unless a negative numerator sits over -2^31, the value is the reciprocal |
| Fractions.Fraction.Negate | mathUtils/fraction.go:174-179 | fails exactly for numerator MinInt; keeps the denominator; returns a numerator of -2^31 unchanged, and otherwise negates the value |
| Fractions.Fraction.Abs | mathUtils/fraction.go:184-189 | a non-negative numerator gives the fraction itself; fails exactly for MinInt; returns a numerator of -2^31 unchanged; otherwise the numerator is non-negative and, over a positive denominator, the value is the absolute value |
| Fractions.Fraction.MultiplyBy | mathUtils/fraction.go:211-223 | a zero numerator on either side gives Zero; with a zero denominator on either side the result fails unless a numerator is zero; for positive denominators a failure is an overflow panic, a success is the product of the values in lowest terms, and with both numerators nonzero the call succeeds exactly when (u/g1)*(u'/g2) lies in [MinInt, MaxInt] and (v/g2)*(v'/g1) is at most MaxInt, for g1 = gcd(u, v') and g2 = gcd(u', v) |
| Fractions.ProductOverZero | mathUtils/fraction.go:220-222 | a zero denominator makes the checked denominator product 0, so the reduced product is refused |
| Fractions.ProductFits | mathUtils/fraction.go:219-222 | over positive denominators, the cross-cancelled product fails exactly when one of its two checked products does not fit; GetReducedFraction never refuses a positive denominator |
| Fractions.MultiplyByExample | mathUtils/fraction.go:211-223 | one half times one third is 1/6 |
| Fractions.MultiplyByOverflowExample | mathUtils/fraction.go:219-220 | 65536/1 squared overflows, since 65536 * 65536 = 2^32 |
| Fractions.MultiplyByUnreducedOverflow | mathUtils/fraction.go:215-222 | 131072/131072 times 131071/131073 overflows although the product is 131071/131073: the check is on the cross-cancelled products, so the result fits in lowest terms only when the operands are in lowest terms |
| Fractions.Fraction.DivideBy | mathUtils/fraction.go:226-231 | a zero divisor numerator panics and MinInt overflows; a zero dividend gives Zero; over positive denominators and a divisor numerator other than -2^31, a success is the quotient of the values in lowest terms, and for a nonzero dividend the call succeeds exactly when the cross-cancelled product with the inverse of the divisor fits, as for MultiplyBy |
| Fractions.Fraction.Pow | mathUtils/fraction.go:192-208 | Pow(1) is the fraction itself and Pow(0) is One; a zero base with a negative power panics and with a power >= 2 gives Zero; a success for power other than 1 has a nonzero denominator; otherwise, for a positive denominator, a success has the value (n/d)^power, in lowest terms for power >= 2 or power <= -2 |
| Fractions.Fraction.PowNegative | mathUtils/fraction.go:197-201 | for a negative power other than MinInt, the inverse raised to the opposite power has the value (n/d)^power, for a positive denominator and a numerator other than -2^31 |
| Fractions.PowNegativeCall | mathUtils/fraction.go:200 | the recursive call of the plain negative branch is on the inverse with Go's negation of the power, which shrinks the power except at -2^31 |
| Fractions.Fraction.PowMinInt | mathUtils/fraction.go:198-199 | for the power MinInt, the square of the inverse raised to -MinInt/2 has the value (n/d)^MinInt, for a positive denominator and a numerator other than -2^31; a nil square is the receiver of the second Pow |
| Fractions.Fraction.PowPositive | mathUtils/fraction.go:203-207 | for power >= 2 and a positive denominator, a failure is an overflow panic and a success, reached by squaring and halving the exponent, is (n/d)^power in lowest terms; a zero numerator gives Zero; a nil square or nil partial power is the receiver of the next call |
| Fractions.NilPow | mathUtils/fraction.go:192-196 | Pow on a nil receiver: nil for power 1 and One for power 0, which do not read the receiver; a nil-dereference panic for every other power |
| Fractions.SquareOverZero | mathUtils/fraction.go:211-223 | squaring n/0 (n not 0, MinInt or -2^31) gives nil: GetReducedFraction(1, 0) |
| Fractions.PowOverZero | mathUtils/fraction.go:192-208 | for n/0 and power >= 2, Pow(2) is nil and every higher power panics on a nil receiver |
| Fractions.PowOverZeroExamples | mathUtils/fraction.go:192-208 | NewFraction(3, 0): Pow(1) is itself, Pow(0) is One, Pow(-1) is 0/3, Pow(2) is nil, Pow(3) and Pow(4) panic |
| Fractions.Fraction.GetProperNumerator | mathUtils/fraction.go:247-249 | panics exactly for a zero denominator; otherwise the result lies in [0, abs(d)) and is the magnitude of the truncating remainder |
| Fractions.Fraction.GetProperWhole | mathUtils/fraction.go:254-256 | panics exactly for a zero denominator; otherwise the result is the truncating quotient, which wraps for -2^31 / -1 |
| Fractions.Fraction.IntValue | mathUtils/fraction.go:259-261 | is the proper whole part |
| Fractions.GetFraction | mathUtils/fraction.go:72-84 | returns nil exactly for a zero denominator or for a negative one when either part is MinInt; otherwise the denominator is positive and the value is n/d |
| Fractions.GetWholeFraction | mathUtils/fraction.go:87-107 | returns nil exactly for denominator <= 0, numerator < 0 or a wrapped numerator below MinInt; otherwise the numerator is the wrapped whole*d ± n, and its value is whole ± n/d when that fits |
| Fractions.GetReducedFraction | mathUtils/fraction.go:111-134 | denominator 0 gives nil and numerator 0 gives Zero; the other failures are the MinInt cases; a result for inputs away from -2^31 has a positive denominator, is in lowest terms and has the value n/d |
| Fractions.ReduceSigned | mathUtils/fraction.go:118-133 | the sign and halving steps of GetReducedFraction fail exactly in the MinInt cases and otherwise give the value n/d in lowest terms |
| Fractions.DivideByGcd | mathUtils/fraction.go:129-133 | dividing by the gcd fails only when both parts are -2^31; it keeps the value and, for a positive denominator, gives lowest terms |
| Fractions.MulAndCheck | mathUtils/fraction.go:339-345 | succeeds exactly when the product lies in [MinInt, MaxInt] and then returns it |
| Fractions.MulPosAndCheck | mathUtils/fraction.go:348-354 | succeeds exactly when the product is at most MaxInt and then returns the product narrowed to int |
| Fractions.AddAndCheck | mathUtils/fraction.go:357-363 | succeeds exactly when the sum lies in [MinInt, MaxInt] and then returns it |
| Fractions.SubAndCheck | mathUtils/fraction.go:366-372 | succeeds exactly when the difference lies in [MinInt, MaxInt] and then returns it |
| Fractions.ReduceIdempotent | mathUtils/fraction.go:143-155 | reducing a reduced fraction gives it back |
| Fractions.TwoQuartersReduceToOneHalf | mathUtils/fraction.go:25-37 | TwoQuarters reduces to OneHalf |
| Fractions.LibraryConstants | mathUtils/fraction.go:19-52 | Zero through FourFifths have the values their names say, and all but TwoQuarters are in lowest terms |
| Fractions.InvertInvert | mathUtils/fraction.go:159-170 | for a positive denominator, inverting twice returns the identical pair exactly when the fraction is in the form Invert produces |
| Fractions.NegateNegate | mathUtils/fraction.go:174-179 | negating twice returns the identical pair exactly when the first negation succeeds |
| Fractions.AbsIdempotent | mathUtils/fraction.go:184-189 | the absolute value of an absolute value is itself |
| Fractions.MixedNumber | mathUtils/fraction.go:247-256 | whole * d + sign * proper is the numerator: the two accessors split a fraction into a mixed number |
| Fractions.MixedNumberExamples | mathUtils/fraction.go:244-256 | 7/4 is 1 and 3/4, and -7/4 is -1 and 3/4 |
| Fractions.SumOrDifference | mathUtils/fraction.go:375-432 | a zero f gives ff or -ff and a zero ff gives f; a failing gcd of the denominators is an overflow panic; coprime denominators give the unreduced cross sum over the product; otherwise the result is WideSumOrDifference's, with a numerator in [0, gcd), and no value claim |
| Fractions.CoprimeSumOrDifference | mathUtils/fraction.go:388-397 | fails with an overflow exactly when a checked primitive leaves [MinInt, MaxInt]; otherwise the result is (u*v' ± u'*v) / (v*v') and has the value of the sum or difference |
| Fractions.CheckedCrossSum | mathUtils/fraction.go:391-396 | fails with an overflow exactly when u*v', u'*v or their sum or difference leaves [MinInt, MaxInt]; otherwise it is u*v' ± u'*v |
| Fractions.WideSumOrDifference | mathUtils/fraction.go:398-431 | a zero gcd panics; otherwise a failure is an overflow panic, and it happens exactly when (v/d1)*(v'/d2) exceeds MaxInt, with d2 = gcd(t mod d1, d1) (d1 when d1 divides the cross sum t); the numerator check never fires, since a success has a numerator in [0, d1) that is zero exactly when d1 divides t, and its denominator is (v/d1)*(v'/d2) narrowed to int |
| Fractions.SecondGcd | mathUtils/fraction.go:417-423 | d2 = gcd(t mod d1, d1), or d1 when t mod d1 is 0, lies in [1, d1] |
| Fractions.BigInt.constructor | mathUtils/fraction.go:401-402 | big.NewInt holds its argument |
| Fractions.BigInt.Mul | mathUtils/fraction.go:403-407 | overwrites the receiver with the product and returns the receiver |
| Fractions.BigInt.Add | mathUtils/fraction.go:410-411 | overwrites the receiver with the sum and returns the receiver |
| Fractions.BigInt.Sub | mathUtils/fraction.go:412-413 | overwrites the receiver with the difference and returns the receiver |
| Fractions.BigInt.Mod | mathUtils/fraction.go:418 | overwrites the receiver with the Euclidean remainder and returns the receiver |
| Fractions.BigInt.Div | mathUtils/fraction.go:427 | overwrites the receiver with the Euclidean quotient and returns the receiver |
| Fractions.AddSub | mathUtils/fraction.go:375-432 | the method built on the big.Int calls returns exactly SumOrDifference |
| Fractions.BigCrossSum | mathUtils/fraction.go:401-414 | the big.Int receivers end with t holding u*v' + u'*v (add) or u*v' - u'*v (subtract), exactly, without wrap-around |
| Fractions.AddSubWide | mathUtils/fraction.go:398-431 | the branch for non-coprime denominators, run with the receiver overwrites, returns exactly WideSumOrDifference |
| Fractions.ZeroSum | mathUtils/fraction.go:383-385 | adding or subtracting a zero fraction keeps the value |
| Runes.ToUpper | stringUtils/stringUtils.go:84 | lower and title case letters go to upper case and everything else is unchanged, with the same lower-case form |
| Runes.ToLower | stringUtils/stringUtils.go:684-685 | upper and title case letters go to lower case and everything else is unchanged |
| Runes.ToTitle | wordUtils/wordUtils.go:120-121 | lower case letters go to a title or upper form that lower-cases back to them; caseless characters are unchanged |
| Runes.ToLowerString | stringUtils/stringUtils.go:706-707 | strings.ToLower maps every character by ToLower and keeps the length |
| Runes.SpaceIsCaseless | wordUtils/wordUtils.go:113-130 | a white-space character is neither upper, lower nor title case |
| Runes.ToLowerIdempotent | stringUtils/stringUtils.go:706-707 | lower-casing a lower-cased string changes nothing |
| StringUtils.Index | stringUtils/stringUtils.go:490-491 | the result is -1 when sub does not occur, and otherwise the first position where it occurs |
| StringUtils.IndexFrom | stringUtils/stringUtils.go:490-491 | from position j on, -1 when sub does not occur, and otherwise the first position at or after j where it occurs |
| StringUtils.LastIndex | stringUtils/stringUtils.go:648-654 | the result is -1 when sub does not occur, and otherwise the last position where it occurs |
| StringUtils.LastIndexUpTo | stringUtils/stringUtils.go:648-654 | -1 when sub starts at no position up to j, and otherwise the last such position |
| StringUtils.ContainsChar | stringUtils/stringUtils.go:135-142 | a one-character string occurs in s exactly when the character is in s |
| StringUtils.Contains | stringUtils/stringUtils.go:120-122 | true exactly when sub occurs at some position of s |
| StringUtils.InternalStartsWith | stringUtils/stringUtils.go:699-710 | an empty side matches only when both are empty; otherwise true exactly when prefix is a prefix of str, of its lower-case form when ignoring case |
| StringUtils.InternalEndsWith | stringUtils/stringUtils.go:743-754 | an empty side matches only when both are empty; otherwise true exactly when suffix is a suffix of str, of its lower-case form when ignoring case |
| StringUtils.StartsWith | stringUtils/stringUtils.go:713-715 | both empty, or both non-empty with prefix a prefix of str |
| StringUtils.StartsWithIgnoreCase | stringUtils/stringUtils.go:718-720 | StartsWith on the lower-cased strings |
| StringUtils.EndsWith | stringUtils/stringUtils.go:757-759 | both empty, or both non-empty with suffix a suffix of str |
| StringUtils.EndsWithIgnoreCase | stringUtils/stringUtils.go:762-764 | EndsWith on the lower-cased strings |
| StringUtils.EndsWithExamples | stringUtils/stringUtils_test.go:176-186 | "foobar" ends with "bar" but not "BAR" or "bazz" |
| StringUtils.EndsWithIgnoreCaseExamples | stringUtils/stringUtils_test.go:188-198 | ignoring case, "foobar" ends with "BAR" and "bar" but not "bazz" |
| StringUtils.InternalStartsWithAny | stringUtils/stringUtils.go:723-740 | the early-exit loop is true exactly when internalStartsWith holds for some prefix in the given mode |
| StringUtils.StartsWithAny | stringUtils/stringUtils.go:723-730 | true exactly when StartsWith holds for some prefix |
| StringUtils.StartsWithAnyIgnoreCase | stringUtils/stringUtils.go:733-740 | true exactly when StartsWithIgnoreCase holds for some prefix |
| StringUtils.InternalEndsWithAny | stringUtils/stringUtils.go:767-784 | the early-exit loop is true exactly when internalEndsWith holds for some suffix in the given mode |
| StringUtils.EndsWithAny | stringUtils/stringUtils.go:767-774 | true exactly when EndsWith holds for some suffix |
| StringUtils.EndsWithAnyIgnoreCase | stringUtils/stringUtils.go:777-784 | true exactly when EndsWithIgnoreCase holds for some suffix |
| StringUtils.Trim | stringUtils/stringUtils.go:674-676 | the result has no space at either end and sits in str with only spaces around it |
| StringUtils.TrimIdempotent | stringUtils/stringUtils.go:674-676 | trimming a trimmed string changes nothing |
| StringUtils.TrimExamples | stringUtils/stringUtils.go:674-676 | "  ab c " trims to "ab c", and a string of spaces to "" |
| StringUtils.AbbreviateWithOffset | stringUtils/stringUtils.go:18-40 | short, empty or narrow-width input is returned unchanged; it is also unchanged exactly when maxWidth < 7 and the adjusted offset exceeds 4; any other result has length maxWidth and starts or ends with "..." around a slice of str |
| StringUtils.Abbreviate | stringUtils/stringUtils.go:13-15 | unchanged when it fits, otherwise the first maxWidth-3 characters and "..." |
| StringUtils.AbbreviateExamples | stringUtils/stringUtils_test.go:5-21 | the Abbreviate test cases |
| StringUtils.AbbreviateWithOffsetExamples | stringUtils/stringUtils_test.go:23-60 | offset test cases at the start and with a narrow width |
| StringUtils.AbbreviateMiddleExample | stringUtils/stringUtils_test.go:23-60 | an offset into the middle keeps a window between two ellipses |
| StringUtils.AbbreviateEndExamples | stringUtils/stringUtils_test.go:23-60 | an offset near or past the end keeps the tail after "..." |
| StringUtils.Chomp | stringUtils/stringUtils.go:91-105 | the result is a prefix of str and what it drops is "", "\n", "\r" or "\r\n"; it changes str exactly when str ends in a newline or carriage return; a lone "\n" is dropped only when no "\r" precedes it |
| StringUtils.Chop | stringUtils/stringUtils.go:108-117 | the empty string stays empty; otherwise the result is a strictly shorter prefix that drops a trailing "\r\n" or else the last character |
| StringUtils.ChompExamples | stringUtils/stringUtils_test.go:110-141 | Chomp test cases with trailing carriage returns and newlines |
| StringUtils.ChompOnceExamples | stringUtils/stringUtils_test.go:110-141 | Chomp removes only one line ending, and only at the end |
| StringUtils.ChopExamples | stringUtils/stringUtils_test.go:143-174 | Chop test cases |
| StringUtils.Left | stringUtils/stringUtils.go:416-424 | a prefix of str whose length is size clamped to [0, len] |
| StringUtils.Right | stringUtils/stringUtils.go:595-603 | a suffix of str whose length is size clamped to [0, len] |
| StringUtils.Mid | stringUtils/stringUtils.go:450-461 | "" for an empty str, a negative size or pos past the end; otherwise the slice from pos clamped at 0, at most size long |
| StringUtils.LeftRightMidExamples | stringUtils/stringUtils_test.go:407-450 | the Left and Mid test cases |
| StringUtils.Overlay | stringUtils/stringUtils.go:464-483 | start and end are clamped into [0, len] and put in order; the result is str before the smaller one, then overlay, then str after the larger one |
| StringUtils.OverlayExamples | stringUtils/stringUtils_test.go:452-467 | the Overlay test cases with bounds in range, swapped ones included |
| StringUtils.OverlayBeforeStartExamples | stringUtils/stringUtils_test.go:468-476 | the Overlay test cases with negative bounds, clamped to the start |
| StringUtils.OverlayPastEndExample | stringUtils/stringUtils_test.go:477-479 | the Overlay test case with both bounds past the end, clamped to the length |
| StringUtils.BlankIsSpace | stringUtils/stringUtils.go:294-302 | every character of a blank string is white space and has no case |
| StringUtils.IsEmpty | stringUtils/stringUtils.go:261-266 | true exactly for the string of length 0 |
| StringUtils.IsNotEmpty | stringUtils/stringUtils.go:269-271 | true exactly for a string of positive length |
| StringUtils.IsBlank | stringUtils/stringUtils.go:294-302 | true exactly when every character is in `\s`; so an empty string is blank |
| StringUtils.IsNotBlank | stringUtils/stringUtils.go:305-307 | true exactly when some character is outside `\s`; a non-blank string is non-empty |
| StringUtils.Wrap | stringUtils/stringUtils.go:691-696 | "" stays ""; otherwise the result is str with wrapWith on both sides |
| StringUtils.DefaultString | stringUtils/stringUtils.go:787-792 | a non-empty str is returned, otherwise the default |
| StringUtils.Capitalize | stringUtils/stringUtils.go:82-87 | same length; the first character is upper-cased and the rest is unchanged |
| StringUtils.Uncapitalize | stringUtils/stringUtils.go:679-688 | same length and same tail; an upper-case first letter becomes its lower form, and any other string is unchanged |
| StringUtils.CapitalizeIdempotent | stringUtils/stringUtils.go:82-87 | capitalizing or uncapitalizing twice is the same as once |
| StringUtils.CapitalizeExamples | stringUtils/stringUtils_test.go:98-108 | Capitalize and Uncapitalize test cases, with Wrap and DefaultString |
| StringUtils.CutFirst | stringUtils/stringUtils.go:490-494 | one pass of Remove cuts out the first occurrence and keeps everything around it |
| StringUtils.RemoveAll | stringUtils/stringUtils.go:486-496 | the result contains no occurrence of remove, is str itself when there is none, and is no longer than str |
| StringUtils.RemovedMultiple | stringUtils/stringUtils.go:490-494 | each pass of the loop cuts len(remove) characters, so the removed length is a multiple of len(remove) |
| StringUtils.Remove | stringUtils/stringUtils.go:486-496 | the loop returns an empty str unchanged and otherwise ends with RemoveAll |
| StringUtils.RemoveExamples | stringUtils/stringUtils_test.go:482-492 | "queued" without "u" is "qeed", and without "z" unchanged |
| StringUtils.RemoveEnd | stringUtils/stringUtils.go:500-508 | unchanged unless both are non-empty and remove is a suffix; then the result followed by remove is str |
| StringUtils.RemoveEndIgnoreCase | stringUtils/stringUtils.go:512-520 | the same, with the suffix test done on lower-cased strings |
| StringUtils.RemoveEndAppended | stringUtils/stringUtils.go:500-520 | removing an appended non-empty suffix gives back the original, in both variants |
| StringUtils.RemoveEndExamples | stringUtils/example_stringUtils.go:9-10 | "www.domain.com" without ".com" is "www.domain" |
| StringUtils.RemoveEndKeepsExample | stringUtils/stringUtils.go:500-508 | a non-suffix is not removed |
| StringUtils.RemoveStart | stringUtils/stringUtils.go:530-538 | unchanged unless remove is a non-empty prefix; then it panics exactly when str equals remove, and otherwise drops remove and one more character |
| StringUtils.RemoveStartIgnoreCase | stringUtils/stringUtils.go:542-550 | the same, with the prefix test done on lower-cased strings |
| StringUtils.Join | stringUtils/stringUtils.go:360-362 | a single part is itself, and the first part starts the result |
| StringUtils.JoinSnoc | stringUtils/stringUtils.go:360-362 | joining one more part appends the separator and the part |
| StringUtils.Copies | stringUtils/stringUtils.go:564-574 | n copies of s, none for n <= 0 |
| StringUtils.RepeatedLength | stringUtils/stringUtils.go:553-560 | Repeat(s, n) has length n*len(s), and 0 for n <= 0 |
| StringUtils.RepeatedAt | stringUtils/stringUtils.go:553-560 | position k of Repeat(s, n) holds s[k mod len(s)] |
| StringUtils.Repeat | stringUtils/stringUtils.go:553-560 | the accumulating loop returns Repeated |
| StringUtils.RepeatWithSeparator | stringUtils/stringUtils.go:564-574 | the loop returns the copies of str joined by sep |
| StringUtils.JoinCopiesRepeated | stringUtils/stringUtils.go:564-574 | n copies joined by sep, followed by sep, are (s + sep) repeated n times |
| StringUtils.RepeatWithSeparatorLength | stringUtils/stringUtils.go:564-574 | for n >= 1 the length is n*len(s) + (n-1)*len(sep) |
| StringUtils.RepeatExamples | stringUtils/stringUtils_test.go:494-510 | the Repeat and RepeatWithSeparator test cases |
| StringUtils.Reversed | stringUtils/stringUtils.go:577-583 | keeps the length and puts position i at len-1-i |
| StringUtils.ReverseInvolution | stringUtils/stringUtils.go:577-583 | reversing twice gives back the sequence |
| StringUtils.Reverse | stringUtils/stringUtils.go:577-583 | the in-place swap loop returns the reversed string |
| StringUtils.Split | stringUtils/stringUtils.go:586-592 | an empty separator splits into single characters; otherwise at least one piece, and the string itself alone when the separator does not occur in it |
| StringUtils.SplitPiecesFree | stringUtils/stringUtils.go:586-592 | no piece of a split on a non-empty separator contains the separator |
| StringUtils.JoinSplit | stringUtils/stringUtils.go:586-592 | joining the pieces of a split with the separator gives back the string |
| StringUtils.SwapToReverse | stringUtils/stringUtils.go:587-590 | swapping from both ends reverses the array in place |
| StringUtils.ReverseDelimited | stringUtils/stringUtils.go:586-592 | the result is the pieces, in reverse order, joined by the delimiter |
| StringUtils.ReverseExamples | stringUtils/stringUtils.go:577-583 | "abc" reversed is "cba" |
| StringUtils.SplitExamples | stringUtils/stringUtils.go:586-592 | "a.b.c" splits into "a", "b", "c" |
| StringUtils.ReverseDelimitedExample | stringUtils/stringUtils.go:586-592 | "a.b.c" with "." reverses to "c.b.a" |
| StringUtils.SubstringBefore | stringUtils/stringUtils.go:639-645 | str when sep is absent; otherwise the prefix that ends just before the first occurrence |
| StringUtils.SubstringAfter | stringUtils/stringUtils.go:621-627 | str when sep is absent; otherwise the suffix that starts just after the first occurrence |
| StringUtils.SubstringBeforeLast | stringUtils/stringUtils.go:648-654 | str when sep is absent; otherwise the prefix that ends just before the last occurrence |
| StringUtils.SubstringAfterLast | stringUtils/stringUtils.go:630-636 | str when sep is absent; otherwise the suffix that starts just after the last occurrence |
| StringUtils.SubstringsRejoin | stringUtils/stringUtils.go:621-645 | when sep occurs, SubstringBefore + sep + SubstringAfter is str |
| StringUtils.SubstringsLastRejoin | stringUtils/stringUtils.go:630-654 | when sep occurs, SubstringBeforeLast + sep + SubstringAfterLast is str |
| StringUtils.SubstringsFree | stringUtils/stringUtils.go:630-645 | for a non-empty sep, the part before the first and the part after the last contain no sep |
| StringUtils.SubstringsExamples | stringUtils/stringUtils_test.go:524-549 | the SubstringBefore and SubstringAfter test cases |
| StringUtils.SubstringsLastExamples | stringUtils/stringUtils_test.go:524-549 | the SubstringBeforeLast and SubstringAfterLast test cases |
| StringUtils.AppendedIfMissing | stringUtils/stringUtils.go:42-69 | the result is str or str + suffix; it adds the suffix exactly when both are non-empty and str ends with none of them (the main suffix compared by mode, the extra ones ignoring case) |
| StringUtils.InternalAppendIfMissing | stringUtils/stringUtils.go:42-69 | the loop over the extra suffixes returns AppendedIfMissing |
| StringUtils.AppendIfMissing | stringUtils/stringUtils.go:72-74 | the case-sensitive entry point |
| StringUtils.AppendIfMissingIgnoreCase | stringUtils/stringUtils.go:77-79 | the case-insensitive entry point |
| StringUtils.AppendIfMissingIdempotent | stringUtils/stringUtils.go:42-69 | appending if missing a second time changes nothing |
| StringUtils.AppendIfMissingExamples | stringUtils/stringUtils_test.go:62-78 | the AppendIfMissing test cases |
| StringUtils.AppendIfMissingCaseExamples | stringUtils/stringUtils_test.go:62-96 | "abcXYZ" gets "xyz" case-sensitively but not ignoring case |
| StringUtils.ContainsAny | stringUtils/stringUtils.go:125-132 | true exactly when some search string occurs in str |
| StringUtils.ContainsAnyCharacter | stringUtils/stringUtils.go:135-142 | true exactly when some character of search is in str |
| StringUtils.ContainsIgnoringCase | stringUtils/stringUtils.go:145-147 | an occurrence is also an occurrence ignoring case |
| StringUtils.ContainsIgnoreCase | stringUtils/stringUtils.go:145-147 | true exactly when some slice of str lower-cases to the lower-cased search; so the empty search is always contained, and a contained search is no longer than str |
| StringUtils.LowerOccurrence | stringUtils/stringUtils.go:145-147 | an occurrence in the lower-cased strings is exactly an occurrence ignoring case at the same offset |
| StringUtils.ContainsNone | stringUtils/stringUtils.go:150-152 | true exactly when no search string occurs in str |
| StringUtils.ContainsNoneCharacter | stringUtils/stringUtils.go:155-157 | true exactly when no character of search is in str |
| StringUtils.StringInSlice | stringUtils/stringUtils.go:159-166 | true exactly when the string is in the list |
| StringUtils.ContainsOnly | stringUtils/stringUtils.go:169-176 | true exactly when every character of str, as a one-character string, is in the list |
| StringUtils.IsAnyEmpty | stringUtils/stringUtils.go:274-281 | true exactly when some string is empty |
| StringUtils.IsNoneEmpty | stringUtils/stringUtils.go:284-291 | true exactly when no string is empty |
| StringUtils.IsAnyBlank | stringUtils/stringUtils.go:310-317 | true exactly when some string is blank |
| StringUtils.IsNoneBlank | stringUtils/stringUtils.go:320-327 | true exactly when no string is blank |
| WordUtils.IsDelimiter | wordUtils/wordUtils.go:11-22 | with the nil list it is the white-space test; otherwise true exactly when the one-character string is in the list |
| WordUtils.CapitalizeStep | wordUtils/wordUtils.go:41-48 | with the flag set exactly when the previous character is a delimiter, the character the loop leaves at position i is the capitalized string's character there |
| WordUtils.UncapitalizeStep | wordUtils/wordUtils.go:148-155 | the same for lower-casing: the loop's choice at position i is the uncapitalized string's character there |
| WordUtils.CapitalizedShape | wordUtils/wordUtils.go:39-49 | same length; delimiters and characters that start no word are unchanged; a lower or title case word start becomes upper case |
| WordUtils.UncapitalizedShape | wordUtils/wordUtils.go:146-156 | same length; characters that start no word are unchanged; an upper or title case word start becomes lower case |
| WordUtils.CapitalizeDelimited | wordUtils/wordUtils.go:35-50 | the buffer loop returns the capitalized string, and the string itself for "" or the empty list |
| WordUtils.UncapitalizeDelimited | wordUtils/wordUtils.go:142-157 | the buffer loop returns the uncapitalized string, and the string itself for "" or the empty list |
| WordUtils.Capitalize | wordUtils/wordUtils.go:25-27 | capitalizes words split by white space |
| WordUtils.Uncapitalize | wordUtils/wordUtils.go:134-136 | uncapitalizes words split by white space |
| WordUtils.CaseKeepsSpace | wordUtils/wordUtils.go:39-49 | changing case neither makes nor removes white space |
| WordUtils.CapitalizeRoundTrip | wordUtils/wordUtils.go:35-50 | uncapitalizing a capitalized string equals uncapitalizing the original, and capitalizing twice equals once |
| WordUtils.CapitalizeExamples | wordUtils/wordUtils_test.go:5-24 | "i am FINE" becomes "I Am FINE", and "i aM.fine" with "." becomes "I aM.Fine" |
| WordUtils.InitialsLength | wordUtils/wordUtils.go:84-97 | after n characters at most (n+1)/2 initials are written, and at most n/2 after a delimiter |
| WordUtils.InitialsFit | wordUtils/wordUtils.go:84 | the initials never exceed the buffer of len/2 + 1 characters |
| WordUtils.InitialsAreWordStarts | wordUtils/wordUtils.go:84-97 | every initial is the character at some word start |
| WordUtils.InitialsDelimited | wordUtils/wordUtils.go:80-98 | returns str for "" or the empty list, and otherwise the first character of every word, in order |
| WordUtils.Initials | wordUtils/wordUtils.go:71-73 | the initials of the words split by white space |
| WordUtils.InitialsExample | wordUtils/wordUtils.go:80-98 | "Ben Lee" gives "BL", and "a.b" with "." gives "ab" |
| WordUtils.Swapped | wordUtils/wordUtils.go:109-131 | keeps the length |
| WordUtils.SwapCase | wordUtils/wordUtils.go:109-131 | the buffer loop with the white-space flag returns Swapped: upper and title go to lower, lower at a word start to title, other lower to upper |
| WordUtils.SwappedKeepsSpace | wordUtils/wordUtils.go:113-130 | swapping case keeps white space and keeps characters with only upper and lower forms in that set |
| WordUtils.SwapCaseInvolution | wordUtils/wordUtils.go:109-131 | on strings without title-case forms, swapping case twice gives back the string |
| WordUtils.SwapCaseTitleForm | wordUtils/wordUtils.go:119-123 | DŽ swapped twice becomes ǅ, so the involution fails once title case exists |
| WordUtils.SwapCaseExample | wordUtils/wordUtils.go:109-131 | "aB c" becomes "Ab C" |
| Fractions.GetFractionMinIntGuard | mathUtils/fraction.go:72-84 | GetFraction(1, -2^31) passes the guard and keeps a negative denominator, so the sign of the value flips |
| Fractions.GetFractionIntended | mathUtils/fraction.go:72-84 | with the true minimum in the guard, every result has a positive denominator and the value n/d |
| Fractions.GetFractionAgrees | mathUtils/fraction.go:72-84 | away from MinInt and -2^31 the corrected and the written GetFraction agree |
| Fractions.GetReducedFractionMinIntGuard | mathUtils/fraction.go:111-134 | GetReducedFraction(2, -2^31) keeps a negative denominator, so the value flips sign |
| Fractions.GetReducedFractionIntended | mathUtils/fraction.go:111-134 | with the true minimum in the guards, every result is in lowest terms with a positive denominator and the value n/d |
| Fractions.ReduceSignedIntended | mathUtils/fraction.go:116-133 | the corrected sign and halving steps fail exactly for a negative denominator with a -2^31 part, and otherwise give n/d in lowest terms |
| Fractions.GetReducedFractionAgrees | mathUtils/fraction.go:111-134 | for a positive denominator the corrected and the written GetReducedFraction agree |
| Fractions.PowMinIntGuard | mathUtils/fraction.go:192-208 | -2^31 is not MinInt, and for every receiver whose Invert succeeds, one half among them, the plain negative branch calls Pow on the inverse with the same power -2^31 |
| Fractions.PowIntended | mathUtils/fraction.go:192-208 | agrees with Pow wherever InvertIntended does not refuse; a negative power on a receiver InvertIntended refuses gives that refusal; for every power, -2^31 included, over a positive denominator a failure is an overflow or zero panic and a success is (n/d)^power |
| Fractions.InvertMinIntGuard | mathUtils/fraction.go:159-170 | as written, -2^31/1 inverts to -1/-2^31, a positive value for a negative input, and so does its power -1 |
| Fractions.NegateMinIntGuard | mathUtils/fraction.go:174-189 | as written, -2^31/1 is its own negation and its own absolute value, though its value is negative |
| Fractions.InvertIntended | mathUtils/fraction.go:159-170 | refuses every numerator or denominator it cannot negate; each result agrees with Invert, has a positive denominator and is the reciprocal |
| Fractions.NegateIntended | mathUtils/fraction.go:174-179 | refuses -2^31 as well; each result agrees with Negate and has the negated value |
| Fractions.AbsIntended | mathUtils/fraction.go:184-189 | refuses -2^31 as well; each result agrees with Abs, has a non-negative numerator and, over a positive denominator, the absolute value |
| Fractions.DivideByIntended | mathUtils/fraction.go:226-231 | inverts with InvertIntended; agrees with DivideBy where that succeeds; a zero divisor numerator is a zero panic and a divisor numerator of MinInt or -2^31 an overflow panic; a zero dividend then gives Zero; over positive denominators a failure is an overflow or zero panic, a success is the quotient in lowest terms, and for a nonzero dividend the call succeeds exactly when the cross-cancelled product with the divisor's inverse fits, as for MultiplyBy |
| Fractions.GetWholeFractionWraps | mathUtils/fraction.go:87-107 | GetWholeFraction(65536, 0, 65536) wraps the numerator to 0 instead of refusing |
| Fractions.GetWholeFractionIntended | mathUtils/fraction.go:87-107 | with the numerator computed exactly, it fails exactly when the numerator leaves [MinInt, MaxInt], and otherwise has the value whole ± n/d |
| Fractions.AddSubHalves | mathUtils/fraction.go:398-431 | 1/2 + 1/2 gives 0/1 as written, and 1/1 with the corrected branch |
| Fractions.AddSubIntended | mathUtils/fraction.go:375-432 | with Knuth's method in the non-coprime branch, a success has the value of the sum or difference; a failing gcd of the denominators is an overflow panic, a gcd of 1 gives CoprimeSumOrDifference and any other gcd KnuthSumOrDifference, whose contracts state exactly when each fails |
| Fractions.KnuthSumOrDifference | mathUtils/fraction.go:398-431 | the corrected non-coprime branch panics for a zero gcd and otherwise fails only by overflow, exactly when abs(t/d2) exceeds MaxInt or (v/d1)*(v'/d2) does, with t = u*(v'/d1) ± u'*(v/d1) and d2 = gcd(t mod d1, d1); a success is (t/d2) over that product and has the value of the sum or difference |
| Fractions.AddSubQuarterSixth | mathUtils/fraction.go:398-431 | 1/4 + 1/6 gives 0/6 as written, and 5/12 with the corrected branch |
| Fractions.AddSubOverflow | mathUtils/fraction.go:398-431 | 1/100000 + 1/100002 panics with an overflow in both versions: the denominators share only 2, and 50000 * 100002 and 50000 * 50001 exceed MaxInt |
| Fractions.PowSquare | mathUtils/fraction.go:202-204 | over a positive denominator and a nonzero numerator, Pow(2) is MultiplyBy on itself, so it succeeds exactly when the cross-cancelled square fits |
| StringUtils.RemoveEmptyStuck | stringUtils/stringUtils.go:486-496 | with an empty remove, Index gives 0 and the loop body leaves str unchanged, so the loop does not end |
| StringUtils.RemoveIntended | stringUtils/stringUtils.go:486-496 | with an empty remove returning str, the loop ends for every input and its result has no occurrence of remove |
| StringUtils.RemoveStartOffByOne | stringUtils/stringUtils.go:530-550 | "www.domain.com" without "www." gives "omain.com", in both variants, and "abc" without "abc" panics |
| StringUtils.RemoveStartIntended | stringUtils/stringUtils.go:530-538 | unchanged unless remove is a non-empty prefix; then remove followed by the result is str |
| StringUtils.RemoveStartIgnoreCaseIntended | stringUtils/stringUtils.go:542-550 | the same, with the prefix test done on lower-cased strings |
| StringUtils.RemoveStartPrepended | stringUtils/stringUtils.go:530-550 | removing a prepended non-empty prefix gives back the original, in both corrected variants |
| StringUtils.AppendIfMissingListIgnoresCase | stringUtils/stringUtils.go:56-65 | case-sensitive "abcXYZ" with suffix "q" and extra suffix "xyz" is left unchanged |
| StringUtils.AppendIfMissingIntendedExample | stringUtils/stringUtils.go:56-65 | the corrected version appends "q" there |
| StringUtils.AppendedIfMissingIntended | stringUtils/stringUtils.go:42-69 | the result is str or str + suffix, and adds the suffix exactly when str ends with no suffix, each compared in the chosen mode |

## Left out

- randUtils: it seeds and draws from Go's global random source, which is library randomness.
- Float32Value and Float64Value: they are floating point.
- GetNumerator and GetDenominator: plain field reads; the model reads the fields.
- IsBlank, RemovePattern, Strip, StripEnd, StripStart and wordUtils' ContainsAllWords: they call the regexp library. IsBlank is modelled by the class `\s` its pattern uses (tab, newline, form feed, carriage return, space), not by the regexp engine.
- JoinBool, JoinFloat64, JoinFloat64WithFormatAndPrecision, JoinInt, JoinInt64 and JoinUint64: they format numbers with strconv.
- PrependIfMissing and PrependIfMissingIgnoreCase: the tests call them, but stringUtils.go defines neither.
- IsAllLowerCase, IsAllUpperCase, IsAlpha, IsAlphanumeric, IsAlphaSpace, IsAlphanumericSpace, IsNumeric, IsNumericSpace, IsWhitespace and stringUtils' SwapCase: each tests every rune against a Unicode class (unicode.IsLower, IsUpper, IsLetter, IsDigit, IsSpace), which the ASCII stand-in of the model cannot represent faithfully.
- LowerCase and UpperCase: they are strings.ToLower and strings.ToUpper, full Unicode case mappings that the ASCII stand-in cannot represent faithfully.
- Unicode tables: letters and case mappings outside ASCII and DŽ are not modelled. Multi-byte UTF-8 is not modelled either: every character is one byte, so byte and rune offsets coincide.
- 64-bit targets: Go int is modelled only as 32 bits. The int64 intermediates of the checked primitives therefore never wrap.
- String lengths and offsets are unbounded integers: overflow of `int` in index arithmetic on huge strings is not modelled.
- Fractions.Fraction.Pow: requires power != -2^31, where the source recurses forever (see Findings); PowIntended covers that power.
- Fractions.Fraction.Pow, Fractions.Fraction.PowPositive and Fractions.PowIntended: exclude -2^31 over a zero denominator for powers >= 2, because the square calls greatestCommonDivisor(-2^31, 0), which converts 2^31 back to int (implementation-defined).
- Fractions.Fraction.Reduce and Fractions.ReduceIdempotent: require a numerator other than -2^31, because Reduce converts math.Abs(float64(-2^31)) = 2^31 back to int, which is implementation-defined.
- Fractions.Fraction.MultiplyBy and Fractions.Fraction.DivideBy: exclude a numerator of -2^31 (of the divisor's inverse, for DivideBy) against a zero denominator on the other side, because the cross gcd then converts 2^31 back to int, which is implementation-defined.
- Fractions.SumOrDifference, Fractions.AddSub and Fractions.AddSubIntended: exclude a denominator of -2^31 beside a zero denominator, because greatestCommonDivisor of the two denominators then converts 2^31 back to int, which is implementation-defined.
- Fractions.Fraction.MultiplyBy, Fractions.Fraction.DivideBy and Fractions.Fraction.Pow: their value claims and exact success conditions are stated for positive denominators only. Only the raw constructor can build other fractions.
- Fractions.Fraction.Pow, Fractions.Fraction.PowNegative, Fractions.Fraction.PowMinInt, Fractions.Fraction.PowPositive and Fractions.PowIntended: their contracts state what a failure is and what a success is, but not exactly when the nested squarings overflow, because each squaring's condition is CancelledProductFits on an intermediate power; PowSquare states it for the power 2.
- Fractions.SumOrDifference: makes no value claim for the non-coprime branch, which is wrong as written (see Findings).
- Fractions.Fraction.Invert: its positive-denominator and reciprocal claims exclude a numerator of -2^31, and the reciprocal claim a negative numerator over -2^31, where negation wraps (see Findings); its contract states the -2^31 result exactly, and InvertIntended is the corrected version.
- Fractions.Fraction.Negate: its value claim excludes a numerator of -2^31, which it returns unchanged (see Findings); NegateIntended is the corrected version.
- Fractions.Fraction.Abs: its non-negative and value claims exclude a numerator of -2^31, which it returns unchanged (see Findings), and the value claim is for a positive denominator only; AbsIntended is the corrected version.
- Fractions.Fraction.DivideBy: its quotient claim excludes a divisor numerator of -2^31, whose inverse keeps a negative denominator (see Findings); DivideByIntended is the corrected version.
- Fractions.Fraction.Pow, Fractions.Fraction.PowNegative and Fractions.Fraction.PowMinInt: their value claims exclude a numerator of -2^31 with a negative power, because they invert through Invert (see Findings); PowIntended inverts with InvertIntended.
- Fractions.GetFraction, Fractions.GetReducedFraction and Fractions.ReduceSigned: their value claims exclude parts equal to -2^31, where the MinInt guard lets a negative denominator through (see Findings).
- BinaryGcd.Gcd: requires that an argument is -2^31 only when the other is nonzero. Otherwise Go's int(|u| + |v|) converts 2^31, which is implementation-defined.
- StringUtils.Remove: requires a non-empty remove for a non-empty str, because the source loops forever there (see Findings).
- WordUtils.SwapCaseInvolution: holds only for strings without title-case letters, because DŽ's title form breaks it (SwapCaseTitleForm).

## Findings

| source | as written | input that shows it | evidently intended | confidence | as-written member | corrected member |
|---|---|---|---|---|---|---|
| mathUtils/fraction.go:72-84 | the guard compares with MinInt = -2^31 + 2, so a denominator of -2^31 is not negated | GetFraction(1, -2^31) gives -1/-2^31, because negating -2^31 wraps, so the value is positive | refuse -2^31 as well, so every result has a positive denominator | not executed | Fractions.GetFractionMinIntGuard | Fractions.GetFractionIntended |
| mathUtils/fraction.go:111-134 | the halving and sign steps compare with MinInt, not -2^31 | GetReducedFraction(2, -2^31) gives -1/-2^30, a positive value for a negative input | halve -2^31 and refuse what still cannot be negated | not executed | Fractions.GetReducedFractionMinIntGuard | Fractions.GetReducedFractionIntended |
| mathUtils/fraction.go:192-208 | the power is compared with MinInt, so -2^31 takes the plain negative branch and recurses on Go's -(-2^31) = -2^31 | OneHalf.Pow(-2^31): its inverse 2/1 is Pow'ed with -2^31 again, and so on forever (a receiver whose Invert panics panics instead) | treat -2^31 like MinInt: square the inverse and halve the power | not executed | Fractions.PowMinIntGuard | Fractions.PowIntended |
| mathUtils/fraction.go:159-170 | the numerator is compared with MinInt = -2^31 + 2, so -2^31 is negated, and wraps to itself | Invert of -2^31/1 gives -1/-2^31, a positive value; Pow(-1) and DivideBy go through it | refuse -2^31 as well, and a negative numerator over -2^31 | not executed | Fractions.InvertMinIntGuard | Fractions.InvertIntended |
| mathUtils/fraction.go:174-189 | Negate compares with MinInt, so -2^31 is negated to itself, and Abs returns it | Negate and Abs of -2^31/1 both give -2^31/1, whose value is negative | refuse -2^31 as well | not executed | Fractions.NegateMinIntGuard | Fractions.NegateIntended |
| mathUtils/fraction.go:87-107 | whole*d and the sum are computed in int and wrap before the range check | GetWholeFraction(65536, 0, 65536) gives 0/65536 instead of nil | compute the numerator exactly and refuse it outside the range | not executed | Fractions.GetWholeFractionWraps | Fractions.GetWholeFractionIntended |
| mathUtils/fraction.go:398-431 | the cross products are not divided by d1, and t.Mod overwrites t before the division | OneHalf plus OneHalf gives 0/1 | Knuth's method: (u*(v'/d1) ± u'*(v/d1)) / d2 over (v/d1)*(v'/d2) | not executed | Fractions.AddSubHalves | Fractions.AddSubIntended |
| stringUtils/stringUtils.go:530-538 | slices from len(remove)+1 | RemoveStart("www.domain.com", "www.") gives "omain.com"; RemoveStart("abc", "abc") panics | slice from len(remove) | not executed | StringUtils.RemoveStartOffByOne | StringUtils.RemoveStartIntended |
| stringUtils/stringUtils.go:542-550 | slices from len(remove)+1 | RemoveStartIgnoreCase("WWW.domain.com", "www.") gives "omain.com" | slice from len(remove) | not executed | StringUtils.RemoveStartOffByOne | StringUtils.RemoveStartIgnoreCaseIntended |
| stringUtils/stringUtils.go:486-496 | strings.Index(str, "") is 0 and removing an empty string changes nothing, so the loop never ends | Remove("x", "") | return str for an empty remove | not executed | StringUtils.RemoveEmptyStuck | StringUtils.RemoveIntended |
| stringUtils/stringUtils.go:56-65 | the extra suffixes are always compared ignoring case, even in the case-sensitive mode | AppendIfMissing("abcXYZ", "q", "xyz") gives "abcXYZ" | compare the extra suffixes in the same mode as the main one | not executed | StringUtils.AppendIfMissingListIgnoresCase | StringUtils.AppendedIfMissingIntended |
