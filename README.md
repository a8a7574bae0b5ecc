# GCD utilities and IEEE 754 bit-string rendering, modelled in Dafny

This project models two small C# components and proves what they compute.

**GreatestCommonDivisor/FindGCD.cs** has four GCD operations:

- `SearchByEuclid(long, long)` is the subtractive Euclid loop. It swaps the operands so that `x` is the smaller, then sets `y = y - x`, until the two are equal.
- `SearchByStein(long, long)` is the recursive binary GCD (Stein's algorithm). It uses parity tests, halving and `|x - y|`.
- Each has an array overload. The overload throws on a `null` array or one with fewer than two elements, then folds the pairwise operation over the elements.

The model is in `find_gcd.dfy` (module `FindGcd`). The loops are methods with invariants. Stein is a recursive function with a lexicographic termination measure. All four are proved against a mathematical `Gcd` from `gcd_math.dfy` (module `GcdMath`). That `Gcd` is the remainder form of Euclid, a different computation from both algorithms. It is characterised as the greatest common divisor: it divides both operands, and every common divisor divides it. An exception becomes `Failure(ArgumentNull)` or `Failure(Argument)` of a `Result`. `long` is the newtype `int64`, so Dafny proves that no subtraction or `<< 1` overflows.

**BinaryNumberRepresentation/StringRepresentationOfaNumber.cs** renders a `double` as a 64-character string in the binary64 layout of section 3.4 of IEEE 754-2008: 1 sign bit, 11 biased-exponent bits, 52 trailing-significand bits. The model is in `string_representation.dfy` (module `StringRepresentation`). Two readings of a digit string live in `binary_digits.dfy` (module `BinaryDigits`). `BinaryValue` reads the digits as an unsigned integer, most significant first. `FractionValue` reads them as the digits after a binary point. The proofs use both:

- The exponent renderer is the low 11 bits of its argument. Read back, it gives the argument modulo 2048, and rendering a binary string's value gives the string back.
- The mantissa renderer gives the first 52 binary digits of its fraction: with `S` their value, `S <= f < S + 2^-52`. This truncation is unique, and it gives a round trip from digits to value and back.

The source's `'0'`/`'1'` constants are modelled by their character values only.

## Model

| member | source | states |
|---|---|---|
| `FindGcd.SearchByEuclid` | GreatestCommonDivisor/FindGCD.cs:7-23 | fails with an argument error exactly when an operand is zero; otherwise the loop terminates (the sum decreases), both variables stay positive, the gcd of the pair is invariant, and the result is `Gcd(x, y)` |
| `GcdMath.GcdIsCommonDivisor` | GreatestCommonDivisor/FindGCD.cs:12-22 | the reference gcd divides both operands, so the result of either algorithm divides both inputs |
| `GcdMath.GcdIsGreatest` | GreatestCommonDivisor/FindGCD.cs:12-22 | every common divisor of the operands divides the reference gcd: it is the greatest common divisor |
| `GcdMath.GcdSubtract` | GreatestCommonDivisor/FindGCD.cs:20 | replacing `y` by `y - x` (with `x <= y`) keeps the gcd |
| `GcdMath.GcdCommutative` | GreatestCommonDivisor/FindGCD.cs:14-19 | the gcd is symmetric, so the swap keeps it and `SearchByEuclid(x, y) == SearchByEuclid(y, x)` |
| `GcdMath.GcdSelf` | GreatestCommonDivisor/FindGCD.cs:12 | `Gcd(x, x) == x`, so `SearchByEuclid(x, x) == x` and Stein's `x == y` short-circuit returns the gcd |
| `FindGcd.SearchByStein` | GreatestCommonDivisor/FindGCD.cs:42-63 | fails with an argument error exactly when an operand is zero; otherwise terminates under the measure (max, which operand holds it, sum) and returns `Gcd(x, y)`, the same value as `SearchByEuclid`; the doubled result of the even/even case never overflows |
| `FindGcd.SteinStep` | GreatestCommonDivisor/FindGCD.cs:54-61 | each recursive case keeps the gcd: even/even halves it, a single even operand can be halved, odd/odd may become `(y, abs(x - y))` |
| `GcdMath.GcdDouble` | GreatestCommonDivisor/FindGCD.cs:55-56 | `gcd(2a, 2b) == 2 gcd(a, b)` |
| `GcdMath.GcdHalveEven` | GreatestCommonDivisor/FindGCD.cs:57-60 | with `x` odd and `y` even, `gcd(x, y / 2) == gcd(x, y)` |
| `GcdMath.GcdAbsDifference` | GreatestCommonDivisor/FindGCD.cs:61 | `gcd(y, abs(x - y)) == gcd(x, y)` |
| `FindGcd.SearchByEuclidArray` | GreatestCommonDivisor/FindGCD.cs:25-40 | a null-argument error on `null`, an argument error on fewer than two elements or on a zero element, otherwise the left fold of `Gcd` from `gcd(a[0], a[1])` over the whole array |
| `FindGcd.FoldIsGreatestCommonDivisor` | GreatestCommonDivisor/FindGCD.cs:33-39 | the left fold divides every element, and every common divisor of all elements divides it |
| `FindGcd.SearchBySteinArray` | GreatestCommonDivisor/FindGCD.cs:65-80 | the same errors and the same result as the Euclid overload, although its loop starts again at index 0 and folds `a[0]` and `a[1]` twice |
| `GcdMath.GcdOfDivisor` | GreatestCommonDivisor/FindGCD.cs:73-79 | `gcd(g, a) == g` when `g` divides `a`, which is why re-folding `a[0]` and `a[1]` changes nothing |
| `StringRepresentation.GetSign` | BinaryNumberRepresentation/StringRepresentationOfaNumber.cs:47-52 | `'1'` exactly when the number is strictly below zero, `'0'` otherwise, zero included |
| `StringRepresentation.GetExponentBinaryRepresentation` | BinaryNumberRepresentation/StringRepresentationOfaNumber.cs:59-76 | the loop fills the buffer from the back with the low bits of `number`; the result has 11 binary digits, reads back as `number mod 2048`, and reads back exactly `number` for `0 <= number < 2048` |
| `StringRepresentation.ExponentBits` | BinaryNumberRepresentation/StringRepresentationOfaNumber.cs:63-74 | the rendering has exactly `k` characters, each `'0'` or `'1'` |
| `StringRepresentation.ExponentBitsAt` | BinaryNumberRepresentation/StringRepresentationOfaNumber.cs:63-74 | the character at index `k - 1 - i` is bit `i` of the input: most significant bit first |
| `StringRepresentation.ShiftIsDivision` | BinaryNumberRepresentation/StringRepresentationOfaNumber.cs:73 | `i` arithmetic right shifts divide by `2^i`, rounding down |
| `StringRepresentation.ExponentBitsValue` | BinaryNumberRepresentation/StringRepresentationOfaNumber.cs:63-75 | read in base 2, the rendering is the input modulo `2^k` |
| `StringRepresentation.ExponentBitsRoundTrip` | BinaryNumberRepresentation/StringRepresentationOfaNumber.cs:63-75 | rendering the value of a binary string gives the string back |
| `StringRepresentation.ExponentBitsOfTwo` | BinaryNumberRepresentation/StringRepresentationOfaNumber.cs:63-75 | 1024 renders as `10000000000` |
| `StringRepresentation.ExponentBitsOfOne` | BinaryNumberRepresentation/StringRepresentationOfaNumber.cs:63-75 | 1023 renders as `01111111111` |
| `StringRepresentation.ExponentBitsOfHalf` | BinaryNumberRepresentation/StringRepresentationOfaNumber.cs:63-75 | 1022 renders as `01111111110` |
| `StringRepresentation.GetMantissaBinaryRepresentation` | BinaryNumberRepresentation/StringRepresentationOfaNumber.cs:83-102 | for a fraction in [0, 1): the running fraction stays in [0, 1), the result has 52 binary digits, and its value `S` satisfies `S <= fraction < S + 2^-52` |
| `StringRepresentation.MantissaBits` | BinaryNumberRepresentation/StringRepresentationOfaNumber.cs:85-101 | the rendering has exactly `k` characters |
| `StringRepresentation.MantissaBitsSnoc` | BinaryNumberRepresentation/StringRepresentationOfaNumber.cs:87-99 | iteration `i` appends `'1'` exactly when the doubled running fraction is at least 1, and subtracts 1 from it in that case |
| `StringRepresentation.RemainderRange` | BinaryNumberRepresentation/StringRepresentationOfaNumber.cs:87-99 | starting in [0, 1), the running fraction stays in [0, 1) after every iteration |
| `StringRepresentation.MantissaBitsApproximate` | BinaryNumberRepresentation/StringRepresentationOfaNumber.cs:87-101 | the digits are `f` truncated to `k` binary places: `S <= f < S + 2^-k` |
| `StringRepresentation.MantissaBitsUnique` | BinaryNumberRepresentation/StringRepresentationOfaNumber.cs:87-101 | any binary string `t` with `S(t) <= f < S(t) + 2^-len(t)` is the rendering of `f`, so the output is the first binary digits of `f` |
| `StringRepresentation.MantissaBitsRoundTrip` | BinaryNumberRepresentation/StringRepresentationOfaNumber.cs:87-101 | rendering the value of a binary fraction gives its digits back |
| `StringRepresentation.MantissaBitsOfZero` | BinaryNumberRepresentation/StringRepresentationOfaNumber.cs:87-101 | a zero fraction renders as all `'0'` |
| `StringRepresentation.Layout` | BinaryNumberRepresentation/StringRepresentationOfaNumber.cs:25-39 | 64 binary characters: the sign character, whose `'1'` means negative, then 11 exponent characters reading back as the exponent mod 2048, then 52 fraction characters that truncate the fraction |
| `StringRepresentation.LayoutExamples` | BinaryNumberRepresentation/StringRepresentationOfaNumber.cs:25-39 | 1.0 and -1.0 (exponent 1023, fraction 0) and 2.0 (exponent 1024, fraction 0) give the expected full strings |
| `StringRepresentation.ToBinary` | BinaryNumberRepresentation/StringRepresentationOfaNumber.cs:23-40 | appending sign, exponent field and fraction field to the builder yields that layout |

## Left out

- `GetExponent` and `GetMantissa` (StringRepresentationOfaNumber.cs:109-135) are not modelled. They use `Math.Pow` and floating-point division with rounding. `ToBinary` therefore takes the biased exponent and the fraction as parameters. The negation of a negative `number` in `ToBinary` is not modelled either, because only those two functions use the negated value.
- `GetExponent` searches upward from `power = 0` (StringRepresentationOfaNumber.cs:111-118). For an input in [0, 1) it only ends after `power` passes `int.MaxValue`. Unchecked, `power++` then wraps to `int.MinValue` and keeps counting up, `Math.Pow(2, power)` underflows to 0 at first, and the loop stops after about 2^32 iterations: at `floor(log2 x)` for `0 < x < 1`, which is the right exponent, and at `int.MinValue` for 0.0, whose candidate `0 / 0 - 1` is NaN and fails both tests of line 114. With checked arithmetic it throws `OverflowException` instead. None of this is modelled.
- GetMantissaBinaryRepresentation: requires `0 <= fraction < 1`. `ToBinary` passes such a fraction for every nonzero finite input, because `GetExponent` exits only once its candidate lies in [0, 1) and `GetMantissa` recomputes the same value. It does not for 0.0: `GetMantissa` (line 133) recomputes the NaN candidate, and the source's loop then writes 52 `'1'`s, because `NaN < 1` is false at line 91 and `NaN - 1` stays NaN. The NaN fraction, and so `ToBinary(0.0)`, is not modelled (its biased exponent `int.MinValue + 1023` renders as `01111111111`). The method works over `real`. For fractions in [0, 1) this matches binary64: doubling is exact, and subtracting 1 from a value in [1, 2) is exact (Sterbenz's lemma).
- GetSign: works over `real`. Signed zero, NaN and infinities of `double` are not modelled.
- SearchByEuclid: requires operands that are not negative. On negative operands the source can diverge or overflow: `(-2, 4)` grows `y` forever.
- SearchByStein: requires operands that are not negative. On negative operands `&` and `>>` act on two's complement. On the modelled range `x & 1` is `x % 2` and `x >> 1` is `x / 2`.
- SearchByEuclidArray: requires elements that are not negative, for the same reason.
- SearchBySteinArray: requires elements that are not negative, for the same reason.
- `StringBuilder` and `new string(char[])` become sequence concatenation and `bits[..]`.
