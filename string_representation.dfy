/** The bit-string renderer of
    BinaryNumberRepresentation/StringRepresentationOfaNumber.cs: the sign
    character, the 11-character exponent field, the 52-character fraction
    field, and their concatenation into the 64-character IEEE 754 binary64
    layout (section 3.4 of IEEE 754-2008).

    The biased exponent and the fraction that `ToBinary` renders are taken as
    inputs here; how the source searches for them is not part of this model. */
module StringRepresentation {
  import opened BinaryDigits

  /** The C# `int`. */
  newtype int32 = x: int | -0x8000_0000 <= x < 0x8000_0000

  const ExponentWidth: nat := 11
  const MantissaWidth: nat := 52

  /** The character for one bit. */
  function Digit(bit: bool): char {
    if bit then '1' else '0'
  }

  /** `GetSign`: `'1'` for a number strictly below zero, `'0'` otherwise. */
  function GetSign(number: real): (c: char)
    ensures c == '1' <==> number < 0.0
    ensures c == '0' <==> number >= 0.0
  {
    if number < 0.0 then '1' else '0'
  }

  /** `n >> i` on a two's-complement integer: `i` halvings rounded down. */
  function Shift(n: int, i: nat): int
    decreases i
  {
    if i == 0 then n else Shift(n / 2, i - 1)
  }

  lemma {:induction false} ShiftStep(n: int, i: nat)
    decreases i
    ensures Shift(n, i + 1) == Shift(n, i) / 2
  {
    if i > 0 {
      ShiftStep(n / 2, i - 1);
    }
  }

  /** Shifting right by `i` divides by `2^i`, rounding down. */
  lemma {:induction false} ShiftIsDivision(n: int, i: nat)
    decreases i
    ensures Shift(n, i) == n / Pow2(i)
  {
    if i > 0 {
      ShiftIsDivision(n / 2, i - 1);
      HalveDouble(n, i - 1);
    }
  }

  /** The low `k` bits of `n`, most significant first: bit 0 of `n` is the
      last character and the rest are the low `k - 1` bits of `n >> 1`. */
  function ExponentBits(n: int, k: nat): (s: string)
    decreases k
    ensures |s| == k && IsBinary(s)
  {
    if k == 0 then [] else ExponentBits(n / 2, k - 1) + [Digit(n % 2 == 1)]
  }

  /** Rendering one more bit puts bit `k` of `n` in front. */
  lemma {:induction false} ExponentBitsPrepend(n: int, k: nat)
    decreases k
    ensures ExponentBits(n, k + 1) == [Digit(Shift(n, k) % 2 == 1)] + ExponentBits(n, k)
  {
    if k > 0 {
      ExponentBitsPrepend(n / 2, k - 1);
    }
  }

  /** The character at index `k - 1 - i` is bit `i` of `n`. */
  lemma {:induction false} ExponentBitsAt(n: int, k: nat, i: nat)
    requires i < k
    decreases k
    ensures ExponentBits(n, k)[k - 1 - i] == Digit((n / Pow2(i)) % 2 == 1)
  {
    ShiftIsDivision(n, i);
    if i > 0 {
      ExponentBitsAt(n / 2, k - 1, i - 1);
      ShiftIsDivision(n / 2, i - 1);
    }
  }

  /** Read back in base 2, the rendering is `n` modulo `2^k`. */
  lemma {:induction false} ExponentBitsValue(n: int, k: nat)
    decreases k
    ensures BinaryValue(ExponentBits(n, k)) == n % Pow2(k)
  {
    if k > 0 {
      var s := ExponentBits(n, k);
      ExponentBitsValue(n / 2, k - 1);
      assert s[..k - 1] == ExponentBits(n / 2, k - 1);
      HalveDouble(n, k - 1);
    }
  }

  /** Rendering the value of a binary string gives the string back. */
  lemma {:induction false} ExponentBitsRoundTrip(t: string)
    requires IsBinary(t)
    ensures ExponentBits(BinaryValue(t), |t|) == t
  {
    if t != [] {
      var init := t[..|t| - 1];
      var v := BinaryValue(t);
      assert v / 2 == BinaryValue(init) && v % 2 == DigitValue(t[|t| - 1]);
      ExponentBitsRoundTrip(init);
      assert t == init + [t[|t| - 1]];
    }
  }

  /** The exponent field of 2.0: biased exponent 1024. */
  lemma ExponentBitsOfTwo()
    ensures ExponentBits(1024, ExponentWidth) == "10000000000"
  {
  }

  /** The exponent field of 1.0: biased exponent 1023, the bias itself. */
  lemma ExponentBitsOfOne()
    ensures ExponentBits(1023, ExponentWidth) == "01111111111"
  {
  }

  /** The exponent field of 0.5: biased exponent 1022. */
  lemma ExponentBitsOfHalf()
    ensures ExponentBits(1022, ExponentWidth) == "01111111110"
  {
  }

  lemma ExponentFieldSize()
    ensures Pow2(ExponentWidth) == 2048
  {
  }

  /** `GetExponentBinaryRepresentation`: fill an 11-character buffer from the
      back, testing `number & 1` and shifting `number` right. */
  method GetExponentBinaryRepresentation(number: int32) returns (s: string)
    ensures s == ExponentBits(number as int, ExponentWidth)
    ensures |s| == ExponentWidth && IsBinary(s)
    ensures BinaryValue(s) == number as int % 2048
    ensures 0 <= number < 2048 ==> BinaryValue(s) == number as int
  {
    var bits := new char[ExponentWidth];
    var n := number;
    for i := 0 to ExponentWidth
      invariant n as int == Shift(number as int, i)
      invariant bits[ExponentWidth - i..] == ExponentBits(number as int, i)
    {
      if n % 2 == 1 {
        bits[ExponentWidth - 1 - i] := '1';
      } else {
        bits[ExponentWidth - 1 - i] := '0';
      }
      assert bits[ExponentWidth - 1 - i..] == [bits[ExponentWidth - 1 - i]] + bits[ExponentWidth - i..];
      ExponentBitsPrepend(number as int, i);
      ShiftStep(number as int, i);
      n := n / 2;
    }
    s := bits[..];
    ExponentBitsValue(number as int, ExponentWidth);
    ExponentFieldSize();
    if 0 <= number < 2048 {
      DivModUnique(number as int, 2048, 0, number as int);
    }
  }

  /** The digit one iteration of the doubling loop emits for `f`. */
  function StepDigit(f: real): char {
    Digit(2.0 * f >= 1.0)
  }

  /** The fraction one iteration of the doubling loop leaves: `2f`, less 1
      when that reaches 1. */
  function StepFraction(f: real): real {
    if 2.0 * f < 1.0 then 2.0 * f else 2.0 * f - 1.0
  }

  /** The first `k` binary digits of `f` by repeated doubling: a doubled
      value below 1 gives `'0'`, otherwise `'1'` and 1 is subtracted. */
  function MantissaBits(f: real, k: nat): (s: string)
    decreases k
    ensures |s| == k
  {
    if k == 0 then [] else [StepDigit(f)] + MantissaBits(StepFraction(f), k - 1)
  }

  /** Every character of the rendering is a binary digit. */
  lemma {:induction false} MantissaBitsBinary(f: real, k: nat)
    decreases k
    ensures IsBinary(MantissaBits(f, k))
  {
    if k > 0 {
      MantissaBitsBinary(StepFraction(f), k - 1);
    }
  }

  /** The running fraction after `i` iterations of the doubling loop. */
  function Remainder(f: real, i: nat): real
    decreases i
  {
    if i == 0 then f else Remainder(StepFraction(f), i - 1)
  }

  /** The running fraction stays in [0, 1). */
  lemma {:induction false} RemainderRange(f: real, i: nat)
    requires 0.0 <= f < 1.0
    decreases i
    ensures 0.0 <= Remainder(f, i) < 1.0
  {
    if i > 0 {
      RemainderRange(StepFraction(f), i - 1);
    }
  }

  /** Iteration `i` of the doubling loop appends the digit of the running
      fraction and replaces the running fraction by its step. */
  lemma {:induction false} MantissaBitsSnoc(f: real, i: nat)
    decreases i
    ensures MantissaBits(f, i + 1) == MantissaBits(f, i) + [StepDigit(Remainder(f, i))]
    ensures Remainder(f, i + 1) == StepFraction(Remainder(f, i))
  {
    if i > 0 {
      MantissaBitsSnoc(StepFraction(f), i - 1);
    }
  }

  /** The digits read back as a binary fraction `S` satisfy
      `S <= f < S + 2^-k`: they are `f` truncated to `k` binary places. */
  lemma {:induction false} MantissaBitsApproximate(f: real, k: nat)
    requires 0.0 <= f < 1.0
    decreases k
    ensures FractionValue(MantissaBits(f, k)) <= f < FractionValue(MantissaBits(f, k)) + HalfPow(k)
  {
    if k > 0 {
      var s := MantissaBits(f, k);
      MantissaBitsApproximate(StepFraction(f), k - 1);
      assert s[1..] == MantissaBits(StepFraction(f), k - 1);
    }
  }

  /** Truncation is unique: the only binary string `t` with
      `S(t) <= f < S(t) + 2^-|t|` is the rendering of `f`. */
  lemma {:induction false} MantissaBitsUnique(f: real, t: string)
    requires IsBinary(t)
    requires FractionValue(t) <= f < FractionValue(t) + HalfPow(|t|)
    ensures MantissaBits(f, |t|) == t
    decreases |t|
  {
    if t != [] {
      var rest := t[1..];
      FractionValueBound(rest);
      if t[0] == '1' {
        MantissaBitsUnique(2.0 * f - 1.0, rest);
      } else {
        MantissaBitsUnique(2.0 * f, rest);
      }
      assert t == [t[0]] + rest;
    }
  }

  /** Rendering the value of a binary fraction gives the digits back. */
  lemma MantissaBitsRoundTrip(t: string)
    requires IsBinary(t)
    ensures MantissaBits(FractionValue(t), |t|) == t
  {
    MantissaBitsUnique(FractionValue(t), t);
  }

  /** Zero renders as all zeros: the fraction field of 1.0, -1.0, 2.0, 0.5. */
  lemma {:induction false} MantissaBitsOfZero(k: nat)
    ensures MantissaBits(0.0, k) == seq(k, _ => '0')
  {
    if k > 0 {
      MantissaBitsOfZero(k - 1);
      assert seq(k, _ => '0') == ['0'] + seq(k - 1, _ => '0');
    }
  }

  /** `GetMantissaBinaryRepresentation`: fill a 52-character buffer from the
      front, doubling `fraction` and subtracting 1 whenever it reaches 1.
      Over binary64 both steps are exact for a fraction in [0, 1): doubling
      only changes the exponent, and subtracting 1 from a value in [1, 2) is
      exact (Sterbenz's lemma), so real arithmetic is faithful here. */
  method GetMantissaBinaryRepresentation(fraction: real) returns (s: string)
    requires 0.0 <= fraction < 1.0
    ensures s == MantissaBits(fraction, MantissaWidth)
    ensures |s| == MantissaWidth && IsBinary(s)
    ensures FractionValue(s) <= fraction < FractionValue(s) + HalfPow(MantissaWidth)
  {
    var bits := new char[MantissaWidth];
    var f := fraction;
    for i := 0 to bits.Length
      invariant f == Remainder(fraction, i) && 0.0 <= f < 1.0
      invariant bits[..i] == MantissaBits(fraction, i)
    {
      ghost var done := bits[..i];
      MantissaBitsSnoc(fraction, i);
      f := f * 2.0;
      if f < 1.0 {
        bits[i] := '0';
      } else {
        bits[i] := '1';
        f := f - 1.0;
      }
      assert bits[..i + 1] == done + [bits[i]];
    }
    assert bits[..] == bits[..MantissaWidth];
    s := bits[..];
    MantissaBitsBinary(fraction, MantissaWidth);
    MantissaBitsApproximate(fraction, MantissaWidth);
  }

  /** The 64-character result: sign, then exponent field, then fraction field. */
  function Layout(number: real, exponent: int, fraction: real): (s: string)
    requires 0.0 <= fraction < 1.0
    ensures |s| == 1 + ExponentWidth + MantissaWidth == 64 && IsBinary(s)
    ensures s[0] == '1' <==> number < 0.0
    ensures BinaryValue(s[1..12]) == exponent % Pow2(ExponentWidth)
    ensures FractionValue(s[12..]) <= fraction < FractionValue(s[12..]) + HalfPow(MantissaWidth)
  {
    var e := ExponentBits(exponent, ExponentWidth);
    var m := MantissaBits(fraction, MantissaWidth);
    ExponentBitsValue(exponent, ExponentWidth);
    MantissaBitsApproximate(fraction, MantissaWidth);
    MantissaBitsBinary(fraction, MantissaWidth);
    var s := [GetSign(number)] + e + m;
    assert s[1..12] == e && s[12..] == m;
    s
  }

  /** The full strings of 1.0 and -1.0 (biased exponent 1023, fraction 0) and
      of 2.0 (biased exponent 1024, fraction 0). */
  lemma LayoutExamples()
    ensures Layout(1.0, 1023, 0.0) == "0" + "01111111111" + seq(52, _ => '0')
    ensures Layout(-1.0, 1023, 0.0) == "1" + "01111111111" + seq(52, _ => '0')
    ensures Layout(2.0, 1024, 0.0) == "0" + "10000000000" + seq(52, _ => '0')
  {
    ExponentBitsOfOne();
    ExponentBitsOfTwo();
    MantissaBitsOfZero(MantissaWidth);
  }

  /** `ToBinary`: append the sign character, the exponent field and the
      fraction field to a builder. `exponent` and `fraction` stand for what
      the source computes from the magnitude of `number`. */
  method ToBinary(number: real, exponent: int32, fraction: real) returns (s: string)
    requires 0.0 <= fraction < 1.0
    ensures s == Layout(number, exponent as int, fraction)
  {
    var builder: string := [];
    var sign := GetSign(number);
    builder := builder + [sign];
    var exponentBits := GetExponentBinaryRepresentation(exponent);
    builder := builder + exponentBits;
    var mantissaBits := GetMantissaBinaryRepresentation(fraction);
    builder := builder + mantissaBits;
    s := builder;
  }
}
