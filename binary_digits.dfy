/** Readings of a string of binary digits as a number: `BinaryValue` reads it
    as an unsigned integer, most significant digit first; `FractionValue`
    reads it as the digits after a binary point. */
module BinaryDigits {

  /** Every character is `'0'` or `'1'`. */
  predicate IsBinary(s: string) {
    forall i :: 0 <= i < |s| ==> s[i] == '0' || s[i] == '1'
  }

  function DigitValue(c: char): nat {
    if c == '1' then 1 else 0
  }

  function Pow2(k: nat): (p: nat)
    ensures p >= 1
  {
    if k == 0 then 1 else 2 * Pow2(k - 1)
  }

  /** 2 to the power `-k`. */
  function HalfPow(k: nat): (p: real)
    ensures 0.0 < p <= 1.0
  {
    if k == 0 then 1.0 else HalfPow(k - 1) / 2.0
  }

  /** Base-2 value, most significant digit first. */
  function BinaryValue(s: string): nat {
    if s == [] then 0 else 2 * BinaryValue(s[..|s| - 1]) + DigitValue(s[|s| - 1])
  }

  /** The value of `0.s` in base 2: `s[i]` weighs `2^-(i+1)`. */
  function FractionValue(s: string): real {
    if s == [] then 0.0 else (DigitValue(s[0]) as real + FractionValue(s[1..])) / 2.0
  }

  /** A `k`-digit binary fraction lies in `[0, 1 - 2^-k]`. */
  lemma {:induction false} FractionValueBound(s: string)
    ensures 0.0 <= FractionValue(s) <= 1.0 - HalfPow(|s|)
  {
    if s != [] {
      FractionValueBound(s[1..]);
    }
  }

  /** Division and remainder are determined by `n == m * q + r, 0 <= r < m`. */
  lemma DivModUnique(n: int, m: int, q: int, r: int)
    requires 0 < m && n == m * q + r && 0 <= r < m
    ensures n / m == q && n % m == r
  {
    var q', r' := n / m, n % m;
    assert n == m * q' + r';
    assert m * q - m * q' == r' - r;
    assert m * (q - q') == r' - r;
    SmallMultiple(m, q - q');
  }

  /** The only multiple of `m` strictly between `-m` and `m` is zero. */
  lemma SmallMultiple(m: int, d: int)
    requires 0 < m && -m < m * d < m
    ensures d == 0
  {
  }

  /** Bits and halvings of `n` by `2^(k+1)` are those of `n / 2` by `2^k`:
      the low `k + 1` bits are bit 0 followed by the low `k` bits of `n / 2`,
      and halving `k + 1` times is halving once, then `k` times. */
  lemma HalveDouble(n: int, k: nat)
    ensures n % Pow2(k + 1) == 2 * ((n / 2) % Pow2(k)) + n % 2
    ensures n / Pow2(k + 1) == (n / 2) / Pow2(k)
  {
    var m := Pow2(k);
    var q, b := n / 2, n % 2;
    var a, c := q / m, q % m;
    assert n == 2 * q + b;
    assert q == m * a + c;
    assert n == (2 * m) * a + (2 * c + b);
    DivModUnique(n, 2 * m, a, 2 * c + b);
  }
}
