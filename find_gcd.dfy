/** The GCD utilities of GreatestCommonDivisor/FindGCD.cs: the subtractive
    Euclid loop, Stein's binary recursion, and the array overloads that fold
    each of them over an array of `long` values.

    A thrown exception is a `Failure` carrying the exception's kind. Operands
    are `long` values that are not negative. */
module FindGcd {
  import opened GcdMath

  /** The C# `long`: overflow is a verification error, not a wrap-around. */
  newtype int64 = x: int | -0x8000_0000_0000_0000 <= x < 0x8000_0000_0000_0000

  /** The exceptions the source throws. */
  datatype Error = ArgumentNull | Argument

  datatype Result<T> = Success(value: T) | Failure(error: Error)

  function Max(x: int, y: int): int {
    if x >= y then x else y
  }

  /** Every element of `s` is strictly positive. */
  predicate AllPositive(s: seq<int64>) {
    forall i :: 0 <= i < |s| ==> s[i] > 0
  }

  /** No element of `s` is negative. */
  predicate NonNegative(s: seq<int64>) {
    forall i :: 0 <= i < |s| ==> s[i] >= 0
  }

  /** Left fold of `Gcd` over `s`: `gcd(... gcd(gcd(s[0], s[1]), s[2]) ..., s[n-1])`. */
  function Fold(s: seq<int64>): nat
    requires |s| >= 1 && NonNegative(s)
  {
    if |s| == 1 then s[0] as nat else Gcd(Fold(s[..|s| - 1]), s[|s| - 1] as nat)
  }

  /** `Fold(s)` is the greatest common divisor of all of `s`: it divides every
      element, and every common divisor of the elements divides it. */
  lemma {:induction false} FoldIsGreatestCommonDivisor(s: seq<int64>, d: nat)
    requires |s| >= 1 && NonNegative(s)
    ensures forall i :: 0 <= i < |s| ==> Divides(Fold(s), s[i] as nat)
    ensures (forall i :: 0 <= i < |s| ==> Divides(d, s[i] as nat)) ==> Divides(d, Fold(s))
  {
    if |s| == 1 {
      DividesSelf(s[0] as nat);
    } else {
      var init, last := s[..|s| - 1], s[|s| - 1] as nat;
      FoldIsGreatestCommonDivisor(init, d);
      var f := Fold(init);
      GcdIsCommonDivisor(f, last);
      forall i | 0 <= i < |s|
        ensures Divides(Fold(s), s[i] as nat)
      {
        if i < |s| - 1 {
          assert s[i] == init[i];
          DividesTransitive(Fold(s), f, s[i] as nat);
        }
      }
      if forall i :: 0 <= i < |s| ==> Divides(d, s[i] as nat) {
        assert forall i :: 0 <= i < |init| ==> init[i] == s[i];
        GcdIsGreatest(f, last, d);
      }
    }
  }

  /** One more step of the array loops: the fold of a longer prefix. */
  lemma FoldPrefix(s: seq<int64>, i: nat)
    requires 1 <= i < |s| && NonNegative(s)
    ensures NonNegative(s[..i]) && NonNegative(s[..i + 1])
    ensures Fold(s[..i + 1]) == Gcd(Fold(s[..i]), s[i] as nat)
  {
    assert s[..i + 1][..i] == s[..i];
  }

  /** The first step of the array loops: the fold of the first two elements. */
  lemma FoldPair(s: seq<int64>)
    requires 2 <= |s| && NonNegative(s)
    ensures NonNegative(s[..2]) && Fold(s[..2]) == Gcd(s[0] as nat, s[1] as nat)
  {
    assert s[..2][..1] == [s[0]];
  }

  /** Extending a positive prefix by a positive element. */
  lemma AllPositivePrefix(s: seq<int64>, i: nat)
    requires i < |s| && AllPositive(s[..i]) && s[i] > 0
    ensures AllPositive(s[..i + 1])
  {
  }

  /** `SearchByEuclid(long, long)`: subtract the smaller from the larger,
      swapping so that `x` is the smaller, until both are equal. */
  method SearchByEuclid(x: int64, y: int64) returns (r: Result<int64>)
    requires x >= 0 && y >= 0
    ensures r.Failure? <==> x == 0 || y == 0
    ensures r.Failure? ==> r.error == Argument
    ensures r.Success? ==> r.value as int == Gcd(x as nat, y as nat)
  {
    if x == 0 || y == 0 {
      return Failure(Argument);
    }
    var a, b := x, y;
    while a != b
      invariant 0 < a && 0 < b
      invariant Gcd(a as nat, b as nat) == Gcd(x as nat, y as nat)
      decreases a as int + b as int
    {
      if a > b {
        GcdCommutative(a as nat, b as nat);
        var temp := a;
        a := b;
        b := temp;
      }
      GcdSubtract(a as nat, b as nat);
      b := b - a;
    }
    GcdSelf(a as nat);
    return Success(a);
  }

  /** `SearchByStein(long, long)`: the binary GCD, with `x & 1` as `x % 2` and
      `x >> 1` as `x / 2` (the same on values that are not negative). The
      measure is lexicographic: the odd/odd step `(1, 5)` to `(5, 4)` keeps the
      maximum and grows the sum, but moves the maximum to the first operand. */
  function SearchByStein(x: int64, y: int64): (r: Result<int64>)
    requires x >= 0 && y >= 0
    ensures r.Failure? <==> x == 0 || y == 0
    ensures r.Failure? ==> r.error == Argument
    ensures r.Success? ==> r.value as int == Gcd(x as nat, y as nat)
    decreases Max(x as int, y as int), (if x >= y then 0 else 1), x as int + y as int
  {
    if x == 0 || y == 0 then Failure(Argument)
    else if x == y then GcdSelf(x as nat); Success(x)
    else
      SteinStep(x as nat, y as nat);
      if x % 2 == 0 then
        if y % 2 == 0 then Success(SearchByStein(x / 2, y / 2).value * 2)
        else SearchByStein(x / 2, y)
      else if y % 2 == 0 then SearchByStein(x, y / 2)
      else SearchByStein(y, if x > y then x - y else y - x)
  }

  /** What each recursive case of `SearchByStein` relies on. */
  lemma SteinStep(x: nat, y: nat)
    requires 0 < x && 0 < y
    ensures x % 2 == 0 && y % 2 == 0 ==> Gcd(x, y) == 2 * Gcd(x / 2, y / 2) && Gcd(x / 2, y / 2) <= x / 2
    ensures x % 2 == 0 && y % 2 == 1 ==> Gcd(x / 2, y) == Gcd(x, y)
    ensures x % 2 == 1 && y % 2 == 0 ==> Gcd(x, y / 2) == Gcd(x, y)
    ensures x % 2 == 1 && y % 2 == 1 ==> Gcd(y, if x > y then x - y else y - x) == Gcd(x, y)
  {
    if x % 2 == 0 && y % 2 == 0 {
      GcdDouble(x / 2, y / 2);
      GcdBound(x / 2, y / 2);
    } else if x % 2 == 0 {
      GcdCommutative(x, y);
      GcdHalveEven(y, x);
      GcdCommutative(y, x / 2);
    } else if y % 2 == 0 {
      GcdHalveEven(x, y);
    } else {
      GcdAbsDifference(x, y);
    }
  }

  /** `SearchByEuclid(long[])`: validate, then fold the pairwise Euclid from
      `gcd(a[0], a[1])` over `a[2..]`. */
  method SearchByEuclidArray(a: array?<int64>) returns (r: Result<int64>)
    requires a != null ==> NonNegative(a[..])
    ensures r.Success? <==> a != null && a.Length >= 2 && AllPositive(a[..])
    ensures r.Failure? ==> r.error == (if a == null then ArgumentNull else Argument)
    ensures r.Success? ==> r.value as int == Fold(a[..])
  {
    if a == null {
      return Failure(ArgumentNull);
    }
    if a.Length < 2 {
      return Failure(Argument);
    }
    var first := SearchByEuclid(a[0], a[1]);
    if first.Failure? {
      assert a[..][0] == 0 || a[..][1] == 0;
      return first;
    }
    GcdPositive(a[0] as nat, a[1] as nat);
    var gcd := first.value;
    FoldPair(a[..]);
    assert a[..][..2] == a[..2];
    for i := 2 to a.Length
      invariant AllPositive(a[..i])
      invariant 0 < gcd && gcd as int == Fold(a[..i])
    {
      var next := SearchByEuclid(gcd, a[i]);
      if next.Failure? {
        assert a[..][i] == 0;
        return next;
      }
      FoldPrefix(a[..], i);
      AllPositivePrefix(a[..], i);
      assert a[..][..i] == a[..i] && a[..][..i + 1] == a[..i + 1];
      GcdPositive(gcd as nat, a[i] as nat);
      gcd := next.value;
    }
    assert a[..a.Length] == a[..];
    return Success(gcd);
  }

  /** `SearchByStein(long[])`: as the Euclid overload, except that the loop
      starts again at index 0, folding `a[0]` and `a[1]` a second time; this is
      harmless because a gcd of `a[0]` and `a[1]` divides both. */
  method SearchBySteinArray(a: array?<int64>) returns (r: Result<int64>)
    requires a != null ==> NonNegative(a[..])
    ensures r.Success? <==> a != null && a.Length >= 2 && AllPositive(a[..])
    ensures r.Failure? ==> r.error == (if a == null then ArgumentNull else Argument)
    ensures r.Success? ==> r.value as int == Fold(a[..])
  {
    if a == null {
      return Failure(ArgumentNull);
    }
    if a.Length < 2 {
      return Failure(Argument);
    }
    var first := SearchByStein(a[0], a[1]);
    if first.Failure? {
      assert a[..][0] == 0 || a[..][1] == 0;
      return first;
    }
    GcdPositive(a[0] as nat, a[1] as nat);
    var gcd := first.value;
    FoldPair(a[..]);
    assert a[..][..2] == a[..2];
    ghost var pair := Gcd(a[0] as nat, a[1] as nat);
    GcdIsCommonDivisor(a[0] as nat, a[1] as nat);
    for i := 0 to a.Length
      invariant AllPositive(a[..Max(i, 2)])
      invariant 0 < gcd && gcd as int == Fold(a[..Max(i, 2)])
    {
      var next := SearchByStein(gcd, a[i]);
      if next.Failure? {
        assert a[..][i] == 0;
        return next;
      }
      if i < 2 {
        GcdOfDivisor(pair, a[i] as nat);
      } else {
        FoldPrefix(a[..], i);
        AllPositivePrefix(a[..], i);
        assert a[..][..i] == a[..i] && a[..][..i + 1] == a[..i + 1];
      }
      GcdPositive(gcd as nat, a[i] as nat);
      gcd := next.value;
    }
    assert a[..a.Length] == a[..];
    return Success(gcd);
  }
}
