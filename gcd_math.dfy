/** The mathematical greatest common divisor that both GCD algorithms of
    FindGCD are measured against.

    `Gcd` is defined by the remainder form of Euclid's algorithm, which is a
    different computation from both the subtractive loop and Stein's binary
    recursion; `GcdIsCommonDivisor` and `GcdIsGreatest` characterise it as
    THE greatest common divisor, and the remaining lemmas are the identities
    the two algorithms rely on. */
module GcdMath {

  /** `d` divides `n`: `n` is an integer multiple of `d`. */
  ghost predicate Divides(d: nat, n: nat) {
    exists k: int :: n == d * k
  }

  /** Remainder-based Euclid; `Gcd(x, 0) == x`. */
  function Gcd(x: nat, y: nat): nat
    decreases y
  {
    if y == 0 then x else Gcd(y, x % y)
  }

  lemma DividesSelf(n: nat)
    ensures Divides(n, n) && Divides(n, 0)
  {
    assert n == n * 1;
    assert 0 == n * 0;
  }

  lemma DividesMultiple(d: nat, n: nat, m: int)
    requires Divides(d, n) && n * m >= 0
    ensures Divides(d, n * m)
  {
    var k :| n == d * k;
    assert n * m == d * (k * m);
  }

  lemma DividesSum(d: nat, a: nat, b: nat)
    requires Divides(d, a) && Divides(d, b)
    ensures Divides(d, a + b)
  {
    var i :| a == d * i;
    var j :| b == d * j;
    assert a + b == d * (i + j);
  }

  lemma DividesDifference(d: nat, a: nat, b: nat)
    requires Divides(d, a) && Divides(d, b) && b <= a
    ensures Divides(d, a - b)
  {
    var i :| a == d * i;
    var j :| b == d * j;
    assert a - b == d * (i - j);
  }

  /** A divisor of a positive number is no larger than it. */
  lemma DividesBound(d: nat, n: nat)
    requires Divides(d, n) && n > 0
    ensures d <= n
  {
    var k :| n == d * k;
    assert k >= 1 by {
      if k <= 0 {
        NonPositiveProduct(d, k);
      }
    }
    assert d * k == d + d * (k - 1);
    NonNegativeProduct(d, k - 1);
  }

  lemma NonPositiveProduct(a: nat, b: int)
    requires b <= 0
    ensures a * b <= 0
  {
  }

  lemma NonNegativeProduct(a: nat, b: int)
    requires b >= 0
    ensures a * b >= 0
  {
  }

  /** The parity of a product is the product of the parities. */
  lemma ProductParity(a: int, b: int)
    ensures (a * b) % 2 == (a % 2) * (b % 2)
  {
    var p, q := a / 2, b / 2;
    if a % 2 == 0 {
      assert a * b == 2 * (p * b);
    } else if b % 2 == 0 {
      assert a * b == 2 * (a * q);
    } else {
      assert a * b == (2 * p + 1) * (2 * q + 1) == 2 * (2 * p * q + p + q) + 1;
    }
  }

  lemma DividesDouble(d: nat, n: nat)
    requires Divides(d, n)
    ensures Divides(2 * d, 2 * n)
  {
    var k :| n == d * k;
    assert 2 * n == (2 * d) * k;
  }

  lemma DividesHalve(d: nat, n: nat)
    requires Divides(2 * d, 2 * n)
    ensures Divides(d, n)
  {
    var k :| 2 * n == (2 * d) * k;
    assert (2 * d) * k == 2 * (d * k);
  }

  lemma DividesAntisymmetric(a: nat, b: nat)
    requires Divides(a, b) && Divides(b, a)
    ensures a == b
  {
    if a == 0 {
      var k :| b == a * k;
    } else if b == 0 {
      var k :| a == b * k;
    } else {
      DividesBound(a, b);
      DividesBound(b, a);
    }
  }

  lemma DividesTransitive(a: nat, b: nat, c: nat)
    requires Divides(a, b) && Divides(b, c)
    ensures Divides(a, c)
  {
    var i :| b == a * i;
    var j :| c == b * j;
    assert c == a * (i * j);
  }

  lemma {:induction false} GcdIsCommonDivisor(x: nat, y: nat)
    ensures Divides(Gcd(x, y), x) && Divides(Gcd(x, y), y)
    decreases y
  {
    if y == 0 {
      DividesSelf(x);
    } else {
      var g := Gcd(y, x % y);
      GcdIsCommonDivisor(y, x % y);
      DividesMultiple(g, y, x / y);
      DividesSum(g, y * (x / y), x % y);
      assert x == y * (x / y) + x % y;
    }
  }

  lemma {:induction false} GcdIsGreatest(x: nat, y: nat, d: nat)
    requires Divides(d, x) && Divides(d, y)
    ensures Divides(d, Gcd(x, y))
    decreases y
  {
    if y != 0 {
      DividesMultiple(d, y, x / y);
      assert x == y * (x / y) + x % y;
      DividesDifference(d, x, y * (x / y));
      GcdIsGreatest(y, x % y, d);
    }
  }

  /** Any common divisor that every common divisor divides is `Gcd`. */
  lemma GcdUnique(x: nat, y: nat, g: nat)
    requires Divides(g, x) && Divides(g, y)
    requires forall d: nat :: Divides(d, x) && Divides(d, y) ==> Divides(d, g)
    ensures g == Gcd(x, y)
  {
    GcdIsCommonDivisor(x, y);
    GcdIsGreatest(x, y, g);
    DividesAntisymmetric(g, Gcd(x, y));
  }

  lemma GcdPositive(x: nat, y: nat)
    requires x > 0 || y > 0
    ensures Gcd(x, y) > 0
  {
    GcdIsCommonDivisor(x, y);
    if Gcd(x, y) == 0 {
      var i :| x == 0 * i;
      var j :| y == 0 * j;
    }
  }

  lemma GcdBound(x: nat, y: nat)
    requires x > 0
    ensures Gcd(x, y) <= x
  {
    GcdIsCommonDivisor(x, y);
    DividesBound(Gcd(x, y), x);
  }

  lemma GcdCommutative(x: nat, y: nat)
    ensures Gcd(x, y) == Gcd(y, x)
  {
    GcdIsCommonDivisor(y, x);
    forall d: nat | Divides(d, x) && Divides(d, y)
      ensures Divides(d, Gcd(y, x))
    {
      GcdIsGreatest(y, x, d);
    }
    GcdUnique(x, y, Gcd(y, x));
  }

  lemma GcdSelf(x: nat)
    ensures Gcd(x, x) == x
  {
    DividesSelf(x);
    GcdUnique(x, x, x);
  }

  /** A divisor of `a` is absorbed: folding it with `a` changes nothing. */
  lemma GcdOfDivisor(g: nat, a: nat)
    requires Divides(g, a)
    ensures Gcd(g, a) == g
  {
    DividesSelf(g);
    GcdUnique(g, a, g);
  }

  /** The step of the subtractive algorithm keeps the gcd. */
  lemma GcdSubtract(x: nat, y: nat)
    requires x <= y
    ensures Gcd(x, y - x) == Gcd(x, y)
  {
    var g := Gcd(x, y - x);
    GcdIsCommonDivisor(x, y - x);
    DividesSum(g, x, y - x);
    forall d: nat | Divides(d, x) && Divides(d, y)
      ensures Divides(d, g)
    {
      DividesDifference(d, y, x);
      GcdIsGreatest(x, y - x, d);
    }
    GcdUnique(x, y, g);
  }

  /** Stein's odd/odd step: the pair becomes `(y, |x - y|)`. */
  lemma GcdAbsDifference(x: nat, y: nat)
    ensures Gcd(y, if x > y then x - y else y - x) == Gcd(x, y)
  {
    if x > y {
      GcdSubtract(y, x);
      GcdCommutative(x, y);
    } else {
      GcdSubtract(x, y);
      GcdCommutative(y, y - x);
      GcdSubtract(y - x, y);
      assert y - (y - x) == x;
      GcdCommutative(y - x, x);
    }
  }

  /** Stein's even/even step: `gcd(2a, 2b) == 2 gcd(a, b)`. */
  lemma GcdDouble(a: nat, b: nat)
    ensures Gcd(2 * a, 2 * b) == 2 * Gcd(a, b)
  {
    var g, h := Gcd(a, b), Gcd(2 * a, 2 * b);
    assert Divides(2, 2 * a) && Divides(2, 2 * b) by {
      assert 2 * a == 2 * (a as int);
      assert 2 * b == 2 * (b as int);
    }
    GcdIsGreatest(2 * a, 2 * b, 2);
    GcdIsCommonDivisor(2 * a, 2 * b);
    var k :| h == 2 * k;
    var m: nat := k;
    // h == 2m divides 2a and 2b, so m divides a and b, hence g
    DividesHalve(m, a);
    DividesHalve(m, b);
    GcdIsGreatest(a, b, m);
    DividesDouble(m, g);
    // 2g divides 2a and 2b, hence h
    GcdIsCommonDivisor(a, b);
    DividesDouble(g, a);
    DividesDouble(g, b);
    GcdIsGreatest(2 * a, 2 * b, 2 * g);
    DividesAntisymmetric(h, 2 * g);
  }

  /** A divisor of an odd number is odd. */
  lemma OddDivisor(d: nat, x: nat)
    requires Divides(d, x) && x % 2 == 1
    ensures d % 2 == 1
  {
    var k :| x == d * k;
    ProductParity(d, k);
  }

  /** An odd divisor of an even number divides its half. */
  lemma OddDividesHalf(d: nat, y: nat)
    requires Divides(d, y) && d % 2 == 1 && y % 2 == 0
    ensures Divides(d, y / 2)
  {
    var k :| y == d * k;
    ProductParity(d, k);
    assert k == 2 * (k / 2);
    assert y == 2 * (d * (k / 2));
  }

  /** Stein's odd/even step: halving the even operand keeps the gcd. */
  lemma GcdHalveEven(x: nat, y: nat)
    requires x % 2 == 1 && y % 2 == 0
    ensures Gcd(x, y / 2) == Gcd(x, y)
  {
    var g := Gcd(x, y / 2);
    GcdIsCommonDivisor(x, y / 2);
    assert y == (y / 2) * 2;
    DividesMultiple(g, y / 2, 2);
    forall d: nat | Divides(d, x) && Divides(d, y)
      ensures Divides(d, g)
    {
      OddDivisor(d, x);
      OddDividesHalf(d, y);
      GcdIsGreatest(x, y / 2, d);
    }
    GcdUnique(x, y, g);
  }
}
