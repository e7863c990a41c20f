/** Integer helpers: absolute value, divisibility, Euclid's gcd and truncating division. */
module Arith {

  function Abs(x: int): nat
  {
    if x < 0 then -x else x
  }

  /** `d` divides `x` when `x` is an integer multiple of `d`. */
  ghost predicate Divides(d: int, x: int)
  {
    exists q :: x == d * q
  }

  lemma DividesCombination(d: int, x: int, y: int, c: int)
    requires Divides(d, x) && Divides(d, y)
    ensures Divides(d, x + c * y)
  {
    var qx :| x == d * qx;
    var qy :| y == d * qy;
    assert x + c * y == d * (qx + c * qy);
  }

  lemma DividesAbs(d: int, x: int)
    ensures Divides(d, x) <==> Divides(d, Abs(x))
  {
    if Divides(d, x) {
      var q :| x == d * q;
      assert Abs(x) == d * (if x < 0 then -q else q);
    }
    if Divides(d, Abs(x)) {
      var q :| Abs(x) == d * q;
      assert x == d * (if x < 0 then -q else q);
    }
  }

  lemma DividesProduct(d: int, e: int, x: int)
    requires Divides(d, x)
    ensures Divides(d * e, x * e)
  {
    var q :| x == d * q;
    assert x * e == (d * e) * q;
  }

  /**
   * Euclid's algorithm on non-negative operands: while b is non-zero, replace (a, b) by
   * (b, a % b); the answer is the final a.
   */
  function Euclid(a: nat, b: nat): nat
    decreases b
  {
    if b == 0 then a else Euclid(b, a % b)
  }

  /** Euclid's answer is a common divisor that every common divisor divides. */
  lemma {:induction false} EuclidIsGcd(a: nat, b: nat)
    ensures Divides(Euclid(a, b), a) && Divides(Euclid(a, b), b)
    ensures forall d :: Divides(d, a) && Divides(d, b) ==> Divides(d, Euclid(a, b))
    decreases b
  {
    if b == 0 {
      assert a == a * 1 && 0 == a * 0;
    } else {
      EuclidIsGcd(b, a % b);
      EuclidStep(a, b, Euclid(b, a % b));
    }
  }

  lemma EuclidStep(a: nat, b: nat, g: nat)
    requires b > 0
    requires Divides(g, b) && Divides(g, a % b)
    requires forall d :: Divides(d, b) && Divides(d, a % b) ==> Divides(d, g)
    ensures Divides(g, a) && Divides(g, b)
    ensures forall d :: Divides(d, a) && Divides(d, b) ==> Divides(d, g)
  {
    assert a == a % b + (a / b) * b;
    DividesCombination(g, a % b, b, a / b);
    forall d | Divides(d, a) && Divides(d, b)
      ensures Divides(d, g)
    {
      DividesCombination(d, a, b, -(a / b));
      assert a % b == a + -(a / b) * b;
    }
  }

  /** The greatest common divisor of the magnitudes of `a` and `b`, computed by Euclid's algorithm. */
  function Gcd(a: int, b: int): nat
  {
    Euclid(Abs(a), Abs(b))
  }

  /** Euclid's answer is zero only when both operands are zero. */
  lemma {:induction false} EuclidZero(a: nat, b: nat)
    ensures Euclid(a, b) == 0 <==> a == 0 && b == 0
    decreases b
  {
    if b > 0 {
      EuclidZero(b, a % b);
    }
  }

  /**
   * The gcd divides both operands, every common divisor divides it, it is zero only for
   * two zero operands, and with a zero second operand it is the magnitude of the first.
   */
  lemma GcdIsGreatestCommonDivisor(a: int, b: int)
    ensures Divides(Gcd(a, b), a) && Divides(Gcd(a, b), b)
    ensures forall d :: Divides(d, a) && Divides(d, b) ==> Divides(d, Gcd(a, b))
    ensures Gcd(a, b) == 0 <==> a == 0 && b == 0
    ensures b == 0 ==> Gcd(a, b) == Abs(a)
  {
    var g := Gcd(a, b);
    EuclidIsGcd(Abs(a), Abs(b));
    DividesAbs(g, a);
    DividesAbs(g, b);
    forall d | Divides(d, a) && Divides(d, b)
      ensures Divides(d, g)
    {
      DividesAbs(d, a);
      DividesAbs(d, b);
    }
    if g == 0 {
      var qa :| a == g * qa;
      var qb :| b == g * qb;
    }
  }

  lemma DividesPositiveBound(d: int, x: int)
    requires d > 0 && x > 0 && Divides(d, x)
    ensures d <= x
  {
    var q :| x == d * q;
    assert q >= 1;
    assert d * q >= d * 1;
  }

  lemma DividesAntisymmetric(x: nat, y: nat)
    requires Divides(x, y) && Divides(y, x)
    ensures x == y
  {
    if x == 0 {
      var q :| y == x * q;
    } else if y == 0 {
      var q :| x == y * q;
    } else {
      DividesPositiveBound(x, y);
      DividesPositiveBound(y, x);
    }
  }

  /**
   * The gcd is the only non-negative common divisor that every common divisor divides,
   * so it depends on the operands only through their divisors and not on their signs.
   */
  lemma GcdUnique(a: int, b: int, g: nat)
    requires Divides(g, a) && Divides(g, b)
    requires forall d :: Divides(d, a) && Divides(d, b) ==> Divides(d, g)
    ensures g == Gcd(a, b)
  {
    GcdIsGreatestCommonDivisor(a, b);
    DividesAntisymmetric(g, Gcd(a, b));
  }

  /** The gcd reads its operands only through their magnitudes. */
  lemma GcdIgnoresSigns(a: int, b: int)
    ensures Gcd(a, b) == Gcd(-a, b) == Gcd(a, -b) == Gcd(Abs(a), Abs(b))
  {
  }

  /** Unless both operands are zero, every positive common divisor is at most the gcd. */
  lemma GcdIsGreatest(a: int, b: int, d: int)
    requires a != 0 || b != 0
    requires d > 0 && Divides(d, a) && Divides(d, b)
    ensures d <= Gcd(a, b)
  {
    GcdIsGreatestCommonDivisor(a, b);
    DividesPositiveBound(d, Gcd(a, b));
  }

  lemma GcdWithOne(x: int)
    ensures Gcd(x, 1) == 1
  {
    var g := Gcd(x, 1);
    GcdIsGreatestCommonDivisor(x, 1);
    DividesPositiveBound(g, 1);
  }

  /**
   * `q` is the quotient of `a` by `b` rounded toward zero: the remainder `a - q * b` is
   * smaller than `b` in magnitude and is zero or has the sign of `a`.
   */
  ghost predicate IsTruncatedQuotient(q: int, a: int, b: int)
  {
    && Abs(a - q * b) < Abs(b)
    && (a - q * b == 0 || (a - q * b < 0 <==> a < 0))
  }

  /** Integer division rounding toward zero, as the big-integer `/` of the source does. */
  function TruncDiv(a: int, b: int): (q: int)
    requires b != 0
    ensures IsTruncatedQuotient(q, a, b)
  {
    var q0 := Abs(a) / Abs(b);
    var q := if (a < 0) == (b < 0) then q0 else -q0;
    TruncDivRemainder(a, b, q0, q);
    q
  }

  lemma TruncDivRemainder(a: int, b: int, q0: int, q: int)
    requires b != 0 && q0 == Abs(a) / Abs(b)
    requires q == if (a < 0) == (b < 0) then q0 else -q0
    ensures IsTruncatedQuotient(q, a, b)
  {
    var r := Abs(a) % Abs(b);
    DivMod(Abs(a), Abs(b));
    SignedRemainder(a, b, q0, r, q);
    RemainderIsTruncated(a, b, q, r);
  }

  lemma DivMod(x: nat, y: nat)
    requires y > 0
    ensures x == y * (x / y) + x % y && 0 <= x % y < y
  {
  }

  lemma RemainderIsTruncated(a: int, b: int, q: int, r: int)
    requires 0 <= r < Abs(b)
    requires a - q * b == (if a < 0 then -r else r)
    ensures IsTruncatedQuotient(q, a, b)
  {
  }

  lemma SignedRemainder(a: int, b: int, q0: int, r: int, q: int)
    requires b != 0 && Abs(a) == Abs(b) * q0 + r && 0 <= r < Abs(b)
    requires q == if (a < 0) == (b < 0) then q0 else -q0
    ensures a - q * b == (if a < 0 then -r else r)
  {
    if a >= 0 && b > 0 {
    } else if a >= 0 {
      assert q * b == (-q0) * b == q0 * (-b);
    } else if b > 0 {
      assert q * b == (-q0) * b == -(q0 * b);
    } else {
      assert q * b == q0 * b == -(q0 * (-b));
    }
  }

  lemma AbsMul(x: int, y: int)
    ensures Abs(x * y) == Abs(x) * Abs(y)
  {
    if x < 0 && y < 0 {
      assert x * y == (-x) * (-y);
    } else if x < 0 {
      assert x * y == -((-x) * y);
    } else if y < 0 {
      assert x * y == -(x * (-y));
    }
  }

  lemma SmallMultipleIsZero(t: int, b: int)
    requires b != 0 && Abs(t * b) < Abs(b)
    ensures t == 0
  {
    AbsMul(t, b);
    if t != 0 {
      MulAtLeast(Abs(t), Abs(b));
    }
  }

  lemma MulAtLeast(x: nat, y: nat)
    requires x >= 1
    ensures x * y >= y
  {
    var z: nat := x - 1;
    assert x * y == z * y + y;
    assert z * y >= 0;
  }

  lemma MulStrict(g: nat, x: nat, y: nat)
    requires g > 0 && x < y
    ensures g * x < g * y
  {
    var z: nat := y - x;
    assert g * y == g * x + g * z;
    MulAtLeast(g, z);
  }

  /** Rounding toward zero leaves exactly one candidate quotient. */
  lemma TruncDivUnique(q: int, a: int, b: int)
    requires b != 0 && IsTruncatedQuotient(q, a, b)
    ensures q == TruncDiv(a, b)
  {
    var p := TruncDiv(a, b);
    var r1, r2 := a - q * b, a - p * b;
    assert IsTruncatedQuotient(p, a, b);
    SameSignDifference(r1, r2, a, Abs(b));
    MulDifference(p, q, b);
    assert r1 - r2 == (p - q) * b;
    SmallMultipleIsZero(p - q, b);
  }

  lemma MulDifference(p: int, q: int, b: int)
    ensures p * b - q * b == (p - q) * b
  {
  }

  /** Two remainders with the sign of `a` and magnitude below `bound` differ by less than `bound`. */
  lemma SameSignDifference(r1: int, r2: int, a: int, bound: int)
    requires Abs(r1) < bound && Abs(r2) < bound
    requires r1 == 0 || (r1 < 0 <==> a < 0)
    requires r2 == 0 || (r2 < 0 <==> a < 0)
    ensures Abs(r1 - r2) < bound
  {
  }

  /** When `b` divides `a` the truncating quotient is exact. */
  lemma TruncDivExact(a: int, b: int)
    requires b != 0 && Divides(b, a)
    ensures TruncDiv(a, b) * b == a
  {
    var t :| a == b * t;
    var q := TruncDiv(a, b);
    assert a - q * b == (t - q) * b;
    SmallMultipleIsZero(t - q, b);
  }

  /** Scaling both operands by the same positive factor does not change the quotient. */
  lemma TruncDivScale(g: int, a: int, b: int)
    requires g > 0 && b != 0
    ensures TruncDiv(g * a, g * b) == TruncDiv(a, b)
  {
    var q := TruncDiv(a, b);
    var r := a - q * b;
    assert IsTruncatedQuotient(q, a, b);
    ScaledDifference(g, a, q, b);
    ScaledRemainder(g, r, b);
    SignOfScaled(g, r);
    SignOfScaled(g, a);
    assert IsTruncatedQuotient(q, g * a, g * b);
    TruncDivUnique(q, g * a, g * b);
  }

  lemma ScaledDifference(g: int, a: int, q: int, b: int)
    ensures g * a - q * (g * b) == g * (a - q * b)
  {
  }

  lemma ScaledRemainder(g: int, r: int, b: int)
    requires g > 0 && Abs(r) < Abs(b)
    ensures Abs(g * r) < Abs(g * b)
  {
    AbsMul(g, r);
    AbsMul(g, b);
    MulStrict(Abs(g), Abs(r), Abs(b));
  }

  lemma SignOfScaled(g: int, x: int)
    requires g > 0
    ensures (g * x < 0 <==> x < 0) && (g * x == 0 <==> x == 0)
  {
    if x > 0 {
      MulStrict(g, 0, x);
    } else if x < 0 {
      MulStrict(g, 0, -x);
      assert g * x == -(g * -x);
    }
  }

  lemma TruncDivExample()
    ensures TruncDiv(-7, 2) == -3 && -7 / 2 == -4
  {
    TruncDivUnique(-3, -7, 2);
  }

  /** `x` raised to the non-negative power `e`; `Pow(x, 0)` is 1, also for `x` = 0. */
  function Pow(x: int, e: nat): int
  {
    if e == 0 then 1 else x * Pow(x, e - 1)
  }

  lemma MulAtLeastMono(g: nat, x: nat, y: nat)
    requires x <= y
    ensures g * x <= g * y
  {
    var z: nat := y - x;
    assert g * y == g * x + g * z;
    assert g * z >= 0;
  }
}
