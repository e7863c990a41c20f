/**
 * The fraction pairs the solver computes with, and the arithmetic it performs on them,
 * entry by entry. `Value` gives each pair its rational meaning, so that every formula can
 * be compared with the rational operation it stands for.
 */
module Fractions {
  import opened Arith

  /** A numerator/denominator pair; the denominator may be negative. */
  datatype Frac = Frac(num: int, den: int)

  /** What every stored pair satisfies: a nonzero denominator, zero written as 0/1, otherwise coprime. */
  predicate IsReduced(f: Frac)
  {
    f.den != 0 && (if f.num == 0 then f == Frac(0, 1) else Gcd(f.num, f.den) == 1)
  }

  /** The rational number a pair denotes. */
  ghost function Value(f: Frac): real
    requires f.den != 0
  {
    f.num as real / f.den as real
  }

  lemma SameRatio(a: int, b: int, c: int, d: int)
    requires b != 0 && d != 0 && a * d == c * b
    ensures a as real / b as real == c as real / d as real
  {
    var ra, rb, rc, rd := a as real, b as real, c as real, d as real;
    assert ra * rd == rc * rb;
    calc {
      ra / rb;
      (ra * rd) / (rb * rd);
      (rc * rb) / (rb * rd);
      rc / rd;
    }
  }

  lemma CancelFactor(g: int, h: int, t: int)
    requires g != 0 && g == h * g * t && h >= 0
    ensures h == 1
  {
    assert g * (h * t - 1) == 0;
    assert h * t == 1;
    if h == 0 {
    } else if h > 1 {
      if t > 0 {
        MulAtLeast(t, h);
      }
    }
  }

  lemma ReduceFacts(num: int, den: int, g: nat)
    requires num != 0 && den != 0 && g == Gcd(Abs(num), den)
    ensures g > 0
    ensures TruncDiv(num, g) * g == num && TruncDiv(den, g) * g == den
    ensures Gcd(TruncDiv(num, g), TruncDiv(den, g)) == 1
  {
    GcdIgnoresSigns(num, den);
    assert g == Gcd(num, den);
    GcdIsGreatestCommonDivisor(num, den);
    TruncDivExact(num, g);
    TruncDivExact(den, g);
    var p, q := TruncDiv(num, g), TruncDiv(den, g);
    var h := Gcd(p, q);
    GcdIsGreatestCommonDivisor(p, q);
    DividesProduct(h, g, p);
    DividesProduct(h, g, q);
    assert Divides(h * g, g);
    var t :| g == (h * g) * t;
    CancelFactor(g, h, t);
  }

  lemma ReducedQuotient(num: int, den: int, g: nat, r: Frac)
    requires num != 0 && den != 0 && g == Gcd(Abs(num), den) && g > 0
    requires r == Frac(TruncDiv(num, g), TruncDiv(den, g))
    ensures IsReduced(r) && r != Frac(0, 1)
    ensures r.num * den == num * r.den
    ensures r.den != 0 && r.num as real / r.den as real == num as real / den as real
    ensures (r.den < 0) == (den < 0)
  {
    ReduceFacts(num, den, g);
    ScaledPair(r.num, r.den, g, num, den);
    SameRatio(r.num, r.den, num, den);
  }

  lemma ScaledPair(p: int, q: int, g: int, num: int, den: int)
    requires g > 0 && p * g == num && q * g == den && num != 0 && den != 0
    ensures p != 0 && q != 0 && p * den == num * q && ((q < 0) == (den < 0))
  {
    assert p * den == p * (q * g) == (p * g) * q;
    if q < 0 {
      assert q * g == -((-q) * g);
    } else if q > 0 {
      assert q * g > 0;
    }
  }

  /**
   * The normalisation applied to every freshly computed pair: 0/1 when the numerator is
   * zero, otherwise both parts divided by the gcd of their magnitudes.
   */
  function Reduce(num: int, den: int): (r: Frac)
    requires den != 0
    ensures IsReduced(r)
    ensures r == Frac(0, 1) <==> num == 0
    ensures r.num * den == num * r.den
    ensures Value(r) == num as real / den as real
    ensures num != 0 ==> (r.den < 0) == (den < 0)
  {
    if num == 0 then
      GcdWithOne(0);
      Frac(0, 1)
    else
      var g := Gcd(Abs(num), den);
      ReduceFacts(num, den, g);
      var r := Frac(TruncDiv(num, g), TruncDiv(den, g));
      ReducedQuotient(num, den, g, r);
      r
  }

  lemma QuotientOfRatios(a: int, b: int, c: int, d: int)
    requires b != 0 && c != 0 && d != 0
    ensures (a * d) as real / (b * c) as real == (a as real / b as real) / (c as real / d as real)
  {
    var ra, rb, rc, rd := a as real, b as real, c as real, d as real;
    assert (a * d) as real == ra * rd && (b * c) as real == rb * rc;
    calc {
      (ra / rb) / (rc / rd);
      (ra / rb) * (rd / rc);
      (ra * rd) / (rb * rc);
    }
  }

  lemma DifferenceOfRatios(a: int, b: int, c: int, d: int)
    requires b != 0 && d != 0
    ensures (a * d - c * b) as real / (b * d) as real == a as real / b as real - c as real / d as real
  {
    var ra, rb, rc, rd := a as real, b as real, c as real, d as real;
    assert (a * d - c * b) as real == ra * rd - rc * rb && (b * d) as real == rb * rd;
    calc {
      (ra * rd - rc * rb) / (rb * rd);
      (ra * rd) / (rb * rd) - (rc * rb) / (rb * rd);
      ra / rb - rc / rd;
    }
  }

  /**
   * The elimination multiplier of a row whose pivot-column entry is `a`, for the pivot
   * `pivot`: the pivot's numerator moves into the denominator, which therefore takes its sign.
   */
  function Multiplier(a: Frac, pivot: Frac): (mult: Frac)
    requires a.den != 0 && pivot.den != 0 && pivot.num != 0
    ensures mult.den != 0
    ensures Value(mult) == Value(a) / Value(pivot)
  {
    QuotientOfRatios(a.num, a.den, pivot.num, pivot.den);
    Frac(a.num * pivot.den, a.den * pivot.num)
  }

  /**
   * The new value of entry `a` of an eliminated row, for multiplier `mult` and the entry
   * `p` of the pivot row in the same column, reduced.
   */
  function UpdateEntry(a: Frac, mult: Frac, p: Frac): (r: Frac)
    requires a.den != 0 && mult.den != 0
    ensures IsReduced(r)
  {
    Reduce(a.num * a.den * mult.den - mult.num * p.num * p.den, a.den * mult.den)
  }

  /**
   * With unit denominators in the row entry and the pivot-row entry, as at the first
   * column step, the update is the intended `a - mult * p`.
   */
  lemma UpdateEntryExact(a: Frac, mult: Frac, p: Frac)
    requires a.den == 1 && p.den == 1 && mult.den != 0
    ensures Value(UpdateEntry(a, mult, p)) == Value(a) - Value(mult) * Value(p)
  {
    DifferenceOfRatios(a.num, 1, mult.num * p.num, mult.den);
    assert a.num * a.den * mult.den - mult.num * p.num * p.den == a.num * mult.den - (mult.num * p.num) * 1;
    assert (mult.num * p.num) as real / mult.den as real == Value(mult) * Value(p);
  }

  /**
   * Unit denominators are sufficient for exactness but not necessary, and without them the
   * update can be wrong: for the entry 1/2, the multiplier 1 (that of a row whose
   * pivot-column entry equals the pivot 1/1) and the pivot-row entry 0, the update stores
   * 1/1 where 1/2 - 1 * 0 is 1/2.
   */
  lemma UpdateEntryInexact()
    ensures Multiplier(Frac(1, 1), Frac(1, 1)) == Frac(1, 1)
    ensures UpdateEntry(Frac(1, 2), Frac(1, 1), Frac(0, 1)) == Frac(1, 1)
    ensures Value(Frac(1, 2)) - Value(Frac(1, 1)) * Value(Frac(0, 1)) == 0.5
  {
    assert Euclid(2, 2) == Euclid(2, 0) == 2;
    assert TruncDiv(2, 2) == 1;
    assert UpdateEntry(Frac(1, 2), Frac(1, 1), Frac(0, 1)) == Reduce(2, 2);
    HalfMinusZero();
  }

  lemma HalfMinusZero()
    ensures Value(Frac(1, 2)) - Value(Frac(1, 1)) * Value(Frac(0, 1)) == 0.5
  {
    assert Value(Frac(1, 2)) == 0.5;
    assert Value(Frac(0, 1)) == 0.0;
  }

  lemma SquaresEqual(x: int, y: int)
    ensures x * x == y * y <==> Abs(x) == Abs(y)
  {
    assert x * x - y * y == (x - y) * (x + y);
    if x * x == y * y {
      ZeroProduct(x - y, x + y);
    }
    if x == -y {
      assert x * x == (-y) * (-y) == y * y;
    }
  }

  lemma ZeroProduct(a: int, b: int)
    requires a * b == 0
    ensures a == 0 || b == 0
  {
    if a != 0 && b != 0 {
      AbsMul(a, b);
      MulAtLeast(Abs(a), Abs(b));
    }
  }

  /**
   * Updating a row's own pivot-column entry with its own multiplier gives exactly 0/1 when
   * the entry is zero or its denominator has the pivot denominator's magnitude, and only then.
   */
  lemma UpdateClearsPivotColumn(a: Frac, pivot: Frac)
    requires a.den != 0 && pivot.den != 0 && pivot.num != 0
    ensures (UpdateEntry(a, Multiplier(a, pivot), pivot) == Frac(0, 1)) <==>
            (a.num == 0 || Abs(a.den) == Abs(pivot.den))
  {
    var mult := Multiplier(a, pivot);
    assert mult == Frac(a.num * pivot.den, a.den * pivot.num);
    var diff := a.den * a.den - pivot.den * pivot.den;
    var newNum := a.num * a.den * mult.den - mult.num * pivot.num * pivot.den;
    UpdateNumeratorFactors(a.num, a.den, pivot.num, pivot.den);
    assert newNum == (a.num * pivot.num) * diff;
    assert UpdateEntry(a, mult, pivot) == Reduce(newNum, a.den * mult.den);
    SquaresEqual(a.den, pivot.den);
    ZeroProductIff(a.num * pivot.num, diff);
    ZeroProductIff(a.num, pivot.num);
  }

  lemma UpdateNumeratorFactors(an: int, ad: int, pn: int, pd: int)
    ensures an * ad * (ad * pn) - (an * pd) * pn * pd == (an * pn) * (ad * ad - pd * pd)
  {
  }

  lemma ZeroProductIff(a: int, b: int)
    ensures a * b == 0 <==> a == 0 || b == 0
  {
    if a * b == 0 {
      ZeroProduct(a, b);
    }
  }

  /**
   * The back-substitution term for coefficient `c` and known unknown `s`. Both denominators
   * are multiplied into the numerator as well, so the pair denotes the product of the two
   * numerators rather than the product of the two fractions.
   */
  function Term(c: Frac, s: Frac): (t: Frac)
    requires c.den != 0 && s.den != 0
    ensures t.den != 0
    ensures Value(t) == (c.num * s.num) as real
  {
    var t := Frac(c.num * c.den * s.num * s.den, c.den * s.den);
    SameRatio(t.num, t.den, c.num * s.num, 1);
    t
  }

  /** The term is the product of the two fractions exactly when a numerator is zero or the denominators multiply to 1. */
  lemma TermIsProductIff(c: Frac, s: Frac)
    requires c.den != 0 && s.den != 0
    ensures (Value(Term(c, s)) == Value(c) * Value(s)) <==> (c.num == 0 || s.num == 0 || c.den * s.den == 1)
  {
    var n, d := c.num * s.num, c.den * s.den;
    assert Value(c) * Value(s) == n as real / d as real by {
      assert n as real == c.num as real * s.num as real;
      assert d as real == c.den as real * s.den as real;
    }
    SelfQuotient(n, d);
    ZeroProductIff(c.num, s.num);
  }

  lemma SelfQuotient(n: int, d: int)
    requires d != 0
    ensures (n as real == n as real / d as real) <==> (n == 0 || d == 1)
  {
    var rn, rd := n as real, d as real;
    if rn == rn / rd && n != 0 {
      assert rn * rd == rn;
      assert rn * (rd - 1.0) == 0.0;
      assert rd == 1.0;
    }
  }

  /** An instance from a three-point system: coefficient 1 times unknown 3 (stored as -3/-1) yields -3. */
  lemma TermSignExample()
    ensures Value(Term(Frac(1, 1), Frac(-3, -1))) == -3.0
    ensures Value(Frac(1, 1)) * Value(Frac(-3, -1)) == 3.0
  {
  }

  /** Subtraction of a term from the running sum, reduced; this one is the rational difference. */
  function SubtractTerm(sum: Frac, t: Frac): (r: Frac)
    requires sum.den != 0 && t.den != 0
    ensures IsReduced(r)
    ensures Value(r) == Value(sum) - Value(t)
  {
    DifferenceOfRatios(sum.num, sum.den, t.num, t.den);
    Reduce(sum.num * t.den - t.num * sum.den, sum.den * t.den)
  }

  /** Division of the finished sum by the diagonal entry, reduced; this one is the rational quotient. */
  function DivideByDiagonal(sum: Frac, d: Frac): (r: Frac)
    requires sum.den != 0 && d.den != 0 && d.num != 0
    ensures IsReduced(r)
    ensures Value(r) == Value(sum) / Value(d)
  {
    QuotientOfRatios(sum.num, sum.den, d.num, d.den);
    Reduce(sum.num * d.den, sum.den * d.num)
  }

  /**
   * The integer reported for a solution entry: the numerator when the denominator is 1,
   * otherwise the quotient rounded toward zero.
   */
  function ToInteger(f: Frac): (r: int)
    requires f.den != 0
    ensures f.den == 1 ==> r == f.num
    ensures IsTruncatedQuotient(r, f.num, f.den)
  {
    if f.den == 1 then
      assert f.num - f.num * f.den == 0;
      f.num
    else TruncDiv(f.num, f.den)
  }

  /** When the pair denotes an integer, that integer is what is reported. */
  lemma ToIntegerExact(f: Frac)
    requires f.den != 0 && Divides(f.den, f.num)
    ensures ToInteger(f) as real == Value(f)
  {
    TruncDivUnique(ToInteger(f), f.num, f.den);
    TruncDivExact(f.num, f.den);
    SameRatio(ToInteger(f), 1, f.num, f.den);
  }

  /** The reported integer depends only on the rational value: reducing first changes nothing. */
  lemma ToIntegerOfReduce(num: int, den: int)
    requires den != 0
    ensures ToInteger(Reduce(num, den)) == TruncDiv(num, den)
  {
    var r := Reduce(num, den);
    TruncDivUnique(ToInteger(r), r.num, r.den);
    if num == 0 {
      assert 0 - 0 * den == 0;
      TruncDivUnique(0, 0, den);
    } else {
      var g := Gcd(Abs(num), den);
      ReduceFacts(num, den, g);
      assert num == g * r.num && den == g * r.den;
      TruncDivScale(g, r.num, r.den);
    }
  }
}
