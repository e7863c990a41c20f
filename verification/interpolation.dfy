/**
 * Recovering the constant term of the sharing polynomial from decoded points: order the
 * points by x, keep the first k, reject repeated x values, build the Vandermonde system and
 * report the last coefficient that Gaussian elimination produces.
 */
module Interpolation {
  import opened Failures
  import opened Arith
  import opened Fractions
  import opened Elimination

  /** One share: the x coordinate taken from the entry's key and the decoded y value. */
  datatype Point = Point(x: int, y: int)

  predicate SortedByX(ps: seq<Point>)
  {
    forall i, j :: 0 <= i < j < |ps| ==> ps[i].x <= ps[j].x
  }

  /** No two points share an x coordinate. */
  predicate DistinctX(ps: seq<Point>)
  {
    forall i, j :: 0 <= i < j < |ps| ==> ps[i].x != ps[j].x
  }

  /**
   * Inserts `p` into a sorted sequence behind every point whose x is not larger, so equal
   * keys keep their order of arrival.
   */
  function InsertByX(p: Point, ps: seq<Point>): (r: seq<Point>)
    requires SortedByX(ps)
    ensures SortedByX(r)
    ensures multiset(r) == multiset(ps) + multiset{p}
    ensures |r| == |ps| + 1 && (r[0] == p || (|ps| > 0 && r[0] == ps[0]))
  {
    if ps == [] then [p]
    else if p.x < ps[0].x then [p] + ps
    else
      assert ps == [ps[0]] + ps[1..];
      [ps[0]] + InsertByX(p, ps[1..])
  }

  /** A stable sort on x: the comparator orders by x only, and equal keys keep input order. */
  function SortByX(ps: seq<Point>): (r: seq<Point>)
    ensures SortedByX(r)
    ensures multiset(r) == multiset(ps)
    ensures |r| == |ps|
  {
    if ps == [] then []
    else
      assert ps == ps[..|ps| - 1] + [ps[|ps| - 1]];
      InsertByX(ps[|ps| - 1], SortByX(ps[..|ps| - 1]))
  }

  /** Inserting a point whose x is at least every other x appends it. */
  lemma {:induction false} InsertLargest(p: Point, ps: seq<Point>)
    requires SortedByX(ps)
    requires forall i :: 0 <= i < |ps| ==> ps[i].x <= p.x
    ensures InsertByX(p, ps) == ps + [p]
  {
    if ps != [] {
      InsertLargest(p, ps[1..]);
      assert [ps[0]] + (ps[1..] + [p]) == ps + [p];
    }
  }

  /** Sorting a sequence that is already ordered by x changes nothing: the sort is stable. */
  lemma {:induction false} SortSortedIsIdentity(ps: seq<Point>)
    requires SortedByX(ps)
    ensures SortByX(ps) == ps
  {
    if ps != [] {
      var init := ps[..|ps| - 1];
      SortSortedIsIdentity(init);
      InsertLargest(ps[|ps| - 1], init);
      assert init + [ps[|ps| - 1]] == ps;
    }
  }

  /** Sorting twice is sorting once. */
  lemma SortIdempotent(ps: seq<Point>)
    ensures SortByX(SortByX(ps)) == SortByX(ps)
  {
    SortSortedIsIdentity(SortByX(ps));
  }

  /** The `k` points the reconstruction uses: the first `k` after sorting by x. */
  function Select(points: seq<Point>, k: nat): (sel: seq<Point>)
    requires k <= |points|
    ensures |sel| == k && SortedByX(sel)
    ensures multiset(sel) <= multiset(points)
  {
    SelectTakesSmallest(points, k);
    SortByX(points)[..k]
  }

  /**
   * The selection is sorted, draws its points from the input (with multiplicity), and
   * no point left out has a smaller x than a point taken.
   */
  lemma SelectTakesSmallest(points: seq<Point>, k: nat)
    requires k <= |points|
    ensures SortedByX(SortByX(points)[..k])
    ensures multiset(SortByX(points)[..k]) <= multiset(points)
    ensures forall i, j :: 0 <= i < k <= j < |points| ==> SortByX(points)[..k][i].x <= SortByX(points)[j].x
  {
    var sorted := SortByX(points);
    assert SortedByX(sorted);
    forall i, j | 0 <= i < k <= j < |points|
      ensures sorted[..k][i].x <= sorted[j].x
    {
      assert sorted[..k][i] == sorted[i];
    }
    PrefixSubMultiset(sorted, k);
  }

  lemma PrefixSubMultiset<T>(s: seq<T>, k: nat)
    requires k <= |s|
    ensures multiset(s[..k]) <= multiset(s)
  {
    assert s == s[..k] + s[k..];
    assert multiset(s) == multiset(s[..k]) + multiset(s[k..]);
  }

  /**
   * The check the reconstruction applies: some point repeats the x of the point before it.
   * A hit is always a genuine repeat, whatever the order of the points.
   */
  function HasAdjacentDuplicateX(ps: seq<Point>): (dup: bool)
    ensures dup ==> !DistinctX(ps)
  {
    exists i :: 1 <= i < |ps| && ps[i].x == ps[i - 1].x
  }

  /** On a sorted sequence, looking at neighbours only finds every repeated x. */
  lemma {:induction false} AdjacentCheckFindsDuplicates(ps: seq<Point>)
    requires SortedByX(ps)
    ensures HasAdjacentDuplicateX(ps) <==> !DistinctX(ps)
  {
    if !DistinctX(ps) {
      var i, j :| 0 <= i < j < |ps| && ps[i].x == ps[j].x;
      assert ps[i].x <= ps[i + 1].x <= ps[j].x;
      assert ps[i + 1].x == ps[i].x;
    }
  }

  /** On an unsorted sequence the neighbour check misses a repeat that is not adjacent. */
  lemma AdjacentCheckNeedsSorting()
    ensures var ps := [Point(1, 0), Point(2, 0), Point(1, 5)];
            !HasAdjacentDuplicateX(ps) && !DistinctX(ps)
  {
    var ps := [Point(1, 0), Point(2, 0), Point(1, 5)];
    assert ps[0].x == ps[2].x;
  }

  /** `x` to the powers `k-1` down to `0`: the coefficient columns of one system row. */
  function Powers(x: int, k: nat): (r: seq<int>)
    ensures |r| == k
    ensures k > 0 ==> r[k - 1] == 1
    ensures forall j :: 0 <= j < k - 1 ==> r[j] == x * r[j + 1]
  {
    seq(k, j requires 0 <= j < k => Pow(x, k - 1 - j))
  }

  /** The row of the system for one point: its powers of x followed by its y value. */
  function VandermondeRow(p: Point, k: nat): (r: seq<int>)
    ensures |r| == k + 1 && r[k] == p.y
    ensures k > 0 ==> r[k - 1] == 1
    ensures forall j :: 0 <= j < k - 1 ==> r[j] == p.x * r[j + 1]
  {
    Powers(p.x, k) + [p.y]
  }

  function Dot(u: seq<int>, v: seq<int>): int
    requires |u| == |v|
    decreases |u|
  {
    if |u| == 0 then 0 else Dot(u[..|u| - 1], v[..|v| - 1]) + u[|u| - 1] * v[|v| - 1]
  }

  /**
   * The value at `x` of the polynomial whose coefficients are listed from the highest
   * power down, by Horner's rule.
   */
  function Horner(c: seq<int>, x: int): int
    decreases |c|
  {
    if |c| == 0 then 0 else Horner(c[..|c| - 1], x) * x + c[|c| - 1]
  }

  lemma {:induction false} DotScale(u: seq<int>, v: seq<int>, x: int)
    requires |u| == |v|
    ensures Dot(seq(|u|, j requires 0 <= j < |u| => x * u[j]), v) == x * Dot(u, v)
    decreases |u|
  {
    var su := seq(|u|, j requires 0 <= j < |u| => x * u[j]);
    if |u| > 0 {
      var n := |u| - 1;
      var init := u[..n];
      DotScale(init, v[..n], x);
      assert su[..n] == seq(|init|, j requires 0 <= j < |init| => x * init[j]);
      assert Dot(su, v) == Dot(su[..n], v[..n]) + su[n] * v[n];
      assert Dot(u, v) == Dot(init, v[..n]) + u[n] * v[n];
      assert su[n] * v[n] == x * (u[n] * v[n]);
    }
  }

  /**
   * The coefficient part of a point's row, multiplied by a coefficient vector, is the value
   * of that polynomial at the point's x.
   */
  lemma {:induction false} RowStatesPolynomialValue(x: int, c: seq<int>)
    ensures Dot(Powers(x, |c|), c) == Horner(c, x)
    decreases |c|
  {
    if |c| > 0 {
      var k := |c|;
      var init := c[..k - 1];
      RowStatesPolynomialValue(x, init);
      var pw := Powers(x, k);
      var lower := Powers(x, k - 1);
      forall j | 0 <= j < k - 1
        ensures pw[j] == x * lower[j]
      {
        assert pw[j] == Pow(x, k - 1 - j);
        assert lower[j] == Pow(x, k - 2 - j);
      }
      assert pw[..k - 1] == seq(|lower|, j requires 0 <= j < |lower| => x * lower[j]);
      DotScale(lower, init, x);
      assert pw[k - 1] == Pow(x, 0) == 1;
      calc {
        Dot(pw, c);
        Dot(pw[..k - 1], init) + pw[k - 1] * c[k - 1];
        x * Dot(lower, init) + c[k - 1];
        x * Horner(init, x) + c[k - 1];
      }
    }
  }

  /** At x = 0 the polynomial is its constant term, the last coefficient. */
  lemma ConstantTermIsLastCoefficient(c: seq<int>)
    requires |c| > 0
    ensures Horner(c, 0) == c[|c| - 1]
  {
  }

  /**
   * The system for threshold `k`: fails on a threshold below one, on fewer than `k` points,
   * and on a repeated x among the selected points; otherwise one Vandermonde row per
   * selected point.
   */
  function BuildSystem(k: int, points: seq<Point>): (r: Result<seq<seq<int>>>)
    ensures k < 1 ==> r == Err(ThresholdTooSmall(k))
    ensures k >= 1 && |points| < k ==> r == Err(TooFewPoints(k, |points|))
    ensures r.Ok? <==> k >= 1 && |points| >= k && DistinctX(Select(points, k))
    ensures r.Err? && k >= 1 && |points| >= k ==> r == Err(DuplicateX)
    ensures r.Ok? ==> |r.value| == k && forall i :: 0 <= i < k ==> |r.value[i]| == k + 1
    ensures r.Ok? ==> forall i :: 0 <= i < k ==> r.value[i] == VandermondeRow(Select(points, k)[i], k)
  {
    if k < 1 then Err(ThresholdTooSmall(k))
    else if |points| < k then Err(TooFewPoints(k, |points|))
    else
      var selected := Select(points, k);
      SelectTakesSmallest(points, k);
      AdjacentCheckFindsDuplicates(selected);
      if HasAdjacentDuplicateX(selected) then Err(DuplicateX)
      else Ok(seq(k, i requires 0 <= i < k => VandermondeRow(selected[i], k)))
  }

  /**
   * A coefficient vector satisfies row `i` of the built system exactly when the polynomial
   * with those coefficients passes through the `i`-th selected point.
   */
  lemma SystemEncodesInterpolation(k: int, points: seq<Point>, c: seq<int>, i: nat)
    requires BuildSystem(k, points).Ok? && |c| == k && i < k
    ensures var row := BuildSystem(k, points).value[i];
            var p := Select(points, k)[i];
            (Dot(row[..k], c) == row[k]) <==> Horner(c, p.x) == p.y
  {
    var p := Select(points, k)[i];
    var row := BuildSystem(k, points).value[i];
    assert row == VandermondeRow(p, k);
    assert row[..k] == Powers(p.x, k);
    RowStatesPolynomialValue(p.x, c);
  }

  /**
   * The reconstruction: build the system, solve it, and report the last coefficient, the
   * polynomial's constant term. Errors from building the system come out unchanged. Otherwise
   * `ms` is the run of forward elimination on the built system: the answer is Singular
   * exactly when that run stops early, at a column that is zero from the diagonal down, and
   * on success `solution` is what back substitution computes on the eliminated matrix and the
   * answer is the integer conversion of its last entry.
   */
  method FindConstant(k: int, points: seq<Point>)
    returns (res: Result<int>, ghost ms: seq<Matrix>, ghost ps: seq<nat>, ghost solution: seq<Frac>)
    ensures BuildSystem(k, points).Err? ==> res == Err(BuildSystem(k, points).error)
    ensures k < 1 ==> res == Err(ThresholdTooSmall(k))
    ensures k >= 1 && |points| < k ==> res == Err(TooFewPoints(k, |points|))
    ensures BuildSystem(k, points).Ok? ==> IsEliminationRun(ToFractions(BuildSystem(k, points).value), k, ms, ps)
    ensures BuildSystem(k, points).Ok? ==> (res.Err? <==> |ps| < k)
    ensures BuildSystem(k, points).Ok? && res.Err? ==>
              res.error == Singular && IsAugmented(ms[|ps|], k) && ColumnIsZero(ms[|ps|], k, |ps|)
    ensures res.Ok? ==> k >= 1 && |ps| == k && BackSubstituted(ms[k], k, solution)
    ensures res.Ok? ==> res.value == ToInteger(solution[k - 1])
    ensures k == 1 && |points| >= 1 ==> res == Ok(Select(points, 1)[0].y)
  {
    var system := BuildSystem(k, points);
    if system.Err? {
      return Err(system.error), [], [], [];
    }
    var rows := system.value;
    var coefficients: Result<seq<int>>;
    coefficients, ms, ps, solution := GaussianElimination(rows);
    if coefficients.Err? {
      return Err(coefficients.error), ms, ps, solution;
    }
    res := Ok(coefficients.value[k - 1]);
    if k == 1 {
      var p := Select(points, 1)[0];
      assert rows[0] == VandermondeRow(p, 1) == [1, p.y];
      UnitDivisor(p.y);
    }
  }

  /** Dividing by one, rounded toward zero, is the identity. */
  lemma UnitDivisor(y: int)
    ensures TruncDiv(y, 1) == y
  {
    assert Divides(1, y) by { assert y == 1 * y; }
    TruncDivExact(y, 1);
  }
}
