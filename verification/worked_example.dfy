/**
 * A worked example of the whole reconstruction: the three points (1, 3), (2, 6), (3, 9) on
 * the line y = 3x with threshold 3. The run of forward elimination is computed entry by
 * entry; back substitution then yields the pairs -6/-1, -3/-1 and 0/1, so the reported
 * constant term 0 is right while the first two coefficients (6 and 3, where the line has
 * 0 and 3) do not satisfy the first equation: the term formula of back substitution drops
 * the sign of a negative denominator.
 */
module WorkedExample {
  import opened Failures
  import opened Arith
  import opened Fractions
  import opened Elimination
  import opened Interpolation

  /** The system the three points give with k = 3: the rows x^2, x, 1 and then y. */
  const LineSystem: seq<seq<int>> := [[1, 1, 1, 3], [4, 2, 1, 6], [9, 3, 1, 9]]

  const Row0: seq<Frac> := [Frac(1, 1), Frac(1, 1), Frac(1, 1), Frac(3, 1)]
  const Row1: seq<Frac> := [Frac(0, 1), Frac(-2, 1), Frac(-3, 1), Frac(-6, 1)]

  /** The matrix after step 0: rows 1 and 2 have column 0 cleared. */
  const After0: Matrix := [Row0, Row1, [Frac(0, 1), Frac(-6, 1), Frac(-8, 1), Frac(-18, 1)]]

  /** The matrix after step 1, which step 2 leaves unchanged. */
  const After1: Matrix := [Row0, Row1, [Frac(0, 1), Frac(0, 1), Frac(-1, -1), Frac(0, 1)]]

  /** A pair over 1 is already reduced. */
  lemma UnitReduced(v: int)
    ensures IsReduced(Frac(v, 1))
  {
    GcdWithOne(v);
  }

  /** Reducing over 1 keeps the pair. */
  lemma ReduceOverOne(v: int)
    ensures Reduce(v, 1) == Frac(v, 1)
  {
    if v != 0 {
      GcdWithOne(Abs(v));
      assert TruncDiv(v, 1) == v && TruncDiv(1, 1) == 1;
    }
  }

  /** With whole-number entries and pivot 1 the update is the integer row operation. */
  lemma UnitUpdate(a: int, c: int, p: int)
    ensures Multiplier(Frac(c, 1), Frac(1, 1)) == Frac(c, 1)
    ensures UpdateEntry(Frac(a, 1), Frac(c, 1), Frac(p, 1)) == Frac(a - c * p, 1)
  {
    ReduceOverOne(a - c * p);
  }

  /** The fraction form of the system, every entry over 1. */
  const Start: Matrix := [[Frac(1, 1), Frac(1, 1), Frac(1, 1), Frac(3, 1)],
                          [Frac(4, 1), Frac(2, 1), Frac(1, 1), Frac(6, 1)],
                          [Frac(9, 1), Frac(3, 1), Frac(1, 1), Frac(9, 1)]]

  /** Each integer of the system becomes the pair (v, 1). */
  lemma StartIsFractionForm()
    ensures ToFractions(LineSystem) == Start
  {
    var m := ToFractions(LineSystem);
    forall i | 0 <= i < 3
      ensures m[i] == Start[i]
    {
      assert |m[i]| == 4;
      forall j | 0 <= j < 4
        ensures m[i][j] == Start[i][j]
      {
        assert m[i][j] == Frac(LineSystem[i][j], 1);
      }
    }
  }

  /** A matrix whose entries are all over 1 is reduced throughout. */
  lemma UnitMatrixReduced(m: Matrix)
    requires forall i, j :: 0 <= i < |m| && 0 <= j < |m[i]| ==> m[i][j].den == 1
    ensures AllReduced(m)
  {
    forall i, j | 0 <= i < |m| && 0 <= j < |m[i]|
      ensures IsReduced(m[i][j])
    {
      UnitReduced(m[i][j].num);
    }
  }

  /** Step 0 subtracts 4 and 9 times row 0 from rows 1 and 2. */
  lemma Step0Update()
    ensures IsAugmented(Start, 3) && IsAugmented(After0, 3) && DenominatorsNonzero(Start)
    ensures UpdatedBelow(Start, After0, 3, 0)
  {
    UnitUpdate(4, 4, 1); UnitUpdate(2, 4, 1); UnitUpdate(1, 4, 1); UnitUpdate(6, 4, 3);
    UnitUpdate(9, 9, 1); UnitUpdate(3, 9, 1); UnitUpdate(1, 9, 1); UnitUpdate(9, 9, 3);
  }

  lemma Step0()
    ensures IsColumnStep(Start, After0, 3, 0, 0)
  {
    assert SwapRows(Start, 0, 0) == Start;
    UnitMatrixReduced(Start);
    UnitMatrixReduced(After0);
    Step0Update();
  }

  /** The one entry of step 1 that is not over 1 after reduction. */
  lemma NegativeUnitReduced()
    ensures IsReduced(Frac(-1, -1))
    ensures Reduce(-2, -2) == Frac(-1, -1)
  {
    assert Gcd(-1, -1) == Euclid(1, 1) == Euclid(1, 0) == 1;
    assert Gcd(2, -2) == Euclid(2, 2) == Euclid(2, 0) == 2;
    assert TruncDiv(-2, 2) == -1;
  }

  /** Step 1 subtracts -6/-2 times row 1 from row 2; the pair -2/-2 reduces to -1/-1. */
  lemma Step1Update()
    ensures IsAugmented(After0, 3) && IsAugmented(After1, 3) && DenominatorsNonzero(After0)
    ensures UpdatedBelow(After0, After1, 3, 1)
  {
    var mult := Multiplier(Frac(-6, 1), Frac(-2, 1));
    assert mult == Frac(-6, -2);
    assert UpdateEntry(Frac(-6, 1), mult, Frac(-2, 1)) == Reduce(0, -2) == Frac(0, 1);
    NegativeUnitReduced();
    assert UpdateEntry(Frac(-8, 1), mult, Frac(-3, 1)) == Reduce(-2, -2) == Frac(-1, -1);
    assert UpdateEntry(Frac(-18, 1), mult, Frac(-6, 1)) == Reduce(0, -2) == Frac(0, 1);
  }

  lemma After1Reduced()
    ensures AllReduced(After1)
  {
    forall i, j | 0 <= i < 3 && 0 <= j < 4
      ensures IsReduced(After1[i][j])
    {
      if After1[i][j].den == 1 {
        UnitReduced(After1[i][j].num);
      } else {
        NegativeUnitReduced();
      }
    }
  }

  lemma Step1()
    ensures IsColumnStep(After0, After1, 3, 1, 1)
  {
    assert SwapRows(After0, 1, 1) == After0;
    UnitMatrixReduced(After0);
    After1Reduced();
    Step1Update();
  }

  /** The last column step has no row below the pivot, so it changes nothing. */
  lemma Step2()
    ensures IsColumnStep(After1, After1, 3, 2, 2)
  {
    assert SwapRows(After1, 2, 2) == After1;
    After1Reduced();
  }

  /** The whole run of forward elimination on the system. */
  const LineMatrices: seq<Matrix> := [Start, After0, After1, After1]
  const LinePivots: seq<nat> := [0, 1, 2]

  /** Forward elimination on the system runs through all three columns with pivots 0, 1, 2. */
  lemma LineRun()
    ensures IsEliminationRun(ToFractions(LineSystem), 3, LineMatrices, LinePivots)
  {
    StartIsFractionForm();
    Step0();
    Step1();
    Step2();
    forall i | 0 <= i < 3
      ensures IsColumnStep(LineMatrices[i], LineMatrices[i + 1], 3, i, LinePivots[i])
    {
    }
  }

  /** What back substitution computes: -6/-1, -3/-1 and 0/1. */
  const LineAnswer: seq<Frac> := [Frac(-6, -1), Frac(-3, -1), Frac(0, 1)]

  /** The running sum of row 1 over the answer: the term 0/1 leaves -6/1. */
  lemma MiddleSum()
    ensures PartialSum(Row1, LineAnswer, 3, 1, 3) == Frac(-6, 1)
  {
  }

  /** The running sum of row 0 over the answer: 3/1 less the term 3/-1 is -6/-1. */
  lemma FirstSum()
    ensures PartialSum(Row0, LineAnswer, 3, 0, 3) == Frac(-6, -1)
  {
  }

  /** Row 2 of back substitution: 0/1 over -1/-1. */
  lemma LastRowValue()
    ensures DivideByDiagonal(PartialSum(After1[2], LineAnswer, 3, 2, 3), After1[2][2]) == LineAnswer[2]
  {
  }

  /** Row 1: -6/1 over -2/1, that is -6/-2, reduced to -3/-1. */
  lemma MiddleRowValue()
    ensures DivideByDiagonal(PartialSum(After1[1], LineAnswer, 3, 1, 3), After1[1][1]) == LineAnswer[1]
  {
    assert After1[1] == Row1;
    MiddleSum();
    MiddleDivision();
  }

  /** -6/1 over -2/1 is the pair -6/-2, whose gcd 2 leaves -3/-1. */
  lemma MiddleDivision()
    ensures DivideByDiagonal(Frac(-6, 1), Frac(-2, 1)) == Frac(-3, -1)
  {
    assert Gcd(6, -2) == Euclid(6, 2) == Euclid(2, 0) == 2;
    assert TruncDiv(-6, 2) == -3 && TruncDiv(-2, 2) == -1;
    assert Reduce(-6, -2) == Frac(-3, -1);
  }

  /** Row 0: -6/-1 over 1/1. */
  lemma FirstRowValue()
    ensures DivideByDiagonal(PartialSum(After1[0], LineAnswer, 3, 0, 3), After1[0][0]) == LineAnswer[0]
  {
    assert After1[0] == Row0;
    FirstSum();
    assert DivideByDiagonal(Frac(-6, -1), Frac(1, 1)) == Frac(-6, -1);
  }

  /** Each entry of the answer is what back substitution computes from the entries after it. */
  lemma AnswerEntry(m: Matrix, e: seq<Frac>, r: nat)
    requires m == After1 && e == LineAnswer && r < 3
    ensures DivideByDiagonal(PartialSum(m[r], e, 3, r, 3), m[r][r]) == e[r]
  {
    if r == 2 {
      LastRowValue();
    } else if r == 1 {
      MiddleRowValue();
    } else {
      FirstRowValue();
    }
  }

  /**
   * An entry of a back-substituted solution is determined by the later entries alone: any
   * sequence that agrees with the solution after row `r` gives the same running sum.
   */
  lemma EntryFromLaterEntries(m: Matrix, n: nat, sol: seq<Frac>, e: seq<Frac>, r: nat)
    requires BackSubstituted(m, n, sol) && |e| == n && r < n
    requires forall t :: r < t < n ==> e[t] == sol[t]
    ensures sol[r] == DivideByDiagonal(PartialSum(m[r], e, n, r, n), m[r][r])
  {
    assert IsBackSubstitutedAt(m, n, sol, r);
    PartialSumFrame(m[r], sol, e, n, r, n);
  }

  /** Back substitution on the eliminated matrix can produce only the answer, from the last entry up. */
  lemma {:induction false} SolutionFrom(m: Matrix, sol: seq<Frac>, e: seq<Frac>, r: nat)
    requires m == After1 && e == LineAnswer && r <= 3
    requires BackSubstituted(m, 3, sol)
    ensures forall t :: r <= t < 3 ==> sol[t] == e[t]
    decreases 3 - r
  {
    if r < 3 {
      SolutionFrom(m, sol, e, r + 1);
      EntryFromLaterEntries(m, 3, sol, e, r);
      AnswerEntry(m, e, r);
    }
  }

  /** Back substitution on the eliminated matrix can produce only these three pairs. */
  lemma LineSolution(sol: seq<Frac>)
    requires BackSubstituted(After1, 3, sol)
    ensures sol == LineAnswer
  {
    SolutionFrom(After1, sol, LineAnswer, 0);
  }

  /**
   * Every run of forward elimination on the system is a prefix of the one above, and none
   * stops early: the column where it would stop has a nonzero entry on the diagonal.
   */
  lemma LineRunsAreFull(ms: seq<Matrix>, ps: seq<nat>)
    requires IsEliminationRun(ToFractions(LineSystem), 3, ms, ps)
    ensures ms == LineMatrices[..|ps| + 1] && ps == LinePivots[..|ps|]
    ensures |ps| < 3 ==> IsAugmented(ms[|ps|], 3) && !ColumnIsZero(ms[|ps|], 3, |ps|)
  {
    LineRun();
    var t := |ps|;
    RunPrefix(ToFractions(LineSystem), 3, LineMatrices, LinePivots, t);
    RunDetermined(ToFractions(LineSystem), 3, ms, ps, LineMatrices[..t + 1], LinePivots[..t]);
    if t < 3 {
      assert ms[t] == LineMatrices[t];
      assert ms[t][t][t].num != 0;
    }
  }

  /**
   * On the three points of y = 3x, a successful run of the solver computes the solution
   * -6/-1, -3/-1, 0/1. Its last entry, the constant term, is 0 as it should be; the
   * integers 6, 3, 0 it reports do not satisfy the first equation c0 + c1 + c2 = 3, since
   * the line's coefficients are 0, 3, 0.
   */
  lemma ThreePointExample(ms: seq<Matrix>, ps: seq<nat>, sol: seq<Frac>)
    requires IsEliminationRun(ToFractions(LineSystem), 3, ms, ps) && |ps| == 3
    requires BackSubstituted(ms[3], 3, sol)
    ensures sol == LineAnswer
    ensures ToInteger(sol[0]) == 6 && ToInteger(sol[1]) == 3 && ToInteger(sol[2]) == 0
    ensures Value(sol[0]) + Value(sol[1]) + Value(sol[2]) == 9.0
  {
    LineRunsAreFull(ms, ps);
    LineSolution(sol);
    AnswerIntegers();
  }

  /** The integers reported for the answer, and the value of the first row at it. */
  lemma AnswerIntegers()
    ensures ToInteger(LineAnswer[0]) == 6 && ToInteger(LineAnswer[1]) == 3 && ToInteger(LineAnswer[2]) == 0
    ensures Value(LineAnswer[0]) + Value(LineAnswer[1]) + Value(LineAnswer[2]) == 9.0
  {
    assert TruncDiv(-6, -1) == 6 && TruncDiv(-3, -1) == 3;
  }

  /** Three shares on the line y = 3x, whose constant term is 0. */
  const LinePoints: seq<Point> := [Point(1, 3), Point(2, 6), Point(3, 9)]

  /** Three points in strictly increasing order of x are the ones selected, and distinct. */
  lemma IncreasingSelection(ps: seq<Point>)
    requires |ps| == 3 && ps[0].x < ps[1].x < ps[2].x
    ensures Select(ps, 3) == ps && DistinctX(ps)
  {
    assert SortedByX(ps);
    SortSortedIsIdentity(ps);
    assert ps[..3] == ps;
  }

  /** A row for threshold 3 is x^2, x, 1 and then y. */
  lemma QuadraticRow(p: Point)
    ensures VandermondeRow(p, 3) == [p.x * p.x, p.x, 1, p.y]
  {
    var r := VandermondeRow(p, 3);
    assert r[2] == 1 && r[1] == p.x * r[2] && r[0] == p.x * r[1] && r[3] == p.y;
  }

  /** Three points with increasing x give the system of their quadratic rows. */
  lemma QuadraticSystem(points: seq<Point>)
    requires |points| == 3 && points[0].x < points[1].x < points[2].x
    ensures BuildSystem(3, points) ==
              Ok([VandermondeRow(points[0], 3), VandermondeRow(points[1], 3), VandermondeRow(points[2], 3)])
  {
    IncreasingSelection(points);
    var r := BuildSystem(3, points);
    assert r.Ok?;
    assert r.value[0] == VandermondeRow(points[0], 3);
    assert r.value[1] == VandermondeRow(points[1], 3);
    assert r.value[2] == VandermondeRow(points[2], 3);
    var rows := [VandermondeRow(points[0], 3), VandermondeRow(points[1], 3), VandermondeRow(points[2], 3)];
    assert |r.value| == |rows| && forall i :: 0 <= i < 3 ==> r.value[i] == rows[i];
    assert r.value == rows;
  }

  /** With threshold 3 the points give the system above. */
  lemma LinePointsSystem(points: seq<Point>)
    requires points == LinePoints
    ensures BuildSystem(3, points) == Ok(LineSystem)
  {
    QuadraticSystem(points);
    QuadraticRow(points[0]);
    QuadraticRow(points[1]);
    QuadraticRow(points[2]);
  }

  /**
   * The reconstruction on the three points reports the secret 0: no run of elimination on
   * their system stops early, and the last entry of back substitution is 0/1.
   */
  method ReconstructLine() returns (secret: Result<int>)
    ensures secret == Ok(0)
  {
    ghost var ms, ps, sol;
    var points := LinePoints;
    secret, ms, ps, sol := FindConstant(3, points);
    LinePointsSystem(points);
    LineRunsAreFull(ms, ps);
    ThreePointExample(ms, ps, sol);
  }
}
