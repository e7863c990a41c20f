/**
 * The solver: forward elimination with a search for a nonzero pivot, back substitution,
 * and conversion of the solution to integers, over an augmented matrix of fraction pairs.
 */
module Elimination {
  import opened Failures
  import opened Arith
  import opened Fractions

  type Matrix = seq<seq<Frac>>

  /** `n` rows of `n + 1` entries: `n` coefficient columns and the constant column. */
  predicate IsAugmented(m: Matrix, n: nat)
  {
    |m| == n && forall i :: 0 <= i < n ==> |m[i]| == n + 1
  }

  predicate AllReduced(m: Matrix)
  {
    forall i, j {:trigger m[i][j]} :: 0 <= i < |m| && 0 <= j < |m[i]| ==> IsReduced(m[i][j])
  }

  predicate RowReduced(row: seq<Frac>)
  {
    forall t {:trigger row[t]} :: 0 <= t < |row| ==> IsReduced(row[t])
  }

  /** Every denominator is nonzero, which is all the arithmetic on the entries needs. */
  predicate DenominatorsNonzero(m: Matrix)
  {
    forall i, j {:trigger m[i][j]} :: 0 <= i < |m| && 0 <= j < |m[i]| ==> m[i][j].den != 0
  }

  predicate RowDenominatorsNonzero(row: seq<Frac>)
  {
    forall t {:trigger row[t]} :: 0 <= t < |row| ==> row[t].den != 0
  }

  lemma ReducedDenominators(m: Matrix)
    requires AllReduced(m)
    ensures DenominatorsNonzero(m)
  {
  }

  /** Every entry in rows `from..n-1` and columns `from..n` has denominator 1. */
  predicate UnitDenominators(m: Matrix, n: nat, from: nat)
    requires IsAugmented(m, n)
  {
    forall k, j :: from <= k < n && from <= j <= n ==> m[k][j].den == 1
  }

  /** Each integer entry becomes the pair (entry, 1). */
  function ToFractions(a: seq<seq<int>>): (m: Matrix)
    ensures |m| == |a| && forall i :: 0 <= i < |a| ==> |m[i]| == |a[i]|
    ensures AllReduced(m)
    ensures forall i, j :: 0 <= i < |a| && 0 <= j < |a[i]| ==>
              m[i][j] == Frac(a[i][j], 1) && Value(m[i][j]) == a[i][j] as real
  {
    var m := seq(|a|, i requires 0 <= i < |a| => seq(|a[i]|, j requires 0 <= j < |a[i]| => Frac(a[i][j], 1)));
    forall i, j | 0 <= i < |a| && 0 <= j < |a[i]|
      ensures IsReduced(m[i][j])
    {
      GcdWithOne(a[i][j]);
    }
    m
  }

  /** Row `p` is the first row from `i` on with a nonzero numerator in column `i`. */
  predicate IsFirstPivot(m: Matrix, n: nat, i: nat, p: nat)
    requires IsAugmented(m, n) && i < n
  {
    && i <= p < n
    && m[p][i].num != 0
    && forall k :: i <= k < p ==> m[k][i].num == 0
  }

  /** The pivot search: the first row from `i` on with a nonzero entry in column `i`, or -1. */
  method FindPivot(m: Matrix, n: nat, i: nat) returns (p: int)
    requires IsAugmented(m, n) && i < n
    ensures p == -1 <==> forall k :: i <= k < n ==> m[k][i].num == 0
    ensures p != -1 ==> p >= 0 && IsFirstPivot(m, n, i, p)
  {
    var k := i;
    while k < n
      invariant i <= k <= n
      invariant forall r :: i <= r < k ==> m[r][i].num == 0
    {
      if m[k][i].num != 0 {
        return k;
      }
      k := k + 1;
    }
    return -1;
  }

  /** Exchanges rows `i` and `p`; nothing happens when they are the same row. */
  function SwapRows(m: Matrix, i: nat, p: nat): (r: Matrix)
    requires i < |m| && p < |m|
    ensures |r| == |m| && r[i] == m[p] && r[p] == m[i]
    ensures forall k :: 0 <= k < |m| && k != i && k != p ==> r[k] == m[k]
    ensures multiset(r) == multiset(m)
  {
    if p == i then m else m[i := m[p]][p := m[i]]
  }

  /** Rows `0..i`, and columns `0..i-1` of every later row, are as in `before`. */
  predicate Untouched(before: Matrix, after: Matrix, n: nat, i: nat)
    requires IsAugmented(before, n) && IsAugmented(after, n) && i < n
  {
    && (forall k :: 0 <= k <= i ==> after[k] == before[k])
    && (forall k, j :: i < k < n && 0 <= j < i ==> after[k][j] == before[k][j])
  }

  /**
   * Every row below `i` with a zero in column `i` is left alone; every other row has each
   * column from `i` on replaced by its update with that row's multiplier.
   */
  predicate UpdatedBelow(before: Matrix, after: Matrix, n: nat, i: nat)
    requires IsAugmented(before, n) && IsAugmented(after, n) && DenominatorsNonzero(before)
    requires i < n && before[i][i].num != 0
  {
    forall k, j :: i < k < n && i <= j <= n ==>
      after[k][j] ==
        if before[k][i].num == 0 then before[k][j]
        else UpdateEntry(before[k][j], Multiplier(before[k][i], before[i][i]), before[i][j])
  }

  /** What one column step leaves behind, relative to the matrix after the row swap. */
  predicate StepOutcome(swapped: Matrix, after: Matrix, n: nat, i: nat)
  {
    && i < n
    && IsAugmented(swapped, n) && AllReduced(swapped) && DenominatorsNonzero(swapped)
    && swapped[i][i].num != 0
    && IsAugmented(after, n) && AllReduced(after) && DenominatorsNonzero(after)
    && Untouched(swapped, after, n, i)
    && UpdatedBelow(swapped, after, n, i)
  }

  /**
   * The exact outcome of a column step: column `i` is 0/1 below the pivot and every updated
   * entry is the old entry minus the row's multiplier times the pivot-row entry.
   */
  ghost predicate ExactlyEliminated(swapped: Matrix, after: Matrix, n: nat, i: nat)
    requires i < n && IsAugmented(swapped, n) && IsAugmented(after, n)
    requires DenominatorsNonzero(swapped) && DenominatorsNonzero(after) && swapped[i][i].num != 0
  {
    forall k :: i < k < n ==> RowExactlyEliminated(swapped[k], swapped[i], after[k], n, i)
  }

  /** The exact outcome for one row `rowK` below the pivot row `pivotRow`. */
  ghost predicate RowExactlyEliminated(rowK: seq<Frac>, pivotRow: seq<Frac>, newRow: seq<Frac>, n: nat, i: nat)
    requires |rowK| == n + 1 && |pivotRow| == n + 1 && |newRow| == n + 1 && i < n
    requires RowDenominatorsNonzero(rowK) && RowDenominatorsNonzero(pivotRow) && RowDenominatorsNonzero(newRow)
    requires pivotRow[i].num != 0
  {
    && newRow[i] == Frac(0, 1)
    && forall j :: i <= j <= n ==>
         Value(newRow[j]) == Value(rowK[j]) - Value(Multiplier(rowK[i], pivotRow[i])) * Value(pivotRow[j])
  }

  /** The update of one row: columns `i..n` of `rowK` become their updates with multiplier `mult`. */
  predicate IsUpdatedRow(rowK: seq<Frac>, pivotRow: seq<Frac>, mult: Frac, n: nat, i: nat, row: seq<Frac>)
    requires |rowK| == n + 1 && |pivotRow| == n + 1 && i <= n && mult.den != 0
    requires RowReduced(rowK)
  {
    && |row| == n + 1
    && (forall t :: 0 <= t < i ==> row[t] == rowK[t])
    && (forall t :: i <= t <= n ==> row[t] == UpdateEntry(rowK[t], mult, pivotRow[t]))
  }

  /**
   * Replaces row `rowK` by `rowK - mult * pivotRow` from column `i` on, entry by entry, with
   * the multiplier m[k][i] / m[i][i] computed once before the loop.
   */
  method EliminateRow(rowK: seq<Frac>, pivotRow: seq<Frac>, n: nat, i: nat) returns (row: seq<Frac>)
    requires |rowK| == n + 1 && |pivotRow| == n + 1 && i < n
    requires RowReduced(rowK) && RowReduced(pivotRow)
    requires pivotRow[i].num != 0
    ensures |row| == n + 1 && RowReduced(row)
    ensures IsUpdatedRow(rowK, pivotRow, Multiplier(rowK[i], pivotRow[i]), n, i, row)
  {
    var mult := Multiplier(rowK[i], pivotRow[i]);
    row := rowK;
    var j := i;
    while j <= n
      invariant i <= j <= n + 1
      invariant |row| == n + 1
      invariant forall t :: 0 <= t <= n && (t < i || j <= t) ==> row[t] == rowK[t]
      invariant forall t :: i <= t < j ==> row[t] == UpdateEntry(rowK[t], mult, pivotRow[t])
      invariant RowReduced(row)
    {
      row := row[j := UpdateEntry(row[j], mult, pivotRow[j])];
      j := j + 1;
    }
  }

  /**
   * Eliminates column `i` below the pivot row `i`: each row `k > i` with a nonzero entry in
   * column `i` is replaced by its update; rows with a zero there are skipped.
   */
  method EliminateBelow(m0: Matrix, n: nat, i: nat) returns (m: Matrix)
    requires IsAugmented(m0, n) && AllReduced(m0) && i < n && m0[i][i].num != 0
    ensures IsAugmented(m, n) && AllReduced(m)
    ensures Untouched(m0, m, n, i) && UpdatedBelow(m0, m, n, i)
  {
    m := m0;
    var k := i + 1;
    while k < n
      invariant i + 1 <= k <= n
      invariant IsAugmented(m, n) && AllReduced(m)
      invariant forall r :: 0 <= r < n && (r <= i || k <= r) ==> m[r] == m0[r]
      invariant forall r :: i < r < k && m0[r][i].num == 0 ==> m[r] == m0[r]
      invariant forall r :: i < r < k && m0[r][i].num != 0 ==>
                  IsUpdatedRow(m0[r], m0[i], Multiplier(m0[r][i], m0[i][i]), n, i, m[r])
    {
      if m[k][i].num != 0 {
        var row := EliminateRow(m[k], m[i], n, i);
        m := m[k := row];
      }
      k := k + 1;
    }
    FinishBelow(m0, m, n, i);
  }

  /** Rows updated or skipped as the elimination loop leaves them satisfy the step's frame and update. */
  lemma FinishBelow(m0: Matrix, m: Matrix, n: nat, i: nat)
    requires IsAugmented(m0, n) && AllReduced(m0) && i < n && m0[i][i].num != 0 && IsAugmented(m, n)
    requires forall r :: 0 <= r <= i ==> m[r] == m0[r]
    requires forall r :: i < r < n && m0[r][i].num == 0 ==> m[r] == m0[r]
    requires forall r :: i < r < n && m0[r][i].num != 0 ==>
               IsUpdatedRow(m0[r], m0[i], Multiplier(m0[r][i], m0[i][i]), n, i, m[r])
    ensures DenominatorsNonzero(m0)
    ensures Untouched(m0, m, n, i) && UpdatedBelow(m0, m, n, i)
  {
  }

  lemma SkippedEntryExact(a: Frac, rowPivotEntry: Frac, pivot: Frac, p: Frac)
    requires a.den != 0 && rowPivotEntry.den != 0 && pivot.den != 0 && p.den != 0
    requires pivot.num != 0 && rowPivotEntry.num == 0
    ensures Value(a) == Value(a) - Value(Multiplier(rowPivotEntry, pivot)) * Value(p)
  {
    var mult := Multiplier(rowPivotEntry, pivot);
    assert mult.num == 0;
    assert Value(mult) == 0.0;
  }

  lemma UpdatedEntryExact(a: Frac, rowPivotEntry: Frac, pivot: Frac, p: Frac, r: Frac)
    requires rowPivotEntry.den != 0 && pivot.den != 0
    requires pivot.num != 0 && a.den == 1 && p.den == 1
    requires r == UpdateEntry(a, Multiplier(rowPivotEntry, pivot), p)
    ensures Value(r) == Value(a) - Value(Multiplier(rowPivotEntry, pivot)) * Value(p)
  {
    UpdateEntryExact(a, Multiplier(rowPivotEntry, pivot), p);
  }

  lemma ExactRow(rowK: seq<Frac>, pivotRow: seq<Frac>, newRow: seq<Frac>, n: nat, i: nat)
    requires |rowK| == n + 1 && |pivotRow| == n + 1 && |newRow| == n + 1 && i < n
    requires RowDenominatorsNonzero(rowK) && RowDenominatorsNonzero(pivotRow) && RowDenominatorsNonzero(newRow)
    requires rowK[i].num == 0 ==> rowK[i] == Frac(0, 1)
    requires pivotRow[i].num != 0
    requires forall t :: i <= t <= n ==> rowK[t].den == 1 && pivotRow[t].den == 1
    requires forall t :: i <= t <= n ==>
               newRow[t] ==
                 if rowK[i].num == 0 then rowK[t]
                 else UpdateEntry(rowK[t], Multiplier(rowK[i], pivotRow[i]), pivotRow[t])
    ensures RowExactlyEliminated(rowK, pivotRow, newRow, n, i)
  {
    if rowK[i].num == 0 {
      forall t | i <= t <= n
        ensures Value(newRow[t]) == Value(rowK[t]) - Value(Multiplier(rowK[i], pivotRow[i])) * Value(pivotRow[t])
      {
        SkippedEntryExact(rowK[t], rowK[i], pivotRow[i], pivotRow[t]);
      }
    } else {
      UpdateClearsPivotColumn(rowK[i], pivotRow[i]);
      forall t | i <= t <= n
        ensures Value(newRow[t]) == Value(rowK[t]) - Value(Multiplier(rowK[i], pivotRow[i])) * Value(pivotRow[t])
      {
        UpdatedEntryExact(rowK[t], rowK[i], pivotRow[i], pivotRow[t], newRow[t]);
      }
    }
  }

  lemma ExactStep(swapped: Matrix, after: Matrix, n: nat, i: nat)
    requires i < n && IsAugmented(swapped, n) && IsAugmented(after, n)
    requires DenominatorsNonzero(swapped) && DenominatorsNonzero(after) && swapped[i][i].num != 0
    requires forall k :: i < k < n && swapped[k][i].num == 0 ==> swapped[k][i] == Frac(0, 1)
    requires UpdatedBelow(swapped, after, n, i)
    requires UnitDenominators(swapped, n, i)
    ensures ExactlyEliminated(swapped, after, n, i)
  {
    forall k | i < k < n
      ensures RowExactlyEliminated(swapped[k], swapped[i], after[k], n, i)
    {
      ExactStepRow(swapped, after, n, i, k);
    }
  }

  lemma ExactStepRow(swapped: Matrix, after: Matrix, n: nat, i: nat, k: nat)
    requires i < n && IsAugmented(swapped, n) && IsAugmented(after, n)
    requires DenominatorsNonzero(swapped) && DenominatorsNonzero(after) && swapped[i][i].num != 0
    requires i < k < n && (swapped[k][i].num == 0 ==> swapped[k][i] == Frac(0, 1))
    requires UpdatedBelow(swapped, after, n, i)
    requires UnitDenominators(swapped, n, i)
    ensures RowExactlyEliminated(swapped[k], swapped[i], after[k], n, i)
  {
    var rowK, pivotRow, newRow := swapped[k], swapped[i], after[k];
    assert RowDenominatorsNonzero(rowK) && RowDenominatorsNonzero(pivotRow) && RowDenominatorsNonzero(newRow) by {
      forall t | 0 <= t <= n ensures rowK[t].den != 0 && pivotRow[t].den != 0 && newRow[t].den != 0 {
        assert swapped[k][t].den != 0 && swapped[i][t].den != 0 && after[k][t].den != 0;
      }
    }
    assert forall t :: i <= t <= n ==> rowK[t].den == 1 && pivotRow[t].den == 1 by {
      forall t | i <= t <= n ensures rowK[t].den == 1 && pivotRow[t].den == 1 {
        assert swapped[k][t].den == 1 && swapped[i][t].den == 1;
      }
    }
    assert forall t :: i <= t <= n ==>
             newRow[t] ==
               if rowK[i].num == 0 then rowK[t]
               else UpdateEntry(rowK[t], Multiplier(rowK[i], pivotRow[i]), pivotRow[t]) by {
      forall t | i <= t <= n
        ensures newRow[t] ==
                  if rowK[i].num == 0 then rowK[t]
                  else UpdateEntry(rowK[t], Multiplier(rowK[i], pivotRow[i]), pivotRow[t])
      {
        UpdatedAt(swapped, after, n, i, k, t);
      }
    }
    ExactRow(rowK, pivotRow, newRow, n, i);
  }

  /**
   * One iteration of forward elimination: fails exactly when column `i` is zero from row `i`
   * down; otherwise swaps the first nonzero row `p` into place and eliminates below it.
   */
  method ColumnStep(m0: Matrix, n: nat, i: nat) returns (res: Result<Matrix>, ghost p: nat)
    requires IsAugmented(m0, n) && AllReduced(m0) && i < n
    ensures res.Err? <==> forall k :: i <= k < n ==> m0[k][i].num == 0
    ensures res.Err? ==> res.error == Singular
    ensures res.Ok? ==> IsFirstPivot(m0, n, i, p) && StepOutcome(SwapRows(m0, i, p), res.value, n, i)
    ensures res.Ok? && UnitDenominators(m0, n, i) ==>
              ExactlyEliminated(SwapRows(m0, i, p), res.value, n, i)
  {
    var pivotRow := FindPivot(m0, n, i);
    if pivotRow == -1 {
      p := 0;
      return Err(Singular), p;
    }
    var q: nat := pivotRow;
    p := q;
    var swapped := SwapRows(m0, i, q);
    var m := EliminateBelow(swapped, n, i);
    ReducedDenominators(swapped);
    ReducedDenominators(m);
    if UnitDenominators(m0, n, i) {
      assert forall k :: i < k < n && swapped[k][i].num == 0 ==> IsReduced(swapped[k][i]);
      ExactStep(swapped, m, n, i);
    }
    return Ok(m), p;
  }

  /** Column `i` is zero from row `i` down, so the pivot search finds nothing. */
  predicate ColumnIsZero(m: Matrix, n: nat, i: nat)
    requires IsAugmented(m, n) && i < n
  {
    forall k :: i <= k < n ==> m[k][i].num == 0
  }

  /**
   * Step `i` of forward elimination takes `before` to `after`: row `p` is the first pivot of
   * column `i`, and `after` is what eliminating below it leaves once it is swapped in.
   */
  predicate IsColumnStep(before: Matrix, after: Matrix, n: nat, i: nat, p: nat)
  {
    && i < n && IsAugmented(before, n)
    && IsFirstPivot(before, n, i, p)
    && StepOutcome(SwapRows(before, i, p), after, n, i)
  }

  /**
   * A run of forward elimination from `m0`: `ms[0]` is `m0`, and each later matrix is the
   * column step of its predecessor, with the pivot rows listed in `ps`.
   */
  predicate IsEliminationRun(m0: Matrix, n: nat, ms: seq<Matrix>, ps: seq<nat>)
  {
    && |ms| == |ps| + 1 && |ps| <= n
    && ms[0] == m0
    && forall i :: 0 <= i < |ps| ==> IsColumnStep(ms[i], ms[i + 1], n, i, ps[i])
  }

  /** Only one row is the first pivot of a column. */
  lemma FirstPivotUnique(m: Matrix, n: nat, i: nat, p: nat, q: nat)
    requires IsAugmented(m, n) && i < n
    requires IsFirstPivot(m, n, i, p) && IsFirstPivot(m, n, i, q)
    ensures p == q
  {
  }

  /** The frame and update facts of a step leave no freedom: they fix every entry. */
  lemma StepOutcomeUnique(swapped: Matrix, a: Matrix, b: Matrix, n: nat, i: nat)
    requires StepOutcome(swapped, a, n, i) && StepOutcome(swapped, b, n, i)
    ensures a == b
  {
    FrameAndUpdateFix(swapped, a, b, n, i);
  }

  lemma FrameAndUpdateFix(swapped: Matrix, a: Matrix, b: Matrix, n: nat, i: nat)
    requires i < n && IsAugmented(swapped, n) && IsAugmented(a, n) && IsAugmented(b, n)
    requires DenominatorsNonzero(swapped) && swapped[i][i].num != 0
    requires Untouched(swapped, a, n, i) && Untouched(swapped, b, n, i)
    requires UpdatedBelow(swapped, a, n, i) && UpdatedBelow(swapped, b, n, i)
    ensures a == b
  {
    forall k | 0 <= k < n
      ensures a[k] == b[k]
    {
      if k > i {
        forall j | 0 <= j < i
          ensures a[k][j] == b[k][j]
        {
          UntouchedEntry(swapped, a, n, i, k, j);
          UntouchedEntry(swapped, b, n, i, k, j);
        }
        forall j | i <= j <= n
          ensures a[k][j] == b[k][j]
        {
          UpdatedEntry(swapped, a, b, n, i, k, j);
        }
      }
    }
  }

  lemma UntouchedEntry(swapped: Matrix, a: Matrix, n: nat, i: nat, k: nat, j: nat)
    requires i < n && IsAugmented(swapped, n) && IsAugmented(a, n)
    requires Untouched(swapped, a, n, i) && i < k < n && j < i
    ensures a[k][j] == swapped[k][j]
  {
  }

  lemma UpdatedEntry(swapped: Matrix, a: Matrix, b: Matrix, n: nat, i: nat, k: nat, j: nat)
    requires i < n && IsAugmented(swapped, n) && IsAugmented(a, n) && IsAugmented(b, n)
    requires DenominatorsNonzero(swapped) && swapped[i][i].num != 0
    requires UpdatedBelow(swapped, a, n, i) && UpdatedBelow(swapped, b, n, i)
    requires i < k < n && i <= j <= n
    ensures a[k][j] == b[k][j]
  {
    UpdatedAt(swapped, a, n, i, k, j);
    UpdatedAt(swapped, b, n, i, k, j);
  }

  lemma UpdatedAt(before: Matrix, after: Matrix, n: nat, i: nat, k: nat, j: nat)
    requires i < n && IsAugmented(before, n) && IsAugmented(after, n)
    requires DenominatorsNonzero(before) && before[i][i].num != 0
    requires UpdatedBelow(before, after, n, i) && i < k < n && i <= j <= n
    ensures after[k][j] ==
              if before[k][i].num == 0 then before[k][j]
              else UpdateEntry(before[k][j], Multiplier(before[k][i], before[i][i]), before[i][j])
  {
  }

  /** A column step has one outcome: the pivot row and the resulting matrix are fixed. */
  lemma StepDetermined(before: Matrix, a: Matrix, b: Matrix, n: nat, i: nat, p: nat, q: nat)
    requires IsColumnStep(before, a, n, i, p) && IsColumnStep(before, b, n, i, q)
    ensures a == b && p == q
  {
    FirstPivotUnique(before, n, i, p, q);
    StepOutcomeUnique(SwapRows(before, i, p), a, b, n, i);
  }

  /** Every prefix of a run is a run. */
  lemma RunPrefix(m0: Matrix, n: nat, ms: seq<Matrix>, ps: seq<nat>, t: nat)
    requires IsEliminationRun(m0, n, ms, ps) && t <= |ps|
    ensures IsEliminationRun(m0, n, ms[..t + 1], ps[..t])
  {
  }

  /** A run grows by one column step at its end. */
  lemma RunExtend(m0: Matrix, n: nat, ms: seq<Matrix>, ps: seq<nat>, next: Matrix, p: nat)
    requires IsEliminationRun(m0, n, ms, ps)
    requires IsColumnStep(ms[|ps|], next, n, |ps|, p)
    ensures IsEliminationRun(m0, n, ms + [next], ps + [p])
  {
  }

  /** Two runs of the same length from the same matrix agree step by step. */
  lemma {:induction false} RunDetermined(m0: Matrix, n: nat, ms: seq<Matrix>, ps: seq<nat>, ms2: seq<Matrix>, ps2: seq<nat>)
    requires IsEliminationRun(m0, n, ms, ps) && IsEliminationRun(m0, n, ms2, ps2)
    requires |ps| == |ps2|
    ensures ms == ms2 && ps == ps2
    decreases |ps|
  {
    if |ps| > 0 {
      var t := |ps| - 1;
      RunPrefix(m0, n, ms, ps, t);
      RunPrefix(m0, n, ms2, ps2, t);
      RunDetermined(m0, n, ms[..t + 1], ps[..t], ms2[..t + 1], ps2[..t]);
      PrefixLast(ms, ms2, t);
      RunStepAt(m0, n, ms, ps, t);
      RunStepAt(m0, n, ms2, ps2, t);
      StepDetermined(ms[t], ms[t + 1], ms2[t + 1], n, t, ps[t], ps2[t]);
      PrefixAndLast(ms, ms2, t + 1);
      PrefixAndLast(ps, ps2, t);
    }
  }

  lemma RunStepAt(m0: Matrix, n: nat, ms: seq<Matrix>, ps: seq<nat>, t: nat)
    requires IsEliminationRun(m0, n, ms, ps) && t < |ps|
    ensures IsColumnStep(ms[t], ms[t + 1], n, t, ps[t])
  {
  }

  lemma PrefixLast<T>(s: seq<T>, s2: seq<T>, t: nat)
    requires t < |s| && t < |s2| && s[..t + 1] == s2[..t + 1]
    ensures s[t] == s2[t]
  {
  }

  /** Sequences of the same length that agree before index `t` and at `t` are equal. */
  lemma PrefixAndLast<T>(s: seq<T>, s2: seq<T>, t: nat)
    requires |s| == |s2| == t + 1 && s[..t] == s2[..t] && s[t] == s2[t]
    ensures s == s2
  {
  }

  /**
   * Forward elimination, column by column. The result is the end of the run of column steps
   * from `m0`; it fails exactly when some step finds its column zero from the diagonal down.
   * On success every diagonal numerator is nonzero, because row `i` receives its pivot at
   * step `i` and no later step writes it.
   */
  method ForwardEliminate(m0: Matrix, n: nat) returns (res: Result<Matrix>, ghost ms: seq<Matrix>, ghost ps: seq<nat>)
    requires IsAugmented(m0, n) && AllReduced(m0)
    ensures IsEliminationRun(m0, n, ms, ps)
    ensures res.Ok? <==> |ps| == n
    ensures res.Ok? ==> res.value == ms[n]
    ensures res.Err? ==> res.error == Singular && IsAugmented(ms[|ps|], n) && ColumnIsZero(ms[|ps|], n, |ps|)
    ensures res.Ok? ==> IsAugmented(res.value, n) && AllReduced(res.value)
    ensures res.Ok? ==> forall d :: 0 <= d < n ==> res.value[d][d].num != 0
    ensures n > 0 && (forall k :: 0 <= k < n ==> m0[k][0].num == 0) ==> res == Err(Singular)
    ensures res.Ok? && n > 0 && UnitDenominators(m0, n, 0) ==>
              forall k :: 0 < k < n ==> res.value[k][0] == Frac(0, 1)
    ensures |ps| > 0 && UnitDenominators(m0, n, 0) ==>
              IsColumnStep(m0, ms[1], n, 0, ps[0]) && ExactlyEliminated(SwapRows(m0, 0, ps[0]), ms[1], n, 0)
    ensures n == 1 ==> res == if m0[0][0].num == 0 then Err(Singular) else Ok(m0)
  {
    var m := m0;
    var i := 0;
    ms, ps := [m0], [];
    while i < n
      invariant 0 <= i <= n
      invariant IsAugmented(m, n) && AllReduced(m)
      invariant forall d :: 0 <= d < i ==> m[d][d].num != 0
      invariant IsEliminationRun(m0, n, ms, ps) && |ps| == i && ms[i] == m
      invariant i == 0 ==> m == m0
      invariant i > 0 && UnitDenominators(m0, n, 0) ==> forall k :: 0 < k < n ==> m[k][0] == Frac(0, 1)
      invariant i > 0 ==> IsColumnStep(m0, ms[1], n, 0, ps[0])
      invariant i > 0 && UnitDenominators(m0, n, 0) ==> ExactlyEliminated(SwapRows(m0, 0, ps[0]), ms[1], n, 0)
    {
      var step, p := ColumnStep(m, n, i);
      if step.Err? {
        return Err(step.error), ms, ps;
      }
      StepKeepsDiagonal(m, step.value, n, i, p);
      if UnitDenominators(m0, n, 0) {
        if i == 0 {
          FirstStepClearsColumn(m, step.value, n, p);
        } else {
          StepKeepsColumnZero(m, step.value, n, i, p);
        }
      }
      RunExtend(m0, n, ms, ps, step.value, p);
      ms, ps := ms + [step.value], ps + [p];
      m := step.value;
      i := i + 1;
    }
    if n == 1 {
      assert m == m0;
    }
    return Ok(m), ms, ps;
  }

  /** Step `i` puts a nonzero pivot on the diagonal at row `i` and keeps the earlier ones. */
  lemma StepKeepsDiagonal(m: Matrix, next: Matrix, n: nat, i: nat, p: nat)
    requires IsColumnStep(m, next, n, i, p)
    requires forall d :: 0 <= d < i ==> m[d][d].num != 0
    ensures forall d :: 0 <= d <= i ==> next[d][d].num != 0
  {
  }

  /** A later step leaves column 0 below the first row as it found it. */
  lemma StepKeepsColumnZero(m: Matrix, next: Matrix, n: nat, i: nat, p: nat)
    requires IsColumnStep(m, next, n, i, p) && i > 0
    requires forall k :: 0 < k < n ==> m[k][0] == Frac(0, 1)
    ensures forall k :: 0 < k < n ==> next[k][0] == Frac(0, 1)
  {
  }

  /** The exact first step leaves 0/1 in column 0 below the first row. */
  lemma FirstStepClearsColumn(m: Matrix, next: Matrix, n: nat, p: nat)
    requires IsColumnStep(m, next, n, 0, p) && ExactlyEliminated(SwapRows(m, 0, p), next, n, 0)
    ensures forall k :: 0 < k < n ==> next[k][0] == Frac(0, 1)
  {
  }

  /**
   * The running sum of back substitution for row `i` once columns `i+1..j-1` are done:
   * starting from the constant column, each nonzero coefficient's term is subtracted.
   */
  function PartialSum(row: seq<Frac>, sol: seq<Frac>, n: nat, i: nat, j: nat): (s: Frac)
    requires |row| == n + 1 && |sol| == n && i < j <= n
    requires RowDenominatorsNonzero(row)
    requires forall t :: i < t < n ==> sol[t].den != 0
    ensures s.den != 0
    ensures Value(s) == Value(row[n]) - NumeratorDot(row, sol, i + 1, j)
    decreases j
  {
    if j == i + 1 then row[n]
    else
      var s := PartialSum(row, sol, n, i, j - 1);
      if row[j - 1].num == 0 then s else SubtractTerm(s, Term(row[j - 1], sol[j - 1]))
  }

  /**
   * The sum, over columns `lo..hi-1`, of coefficient numerator times solution numerator:
   * what the subtracted terms of back substitution add up to.
   */
  ghost function NumeratorDot(row: seq<Frac>, sol: seq<Frac>, lo: nat, hi: nat): real
    requires lo <= hi <= |row| && hi <= |sol|
    decreases hi
  {
    if hi == lo then 0.0
    else NumeratorDot(row, sol, lo, hi - 1) + (row[hi - 1].num * sol[hi - 1].num) as real
  }

  /** The rational dot product of a row segment with the solution. */
  ghost function RationalDot(row: seq<Frac>, sol: seq<Frac>, lo: nat, hi: nat): real
    requires lo <= hi <= |row| && hi <= |sol|
    requires forall t :: lo <= t < hi ==> row[t].den != 0 && sol[t].den != 0
    decreases hi
  {
    if hi == lo then 0.0
    else RationalDot(row, sol, lo, hi - 1) + Value(row[hi - 1]) * Value(sol[hi - 1])
  }

  /**
   * The numerator sum is the rational dot product when, column by column, a numerator is
   * zero or the two denominators multiply to 1.
   */
  lemma {:induction false} DotsAgree(row: seq<Frac>, sol: seq<Frac>, lo: nat, hi: nat)
    requires lo <= hi <= |row| && hi <= |sol|
    requires forall t :: lo <= t < hi ==> row[t].den != 0 && sol[t].den != 0
    requires forall t :: lo <= t < hi ==> row[t].num == 0 || sol[t].num == 0 || row[t].den * sol[t].den == 1
    ensures NumeratorDot(row, sol, lo, hi) == RationalDot(row, sol, lo, hi)
    decreases hi
  {
    if hi > lo {
      var h := hi - 1;
      DotsAgree(row, sol, lo, h);
      ColumnAgrees(row[h], sol[h]);
      assert NumeratorDot(row, sol, lo, hi) == NumeratorDot(row, sol, lo, h) + (row[h].num * sol[h].num) as real;
      assert RationalDot(row, sol, lo, hi) == RationalDot(row, sol, lo, h) + Value(row[h]) * Value(sol[h]);
    }
  }

  lemma ColumnAgrees(c: Frac, x: Frac)
    requires c.den != 0 && x.den != 0
    requires c.num == 0 || x.num == 0 || c.den * x.den == 1
    ensures (c.num * x.num) as real == Value(c) * Value(x)
  {
    TermIsProductIff(c, x);
  }

  lemma {:induction false} PartialSumFrame(row: seq<Frac>, sol1: seq<Frac>, sol2: seq<Frac>, n: nat, i: nat, j: nat)
    requires |row| == n + 1 && |sol1| == n && |sol2| == n && i < j <= n
    requires RowDenominatorsNonzero(row)
    requires forall t :: i < t < n ==> sol1[t] == sol2[t] && sol1[t].den != 0
    ensures PartialSum(row, sol1, n, i, j) == PartialSum(row, sol2, n, i, j)
    decreases j
  {
    if j > i + 1 {
      PartialSumFrame(row, sol1, sol2, n, i, j - 1);
    }
  }

  /**
   * Entry `r` of `sol` is the back-substitution value of row `r`: the row's running sum over
   * the later entries of `sol`, divided by its nonzero diagonal entry, with the code's formulas.
   */
  predicate IsBackSubstitutedAt(m: Matrix, n: nat, sol: seq<Frac>, r: nat)
    requires IsAugmented(m, n) && DenominatorsNonzero(m) && |sol| == n && r < n
    requires forall t :: r < t < n ==> sol[t].den != 0
  {
    m[r][r].num != 0 && sol[r] == DivideByDiagonal(PartialSum(m[r], sol, n, r, n), m[r][r])
  }

  /**
   * Writing the back-substitution value of row `i` into entry `i` makes entry `i` right and
   * keeps every later entry its row's back-substitution value.
   */
  lemma BackSubstituteStep(m: Matrix, n: nat, before: seq<Frac>, after: seq<Frac>, i: nat)
    requires IsAugmented(m, n) && DenominatorsNonzero(m) && |before| == n && i < n
    requires forall t :: i < t < n ==> before[t].den != 0
    requires forall r :: i < r < n ==> IsBackSubstitutedAt(m, n, before, r)
    requires m[i][i].num != 0
    requires after == before[i := DivideByDiagonal(PartialSum(m[i], before, n, i, n), m[i][i])]
    ensures forall t :: i <= t < n ==> after[t].den != 0
    ensures forall r :: i <= r < n ==> IsBackSubstitutedAt(m, n, after, r)
  {
    assert after[i].den != 0;
    forall r | i <= r < n
      ensures IsBackSubstitutedAt(m, n, after, r)
    {
      if r == i {
        PartialSumFrame(m[i], after, before, n, i, n);
      } else {
        BackSubstitutedAtUnchanged(m, n, before, after, r);
      }
    }
  }

  /** An entry stays its row's back-substitution value when the solution agrees from that row on. */
  lemma BackSubstitutedAtUnchanged(m: Matrix, n: nat, before: seq<Frac>, after: seq<Frac>, r: nat)
    requires IsAugmented(m, n) && DenominatorsNonzero(m) && |before| == n && |after| == n && r < n
    requires forall t :: r <= t < n ==> after[t] == before[t] && before[t].den != 0
    requires IsBackSubstitutedAt(m, n, before, r)
    ensures IsBackSubstitutedAt(m, n, after, r)
  {
    PartialSumFrame(m[r], after, before, n, r, n);
  }

  /** A fraction with a nonzero numerator and denominator has a nonzero value. */
  lemma NonzeroValue(f: Frac)
    requires f.den != 0 && f.num != 0
    ensures Value(f) != 0.0
  {
  }

  /**
   * The running sum for row `i`: the constant column minus the term of every later column
   * with a nonzero coefficient, each subtraction reduced.
   */
  method RowSum(m: Matrix, n: nat, sol: seq<Frac>, i: nat) returns (sum: Frac)
    requires IsAugmented(m, n) && DenominatorsNonzero(m) && |sol| == n && i < n
    requires forall t :: i < t < n ==> sol[t].den != 0
    ensures sum == PartialSum(m[i], sol, n, i, n)
  {
    sum := m[i][n];
    var j := i + 1;
    while j < n
      invariant i + 1 <= j <= n
      invariant sum == PartialSum(m[i], sol, n, i, j)
    {
      if m[i][j].num != 0 {
        sum := SubtractTerm(sum, Term(m[i][j], sol[j]));
      }
      j := j + 1;
    }
  }

  lemma BackSubstitutedRowValue(m: Matrix, n: nat, sol: seq<Frac>, i: nat)
    requires IsAugmented(m, n) && DenominatorsNonzero(m) && |sol| == n && i < n
    requires forall t :: i < t < n ==> sol[t].den != 0
    requires IsBackSubstitutedAt(m, n, sol, i)
    ensures IsReduced(sol[i])
    ensures Value(sol[i]) == (Value(m[i][n]) - NumeratorDot(m[i], sol, i + 1, n)) / Value(m[i][i])
  {
  }

  /**
   * Back substitution from the last row up. Fails exactly when some diagonal numerator is
   * zero; otherwise entry `i` is the row's constant minus the numerator sum of the later
   * columns, divided by the diagonal entry.
   */
  method BackSubstitute(m: Matrix, n: nat) returns (res: Result<seq<Frac>>)
    requires IsAugmented(m, n) && AllReduced(m)
    ensures res.Err? <==> exists d :: 0 <= d < n && m[d][d].num == 0
    ensures res.Err? ==> res.error == Singular
    ensures res.Ok? ==> |res.value| == n && forall i :: 0 <= i < n ==> res.value[i].den != 0
    ensures res.Ok? ==> DenominatorsNonzero(m) && forall i :: 0 <= i < n ==> IsBackSubstitutedAt(m, n, res.value, i)
  {
    ReducedDenominators(m);
    var sol := seq(n, _ => Frac(0, 1));
    var i := n - 1;
    while i >= 0
      invariant -1 <= i < n && |sol| == n
      invariant forall r :: i < r < n ==> sol[r].den != 0 && m[r][r].num != 0
      invariant forall r :: i < r < n ==> IsBackSubstitutedAt(m, n, sol, r)
    {
      if m[i][i].num == 0 {
        return Err(Singular);
      }
      var sum := RowSum(m, n, sol, i);
      ghost var before := sol;
      sol := sol[i := DivideByDiagonal(sum, m[i][i])];
      BackSubstituteStep(m, n, before, sol, i);
      i := i - 1;
    }
    return Ok(sol);
  }

  /**
   * A solution whose every entry is its row's back-substitution value is reduced throughout, and
   * each entry is the row's constant minus the numerator sum of the later columns, divided
   * by the diagonal entry; the last entry is exactly the last constant over the last pivot.
   */
  lemma BackSubstitutedValues(m: Matrix, n: nat, sol: seq<Frac>)
    requires IsAugmented(m, n) && DenominatorsNonzero(m) && |sol| == n
    requires forall i :: 0 <= i < n ==> sol[i].den != 0
    requires forall i :: 0 <= i < n ==> IsBackSubstitutedAt(m, n, sol, i)
    ensures forall i :: 0 <= i < n ==> IsReduced(sol[i]) && Value(m[i][i]) != 0.0
    ensures forall i :: 0 <= i < n ==>
              Value(sol[i]) == (Value(m[i][n]) - NumeratorDot(m[i], sol, i + 1, n)) / Value(m[i][i])
    ensures n > 0 ==> Value(sol[n - 1]) == Value(m[n - 1][n]) / Value(m[n - 1][n - 1])
  {
    forall i | 0 <= i < n
      ensures IsReduced(sol[i]) && Value(m[i][i]) != 0.0
      ensures Value(sol[i]) == (Value(m[i][n]) - NumeratorDot(m[i], sol, i + 1, n)) / Value(m[i][i])
    {
      assert IsBackSubstitutedAt(m, n, sol, i);
      NonzeroValue(m[i][i]);
      BackSubstitutedRowValue(m, n, sol, i);
    }
  }

  /** The integer reported for each solution entry. */
  function ToIntegers(sol: seq<Frac>): (r: seq<int>)
    requires forall i :: 0 <= i < |sol| ==> sol[i].den != 0
    ensures |r| == |sol| && forall i :: 0 <= i < |sol| ==> r[i] == ToInteger(sol[i])
  {
    seq(|sol|, i requires 0 <= i < |sol| => ToInteger(sol[i]))
  }

  /**
   * The whole solver on an integer augmented matrix. Forward elimination runs the column
   * steps `ms` from the matrix of `a`; it fails only there, with `Singular`, because the
   * diagonal check of back substitution can no longer fire. On success `solution` is what
   * back substitution computes on the eliminated matrix `ms[|a|]`, and each
   * reported integer is the conversion of its solution entry.
   */
  method GaussianElimination(a: seq<seq<int>>)
    returns (res: Result<seq<int>>, ghost ms: seq<Matrix>, ghost ps: seq<nat>, ghost solution: seq<Frac>)
    requires forall i :: 0 <= i < |a| ==> |a[i]| == |a| + 1
    ensures IsEliminationRun(ToFractions(a), |a|, ms, ps)
    ensures res.Err? <==> |ps| < |a|
    ensures res.Err? ==> res.error == Singular && IsAugmented(ms[|ps|], |a|) && ColumnIsZero(ms[|ps|], |a|, |ps|)
    ensures |a| > 0 && (forall k :: 0 <= k < |a| ==> a[k][0] == 0) ==> res == Err(Singular)
    ensures |ps| > 0 ==>
              IsColumnStep(ToFractions(a), ms[1], |a|, 0, ps[0]) &&
              ExactlyEliminated(SwapRows(ToFractions(a), 0, ps[0]), ms[1], |a|, 0)
    ensures res.Ok? ==> |ps| == |a| && BackSubstituted(ms[|a|], |a|, solution)
    ensures res.Ok? ==> |res.value| == |a| && forall i :: 0 <= i < |a| ==> res.value[i] == ToInteger(solution[i])
    ensures res.Ok? ==> forall k :: 0 < k < |a| ==> ms[|a|][k][0] == Frac(0, 1)
    ensures |a| == 1 ==> res == if a[0][0] == 0 then Err(Singular) else Ok([TruncDiv(a[0][1], a[0][0])])
  {
    var n := |a|;
    var m := ToFractions(a);
    assert UnitDenominators(m, n, 0);
    var forward;
    forward, ms, ps := ForwardEliminate(m, n);
    if forward.Err? {
      return Err(forward.error), ms, ps, [];
    }
    var eliminated := forward.value;
    var values;
    values, solution := SolveEliminated(eliminated, n);
    res := Ok(values);
    if n == 1 {
      SingleRowResult(a, eliminated, solution, values);
    }
  }

  /**
   * `solution` is what back substitution computes for the eliminated matrix `m`: every
   * diagonal numerator is nonzero, every entry is its row's back-substitution value, and each entry is reduced and equal
   * to the row's constant minus the numerator sum of the later columns, over the diagonal.
   */
  ghost predicate BackSubstituted(m: Matrix, n: nat, solution: seq<Frac>)
  {
    && IsAugmented(m, n) && AllReduced(m) && DenominatorsNonzero(m) && |solution| == n
    && (forall d :: 0 <= d < n ==> m[d][d].num != 0)
    && (forall i :: 0 <= i < n ==> solution[i].den != 0)
    && (forall i :: 0 <= i < n ==> IsBackSubstitutedAt(m, n, solution, i))
    && (forall i :: 0 <= i < n ==> IsReduced(solution[i]))
    && (forall i :: 0 <= i < n ==>
          Value(solution[i]) == (Value(m[i][n]) - NumeratorDot(m[i], solution, i + 1, n)) / Value(m[i][i]))
  }

  /**
   * Back substitution and integer conversion after a successful forward elimination: with
   * every diagonal numerator nonzero the diagonal check cannot fire, and the reported integers
   * are the conversions of the back-substituted solution; the last one is the last constant
   * divided by the last pivot.
   */
  method SolveEliminated(m: Matrix, n: nat) returns (values: seq<int>, ghost solution: seq<Frac>)
    requires IsAugmented(m, n) && AllReduced(m)
    requires forall d :: 0 <= d < n ==> m[d][d].num != 0
    ensures BackSubstituted(m, n, solution)
    ensures |values| == n && forall i :: 0 <= i < n ==> values[i] == ToInteger(solution[i])
    ensures n > 0 ==> values[n - 1] == ToInteger(DivideByDiagonal(m[n - 1][n], m[n - 1][n - 1]))
  {
    ReducedDenominators(m);
    var back := BackSubstitute(m, n);
    assert back.Ok?;
    var fractions := back.value;
    BackSubstitutedValues(m, n, fractions);
    if n > 0 {
      LastRowSolution(m, n, fractions);
    }
    values, solution := ToIntegers(fractions), fractions;
  }

  /** The last row has no later columns: its entry is the constant over the pivot. */
  lemma LastRowSolution(m: Matrix, n: nat, sol: seq<Frac>)
    requires n > 0 && IsAugmented(m, n) && DenominatorsNonzero(m) && |sol| == n
    requires IsBackSubstitutedAt(m, n, sol, n - 1)
    ensures sol[n - 1] == DivideByDiagonal(m[n - 1][n], m[n - 1][n - 1])
  {
  }

  lemma SingleRowResult(a: seq<seq<int>>, m: Matrix, sol: seq<Frac>, values: seq<int>)
    requires |a| == 1 && |a[0]| == 2 && m == ToFractions(a)
    requires IsAugmented(m, 1) && DenominatorsNonzero(m) && |sol| == 1 && sol[0].den != 0
    requires IsBackSubstitutedAt(m, 1, sol, 0)
    requires |values| == 1 && values[0] == ToInteger(sol[0])
    ensures a[0][0] != 0 && values == [TruncDiv(a[0][1], a[0][0])]
  {
    SingleRowSolution(m, sol);
    assert m[0][1] == Frac(a[0][1], 1) && m[0][0] == Frac(a[0][0], 1);
    DivideUnitsToInteger(a[0][1], a[0][0]);
  }

  /** With one row, back substitution divides the constant by the only coefficient. */
  lemma SingleRowSolution(m: Matrix, sol: seq<Frac>)
    requires IsAugmented(m, 1) && DenominatorsNonzero(m) && |sol| == 1
    requires IsBackSubstitutedAt(m, 1, sol, 0)
    ensures sol[0] == DivideByDiagonal(m[0][1], m[0][0])
  {
  }

  /** Dividing two whole numbers as fractions and converting back rounds toward zero. */
  lemma DivideUnitsToInteger(y: int, x: int)
    requires x != 0
    ensures ToInteger(DivideByDiagonal(Frac(y, 1), Frac(x, 1))) == TruncDiv(y, x)
  {
    ToIntegerOfReduce(y * 1, 1 * x);
  }
}
