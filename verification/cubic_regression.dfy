/** Degree-3 least squares by the normal equations: the power sums of the
    samples, the 4 x 5 augmented normal matrix, naive Gaussian elimination
    without pivoting, back-substitution, and the evaluation of the fitted
    cubic at a year. */
module CubicFit {
  import opened Poly

  /** The sum of x[i]^j over the first m samples. */
  function PowerSum(x: seq<real>, j: nat, m: nat): real
    requires m <= |x|
  {
    if m == 0 then 0.0 else PowerSum(x, j, m - 1) + Pow(x[m - 1], j)
  }

  /** The sum of y[i] * x[i]^j over the first m samples. */
  function WeightedPowerSum(x: seq<real>, y: seq<real>, j: nat, m: nat): real
    requires m <= |x| && m <= |y|
  {
    if m == 0 then 0.0 else WeightedPowerSum(x, y, j, m - 1) + y[m - 1] * Pow(x[m - 1], j)
  }

  /** The accumulation pass: for each sample, xi runs through x^0 .. x^6; the
      first seven powers go into xs and the first four, weighted by y, into ys. */
  method AccumulatePowerSums(x: seq<real>, y: seq<real>) returns (xs: seq<real>, ys: seq<real>)
    requires |x| == |y|
    ensures |xs| == 7 && |ys| == 4
    ensures forall j :: 0 <= j < 7 ==> xs[j] == PowerSum(x, j, |x|)
    ensures forall j :: 0 <= j < 4 ==> ys[j] == WeightedPowerSum(x, y, j, |x|)
  {
    xs := [0.0, 0.0, 0.0, 0.0, 0.0, 0.0, 0.0];
    ys := [0.0, 0.0, 0.0, 0.0];
    var i := 0;
    while i < |x|
      invariant 0 <= i <= |x|
      invariant |xs| == 7 && |ys| == 4
      invariant forall j :: 0 <= j < 7 ==> xs[j] == PowerSum(x, j, i)
      invariant forall j :: 0 <= j < 4 ==> ys[j] == WeightedPowerSum(x, y, j, i)
    {
      var xi := 1.0;
      var j := 0;
      while j <= 6
        invariant 0 <= j <= 7
        invariant |xs| == 7 && |ys| == 4
        invariant xi == Pow(x[i], j)
        invariant forall k :: 0 <= k < j ==> xs[k] == PowerSum(x, k, i + 1)
        invariant forall k :: j <= k < 7 ==> xs[k] == PowerSum(x, k, i)
        invariant forall k :: 0 <= k < j && k < 4 ==> ys[k] == WeightedPowerSum(x, y, k, i + 1)
        invariant forall k :: j <= k < 4 ==> ys[k] == WeightedPowerSum(x, y, k, i)
      {
        if j <= 3 {
          ys := ys[j := ys[j] + y[i] * xi];
        }
        xs := xs[j := xs[j] + xi];
        xi := xi * x[i];
        j := j + 1;
      }
      i := i + 1;
    }
  }

  /** A 4 x 5 augmented matrix: four equations in four unknowns, the right-hand
      side in column 4. */
  predicate IsAugmented(b: seq<seq<real>>) {
    |b| == 4 && forall r :: 0 <= r < 4 ==> |b[r]| == 5
  }

  /** The normal equations of the cubic fit: entry (i, j) is the sum of
      x^(i + j), and the right-hand side of row i is the sum of y * x^i. */
  function NormalSystem(x: seq<real>, y: seq<real>): (b: seq<seq<real>>)
    requires |x| == |y|
    ensures IsAugmented(b)
  {
    seq(4, i requires 0 <= i < 4 =>
      seq(5, j requires 0 <= j < 5 =>
        if j < 4 then PowerSum(x, i + j, |x|) else WeightedPowerSum(x, y, i, |x|)))
  }

  /** The loops that fill the matrix: each entry (i, j), j < 4, is a fresh sum
      of x[k]^(i + j) over the samples, and column 4 is copied from ys. */
  method BuildNormalMatrix(x: seq<real>, y: seq<real>, ys: seq<real>) returns (b: seq<seq<real>>)
    requires |x| == |y| && |ys| == 4
    requires forall j :: 0 <= j < 4 ==> ys[j] == WeightedPowerSum(x, y, j, |x|)
    ensures b == NormalSystem(x, y)
  {
    b := [];
    var i := 0;
    while i <= 3
      invariant 0 <= i <= 4 && |b| == i
      invariant forall r :: 0 <= r < i ==> b[r] == NormalSystem(x, y)[r]
    {
      var row: seq<real> := [];
      var j := 0;
      while j <= 3
        invariant 0 <= j <= 4 && |row| == j
        invariant forall c :: 0 <= c < j ==> row[c] == PowerSum(x, i + c, |x|)
      {
        var s := 0.0;
        var k := 0;
        while k < |x|
          invariant 0 <= k <= |x|
          invariant s == PowerSum(x, i + j, k)
        {
          s := s + Pow(x[k], i + j);
          k := k + 1;
        }
        row := row + [s];
        j := j + 1;
      }
      row := row + [ys[i]];
      assert row == NormalSystem(x, y)[i];
      b := b + [row];
      i := i + 1;
    }
  }

  /** Entry (i, j) of the left-hand side is the accumulated sum of x^(i + j). */
  lemma NormalSystemFromSums(x: seq<real>, y: seq<real>, xs: seq<real>)
    requires |x| == |y| && |xs| == 7
    requires forall j :: 0 <= j < 7 ==> xs[j] == PowerSum(x, j, |x|)
    ensures forall i, j :: 0 <= i < 4 && 0 <= j < 4 ==> NormalSystem(x, y)[i][j] == xs[i + j]
  {
    var b := NormalSystem(x, y);
    forall i, j | 0 <= i < 4 && 0 <= j < 4
      ensures b[i][j] == xs[i + j]
    {
      assert b[i][j] == PowerSum(x, i + j, |x|);
    }
  }

  /** The right-hand side of row i is the accumulated sum of y * x^i. */
  lemma NormalSystemRhs(x: seq<real>, y: seq<real>, ys: seq<real>)
    requires |x| == |y| && |ys| == 4
    requires forall j :: 0 <= j < 4 ==> ys[j] == WeightedPowerSum(x, y, j, |x|)
    ensures forall i :: 0 <= i < 4 ==> NormalSystem(x, y)[i][4] == ys[i]
  {
    var b := NormalSystem(x, y);
    forall i | 0 <= i < 4
      ensures b[i][4] == ys[i]
    {
      assert b[i][4] == WeightedPowerSum(x, y, i, |x|);
    }
  }

  /** The left-hand side of the normal equations is symmetric. */
  lemma NormalSystemSymmetric(x: seq<real>, y: seq<real>)
    requires |x| == |y|
    ensures forall i, j :: 0 <= i < 4 && 0 <= j < 4 ==> NormalSystem(x, y)[i][j] == NormalSystem(x, y)[j][i]
  {
    var b := NormalSystem(x, y);
    forall i, j | 0 <= i < 4 && 0 <= j < 4
      ensures b[i][j] == b[j][i]
    {
      assert b[i][j] == PowerSum(x, i + j, |x|);
      assert b[j][i] == PowerSum(x, j + i, |x|);
    }
  }

  /** The left-hand side of one equation: row[0] * c[0] + .. + row[3] * c[3]. */
  function Dot(row: seq<real>, c: seq<real>): real
    requires |row| == 5 && |c| == 4
  {
    row[0] * c[0] + row[1] * c[1] + row[2] * c[2] + row[3] * c[3]
  }

  /** c satisfies one augmented row. */
  predicate SolvesRow(row: seq<real>, c: seq<real>)
    requires |row| == 5 && |c| == 4
  {
    Dot(row, c) == row[4]
  }

  /** c satisfies every equation of the system. */
  predicate Solves(b: seq<seq<real>>, c: seq<real>)
    requires IsAugmented(b) && |c| == 4
  {
    forall r :: 0 <= r < 4 ==> SolvesRow(b[r], c)
  }

  /** Two systems with the same solutions. */
  ghost predicate SameSolutions(b: seq<seq<real>>, e: seq<seq<real>>)
    requires IsAugmented(b) && IsAugmented(e)
  {
    forall c :: |c| == 4 ==> (Solves(b, c) <==> Solves(e, c))
  }

  /** The inner loop over the columns: row a minus t times row p. */
  function RowMinus(a: seq<real>, p: seq<real>, t: real): (r: seq<real>)
    requires |a| == 5 && |p| == 5
    ensures |r| == 5
  {
    seq(5, j requires 0 <= j < 5 => a[j] - t * p[j])
  }

  /** The arithmetic of DotMinus: the dot product is linear in the row. Stated
      over plain reals so that the solver's nonlinear arithmetic stays within
      its resource budget; the caller binds the parameters to the model's
      terms. */
  lemma DotMinusAlgebra(a0: real, a1: real, a2: real, a3: real, p0: real, p1: real, p2: real, p3: real,
                        c0: real, c1: real, c2: real, c3: real, t: real)
    ensures (a0 - t * p0) * c0 + (a1 - t * p1) * c1 + (a2 - t * p2) * c2 + (a3 - t * p3) * c3
         == (a0 * c0 + a1 * c1 + a2 * c2 + a3 * c3) - t * (p0 * c0 + p1 * c1 + p2 * c2 + p3 * c3)
  {
  }

  /** The left-hand side of a row difference is the difference of left-hand sides. */
  lemma DotMinus(a: seq<real>, p: seq<real>, t: real, c: seq<real>)
    requires |a| == 5 && |p| == 5 && |c| == 4
    ensures Dot(RowMinus(a, p, t), c) == Dot(a, c) - t * Dot(p, c)
  {
    DotMinusAlgebra(a[0], a[1], a[2], a[3], p[0], p[1], p[2], p[3], c[0], c[1], c[2], c[3], t);
  }

  /** The arithmetic of RowMinusSolves. Stated over plain reals so that the
      solver's nonlinear arithmetic stays within its resource budget; the
      caller binds the parameters to the model's terms. */
  lemma MinusSolvesAlgebra(dn: real, rn: real, da: real, ra: real, dp: real, rp: real, t: real)
    requires dn == da - t * dp && rn == ra - t * rp && dp == rp
    ensures dn == rn <==> da == ra
  {
  }

  /** Subtracting a multiple of a satisfied row keeps a row satisfied, and
      undoes: the new row is satisfied exactly when the old one was. */
  lemma RowMinusSolves(a: seq<real>, p: seq<real>, t: real, c: seq<real>)
    requires |a| == 5 && |p| == 5 && |c| == 4 && SolvesRow(p, c)
    ensures SolvesRow(RowMinus(a, p, t), c) <==> SolvesRow(a, c)
  {
    DotMinus(a, p, t, c);
    MinusSolvesAlgebra(Dot(RowMinus(a, p, t), c), RowMinus(a, p, t)[4],
                       Dot(a, c), a[4], Dot(p, c), p[4], t);
  }

  lemma StepKeepsSolution(b: seq<seq<real>>, i: nat, k: nat, t: real, c: seq<real>)
    requires IsAugmented(b) && i < 4 && k < 4 && i != k && |c| == 4 && Solves(b, c)
    ensures IsAugmented(b[k := RowMinus(b[k], b[i], t)]) && Solves(b[k := RowMinus(b[k], b[i], t)], c)
  {
    RowMinusSolves(b[k], b[i], t, c);
  }

  lemma StepRestoresSolution(b: seq<seq<real>>, i: nat, k: nat, t: real, c: seq<real>)
    requires IsAugmented(b) && i < 4 && k < 4 && i != k && |c| == 4
    requires IsAugmented(b[k := RowMinus(b[k], b[i], t)]) && Solves(b[k := RowMinus(b[k], b[i], t)], c)
    ensures Solves(b, c)
  {
    assert SolvesRow(b[k := RowMinus(b[k], b[i], t)][i], c);
    RowMinusSolves(b[k], b[i], t, c);
    assert forall r :: 0 <= r < 4 && r != k ==> b[k := RowMinus(b[k], b[i], t)][r] == b[r];
  }

  /** One elimination step: replacing row k by row k minus t times row i
      (i != k) keeps the solution set. */
  lemma EliminationStepKeepsSolutions(b: seq<seq<real>>, i: nat, k: nat, t: real)
    requires IsAugmented(b) && i < 4 && k < 4 && i != k
    ensures IsAugmented(b[k := RowMinus(b[k], b[i], t)])
    ensures SameSolutions(b, b[k := RowMinus(b[k], b[i], t)])
  {
    var e := b[k := RowMinus(b[k], b[i], t)];
    forall c | |c| == 4
      ensures Solves(b, c) <==> Solves(e, c)
    {
      if Solves(b, c) {
        StepKeepsSolution(b, i, k, t, c);
      }
      if Solves(e, c) {
        StepRestoresSolution(b, i, k, t, c);
      }
    }
  }

  lemma SameSolutionsTrans(b: seq<seq<real>>, e: seq<seq<real>>, f: seq<seq<real>>)
    requires IsAugmented(b) && IsAugmented(e) && IsAugmented(f)
    requires SameSolutions(b, e) && SameSolutions(e, f)
    ensures SameSolutions(b, f)
  {
  }

  /** The ratio that clears an entry: a - (a / p) * p == 0 for a non-zero pivot p. */
  lemma ClearsEntry(a: real, p: real)
    requires p != 0.0
    ensures a - (a / p) * p == 0.0
  {
  }

  /** Every entry below the diagonal in the first m columns is 0. */
  predicate ZeroBelow(b: seq<seq<real>>, m: nat)
    requires IsAugmented(b)
  {
    forall col, r :: 0 <= col < m && col < r < 4 ==> b[r][col] == 0.0
  }

  /** The state of the elimination loop before row k is reduced by pivot row i:
      the solutions are those of b0, the first i columns are cleared below the
      diagonal, column i is cleared in rows i + 1 .. k - 1, and the pivots used
      so far are non-zero. */
  ghost predicate Reducing(b0: seq<seq<real>>, b: seq<seq<real>>, i: nat, k: nat)
  {
    IsAugmented(b0) && IsAugmented(b) && i < 4 && i < k <= 4 && SameSolutions(b0, b) && ZeroBelow(b, i) &&
    ColumnCleared(b, i, k) && PivotsNonZero(b, i + 1)
  }

  /** Column i holds 0 in rows i + 1 .. k - 1. */
  predicate ColumnCleared(b: seq<seq<real>>, i: nat, k: nat)
    requires IsAugmented(b) && i < 4 && k <= 4
  {
    forall r :: i < r < k ==> b[r][i] == 0.0
  }

  /** The pivots of the rows before m, which elimination divides by, are
      non-zero (row 3 is never used as a pivot in elimination). */
  predicate PivotsNonZero(b: seq<seq<real>>, m: nat)
    requires IsAugmented(b)
  {
    forall d :: 0 <= d < m && d < 3 ==> b[d][d] != 0.0
  }

  /** Reducing row k keeps the earlier columns cleared: both rows k and i
      hold 0 there. */
  lemma ClearedColumnsStep(b: seq<seq<real>>, i: nat, k: nat, t: real)
    requires IsAugmented(b) && i < k < 4 && ZeroBelow(b, i)
    ensures IsAugmented(b[k := RowMinus(b[k], b[i], t)])
    ensures ZeroBelow(b[k := RowMinus(b[k], b[i], t)], i)
  {
    var e := b[k := RowMinus(b[k], b[i], t)];
    forall col | 0 <= col < i
      ensures e[k][col] == 0.0
    {
      assert e[k][col] == b[k][col] - t * b[i][col];
    }
  }

  /** Reducing row k by the ratio b[k][i] / b[i][i] clears its entry in
      column i, and the rows above it keep theirs. */
  lemma PivotColumnStep(b: seq<seq<real>>, i: nat, k: nat)
    requires IsAugmented(b) && i < k < 4 && b[i][i] != 0.0
    requires ColumnCleared(b, i, k)
    ensures IsAugmented(b[k := RowMinus(b[k], b[i], b[k][i] / b[i][i])])
    ensures ColumnCleared(b[k := RowMinus(b[k], b[i], b[k][i] / b[i][i])], i, k + 1)
  {
    ClearsEntry(b[k][i], b[i][i]);
  }

  /** Reducing row k > i leaves the pivots of rows 0 .. i alone. */
  lemma PivotsStep(b: seq<seq<real>>, i: nat, k: nat, t: real)
    requires IsAugmented(b) && i < k < 4
    requires PivotsNonZero(b, i + 1)
    ensures IsAugmented(b[k := RowMinus(b[k], b[i], t)])
    ensures PivotsNonZero(b[k := RowMinus(b[k], b[i], t)], i + 1)
  {
  }

  /** One pass of the inner loop keeps the loop state one row further on. */
  lemma ReducingStep(b0: seq<seq<real>>, b: seq<seq<real>>, i: nat, k: nat)
    requires Reducing(b0, b, i, k) && k < 4 && b[i][i] != 0.0
    ensures Reducing(b0, b[k := RowMinus(b[k], b[i], b[k][i] / b[i][i])], i, k + 1)
  {
    var t := b[k][i] / b[i][i];
    EliminationStepKeepsSolutions(b, i, k, t);
    SameSolutionsTrans(b0, b, b[k := RowMinus(b[k], b[i], t)]);
    ClearedColumnsStep(b, i, k, t);
    PivotColumnStep(b, i, k);
    PivotsStep(b, i, k, t);
  }

  /** The result of forward elimination: the triangular system, or the step
      whose pivot is 0 together with the matrix reached at that step. */
  datatype Elimination = Triangular(b: seq<seq<real>>) | ZeroPivot(row: nat, stuck: seq<seq<real>>)

  /** Forward elimination without pivoting. For each pivot row i and each
      row k below it, row k loses (b[k][i] / b[i][i]) times row i. The source
      divides by the pivot unchecked; a zero pivot is reported instead. */
  method ForwardEliminate(b0: seq<seq<real>>) returns (r: Elimination)
    requires IsAugmented(b0)
    ensures r.Triangular? ==> IsAugmented(r.b) && ZeroBelow(r.b, 4) && SameSolutions(b0, r.b)
    ensures r.Triangular? ==> PivotsNonZero(r.b, 3)
    ensures r.ZeroPivot? ==> r.row < 3 && IsAugmented(r.stuck) && SameSolutions(b0, r.stuck)
    ensures r.ZeroPivot? ==> ZeroBelow(r.stuck, r.row) && r.stuck[r.row][r.row] == 0.0
  {
    var b := b0;
    var i := 0;
    while i <= 3
      invariant 0 <= i <= 4 && IsAugmented(b) && SameSolutions(b0, b) && ZeroBelow(b, i)
      invariant PivotsNonZero(b, i)
    {
      if i < 3 && b[i][i] == 0.0 {
        return ZeroPivot(i, b);
      }
      var k := i + 1;
      while k <= 3
        invariant Reducing(b0, b, i, k)
      {
        ReducingStep(b0, b, i, k);
        b := b[k := RowMinus(b[k], b[i], b[k][i] / b[i][i])];
        k := k + 1;
      }
      i := i + 1;
    }
    return Triangular(b);
  }

  /** The sum of row[j] * c[j] for lo <= j < hi, added left to right as the
      back-substitution loop subtracts it. */
  function PartialDot(row: seq<real>, c: seq<real>, lo: nat, hi: nat): real
    requires lo <= hi <= |c| && hi <= |row|
    decreases hi - lo
  {
    if hi == lo then 0.0 else PartialDot(row, c, lo, hi - 1) + row[hi - 1] * c[hi - 1]
  }

  /** Row i of an upper-triangular system holds for c: the diagonal term plus
      the terms to its right give the right-hand side. */
  predicate RowSolvedFrom(b: seq<seq<real>>, c: seq<real>, i: nat)
    requires IsAugmented(b) && |c| == 4 && i < 4
  {
    b[i][i] * c[i] + PartialDot(b[i], c, i + 1, 4) == b[i][4]
  }

  /** Rows after i are solved and have non-zero diagonals. */
  predicate SolvedAfter(b: seq<seq<real>>, c: seq<real>, i: int)
    requires IsAugmented(b) && |c| == 4
  {
    forall r :: i < r < 4 && 0 <= r ==> b[r][r] != 0.0 && RowSolvedFrom(b, c, r)
  }

  /** Entries of c at or before k do not enter a partial sum starting after k. */
  lemma {:induction false} PartialDotFrame(row: seq<real>, c: seq<real>, k: nat, v: real, lo: nat, hi: nat)
    requires k < lo <= hi <= |c| && hi <= |row|
    ensures PartialDot(row, c[k := v], lo, hi) == PartialDot(row, c, lo, hi)
    decreases hi - lo
  {
    if hi > lo {
      PartialDotFrame(row, c, k, v, lo, hi - 1);
    }
  }

  /** Partial sums agree where the two vectors agree. */
  lemma {:induction false} PartialDotAgree(row: seq<real>, c: seq<real>, d: seq<real>, lo: nat, hi: nat)
    requires lo <= hi <= |c| && |c| == |d| && hi <= |row|
    requires forall j :: lo <= j < hi ==> c[j] == d[j]
    ensures PartialDot(row, c, lo, hi) == PartialDot(row, d, lo, hi)
    decreases hi - lo
  {
    if hi > lo {
      PartialDotAgree(row, c, d, lo, hi - 1);
    }
  }

  lemma SolvedAfterFrame(b: seq<seq<real>>, c: seq<real>, i: nat, v: real)
    requires IsAugmented(b) && |c| == 4 && i < 4 && SolvedAfter(b, c, i)
    ensures SolvedAfter(b, c[i := v], i)
  {
    var e := c[i := v];
    forall r | i < r < 4
      ensures RowSolvedFrom(b, e, r)
    {
      PartialDotFrame(b[r], c, i, v, r + 1, 4);
    }
  }

  /** Dividing by a non-zero diagonal entry solves the row. */
  lemma DivideSolves(d: real, v: real, rest: real, rhs: real)
    requires d != 0.0 && v == rhs - rest
    ensures d * (v / d) + rest == rhs
  {
  }

  /** The result of back-substitution: the solution, or the row whose
      diagonal entry is 0. */
  datatype Substitution = Solved(c: seq<real>) | ZeroDiagonal(row: nat)

  /** Back-substitution from row 3 up to row 0: c[i] starts at the right-hand
      side, loses b[i][j] * c[j] for each j > i in increasing order, and is
      divided by b[i][i]. The source divides unchecked; a zero diagonal entry
      is reported instead. */
  method BackSubstitute(b: seq<seq<real>>) returns (r: Substitution)
    requires IsAugmented(b)
    ensures r.Solved? ==> |r.c| == 4 && SolvedAfter(b, r.c, -1)
    ensures r.ZeroDiagonal? ==> r.row < 4 && b[r.row][r.row] == 0.0
    ensures (forall d :: 0 <= d < 4 ==> b[d][d] != 0.0) ==> r.Solved?
  {
    var c := [0.0, 0.0, 0.0, 0.0];
    var i := 3;
    while i >= 0
      invariant -1 <= i <= 3 && |c| == 4 && SolvedAfter(b, c, i)
    {
      var v := b[i][4];
      var j := i + 1;
      while j <= 3
        invariant i + 1 <= j <= 4
        invariant v == b[i][4] - PartialDot(b[i], c, i + 1, j)
      {
        v := v - b[i][j] * c[j];
        j := j + 1;
      }
      if b[i][i] == 0.0 {
        return ZeroDiagonal(i);
      }
      SolvedAfterFrame(b, c, i, v / b[i][i]);
      PartialDotFrame(b[i], c, i, v / b[i][i], i + 1, 4);
      DivideSolves(b[i][i], v, PartialDot(b[i], c, i + 1, 4), b[i][4]);
      c := c[i := v / b[i][i]];
      i := i - 1;
    }
    return Solved(c);
  }

  /** In a row that is 0 before column i, the full left-hand side is the
      diagonal term plus the terms to its right. */
  lemma TriangularRowDot(row: seq<real>, c: seq<real>, i: nat)
    requires |row| == 5 && |c| == 4 && i < 4
    requires forall col :: 0 <= col < i ==> row[col] == 0.0
    ensures Dot(row, c) == row[i] * c[i] + PartialDot(row, c, i + 1, 4)
  {
    if i >= 1 {
      assert row[0] * c[0] == 0.0;
    }
    if i >= 2 {
      assert row[1] * c[1] == 0.0;
    }
    if i >= 3 {
      assert row[2] * c[2] == 0.0;
    }
  }

  /** Solving every row of a triangular system from the diagonal on solves
      the system. */
  lemma TriangularSolves(b: seq<seq<real>>, c: seq<real>)
    requires IsAugmented(b) && |c| == 4 && ZeroBelow(b, 4) && SolvedAfter(b, c, -1)
    ensures Solves(b, c)
  {
    forall r | 0 <= r < 4
      ensures SolvesRow(b[r], c)
    {
      TriangularRowDot(b[r], c, r);
    }
  }

  /** A non-zero factor cancels. */
  lemma CancelFactor(p: real, u: real, v: real, pu: real, pv: real)
    requires p != 0.0 && pu == p * u && pv == p * v && pu == pv
    ensures u == v
  {
    assert u == pu / p;
  }

  /** In a triangular system, a solution solves each row from the diagonal on. */
  lemma TriangularRowSolved(b: seq<seq<real>>, c: seq<real>, i: nat)
    requires IsAugmented(b) && |c| == 4 && i < 4
    requires forall col :: 0 <= col < i ==> b[i][col] == 0.0
    requires SolvesRow(b[i], c)
    ensures RowSolvedFrom(b, c, i)
  {
    TriangularRowDot(b[i], c, i);
  }

  lemma CancelRow(p: real, u: real, v: real, restU: real, restV: real, rhs: real)
    requires p != 0.0 && p * u + restU == rhs && p * v + restV == rhs && restU == restV
    ensures u == v
  {
    CancelFactor(p, u, v, p * u, p * v);
  }

  /** Row i of a triangular system fixes the unknown i once those after it are fixed. */
  lemma UniqueRow(b: seq<seq<real>>, c: seq<real>, d: seq<real>, i: nat)
    requires IsAugmented(b) && |c| == 4 && |d| == 4 && i < 4 && b[i][i] != 0.0
    requires RowSolvedFrom(b, c, i) && RowSolvedFrom(b, d, i)
    requires forall j :: i < j < 4 ==> c[j] == d[j]
    ensures c[i] == d[i]
  {
    PartialDotAgree(b[i], c, d, i + 1, 4);
    CancelRow(b[i][i], c[i], d[i], PartialDot(b[i], c, i + 1, 4), PartialDot(b[i], d, i + 1, 4), b[i][4]);
  }

  /** A triangular system with a non-zero diagonal has at most one solution. */
  lemma TriangularUnique(b: seq<seq<real>>, c: seq<real>, d: seq<real>)
    requires IsAugmented(b) && |c| == 4 && |d| == 4 && ZeroBelow(b, 4)
    requires forall k :: 0 <= k < 4 ==> b[k][k] != 0.0
    requires Solves(b, c) && Solves(b, d)
    ensures c == d
  {
    var i := 3;
    while i >= 0
      invariant -1 <= i <= 3
      invariant forall j :: i < j < 4 ==> c[j] == d[j]
    {
      TriangularRowSolved(b, c, i);
      TriangularRowSolved(b, d, i);
      UniqueRow(b, c, d, i);
      i := i - 1;
    }
  }

  /** The outcome of regresiPolinomial: x and y of different lengths (the
      coefficients are left unwritten), a zero pivot or diagonal entry at a
      row, or the four coefficients c0 .. c3 of c0 + c1 t + c2 t^2 + c3 t^3. */
  datatype Fit = SizeMismatch | Singular(row: nat) | Fitted(c: seq<real>)

  /** regresiPolinomial: power sums, normal matrix, elimination and
      back-substitution. A fitted result solves the normal equations, and it
      is their only solution, so it is the least-squares cubic. */
  method RegresiPolinomial(x: seq<real>, y: seq<real>) returns (r: Fit)
    ensures |x| != |y| <==> r == SizeMismatch
    ensures r.Singular? ==> r.row < 4
    ensures r.Fitted? ==> |x| == |y| && |r.c| == 4 && Solves(NormalSystem(x, y), r.c)
    ensures r.Fitted? ==> forall p :: |p| == 4 && Solves(NormalSystem(x, y), p) ==> p == r.c
    ensures r.Fitted? ==> forall p :: |p| == 4 && (forall i :: 0 <= i < |x| ==> y[i] == Eval(p, x[i])) ==> p == r.c
  {
    if |x| != |y| {
      return SizeMismatch;
    }
    var xs, ys := AccumulatePowerSums(x, y);
    var b := BuildNormalMatrix(x, y, ys);
    var e := ForwardEliminate(b);
    if e.ZeroPivot? {
      return Singular(e.row);
    }
    var s := BackSubstitute(e.b);
    if s.ZeroDiagonal? {
      return Singular(s.row);
    }
    TriangularSolves(e.b, s.c);
    forall p | |p| == 4 && Solves(b, p)
      ensures p == s.c
    {
      TriangularUnique(e.b, p, s.c);
    }
    forall p | |p| == 4 && (forall i :: 0 <= i < |x| ==> y[i] == Eval(p, x[i]))
      ensures p == s.c
    {
      ExactCubicSolvesNormal(x, y, p);
    }
    return Fitted(s.c);
  }

  /** The estimate for a missing year t: c0 + c1 t + c2 t^2 + c3 t^3, with the
      integer year converted to a double. */
  function EstimateCubic(c: seq<real>, t: int): real
    requires |c| == 4
  {
    c[0] + c[1] * t as real + c[2] * Pow(t as real, 2) + c[3] * Pow(t as real, 3)
  }

  /** The population estimate is printed after a cast to long long, which
      drops the fraction toward zero. */
  function ShownPopulation(e: real): (n: int)
    ensures 0.0 <= e ==> n as real <= e < n as real + 1.0
    ensures e < 0.0 ==> n as real - 1.0 < e <= n as real
    ensures n == 0 <==> -1.0 < e < 1.0
  {
    if e >= 0.0 then e.Floor else -((-e).Floor)
  }

  /** The estimate is the power-sum value of the fitted coefficients. */
  lemma EstimateIsEval(c: seq<real>, t: int)
    requires |c| == 4
    ensures EstimateCubic(c, t) == Eval(c, t as real)
  {
    var v := t as real;
    assert Pow(v, 0) == 1.0;
    assert Pow(v, 1) == v;
    EvalToStep(c, v, 1);
    EvalToStep(c, v, 2);
    EvalToStep(c, v, 3);
    EvalToStep(c, v, 4);
  }

  lemma MulAssoc(a: real, b: real, c: real)
    ensures (a * b) * c == a * (b * c)
  {
  }

  /** v^(a + k) == v^a * v^k. */
  lemma {:induction false} PowAdd(v: real, a: nat, k: nat)
    ensures Pow(v, a + k) == Pow(v, a) * Pow(v, k)
  {
    if k > 0 {
      PowAdd(v, a, k - 1);
      MulAssoc(Pow(v, a), Pow(v, k - 1), v);
    }
  }

  /** yv is the four-term combination p0 q0 + p1 q1 + p2 q2 + p3 q3. */
  predicate Combination(yv: real, p0: real, p1: real, p2: real, p3: real, q0: real, q1: real, q2: real, q3: real)
  {
    yv == p0 * q0 + p1 * q1 + p2 * q2 + p3 * q3
  }

  /** A running sum n that grew from s by the product a * b. */
  predicate Shifted(n: real, s: real, a: real, b: real)
  {
    n == s + a * b
  }

  /** The value of a four-coefficient polynomial, term by term. */
  lemma EvalCubic(p: seq<real>, v: real)
    requires |p| == 4
    ensures Combination(Eval(p, v), p[0], p[1], p[2], p[3], Pow(v, 0), Pow(v, 1), Pow(v, 2), Pow(v, 3))
  {
    EvalToStep(p, v, 1);
    EvalToStep(p, v, 2);
    EvalToStep(p, v, 3);
    EvalToStep(p, v, 4);
  }

  /** Row r of the normal equations, taken over the first m samples, holds for p. */
  predicate NormalRowHolds(x: seq<real>, y: seq<real>, p: seq<real>, r: nat, m: nat)
    requires m <= |x| && m <= |y| && |p| == 4
  {
    Combination(WeightedPowerSum(x, y, r, m), p[0], p[1], p[2], p[3],
                PowerSum(x, r, m), PowerSum(x, r + 1, m), PowerSum(x, r + 2, m), PowerSum(x, r + 3, m))
  }

  /** The arithmetic of one ExactRowStep: one more sample adds its weighted
      powers to both sides of a normal row. Stated over plain reals so that
      the solver's nonlinear arithmetic stays within its resource budget; the
      caller binds the parameters to the model's terms. */
  lemma ExactStepAlgebra(s0: real, s1: real, s2: real, s3: real, n0: real, n1: real, n2: real, n3: real,
                         w: real, nw: real, pr: real, q0: real, q1: real, q2: real, q3: real,
                         p0: real, p1: real, p2: real, p3: real, yv: real)
    requires Shifted(n0, s0, pr, q0) && Shifted(n1, s1, pr, q1) && Shifted(n2, s2, pr, q2) && Shifted(n3, s3, pr, q3)
    requires Shifted(nw, w, yv, pr) && Combination(yv, p0, p1, p2, p3, q0, q1, q2, q3)
    requires Combination(w, p0, p1, p2, p3, s0, s1, s2, s3)
    ensures Combination(nw, p0, p1, p2, p3, n0, n1, n2, n3)
  {
  }

  /** Adding sample m - 1 to the sum of x^(r + k) adds x^r * x^k. */
  lemma PowerSumShift(x: seq<real>, e: nat, r: nat, k: nat, m: nat)
    requires 0 < m <= |x| && e == r + k
    ensures Shifted(PowerSum(x, e, m), PowerSum(x, e, m - 1), Pow(x[m - 1], r), Pow(x[m - 1], k))
  {
    PowAdd(x[m - 1], r, k);
  }

  lemma WeightedPowerSumShift(x: seq<real>, y: seq<real>, r: nat, m: nat)
    requires 0 < m <= |x| && m <= |y|
    ensures Shifted(WeightedPowerSum(x, y, r, m), WeightedPowerSum(x, y, r, m - 1), y[m - 1], Pow(x[m - 1], r))
  {
  }

  lemma ExactRowStep(x: seq<real>, y: seq<real>, p: seq<real>, r: nat, m: nat)
    requires 0 < m <= |x| && m <= |y| && |p| == 4 && y[m - 1] == Eval(p, x[m - 1])
    requires NormalRowHolds(x, y, p, r, m - 1)
    ensures NormalRowHolds(x, y, p, r, m)
  {
    var v := x[m - 1];
    EvalCubic(p, v);
    PowerSumShift(x, r, r, 0, m);
    PowerSumShift(x, r + 1, r, 1, m);
    PowerSumShift(x, r + 2, r, 2, m);
    PowerSumShift(x, r + 3, r, 3, m);
    WeightedPowerSumShift(x, y, r, m);
    ExactStepAlgebra(PowerSum(x, r, m - 1), PowerSum(x, r + 1, m - 1), PowerSum(x, r + 2, m - 1), PowerSum(x, r + 3, m - 1),
                     PowerSum(x, r, m), PowerSum(x, r + 1, m), PowerSum(x, r + 2, m), PowerSum(x, r + 3, m),
                     WeightedPowerSum(x, y, r, m - 1), WeightedPowerSum(x, y, r, m),
                     Pow(v, r), Pow(v, 0), Pow(v, 1), Pow(v, 2), Pow(v, 3), p[0], p[1], p[2], p[3], y[m - 1]);
  }

  lemma {:induction false} ExactRow(x: seq<real>, y: seq<real>, p: seq<real>, r: nat, m: nat)
    requires m <= |x| && m <= |y| && |p| == 4
    requires forall i :: 0 <= i < m ==> y[i] == Eval(p, x[i])
    ensures NormalRowHolds(x, y, p, r, m)
  {
    if m > 0 {
      ExactRow(x, y, p, r, m - 1);
      ExactRowStep(x, y, p, r, m);
    }
  }

  /** Samples that lie exactly on a cubic p satisfy the normal equations with
      p; with RegresiPolinomial's uniqueness, a fitted result is then p. */
  lemma ExactCubicSolvesNormal(x: seq<real>, y: seq<real>, p: seq<real>)
    requires |x| == |y| && |p| == 4
    requires forall i :: 0 <= i < |x| ==> y[i] == Eval(p, x[i])
    ensures Solves(NormalSystem(x, y), p)
  {
    forall r | 0 <= r < 4
      ensures SolvesRow(NormalSystem(x, y)[r], p)
    {
      ExactRow(x, y, p, r, |x|);
    }
  }
}
