/** Closed-form simple linear regression over the first n samples: the four
    running sums, the denominator n * sum(x^2) - (sum x)^2, the all-zero line
    when that denominator is 0, and otherwise the least-squares slope and
    intercept. */
module LinearFit {

  /** The fitted line y = slope * x + intercept. */
  datatype Line = Line(slope: real, intercept: real)

  /** The number of samples the accumulation loop visits: none for n <= 0. */
  function Count(n: int): nat {
    if n < 0 then 0 else n
  }

  /** The running sum of the first m entries, added front to back. */
  function Sum(s: seq<real>, m: nat): real
    requires m <= |s|
  {
    if m == 0 then 0.0 else Sum(s, m - 1) + s[m - 1]
  }

  /** The running sum of a[k] * b[k] over the first m entries. */
  function SumProd(a: seq<real>, b: seq<real>, m: nat): real
    requires m <= |a| && m <= |b|
  {
    if m == 0 then 0.0 else SumProd(a, b, m - 1) + a[m - 1] * b[m - 1]
  }

  /** The denominator n * sum(x^2) - (sum x)^2, with n taken as a double. */
  function Den(x: seq<real>, n: int): real
    requires n <= |x|
  {
    n as real * SumProd(x, x, Count(n)) - Sum(x, Count(n)) * Sum(x, Count(n))
  }

  /** The closed form from the sample count k and the sums of x, y, x*y and
      x*x: the all-zero line when k * sxx - sx^2 is 0, otherwise the slope
      (k * sxy - sx * sy) / den and the intercept (sy - slope * sx) / k. */
  function ClosedForm(k: real, sx: real, sy: real, sxy: real, sxx: real): (l: Line)
    requires k == 0.0 ==> sx == 0.0
    ensures k * sxx - sx * sx == 0.0 ==> l == Line(0.0, 0.0)
  {
    var den := k * sxx - sx * sx;
    if den == 0.0 then Line(0.0, 0.0)
    else
      var slope := (k * sxy - sx * sy) / den;
      Line(slope, (sy - slope * sx) / k)
  }

  /** linear_regression(x, y, n, &slope, &intercept). A zero denominator, which
      includes every n <= 0, yields the all-zero line. */
  function LinearRegression(x: seq<real>, y: seq<real>, n: int): Line
    requires n <= |x| && n <= |y|
  {
    var m := Count(n);
    ClosedForm(n as real, Sum(x, m), Sum(y, m), SumProd(x, y, m), SumProd(x, x, m))
  }

  /** A zero denominator yields the all-zero line. */
  lemma RegressionFallback(x: seq<real>, y: seq<real>, n: int)
    requires n <= |x| && n <= |y| && Den(x, n) == 0.0
    ensures LinearRegression(x, y, n) == Line(0.0, 0.0)
  {
  }

  /** Without samples the denominator is 0, so the division by n is never reached. */
  lemma NoSamplesFallback(x: seq<real>, n: int)
    requires n <= |x| && n <= 0
    ensures Den(x, n) == 0.0
  {
  }

  /** The least-squares normal equations of a line over the first n samples:
      the residuals sum to 0 and are orthogonal to x. */
  predicate NormalEquations(x: seq<real>, y: seq<real>, n: nat, l: Line)
    requires n <= |x| && n <= |y|
  {
    l.slope * SumProd(x, x, n) + l.intercept * Sum(x, n) == SumProd(x, y, n) &&
    l.slope * Sum(x, n) + l.intercept * n as real == Sum(y, n)
  }

  /** The closed form solves the normal equations whenever its denominator is
      non-zero and there is at least one sample. */
  lemma ClosedFormNormal(k: real, sx: real, sy: real, sxy: real, sxx: real)
    requires k != 0.0 && k * sxx - sx * sx != 0.0
    ensures ClosedForm(k, sx, sy, sxy, sxx).slope * sx + ClosedForm(k, sx, sy, sxy, sxx).intercept * k == sy
    ensures ClosedForm(k, sx, sy, sxy, sxx).slope * sxx + ClosedForm(k, sx, sy, sxy, sxx).intercept * sx == sxy
  {
    var d := k * sxx - sx * sx;
    var a := (k * sxy - sx * sy) / d;
    var b := (sy - a * sx) / k;
    assert b * k == sy - a * sx;
    assert a * d == k * sxy - sx * sy;
    calc {
      k * (a * sxx + b * sx);
      a * (k * sxx) + (b * k) * sx;
      a * (k * sxx) + (sy - a * sx) * sx;
      a * (k * sxx - sx * sx) + sy * sx;
      k * sxy;
    }
  }

  /** With a non-zero denominator there is at least one sample. */
  lemma DenNonZeroHasSamples(x: seq<real>, n: int)
    requires n <= |x| && Den(x, n) != 0.0
    ensures n > 0
  {
  }

  /** Away from the fallback, the fitted line solves the normal equations, so
      it is the least-squares line. */
  lemma RegressionIsLeastSquares(x: seq<real>, y: seq<real>, n: int)
    requires n <= |x| && n <= |y| && Den(x, n) != 0.0
    ensures n > 0 && NormalEquations(x, y, n, LinearRegression(x, y, n))
  {
    DenNonZeroHasSamples(x, n);
    ClosedFormNormal(n as real, Sum(x, n), Sum(y, n), SumProd(x, y, n), SumProd(x, x, n));
  }

  /** The arithmetic of NormalThroughMean: dividing the first normal equation
      by n. Stated over plain reals so that the solver's nonlinear arithmetic
      stays within its resource budget; the caller binds the parameters to the
      model's terms. */
  lemma MeanAlgebra(k: real, sx: real, sy: real, a: real, b: real)
    requires k != 0.0 && a * sx + b * k == sy
    ensures a * (sx / k) + b == sy / k
  {
    calc {
      a * (sx / k) + b;
      (a * sx + b * k) / k;
    }
  }

  /** Any line that solves the normal equations passes through the mean point. */
  lemma NormalThroughMean(x: seq<real>, y: seq<real>, n: nat, l: Line)
    requires 0 < n <= |x| && n <= |y| && NormalEquations(x, y, n, l)
    ensures l.slope * (Sum(x, n) / n as real) + l.intercept == Sum(y, n) / n as real
  {
    MeanAlgebra(n as real, Sum(x, n), Sum(y, n), l.slope, l.intercept);
  }

  /** Away from the fallback, the fitted line passes through the mean point. */
  lemma RegressionThroughMean(x: seq<real>, y: seq<real>, n: int)
    requires n <= |x| && n <= |y| && Den(x, n) != 0.0
    ensures n > 0
    ensures LinearRegression(x, y, n).slope * (Sum(x, n) / n as real) + LinearRegression(x, y, n).intercept
         == Sum(y, n) / n as real
  {
    RegressionIsLeastSquares(x, y, n);
    NormalThroughMean(x, y, n, LinearRegression(x, y, n));
  }

  /** The samples lie exactly on the line y = a * x + b. */
  predicate OnLine(x: seq<real>, y: seq<real>, n: nat, a: real, b: real)
    requires n <= |x| && n <= |y|
  {
    forall i :: 0 <= i < n ==> y[i] == a * x[i] + b
  }

  lemma LineSumStep(s: real, s1: real, sx: real, sx1: real, xi: real, yi: real,
                    a: real, b: real, k: real, km: real)
    requires s == s1 + yi && sx == sx1 + xi && yi == a * xi + b && s1 == a * sx1 + b * k && km == k + 1.0
    ensures s == a * sx + b * km
  {
  }

  lemma LineProdStep(p: real, p1: real, sx1: real, sxx: real, sxx1: real, xi: real, yi: real, a: real, b: real)
    requires p == p1 + xi * yi && sxx == sxx1 + xi * xi && yi == a * xi + b && p1 == a * sxx1 + b * sx1
    ensures p == a * sxx + b * (sx1 + xi)
  {
    calc {
      xi * yi;
      xi * (a * xi + b);
      a * (xi * xi) + b * xi;
    }
  }

  /** The two sums of exactly collinear samples: sum y = a * sum x + b * m and
      sum x*y = a * sum x^2 + b * sum x. */
  predicate SumOnLine(x: seq<real>, y: seq<real>, m: nat, a: real, b: real)
    requires m <= |x| && m <= |y|
  {
    Sum(y, m) == a * Sum(x, m) + b * m as real
  }

  predicate ProdOnLine(x: seq<real>, y: seq<real>, m: nat, a: real, b: real)
    requires m <= |x| && m <= |y|
  {
    SumProd(x, y, m) == a * SumProd(x, x, m) + b * Sum(x, m)
  }

  lemma SumOnLineStep(x: seq<real>, y: seq<real>, a: real, b: real, m: nat)
    requires 0 < m <= |x| && m <= |y| && y[m - 1] == a * x[m - 1] + b
    requires SumOnLine(x, y, m - 1, a, b)
    ensures SumOnLine(x, y, m, a, b)
  {
    LineSumStep(Sum(y, m), Sum(y, m - 1), Sum(x, m), Sum(x, m - 1),
                x[m - 1], y[m - 1], a, b, (m - 1) as real, m as real);
  }

  lemma ProdOnLineStep(x: seq<real>, y: seq<real>, a: real, b: real, m: nat)
    requires 0 < m <= |x| && m <= |y| && y[m - 1] == a * x[m - 1] + b
    requires ProdOnLine(x, y, m - 1, a, b)
    ensures ProdOnLine(x, y, m, a, b)
  {
    LineProdStep(SumProd(x, y, m), SumProd(x, y, m - 1), Sum(x, m - 1), SumProd(x, x, m), SumProd(x, x, m - 1),
                 x[m - 1], y[m - 1], a, b);
  }

  lemma {:induction false} OnLineSums(x: seq<real>, y: seq<real>, n: nat, a: real, b: real, m: nat)
    requires n <= |x| && n <= |y| && m <= n && OnLine(x, y, n, a, b)
    ensures SumOnLine(x, y, m, a, b) && ProdOnLine(x, y, m, a, b)
  {
    if m > 0 {
      OnLineSums(x, y, n, a, b, m - 1);
      SumOnLineStep(x, y, a, b, m);
      ProdOnLineStep(x, y, a, b, m);
    }
  }

  /** The closed form of exactly collinear sums is that line. */
  lemma ClosedFormExact(k: real, sx: real, sy: real, sxy: real, sxx: real, a: real, b: real)
    requires k != 0.0 && k * sxx - sx * sx != 0.0
    requires sy == a * sx + b * k && sxy == a * sxx + b * sx
    ensures ClosedForm(k, sx, sy, sxy, sxx) == Line(a, b)
  {
    var d := k * sxx - sx * sx;
    calc {
      k * sxy - sx * sy;
      k * (a * sxx + b * sx) - sx * (a * sx + b * k);
      a * d;
    }
    assert (k * sxy - sx * sy) / d == a;
    assert (sy - a * sx) / k == b;
  }

  /** Samples that lie exactly on a line, with x not constant, give back that
      line. */
  lemma RegressionRecoversLine(x: seq<real>, y: seq<real>, n: int, a: real, b: real)
    requires 0 <= n <= |x| && n <= |y| && OnLine(x, y, n, a, b)
    requires !AllEqual(x, n)
    ensures LinearRegression(x, y, n) == Line(a, b)
  {
    DenZeroIffConstant(x, n);
    OnLineSums(x, y, n, a, b, n);
    ClosedFormExact(n as real, Sum(x, n), Sum(y, n), SumProd(x, y, n), SumProd(x, x, n), a, b);
  }

  /** Every sample visited has the same x. */
  predicate AllEqual(x: seq<real>, n: int)
    requires n <= |x|
  {
    forall i :: 0 <= i < Count(n) ==> x[i] == x[0]
  }

  /** The sum of (x[i] - v)^2 over the first m samples. */
  function SqDist(x: seq<real>, v: real, m: nat): real
    requires m <= |x|
  {
    if m == 0 then 0.0 else SqDist(x, v, m - 1) + (x[m - 1] - v) * (x[m - 1] - v)
  }

  /** The sum of (x[i] - x[j])^2 over all pairs i < j < m. */
  function PairSq(x: seq<real>, m: nat): real
    requires m <= |x|
  {
    if m == 0 then 0.0 else PairSq(x, m - 1) + SqDist(x, x[m - 1], m - 1)
  }

  lemma ExpandStep(d: real, d1: real, q: real, q1: real, s: real, s1: real, xm: real, v: real, k: real)
    requires d == d1 + (xm - v) * (xm - v) && q == q1 + xm * xm && s == s1 + xm
    requires d1 == q1 - 2.0 * v * s1 + k * v * v
    ensures d == q - 2.0 * v * s + (k + 1.0) * v * v
  {
  }

  predicate SqDistExpanded(x: seq<real>, v: real, m: nat)
    requires m <= |x|
  {
    SqDist(x, v, m) == SumProd(x, x, m) - 2.0 * v * Sum(x, m) + m as real * v * v
  }

  lemma SqDistStep(x: seq<real>, v: real, m: nat)
    requires 0 < m <= |x| && SqDistExpanded(x, v, m - 1)
    ensures SqDistExpanded(x, v, m)
  {
    ExpandStep(SqDist(x, v, m), SqDist(x, v, m - 1), SumProd(x, x, m), SumProd(x, x, m - 1),
               Sum(x, m), Sum(x, m - 1), x[m - 1], v, (m - 1) as real);
  }

  lemma {:induction false} SqDistExpand(x: seq<real>, v: real, m: nat)
    requires m <= |x|
    ensures SqDistExpanded(x, v, m)
  {
    if m > 0 {
      SqDistExpand(x, v, m - 1);
      SqDistStep(x, v, m);
    }
  }

  /** The arithmetic of DenStep: one more sample adds its squared distances to
      the denominator. Stated over plain reals so that the solver's nonlinear
      arithmetic stays within its resource budget; the caller binds the
      parameters to the model's terms. */
  lemma DenStepAlgebra(km: real, k: real, q: real, q1: real, s: real, s1: real, xm: real,
                       p: real, p1: real, e: real)
    requires km == k + 1.0 && q == q1 + xm * xm && s == s1 + xm && p == p1 + e
    requires k * q1 - s1 * s1 == p1
    requires e == q1 - 2.0 * xm * s1 + k * xm * xm
    ensures km * q - s * s == p
  {
  }

  predicate DenMatches(x: seq<real>, m: nat)
    requires m <= |x|
  {
    m as real * SumProd(x, x, m) - Sum(x, m) * Sum(x, m) == PairSq(x, m)
  }

  lemma DenStep(x: seq<real>, m: nat)
    requires 0 < m <= |x| && DenMatches(x, m - 1)
    ensures DenMatches(x, m)
  {
    var xm := x[m - 1];
    SqDistExpand(x, xm, m - 1);
    DenStepAlgebra(m as real, (m - 1) as real, SumProd(x, x, m), SumProd(x, x, m - 1),
                   Sum(x, m), Sum(x, m - 1), xm, PairSq(x, m), PairSq(x, m - 1), SqDist(x, xm, m - 1));
  }

  /** n * sum(x^2) - (sum x)^2 is the sum of the squared differences of all
      pairs of samples. */
  lemma {:induction false} DenIsPairSq(x: seq<real>, m: nat)
    requires m <= |x|
    ensures DenMatches(x, m)
  {
    if m > 0 {
      DenIsPairSq(x, m - 1);
      DenStep(x, m);
    }
  }

  /** A product of two positive factors is positive. The product is named t
      so that the fact is stated about t rather than about the product term. */
  lemma ProductPositive(t: real, d: real, e: real)
    requires t == d * e && d > 0.0 && e > 0.0
    ensures t > 0.0
  {
  }

  lemma ProductOfNegatives(t: real, d: real, e: real)
    requires t == d * e && d < 0.0 && e < 0.0
    ensures t > 0.0
  {
    ProductPositive(t, -d, -e);
  }

  /** A square is never negative, and it is 0 only for 0. */
  lemma SquareOf(t: real, d: real)
    requires t == d * d
    ensures t >= 0.0
    ensures t == 0.0 <==> d == 0.0
  {
    if d > 0.0 {
      ProductPositive(t, d, d);
    } else if d < 0.0 {
      ProductOfNegatives(t, d, d);
    }
  }

  /** Adding the square of a - v never decreases a sum, and leaves it
      unchanged exactly when a == v. */
  lemma AddSquare(sum: real, sum1: real, a: real, v: real)
    requires sum == sum1 + (a - v) * (a - v)
    ensures sum >= sum1
    ensures sum == sum1 <==> a == v
  {
    SquareOf(sum - sum1, a - v);
  }

  /** A sum of squares is non-negative, and 0 exactly when every sample equals v. */
  lemma {:induction false} SqDistZero(x: seq<real>, v: real, m: nat)
    requires m <= |x|
    ensures SqDist(x, v, m) >= 0.0
    ensures SqDist(x, v, m) == 0.0 <==> forall i :: 0 <= i < m ==> x[i] == v
  {
    if m > 0 {
      SqDistZero(x, v, m - 1);
      AddSquare(SqDist(x, v, m), SqDist(x, v, m - 1), x[m - 1], v);
      assert (forall i :: 0 <= i < m ==> x[i] == v) <==>
             (forall i :: 0 <= i < m - 1 ==> x[i] == v) && x[m - 1] == v;
    }
  }

  /** The pairwise sum is non-negative, and 0 exactly when all samples agree. */
  lemma {:induction false} PairSqZero(x: seq<real>, m: nat)
    requires m <= |x|
    ensures PairSq(x, m) >= 0.0
    ensures PairSq(x, m) == 0.0 <==> forall i :: 0 <= i < m ==> x[i] == x[0]
  {
    if m > 0 {
      PairSqZero(x, m - 1);
      SqDistZero(x, x[m - 1], m - 1);
    }
  }

  /** The denominator is never negative, and it is 0 exactly when every visited
      x is the same, so the fallback fires only for constant x (or no samples). */
  lemma DenZeroIffConstant(x: seq<real>, n: int)
    requires n <= |x|
    ensures Den(x, n) >= 0.0
    ensures Den(x, n) == 0.0 <==> AllEqual(x, n)
  {
    if n > 0 {
      DenIsPairSq(x, n);
      PairSqZero(x, n);
    }
  }
}
