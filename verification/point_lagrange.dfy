/** The point-evaluation Lagrange interpolation over integer years: for each
    node i, values[i] is multiplied by the factors (target - year_j) /
    (year_i - year_j) for every other node j, and the products are summed.
    Its value is the textbook combination of the basis products, so it agrees
    with the symbolic coefficient-vector construction evaluated at the target. */
module PointLagrange {
  import opened Poly
  import opened Basis
  import Interpolation

  /** Pairwise-distinct years; with a repeated year a denominator is 0. */
  predicate DistinctYears(tahun: seq<int>) {
    forall a, b :: 0 <= a < b < |tahun| ==> tahun[a] != tahun[b]
  }

  /** The years as exact reals: the nodes of the basis products. */
  function Nodes(tahun: seq<int>): (x: seq<real>)
    ensures |x| == |tahun|
    ensures forall k :: 0 <= k < |tahun| ==> x[k] == tahun[k] as real
  {
    seq(|tahun|, k requires 0 <= k < |tahun| => tahun[k] as real)
  }

  lemma NodesDistinct(tahun: seq<int>)
    requires DistinctYears(tahun)
    ensures Distinct(Nodes(tahun))
  {
  }

  /** One factor of the inner loop: the integer difference target - year_j
      converted to floating point, divided by the integer difference
      year_i - year_j. */
  function YearFactor(tahun: seq<int>, i: nat, j: nat, target: int): real
    requires i < |tahun| && j < |tahun| && tahun[i] != tahun[j]
  {
    (target - tahun[j]) as real / (tahun[i] - tahun[j]) as real
  }

  /** The running term of node i after the inner loop has visited every j < m. */
  function TermAfter(tahun: seq<int>, values: seq<real>, i: nat, m: nat, target: int): real
    requires DistinctYears(tahun) && |values| >= |tahun| && i < |tahun| && m <= |tahun|
  {
    if m == 0 then values[i]
    else if m - 1 == i then TermAfter(tahun, values, i, m - 1, target)
    else TermAfter(tahun, values, i, m - 1, target) * YearFactor(tahun, i, m - 1, target)
  }

  /** The running result after the outer loop has added the terms of nodes i < m. */
  function ResultAfter(tahun: seq<int>, values: seq<real>, m: nat, target: int): real
    requires DistinctYears(tahun) && |values| >= |tahun| && m <= |tahun|
  {
    if m == 0 then 0.0
    else ResultAfter(tahun, values, m - 1, target) + TermAfter(tahun, values, m - 1, |tahun|, target)
  }

  /** lagrangeInterpolation(tahun, values, targetTahun); with no years the
      result is 0. */
  function LagrangeAt(tahun: seq<int>, values: seq<real>, target: int): (r: real)
    requires DistinctYears(tahun) && |values| >= |tahun|
    ensures |tahun| == 0 ==> r == 0.0
  {
    ResultAfter(tahun, values, |tahun|, target)
  }

  /** With a single year the result is its value, whatever the target. */
  lemma LagrangeAtSingle(tahun: seq<int>, values: seq<real>, target: int)
    requires DistinctYears(tahun) && |values| >= |tahun| == 1
    ensures LagrangeAt(tahun, values, target) == values[0]
  {
    assert TermAfter(tahun, values, 0, 1, target) == values[0];
    assert LagrangeAt(tahun, values, target) == ResultAfter(tahun, values, 0, target) + TermAfter(tahun, values, 0, 1, target);
  }

  /** The factor of the inner loop is the basis factor over the nodes. */
  lemma YearFactorIsFactor(tahun: seq<int>, i: nat, j: nat, target: int)
    requires i < |tahun| && j < |tahun| && tahun[i] != tahun[j]
    ensures YearFactor(tahun, i, j, target) == Factor(Nodes(tahun), i, j, target as real)
  {
    var x := Nodes(tahun);
    assert (target - tahun[j]) as real == target as real - x[j];
    assert (tahun[i] - tahun[j]) as real == x[i] - x[j];
  }

  /** The running term of node i is the basis product over the nodes visited
      so far, started from values[i]. */
  lemma {:induction false} TermIsScaledBasis(tahun: seq<int>, values: seq<real>, i: nat, m: nat, target: int)
    requires DistinctYears(tahun) && |values| >= |tahun| && i < |tahun| && m <= |tahun|
    ensures Distinct(Nodes(tahun))
    ensures TermAfter(tahun, values, i, m, target) == ScaledBasisAt(Nodes(tahun), i, m, target as real, values[i])
  {
    NodesDistinct(tahun);
    if m > 0 {
      TermIsScaledBasis(tahun, values, i, m - 1, target);
      if m - 1 != i {
        YearFactorIsFactor(tahun, i, m - 1, target);
      }
    }
  }

  predicate ResultMatches(tahun: seq<int>, values: seq<real>, m: nat, target: int)
    requires DistinctYears(tahun) && |values| >= |tahun| && m <= |tahun|
  {
    Distinct(Nodes(tahun)) &&
    ResultAfter(tahun, values, m, target) == ScaledSum(Nodes(tahun), values[..|tahun|], m, target as real)
  }

  lemma ResultStep(tahun: seq<int>, values: seq<real>, m: nat, target: int)
    requires DistinctYears(tahun) && |values| >= |tahun| && 0 < m <= |tahun|
    requires ResultMatches(tahun, values, m - 1, target)
    ensures ResultMatches(tahun, values, m, target)
  {
    var y := values[..|tahun|];
    TermIsScaledBasis(tahun, values, m - 1, |tahun|, target);
    assert y[m - 1] == values[m - 1];
  }

  /** The running result is the combination of the basis products over the
      first m nodes, each started from its value. */
  lemma {:induction false} ResultIsSum(tahun: seq<int>, values: seq<real>, m: nat, target: int)
    requires DistinctYears(tahun) && |values| >= |tahun| && m <= |tahun|
    ensures ResultMatches(tahun, values, m, target)
  {
    NodesDistinct(tahun);
    if m > 0 {
      ResultIsSum(tahun, values, m - 1, target);
      ResultStep(tahun, values, m, target);
    }
  }

  /** The point evaluation is the Lagrange combination of the basis products
      over the years, evaluated at the target. */
  lemma LagrangeAtIsSum(tahun: seq<int>, values: seq<real>, target: int)
    requires DistinctYears(tahun) && |values| >= |tahun|
    ensures Distinct(Nodes(tahun))
    ensures LagrangeAt(tahun, values, target) == LagrangeSum(Nodes(tahun), values[..|tahun|], |tahun|, target as real)
  {
    ResultIsSum(tahun, values, |tahun|, target);
    ScaledSumIsLagrangeSum(Nodes(tahun), values[..|tahun|], |tahun|, target as real);
  }

  /** At one of the years the result is that year's value. */
  lemma LagrangeAtNode(tahun: seq<int>, values: seq<real>, k: nat)
    requires DistinctYears(tahun) && |values| >= |tahun| && k < |tahun|
    ensures LagrangeAt(tahun, values, tahun[k]) == values[k]
  {
    LagrangeAtIsSum(tahun, values, tahun[k]);
    LagrangeSumInterpolates(Nodes(tahun), values[..|tahun|], k);
  }

  /** The values scaled by c, and the sum of two value vectors. */
  function ScaleValues(values: seq<real>, c: real): (r: seq<real>)
    ensures |r| == |values|
    ensures forall k :: 0 <= k < |values| ==> r[k] == c * values[k]
  {
    seq(|values|, k requires 0 <= k < |values| => c * values[k])
  }

  function AddValues(u: seq<real>, w: seq<real>): (r: seq<real>)
    requires |u| == |w|
    ensures |r| == |u|
    ensures forall k :: 0 <= k < |u| ==> r[k] == u[k] + w[k]
  {
    seq(|u|, k requires 0 <= k < |u| => u[k] + w[k])
  }

  predicate SumScales(x: seq<real>, y: seq<real>, c: real, m: nat, t: real)
    requires Distinct(x) && |y| == |x| && m <= |x|
  {
    LagrangeSum(x, ScaleValues(y, c), m, t) == c * LagrangeSum(x, y, m, t)
  }

  lemma SumScalesStep(x: seq<real>, y: seq<real>, c: real, m: nat, t: real)
    requires Distinct(x) && |y| == |x| && 0 < m <= |x|
    requires SumScales(x, y, c, m - 1, t)
    ensures SumScales(x, y, c, m, t)
  {
    var b := BasisAt(x, m - 1, |x|, t);
    var r1 := LagrangeSum(x, y, m - 1, t);
    calc {
      LagrangeSum(x, ScaleValues(y, c), m, t);
      LagrangeSum(x, ScaleValues(y, c), m - 1, t) + b * (c * y[m - 1]);
      c * r1 + b * (c * y[m - 1]);
      c * (r1 + b * y[m - 1]);
      c * LagrangeSum(x, y, m, t);
    }
  }

  lemma {:induction false} SumScalesAll(x: seq<real>, y: seq<real>, c: real, m: nat, t: real)
    requires Distinct(x) && |y| == |x| && m <= |x|
    ensures SumScales(x, y, c, m, t)
  {
    if m > 0 {
      SumScalesAll(x, y, c, m - 1, t);
      SumScalesStep(x, y, c, m, t);
    }
  }

  /** Linearity in the values: scaling every value by c scales the result by c. */
  lemma LagrangeAtScales(tahun: seq<int>, values: seq<real>, c: real, target: int)
    requires DistinctYears(tahun) && |values| >= |tahun|
    ensures LagrangeAt(tahun, ScaleValues(values, c), target) == c * LagrangeAt(tahun, values, target)
  {
    var n := |tahun|;
    LagrangeAtIsSum(tahun, values, target);
    LagrangeAtIsSum(tahun, ScaleValues(values, c), target);
    assert forall k :: 0 <= k < n ==> ScaleValues(values, c)[..n][k] == ScaleValues(values[..n], c)[k];
    assert ScaleValues(values, c)[..n] == ScaleValues(values[..n], c);
    SumScalesAll(Nodes(tahun), values[..n], c, n, target as real);
  }

  /** The arithmetic of SumAddsStep. Stated over plain reals so that the
      solver's nonlinear arithmetic stays within its resource budget; the
      caller binds the parameters to the model's terms. */
  lemma AddAlgebra(s: real, s1: real, r: real, r1: real, q: real, q1: real, b: real, u: real, w: real)
    requires s == s1 + b * (u + w) && r == r1 + b * u && q == q1 + b * w && s1 == r1 + q1
    ensures s == r + q
  {
  }

  predicate SumAdds(x: seq<real>, u: seq<real>, w: seq<real>, m: nat, t: real)
    requires Distinct(x) && |u| == |w| == |x| && m <= |x|
  {
    LagrangeSum(x, AddValues(u, w), m, t) == LagrangeSum(x, u, m, t) + LagrangeSum(x, w, m, t)
  }

  lemma SumAddsStep(x: seq<real>, u: seq<real>, w: seq<real>, m: nat, t: real)
    requires Distinct(x) && |u| == |w| == |x| && 0 < m <= |x|
    requires SumAdds(x, u, w, m - 1, t)
    ensures SumAdds(x, u, w, m, t)
  {
    var b := BasisAt(x, m - 1, |x|, t);
    AddAlgebra(LagrangeSum(x, AddValues(u, w), m, t), LagrangeSum(x, AddValues(u, w), m - 1, t),
               LagrangeSum(x, u, m, t), LagrangeSum(x, u, m - 1, t),
               LagrangeSum(x, w, m, t), LagrangeSum(x, w, m - 1, t), b, u[m - 1], w[m - 1]);
  }

  lemma {:induction false} SumAddsAll(x: seq<real>, u: seq<real>, w: seq<real>, m: nat, t: real)
    requires Distinct(x) && |u| == |w| == |x| && m <= |x|
    ensures SumAdds(x, u, w, m, t)
  {
    if m > 0 {
      SumAddsAll(x, u, w, m - 1, t);
      SumAddsStep(x, u, w, m, t);
    }
  }

  /** Linearity in the values: the result for a sum of value vectors is the
      sum of the results. */
  lemma LagrangeAtAdds(tahun: seq<int>, u: seq<real>, w: seq<real>, target: int)
    requires DistinctYears(tahun) && |u| == |w| >= |tahun|
    ensures LagrangeAt(tahun, AddValues(u, w), target) == LagrangeAt(tahun, u, target) + LagrangeAt(tahun, w, target)
  {
    var n := |tahun|;
    LagrangeAtIsSum(tahun, u, target);
    LagrangeAtIsSum(tahun, w, target);
    LagrangeAtIsSum(tahun, AddValues(u, w), target);
    assert AddValues(u, w)[..n] == AddValues(u[..n], w[..n]);
    SumAddsAll(Nodes(tahun), u[..n], w[..n], n, target as real);
  }

  /** The point evaluation agrees with the coefficient buffer that the symbolic
      interpolation builds for the same years and values, evaluated at the
      target, whenever that construction never trims a coefficient. */
  lemma LagrangeAtMatchesSymbolic(tahun: seq<int>, values: seq<real>, target: int)
    requires DistinctYears(tahun) && |values| >= |tahun| && |tahun| <= MaxDegree
    requires Interpolation.UntrimmedAll(Nodes(tahun))
    ensures Eval(Interpolation.LagrangeInterpolation(Nodes(tahun), values[..|tahun|]), target as real)
         == LagrangeAt(tahun, values, target)
  {
    LagrangeAtIsSum(tahun, values, target);
    Interpolation.LagrangeInterpolationValue(Nodes(tahun), values[..|tahun|], target as real);
  }
}
