/** The textbook Lagrange basis, stated pointwise over exact reals. Both
    interpolation programs are measured against these definitions: the
    symbolic one builds coefficient vectors whose values they are, and the
    point-evaluation one computes them directly. */
module Basis {

  /** Pairwise-distinct interpolation nodes. */
  predicate Distinct(x: seq<real>) {
    forall a, b :: 0 <= a < b < |x| ==> x[a] != x[b]
  }

  /** One scaled linear factor (t - x_j) / (x_i - x_j) of the basis product. */
  function Factor(x: seq<real>, i: nat, j: nat, t: real): real
    requires i < |x| && j < |x| && x[i] != x[j]
  {
    (t - x[j]) / (x[i] - x[j])
  }

  /** The reciprocal denominator 1 / (x_i - x_j) of one factor. */
  function Recip(x: seq<real>, i: nat, j: nat): real
    requires i < |x| && j < |x| && x[i] != x[j]
  {
    1.0 / (x[i] - x[j])
  }

  /** The basis product over the first m nodes: the product of Factor(x, i, j, t)
      over j < m, j != i. */
  function BasisAt(x: seq<real>, i: nat, m: nat, t: real): real
    requires Distinct(x) && i < |x| && m <= |x|
  {
    if m == 0 then 1.0
    else if m - 1 == i then BasisAt(x, i, m - 1, t)
    else BasisAt(x, i, m - 1, t) * Factor(x, i, m - 1, t)
  }

  /** The same product accumulated from the starting value s instead of 1, as a
      loop that starts its running product at a data value computes it. */
  function ScaledBasisAt(x: seq<real>, i: nat, m: nat, t: real, s: real): real
    requires Distinct(x) && i < |x| && m <= |x|
  {
    if m == 0 then s
    else if m - 1 == i then ScaledBasisAt(x, i, m - 1, t, s)
    else ScaledBasisAt(x, i, m - 1, t, s) * Factor(x, i, m - 1, t)
  }

  /** The leading coefficient of that product: the product of 1 / (x_i - x_j)
      over j < m, j != i. */
  function LeadAt(x: seq<real>, i: nat, m: nat): real
    requires Distinct(x) && i < |x| && m <= |x|
  {
    if m == 0 then 1.0
    else if m - 1 == i then LeadAt(x, i, m - 1)
    else LeadAt(x, i, m - 1) * Recip(x, i, m - 1)
  }

  /** The number of linear factors in that product, hence its degree. */
  function Factors(i: nat, m: nat): nat {
    if i < m then m - 1 else m
  }

  /** The interpolating combination over the first m basis polynomials:
      the sum of BasisAt(x, i, |x|, t) * y_i over i < m. */
  function LagrangeSum(x: seq<real>, y: seq<real>, m: nat, t: real): real
    requires Distinct(x) && |y| == |x| && m <= |x|
  {
    if m == 0 then 0.0
    else LagrangeSum(x, y, m - 1, t) + BasisAt(x, m - 1, |x|, t) * y[m - 1]
  }

  /** Each step of the combination adds the next basis product times its value. */
  lemma LagrangeSumStep(x: seq<real>, y: seq<real>, m: nat, t: real)
    requires Distinct(x) && |y| == |x| && m < |x|
    ensures LagrangeSum(x, y, m + 1, t) == LagrangeSum(x, y, m, t) + BasisAt(x, m, |x|, t) * y[m]
  {
  }

  /** The combination with each basis product accumulated from its value
      y_i, as a loop that starts every term at its data value computes it. */
  function ScaledSum(x: seq<real>, y: seq<real>, m: nat, t: real): real
    requires Distinct(x) && |y| == |x| && m <= |x|
  {
    if m == 0 then 0.0
    else ScaledSum(x, y, m - 1, t) + ScaledBasisAt(x, m - 1, |x|, t, y[m - 1])
  }

  lemma ScaledSumStep(x: seq<real>, y: seq<real>, m: nat, t: real)
    requires Distinct(x) && |y| == |x| && 0 < m <= |x|
    requires ScaledSum(x, y, m - 1, t) == LagrangeSum(x, y, m - 1, t)
    ensures ScaledSum(x, y, m, t) == LagrangeSum(x, y, m, t)
  {
    ScaledBasis(x, m - 1, |x|, t, y[m - 1]);
  }

  /** Starting each basis product from its value gives the same combination. */
  lemma {:induction false} ScaledSumIsLagrangeSum(x: seq<real>, y: seq<real>, m: nat, t: real)
    requires Distinct(x) && |y| == |x| && m <= |x|
    ensures ScaledSum(x, y, m, t) == LagrangeSum(x, y, m, t)
  {
    if m > 0 {
      ScaledSumIsLagrangeSum(x, y, m - 1, t);
      ScaledSumStep(x, y, m, t);
    }
  }

  /** Taking node j != i multiplies the product by its factor and the leading
      coefficient by 1 / (x_i - x_j). */
  lemma FactorStep(x: seq<real>, i: nat, j: nat, t: real)
    requires Distinct(x) && i < |x| && j < |x| && j != i
    ensures BasisAt(x, i, j + 1, t) == BasisAt(x, i, j, t) * Factor(x, i, j, t)
    ensures LeadAt(x, i, j + 1) == LeadAt(x, i, j) * Recip(x, i, j)
  {
  }

  /** The arithmetic of ScaledStep. Stated over plain reals so
      that the solver's nonlinear arithmetic stays within its resource budget;
      the caller binds the parameters to the model's terms. */
  lemma ScaleStepAlgebra(pm: real, p1: real, f: real, bm: real, b1: real, s: real)
    requires pm == p1 * f && bm == b1 * f && p1 == b1 * s
    ensures pm == bm * s
  {
    calc {
      pm;
      (b1 * s) * f;
      (b1 * f) * s;
    }
  }

  predicate ScaledMatches(x: seq<real>, i: nat, m: nat, t: real, s: real)
    requires Distinct(x) && i < |x| && m <= |x|
  {
    ScaledBasisAt(x, i, m, t, s) == BasisAt(x, i, m, t) * s
  }

  lemma ScaledStep(x: seq<real>, i: nat, m: nat, t: real, s: real)
    requires Distinct(x) && i < |x| && 0 < m <= |x| && m - 1 != i
    requires ScaledMatches(x, i, m - 1, t, s)
    ensures ScaledMatches(x, i, m, t, s)
  {
    ScaleStepAlgebra(ScaledBasisAt(x, i, m, t, s), ScaledBasisAt(x, i, m - 1, t, s), Factor(x, i, m - 1, t),
                     BasisAt(x, i, m, t), BasisAt(x, i, m - 1, t), s);
  }

  lemma {:induction false} ScaledMatchesAll(x: seq<real>, i: nat, m: nat, t: real, s: real)
    requires Distinct(x) && i < |x| && m <= |x|
    ensures ScaledMatches(x, i, m, t, s)
  {
    if m > 0 {
      ScaledMatchesAll(x, i, m - 1, t, s);
      if m - 1 != i {
        ScaledStep(x, i, m, t, s);
      }
    }
  }

  /** Starting the product from s instead of 1 scales it by s. */
  lemma ScaledBasis(x: seq<real>, i: nat, m: nat, t: real, s: real)
    requires Distinct(x) && i < |x| && m <= |x|
    ensures ScaledBasisAt(x, i, m, t, s) == BasisAt(x, i, m, t) * s
  {
    ScaledMatchesAll(x, i, m, t, s);
  }

  lemma FactorAtNodes(x: seq<real>, i: nat, j: nat)
    requires i < |x| && j < |x| && x[i] != x[j]
    ensures Factor(x, i, j, x[i]) == 1.0
    ensures Factor(x, i, j, x[j]) == 0.0
  {
    var d := x[i] - x[j];
    assert d != 0.0;
    assert (x[i] - x[j]) / d == 1.0;
  }

  /** Every basis polynomial is 1 at its own node. */
  lemma {:induction false} BasisAtOwnNode(x: seq<real>, i: nat, m: nat)
    requires Distinct(x) && i < |x| && m <= |x|
    ensures BasisAt(x, i, m, x[i]) == 1.0
  {
    if m > 0 {
      BasisAtOwnNode(x, i, m - 1);
      if m - 1 != i {
        FactorAtNodes(x, i, m - 1);
      }
    }
  }

  /** Every basis polynomial vanishes at each other node it has taken a factor for. */
  lemma {:induction false} BasisAtOtherNode(x: seq<real>, i: nat, k: nat, m: nat)
    requires Distinct(x) && i < |x| && k < m <= |x| && k != i
    ensures BasisAt(x, i, m, x[k]) == 0.0
  {
    if m - 1 == k {
      FactorAtNodes(x, i, k);
    } else {
      BasisAtOtherNode(x, i, k, m - 1);
    }
  }

  /** The basis property: L_i(x_k) is 1 when k = i and 0 otherwise. */
  lemma BasisDelta(x: seq<real>, i: nat, k: nat)
    requires Distinct(x) && i < |x| && k < |x|
    ensures BasisAt(x, i, |x|, x[k]) == (if k == i then 1.0 else 0.0)
  {
    if k == i {
      BasisAtOwnNode(x, i, |x|);
    } else {
      BasisAtOther(x, i, k);
    }
  }

  lemma BasisAtOther(x: seq<real>, i: nat, k: nat)
    requires Distinct(x) && i < |x| && k < |x| && k != i
    ensures BasisAt(x, i, |x|, x[k]) == 0.0
  {
    BasisAtOtherNode(x, i, k, |x|);
  }

  /** The combination over the first m basis polynomials takes the value y_k at
      node k when k < m, and 0 there otherwise. */
  lemma {:induction false} LagrangeSumAtNode(x: seq<real>, y: seq<real>, m: nat, k: nat)
    requires Distinct(x) && |y| == |x| && m <= |x| && k < |x|
    ensures LagrangeSum(x, y, m, x[k]) == (if k < m then y[k] else 0.0)
  {
    if m > 0 {
      LagrangeSumAtNode(x, y, m - 1, k);
      BasisDelta(x, m - 1, k);
    }
  }

  /** Exactness of the reference: the full combination reproduces every y_k. */
  lemma LagrangeSumInterpolates(x: seq<real>, y: seq<real>, k: nat)
    requires Distinct(x) && |y| == |x| && k < |x|
    ensures LagrangeSum(x, y, |x|, x[k]) == y[k]
  {
    LagrangeSumAtNode(x, y, |x|, k);
  }
}
