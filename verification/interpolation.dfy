/** Symbolic Lagrange interpolation over MaxDegree-entry coefficient buffers:
    buildLagrangeTerm forms one basis polynomial as a running product of
    scaled linear factors, and lagrangeInterpolation sums the basis
    polynomials, each scaled by its y value. */
module Interpolation {
  import opened Poly
  import opened Basis

  /** The buffer buildLagrangeTerm multiplies by for node j: the linear factor
      (x - x_j) with both coefficients divided by x_i - x_j. Entries from
      index 2 on stay 0. */
  function LinearTerm(x: seq<real>, i: nat, j: nat): (term: seq<real>)
    requires i < |x| && j < |x| && x[i] != x[j]
    ensures |term| == MaxDegree
    ensures term[1] == Recip(x, i, j)
    ensures forall k :: 2 <= k < MaxDegree ==> term[k] == 0.0
  {
    var denom := x[i] - x[j];
    seq(MaxDegree, k => if k == 0 then -x[j] / denom else if k == 1 then 1.0 / denom else 0.0)
  }

  /** The linear term evaluates to the basis factor (t - x_j) / (x_i - x_j). */
  lemma LinearTermValue(x: seq<real>, i: nat, j: nat, t: real)
    requires i < |x| && j < |x| && x[i] != x[j]
    ensures EvalTo(LinearTerm(x, i, j), t, 2) == Factor(x, i, j, t)
  {
    var term := LinearTerm(x, i, j);
    var d := x[i] - x[j];
    assert Pow(t, 1) == t;
    assert EvalTo(term, t, 1) == -x[j] / d;
    assert EvalTo(term, t, 2) == (-x[j] / d) + (1.0 / d) * t;
    assert (-x[j] / d) + (1.0 / d) * t == (t - x[j]) / d;
  }

  /** One pass of the loop of buildLagrangeTerm for node j != i: rescan L for
      its effective degree with the 1e-10 threshold and multiply only that
      many coefficients by the linear term. */
  function TermStep(x: seq<real>, i: nat, j: nat, L: seq<real>): (r: seq<real>)
    requires Distinct(x) && i < |x| <= MaxDegree && j < |x| && j != i && |L| == MaxDegree
    requires forall k :: Factors(i, j) < k < MaxDegree ==> L[k] == 0.0
    ensures |r| == MaxDegree
    ensures forall k :: Factors(i, j + 1) < k < MaxDegree ==> r[k] == 0.0
  {
    // The source starts this scan at MAX_DEGREE, one past the buffer; the model
    // starts it at MAX_DEGREE - 1, the corrected scan (see GetPolyDegreeAsWritten).
    var d := GetPolyDegree(L, MaxDegree - 1);
    assert d <= Factors(i, j);
    MultiplyPoly(L, d, LinearTerm(x, i, j), 1)
  }

  /** The loop of buildLagrangeTerm from node j on, with L the running product. */
  function TermLoop(x: seq<real>, i: nat, j: nat, L: seq<real>): (r: seq<real>)
    requires Distinct(x) && i < |x| <= MaxDegree && j <= |x| && |L| == MaxDegree
    requires forall k :: Factors(i, j) < k < MaxDegree ==> L[k] == 0.0
    ensures |r| == MaxDegree
    ensures forall k :: Factors(i, |x|) < k < MaxDegree ==> r[k] == 0.0
    decreases |x| - j
  {
    if j == |x| then L
    else if j == i then TermLoop(x, i, j + 1, L)
    else TermLoop(x, i, j + 1, TermStep(x, i, j, L))
  }

  /** The constant polynomial 1 the product starts from. */
  function One(): (p: seq<real>)
    ensures |p| == MaxDegree && p[0] == 1.0
    ensures forall k :: 0 < k < MaxDegree ==> p[k] == 0.0
  {
    Zeros(MaxDegree)[0 := 1.0]
  }

  /** buildLagrangeTerm: the coefficient buffer of basis polynomial i. Whatever
      the threshold trims, no coefficient above index |x| - 1 is non-zero. */
  function BuildLagrangeTerm(i: nat, x: seq<real>): (L: seq<real>)
    requires Distinct(x) && i < |x| <= MaxDegree
    ensures |L| == MaxDegree
    ensures forall k :: |x| - 1 < k < MaxDegree ==> L[k] == 0.0
  {
    TermLoop(x, i, 0, One())
  }

  /** The degree rescan of buildLagrangeTerm never drops a coefficient: the
      partial product rescanned before multiplying by the factor of node m
      (every m < |x| other than i) has its leading coefficient above the
      1e-10 threshold. The finished product is never rescanned, so its
      leading coefficient is unconstrained. */
  predicate Untrimmed(x: seq<real>, i: nat)
    requires Distinct(x) && i < |x|
  {
    forall m :: 0 <= m < |x| && m != i ==> Significant(LeadAt(x, i, m))
  }

  predicate UntrimmedAll(x: seq<real>)
    requires Distinct(x)
  {
    forall i :: 0 <= i < |x| ==> Untrimmed(x, i)
  }

  /** With two nodes the only rescanned product is the constant 1, so nothing
      is ever trimmed, however far apart the nodes lie. */
  lemma TwoNodesUntrimmed(x: seq<real>)
    requires Distinct(x) && |x| == 2
    ensures UntrimmedAll(x)
  {
    assert LeadAt(x, 0, 1) == 1.0 by { assert LeadAt(x, 0, 0) == 1.0; }
    assert LeadAt(x, 1, 0) == 1.0;
  }

  /** A buffer whose entries above f are 0 and whose entry f is significant
      has effective degree f. */
  lemma DegreeOfTop(L: seq<real>, f: nat)
    requires f < |L| == MaxDegree
    requires forall k :: f < k < MaxDegree ==> L[k] == 0.0
    requires Significant(L[f])
    ensures GetPolyDegree(L, MaxDegree - 1) == f
  {
    var d := GetPolyDegree(L, MaxDegree - 1);
    assert d == f;
  }

  /** The untrimmed loop invariant of buildLagrangeTerm after the first j
      nodes, at the point t: nothing above the factor count, the product of
      reciprocal denominators on top, and the basis product as value. */
  predicate TermInvariant(x: seq<real>, i: nat, j: nat, L: seq<real>, t: real)
    requires Distinct(x) && i < |x| <= MaxDegree && j <= |x|
  {
    && |L| == MaxDegree
    && (forall k :: Factors(i, j) < k < MaxDegree ==> L[k] == 0.0)
    && L[Factors(i, j)] == LeadAt(x, i, j)
    && Eval(L, t) == BasisAt(x, i, j, t)
  }

  /** Multiplying by the linear term of node j != i: the product gains the
      factor for node j in its value and 1 / (x_i - x_j) in its leading
      coefficient. */
  lemma LinearStep(x: seq<real>, i: nat, j: nat, L: seq<real>, f: nat, r: seq<real>, t: real)
    requires Distinct(x) && i < |x| <= MaxDegree && j < |x| && j != i
    requires |L| == MaxDegree && f + 1 < MaxDegree
    requires forall k :: f < k < |L| ==> L[k] == 0.0
    requires r == MultiplyPoly(L, f, LinearTerm(x, i, j), 1)
    requires L[f] == LeadAt(x, i, j) && Eval(L, t) == BasisAt(x, i, j, t)
    ensures r[f + 1] == LeadAt(x, i, j + 1)
    ensures Eval(r, t) == BasisAt(x, i, j + 1, t)
  {
    LinearTermValue(x, i, j, t);
    FactorStep(x, i, j, t);
    MultiplyLinearLead(L, f, LinearTerm(x, i, j), r, LeadAt(x, i, j), Recip(x, i, j));
    MultiplyLinearEval(L, f, LinearTerm(x, i, j), r, t, BasisAt(x, i, j, t), Factor(x, i, j, t));
  }

  /** A pass of the loop whose own rescan keeps the top entry keeps the
      invariant: the rescan finds exactly the factor count, so nothing is
      dropped. */
  lemma TermStepKeeps(x: seq<real>, i: nat, j: nat, L: seq<real>, t: real)
    requires Distinct(x) && i < |x| <= MaxDegree && j < |x| && j != i
    requires Significant(LeadAt(x, i, j)) && TermInvariant(x, i, j, L, t)
    ensures TermInvariant(x, i, j + 1, TermStep(x, i, j, L), t)
  {
    var f := Factors(i, j);
    assert f + 1 == Factors(i, j + 1);
    DegreeOfTop(L, f);
    LinearStep(x, i, j, L, f, TermStep(x, i, j, L), t);
  }

  lemma {:induction false} TermLoopEval(x: seq<real>, i: nat, j: nat, L: seq<real>, t: real)
    requires Distinct(x) && i < |x| <= MaxDegree && j <= |x|
    requires Untrimmed(x, i) && TermInvariant(x, i, j, L, t)
    ensures TermInvariant(x, i, |x|, TermLoop(x, i, j, L), t)
    decreases |x| - j
  {
    if j == |x| {
    } else if j == i {
      assert Factors(i, j + 1) == Factors(i, j);
      TermLoopEval(x, i, j + 1, L, t);
    } else {
      assert Significant(LeadAt(x, i, j));
      TermStepKeeps(x, i, j, L, t);
      TermLoopEval(x, i, j + 1, TermStep(x, i, j, L), t);
    }
  }

  lemma OneValue(t: real)
    ensures Eval(One(), t) == 1.0
  {
    EvalTrailingZeros(One(), 1, t);
    assert EvalTo(One(), t, 1) == 1.0 * Pow(t, 0);
  }

  /** Without trimming, basis polynomial i evaluates to the basis product
      L_i(t) at every t, and its top coefficient is the product of the
      reciprocal denominators. */
  lemma BuildLagrangeTermValue(i: nat, x: seq<real>, t: real)
    requires Distinct(x) && i < |x| <= MaxDegree && Untrimmed(x, i)
    ensures BuildLagrangeTerm(i, x)[|x| - 1] == LeadAt(x, i, |x|)
    ensures Eval(BuildLagrangeTerm(i, x), t) == BasisAt(x, i, |x|, t)
  {
    OneValue(t);
    TermLoopEval(x, i, 0, One(), t);
    assert Factors(i, |x|) == |x| - 1;
  }

  /** The basis property: L_i is 1 at x_i and 0 at every other node. */
  lemma BuildLagrangeTermDelta(i: nat, x: seq<real>, k: nat)
    requires Distinct(x) && i < |x| <= MaxDegree && k < |x| && Untrimmed(x, i)
    ensures Eval(BuildLagrangeTerm(i, x), x[k]) == (if k == i then 1.0 else 0.0)
  {
    BuildLagrangeTermValue(i, x, x[k]);
    BasisDelta(x, i, k);
  }

  /** Without trimming, basis polynomial i has degree exactly |x| - 1 by the
      scan of getPolyDegree, provided its own leading coefficient is above
      the threshold: a smaller one is kept in the buffer but not counted. */
  lemma BuildLagrangeTermDegree(i: nat, x: seq<real>)
    requires Distinct(x) && i < |x| <= MaxDegree && Untrimmed(x, i)
    requires Significant(LeadAt(x, i, |x|))
    ensures GetPolyDegree(BuildLagrangeTerm(i, x), MaxDegree - 1) == |x| - 1
  {
    BuildLagrangeTermValue(i, x, 0.0);
    DegreeOfTop(BuildLagrangeTerm(i, x), |x| - 1);
  }

  /** scaledLi: every entry of the basis buffer multiplied by y_i. */
  function Scale(p: seq<real>, c: real): (r: seq<real>)
    ensures |r| == |p|
    ensures forall k :: 0 <= k < |p| ==> r[k] == p[k] * c
  {
    seq(|p|, k requires 0 <= k < |p| => p[k] * c)
  }

  /** The loop of lagrangeInterpolation from basis polynomial i on, with acc
      the running sum. Each step adds y_i * L_i into a cleared buffer over
      indices 0..n-1. */
  function SumLoop(x: seq<real>, y: seq<real>, i: nat, acc: seq<real>): (r: seq<real>)
    requires Distinct(x) && |y| == |x| <= MaxDegree && i <= |x| && |acc| == MaxDegree
    requires forall k :: |x| <= k < MaxDegree ==> acc[k] == 0.0
    ensures |r| == MaxDegree
    ensures forall k :: |x| <= k < MaxDegree ==> r[k] == 0.0
    decreases |x| - i
  {
    if i == |x| then acc
    else
      var scaled := Scale(BuildLagrangeTerm(i, x), y[i]);
      SumLoop(x, y, i + 1, AddPoly(acc, |x| - 1, scaled, |x| - 1, Zeros(MaxDegree)))
  }

  /** lagrangeInterpolation: the interpolating polynomial's coefficient buffer;
      every coefficient above index n - 1 is 0. */
  function LagrangeInterpolation(x: seq<real>, y: seq<real>): (p: seq<real>)
    requires Distinct(x) && |y| == |x| <= MaxDegree
    ensures |p| == MaxDegree
    ensures forall k :: |x| - 1 < k < MaxDegree ==> p[k] == 0.0
  {
    SumLoop(x, y, 0, Zeros(MaxDegree))
  }

  /** One step of the summation loop adds y_i times L_i to the running sum. */
  lemma SumStepAdds(x: seq<real>, y: seq<real>, i: nat, acc: seq<real>)
    requires Distinct(x) && |y| == |x| <= MaxDegree && i < |x| && |acc| == MaxDegree
    requires forall k :: |x| <= k < MaxDegree ==> acc[k] == 0.0
    ensures AddsScaled(acc, BuildLagrangeTerm(i, x), y[i],
                       AddPoly(acc, |x| - 1, Scale(BuildLagrangeTerm(i, x), y[i]), |x| - 1, Zeros(MaxDegree)), |x|)
  {
  }

  /** One step of the summation loop adds y_i times the value of the basis
      buffer it built to the running sum's value, trimmed or not. */
  lemma SumStepValue(x: seq<real>, y: seq<real>, i: nat, acc: seq<real>, t: real)
    requires Distinct(x) && |y| == |x| <= MaxDegree && i < |x| && |acc| == MaxDegree
    requires forall k :: |x| <= k < MaxDegree ==> acc[k] == 0.0
    ensures Eval(AddPoly(acc, |x| - 1, Scale(BuildLagrangeTerm(i, x), y[i]), |x| - 1, Zeros(MaxDegree)), t)
         == Eval(acc, t) + Eval(BuildLagrangeTerm(i, x), t) * y[i]
  {
    AddScaledStepValue(acc, BuildLagrangeTerm(i, x), y[i], |x|, t);
  }

  /** Adding c times a buffer p into a cleared buffer over indices 0..n-1, as
      the summation loop does, adds c times p's value to acc's value. */
  lemma AddScaledStepValue(acc: seq<real>, p: seq<real>, c: real, n: nat, t: real)
    requires 0 < n <= MaxDegree && |acc| == |p| == MaxDegree
    requires forall k :: n <= k < MaxDegree ==> acc[k] == 0.0
    requires forall k :: n <= k < MaxDegree ==> p[k] == 0.0
    ensures Eval(AddPoly(acc, n - 1, Scale(p, c), n - 1, Zeros(MaxDegree)), t) == Eval(acc, t) + Eval(p, t) * c
  {
    var r := AddPoly(acc, n - 1, Scale(p, c), n - 1, Zeros(MaxDegree));
    assert AddsScaled(acc, p, c, r, n);
    AddScaledEval(acc, p, c, r, n, t, Eval(acc, t), Eval(p, t));
  }

  /** Without trimming of basis polynomial i, that step takes the running
      sum's value from the combination over i basis products to the one
      over i + 1. */
  lemma SumStepReference(x: seq<real>, y: seq<real>, i: nat, acc: seq<real>, t: real)
    requires Distinct(x) && |y| == |x| <= MaxDegree && i < |x| && |acc| == MaxDegree
    requires forall k :: |x| <= k < MaxDegree ==> acc[k] == 0.0
    requires Untrimmed(x, i)
    requires Eval(acc, t) == LagrangeSum(x, y, i, t)
    ensures Eval(AddPoly(acc, |x| - 1, Scale(BuildLagrangeTerm(i, x), y[i]), |x| - 1, Zeros(MaxDegree)), t)
         == LagrangeSum(x, y, i + 1, t)
  {
    var Li := BuildLagrangeTerm(i, x);
    var acc' := AddPoly(acc, |x| - 1, Scale(Li, y[i]), |x| - 1, Zeros(MaxDegree));
    SumStepAdds(x, y, i, acc);
    BuildLagrangeTermValue(i, x, t);
    LagrangeSumStep(x, y, i, t);
    AddScaledEval(acc, Li, y[i], acc', |x|, t, LagrangeSum(x, y, i, t), BasisAt(x, i, |x|, t));
  }

  lemma {:induction false} SumLoopEval(x: seq<real>, y: seq<real>, i: nat, acc: seq<real>, t: real)
    requires Distinct(x) && |y| == |x| <= MaxDegree && i <= |x| && |acc| == MaxDegree
    requires forall k :: |x| <= k < MaxDegree ==> acc[k] == 0.0
    requires UntrimmedAll(x)
    requires Eval(acc, t) == LagrangeSum(x, y, i, t)
    ensures Eval(SumLoop(x, y, i, acc), t) == LagrangeSum(x, y, |x|, t)
    decreases |x| - i
  {
    if i < |x| {
      var acc' := AddPoly(acc, |x| - 1, Scale(BuildLagrangeTerm(i, x), y[i]), |x| - 1, Zeros(MaxDegree));
      assert Untrimmed(x, i);
      SumStepReference(x, y, i, acc, t);
      SumLoopEval(x, y, i + 1, acc', t);
    }
  }

  /** Without trimming, the interpolating buffer evaluates to the Lagrange
      combination of the basis products at every t. */
  lemma LagrangeInterpolationValue(x: seq<real>, y: seq<real>, t: real)
    requires Distinct(x) && |y| == |x| <= MaxDegree && UntrimmedAll(x)
    ensures Eval(LagrangeInterpolation(x, y), t) == LagrangeSum(x, y, |x|, t)
  {
    EvalTrailingZeros(Zeros(MaxDegree), 0, t);
    SumLoopEval(x, y, 0, Zeros(MaxDegree), t);
  }

  /** Interpolation exactness: P(x_k) = y_k at every node. */
  lemma LagrangeInterpolationExact(x: seq<real>, y: seq<real>, k: nat)
    requires Distinct(x) && |y| == |x| <= MaxDegree && UntrimmedAll(x) && k < |x|
    ensures Eval(LagrangeInterpolation(x, y), x[k]) == y[k]
  {
    LagrangeInterpolationValue(x, y, x[k]);
    LagrangeSumInterpolates(x, y, k);
  }
}
