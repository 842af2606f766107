/** Dense coefficient-vector polynomials as the interpolation program keeps
    them: index k of a buffer holds the coefficient of x^k, and every buffer
    has MaxDegree entries. Arithmetic is over exact reals. */
module Poly {

  /** Capacity of every polynomial buffer (MAX_DEGREE). */
  const MaxDegree: nat := 60

  /** The magnitude threshold 1e-10 below which a coefficient counts as zero. */
  const Eps: real := 0.0000000001

  function Abs(v: real): real {
    if v < 0.0 then -v else v
  }

  /** A coefficient the degree scan keeps: strictly above the threshold. */
  predicate Significant(c: real) {
    Abs(c) > Eps
  }

  function Zeros(n: nat): (z: seq<real>)
    ensures |z| == n
    ensures forall k :: 0 <= k < n ==> z[k] == 0.0
  {
    seq(n, _ => 0.0)
  }

  lemma ZeroTimes(x: real, y: real)
    requires x == 0.0
    ensures x * y == 0.0 && y * x == 0.0
  {
  }

  function Pow(v: real, e: nat): real {
    if e == 0 then 1.0 else Pow(v, e - 1) * v
  }

  /** Power-sum evaluation of the first n coefficients: the sum of p[k] * v^k over k < n. */
  function EvalTo(p: seq<real>, v: real, n: nat): real
    requires n <= |p|
  {
    if n == 0 then 0.0 else EvalTo(p, v, n - 1) + p[n - 1] * Pow(v, n - 1)
  }

  lemma EvalToStep(p: seq<real>, v: real, n: nat)
    requires 0 < n <= |p|
    ensures EvalTo(p, v, n) == EvalTo(p, v, n - 1) + p[n - 1] * Pow(v, n - 1)
  {
  }

  /** Power-sum evaluation of a whole coefficient vector. */
  function Eval(p: seq<real>, v: real): real {
    EvalTo(p, v, |p|)
  }

  /** Coefficients that are exactly zero from index m on do not change the value. */
  lemma {:induction false} EvalZeroTail(p: seq<real>, m: nat, n: nat, v: real)
    requires m <= n <= |p|
    requires forall k :: m <= k < n ==> p[k] == 0.0
    ensures EvalTo(p, v, n) == EvalTo(p, v, m)
  {
    if n > m {
      EvalZeroTail(p, m, n - 1, v);
    }
  }

  /** A buffer whose entries from index m on are zero evaluates like its first m entries. */
  lemma EvalTrailingZeros(p: seq<real>, m: nat, v: real)
    requires m <= |p|
    requires forall k :: m <= k < |p| ==> p[k] == 0.0
    ensures Eval(p, v) == EvalTo(p, v, m)
  {
    EvalZeroTail(p, m, |p|, v);
  }

  /** r holds acc + c * p on the first n entries; all three are zero from n on. */
  predicate AddsScaled(acc: seq<real>, p: seq<real>, c: real, r: seq<real>, n: nat) {
    && |acc| == |p| == |r| && n <= |r|
    && (forall k :: n <= k < |acc| ==> acc[k] == 0.0)
    && (forall k :: n <= k < |p| ==> p[k] == 0.0)
    && (forall k :: n <= k < |r| ==> r[k] == 0.0)
    && (forall k :: 0 <= k < n ==> r[k] == acc[k] + p[k] * c)
  }

  /** The arithmetic of EvalAddScaledStep. Stated over plain reals so that the
      solver's nonlinear arithmetic stays within its resource budget; the
      caller binds the parameters to the model's terms. */
  lemma AddScaledAlgebra(rn: real, r1: real, an: real, a1: real, pn: real, p1: real,
                         ak: real, pk: real, c: real, w: real)
    requires rn == r1 + (ak + pk * c) * w
    requires an == a1 + ak * w && pn == p1 + pk * w
    requires r1 == a1 + p1 * c
    ensures rn == an + pn * c
  {
    calc {
      (ak + pk * c) * w;
      ak * w + (pk * w) * c;
    }
  }

  /** The step of EvalAddScaled, on the values of the three prefixes of
      length n and n - 1: taking entry n - 1 keeps the relation. */
  lemma EvalAddScaledStep(acc: seq<real>, p: seq<real>, c: real, r: seq<real>, v: real, n: nat,
                          rn: real, r1: real, an: real, a1: real, pn: real, p1: real)
    requires 0 < n && n <= |acc| && n <= |p| && n <= |r|
    requires rn == EvalTo(r, v, n) && r1 == EvalTo(r, v, n - 1)
    requires an == EvalTo(acc, v, n) && a1 == EvalTo(acc, v, n - 1)
    requires pn == EvalTo(p, v, n) && p1 == EvalTo(p, v, n - 1)
    requires r1 == a1 + p1 * c
    requires r[n - 1] == acc[n - 1] + p[n - 1] * c
    ensures rn == an + pn * c
  {
    EvalToStep(r, v, n);
    EvalToStep(acc, v, n);
    EvalToStep(p, v, n);
    AddScaledAlgebra(rn, r1, an, a1, pn, p1, acc[n - 1], p[n - 1], c, Pow(v, n - 1));
  }

  /** Evaluation is linear: entries acc[k] + p[k] c evaluate to the value of
      acc plus c times the value of p. */
  lemma {:induction false} EvalAddScaled(acc: seq<real>, p: seq<real>, c: real, r: seq<real>, v: real, n: nat)
    requires n <= |acc| && n <= |p| && n <= |r|
    requires forall k :: 0 <= k < n ==> r[k] == acc[k] + p[k] * c
    ensures EvalTo(r, v, n) == EvalTo(acc, v, n) + EvalTo(p, v, n) * c
  {
    if n > 0 {
      EvalAddScaled(acc, p, c, r, v, n - 1);
      EvalAddScaledStep(acc, p, c, r, v, n, EvalTo(r, v, n), EvalTo(r, v, n - 1),
                        EvalTo(acc, v, n), EvalTo(acc, v, n - 1), EvalTo(p, v, n), EvalTo(p, v, n - 1));
    }
  }

  /** The value of acc + c * p is the value of acc plus c times the value of p. */
  lemma AddScaledEval(acc: seq<real>, p: seq<real>, c: real, r: seq<real>, n: nat, v: real, ea: real, ep: real)
    requires AddsScaled(acc, p, c, r, n)
    requires Eval(acc, v) == ea && Eval(p, v) == ep
    ensures Eval(r, v) == ea + ep * c
  {
    EvalAddScaled(acc, p, c, r, v, n);
    EvalTrailingZeros(r, n, v);
    EvalTrailingZeros(acc, n, v);
    EvalTrailingZeros(p, n, v);
  }

  // ---------------------------------------------------------------------------
  // multiplyPoly

  /** Entry j of b read as a polynomial of degree at most degB: 0 outside [0, degB]. */
  function CoefAt(b: seq<real>, degB: nat, j: int): real
    requires degB < |b|
  {
    if 0 <= j <= degB then b[j] else 0.0
  }

  /** The convolution coefficient: the sum over i < m of a[i] * b[k - i],
      taking only the pairs with 0 <= k - i <= degB. */
  function ConvTo(a: seq<real>, b: seq<real>, degB: nat, k: int, m: nat): real
    requires m <= |a| && degB < |b|
  {
    if m == 0 then 0.0
    else ConvTo(a, b, degB, k, m - 1)
         + a[m - 1] * CoefAt(b, degB, k - (m - 1))
  }

  /** A negative index, or one beyond m - 1 + degB, receives no product a[i] * b[k - i]. */
  lemma {:induction false} ConvVanishes(a: seq<real>, b: seq<real>, degB: nat, k: int, m: nat)
    requires m <= |a| && degB < |b|
    requires k < 0 || m + degB <= k
    ensures ConvTo(a, b, degB, k, m) == 0.0
  {
    if m > 0 {
      ConvVanishes(a, b, degB, k, m - 1);
    }
  }

  /** Inner loop of multiplyPoly: row i adds a[i] * b[j'] into acc[i + j']
      for every j' from j to degB. */
  function MulCols(a: seq<real>, i: nat, b: seq<real>, degB: nat, j: nat, acc: seq<real>): (r: seq<real>)
    requires i < |a| && degB < |b| && i + degB < |acc|
    ensures |r| == |acc|
    decreases degB + 1 - j
  {
    if j > degB then acc
    else MulCols(a, i, b, degB, j + 1, acc[i + j := acc[i + j] + a[i] * b[j]])
  }

  /** Outer loop of multiplyPoly: rows i..degA are added into acc. */
  function MulRows(a: seq<real>, degA: nat, b: seq<real>, degB: nat, i: nat, acc: seq<real>): (r: seq<real>)
    requires degA < |a| && degB < |b| && degA + degB < |acc| && i <= degA + 1
    ensures |r| == |acc|
    decreases degA + 1 - i
  {
    if i > degA then acc
    else MulRows(a, degA, b, degB, i + 1, MulCols(a, i, b, degB, 0, acc))
  }

  /** Row i from column j on adds a[i] * b[k - i] to every entry k >= i + j. */
  lemma {:induction false} MulColsCoef(a: seq<real>, i: nat, b: seq<real>, degB: nat, j: nat, acc: seq<real>, k: nat)
    requires i < |a| && degB < |b| && i + degB < |acc| && k < |acc|
    ensures MulCols(a, i, b, degB, j, acc)[k]
         == acc[k] + (if i + j <= k then a[i] * CoefAt(b, degB, k - i) else 0.0)
    decreases degB + 1 - j
  {
    if j <= degB {
      var acc' := acc[i + j := acc[i + j] + a[i] * b[j]];
      MulColsCoef(a, i, b, degB, j + 1, acc', k);
      if k == i + j {
        assert CoefAt(b, degB, k - i) == b[j];
      }
    } else if i + j <= k {
      assert CoefAt(b, degB, k - i) == 0.0;
      ZeroTimes(CoefAt(b, degB, k - i), a[i]);
    }
  }

  /** Rows i..degA add the rest of the convolution sum at every entry. */
  lemma {:induction false} MulRowsCoef(a: seq<real>, degA: nat, b: seq<real>, degB: nat, i: nat, acc: seq<real>, k: nat)
    requires degA < |a| && degB < |b| && degA + degB < |acc| && i <= degA + 1 && k < |acc|
    ensures MulRows(a, degA, b, degB, i, acc)[k]
         == acc[k] + (ConvTo(a, b, degB, k, degA + 1) - ConvTo(a, b, degB, k, i))
    decreases degA + 1 - i
  {
    if i <= degA {
      var acc' := MulCols(a, i, b, degB, 0, acc);
      MulColsCoef(a, i, b, degB, 0, acc, k);
      MulRowsCoef(a, degA, b, degB, i + 1, acc', k);
      if k < i {
        assert CoefAt(b, degB, k - i) == 0.0;
      }
    }
  }

  /** multiplyPoly: a cleared buffer of MaxDegree entries receiving the
      products a[i] * b[j]; nothing is written above degA + degB. */
  function MultiplyPoly(a: seq<real>, degA: nat, b: seq<real>, degB: nat): (r: seq<real>)
    requires degA < |a| && degB < |b| && degA + degB < MaxDegree
    ensures |r| == MaxDegree
    ensures forall k :: degA + degB < k < MaxDegree ==> r[k] == 0.0
  {
    var r := MulRows(a, degA, b, degB, 0, Zeros(MaxDegree));
    assert forall k :: degA + degB < k < MaxDegree ==> r[k] == 0.0 by {
      forall k | degA + degB < k < MaxDegree
        ensures r[k] == 0.0
      {
        MulRowsCoef(a, degA, b, degB, 0, Zeros(MaxDegree), k);
        ConvVanishes(a, b, degB, k, degA + 1);
      }
    }
    r
  }

  /** Entry k of the product is the convolution sum of a[0..degA] and b[0..degB]. */
  lemma MultiplyPolyCoef(a: seq<real>, degA: nat, b: seq<real>, degB: nat, k: nat)
    requires degA < |a| && degB < |b| && degA + degB < MaxDegree && k < MaxDegree
    ensures MultiplyPoly(a, degA, b, degB)[k] == ConvTo(a, b, degB, k, degA + 1)
  {
    MulRowsCoef(a, degA, b, degB, 0, Zeros(MaxDegree), k);
  }

  /** The example of the source comment: [1, 2] * [3, 4] = [3, 10, 8]. */
  lemma MultiplyPolyExample()
    ensures MultiplyPoly([1.0, 2.0], 1, [3.0, 4.0], 1)[..3] == [3.0, 10.0, 8.0]
  {
    var r := MultiplyPoly([1.0, 2.0], 1, [3.0, 4.0], 1);
    assert r[0] == 3.0 && r[1] == 10.0 && r[2] == 8.0;
  }

  /** The top entry of the product is the product of the top entries. */
  lemma MultiplyPolyLead(a: seq<real>, degA: nat, b: seq<real>, degB: nat)
    requires degA < |a| && degB < |b| && degA + degB < MaxDegree
    ensures MultiplyPoly(a, degA, b, degB)[degA + degB] == a[degA] * b[degB]
  {
    var k := degA + degB;
    MultiplyPolyCoef(a, degA, b, degB, k);
    ConvVanishes(a, b, degB, k, degA);
    assert CoefAt(b, degB, k - degA) == b[degB];
    assert ConvTo(a, b, degB, k, degA + 1) == ConvTo(a, b, degB, k, degA) + a[degA] * CoefAt(b, degB, k - degA);
  }

  /** Against a linear b, entry k of the product collects a[k] b[0] and a[k - 1] b[1]
      from the rows taken. */
  lemma {:induction false} ConvLinear(a: seq<real>, b: seq<real>, k: nat, m: nat)
    requires m <= |a| && 1 < |b|
    ensures ConvTo(a, b, 1, k, m)
         == (if k < m then a[k] * b[0] else 0.0) + (if 1 <= k && k - 1 < m then a[k - 1] * b[1] else 0.0)
  {
    if m > 0 {
      ConvLinear(a, b, k, m - 1);
      if k != m - 1 && k != m {
        assert CoefAt(b, 1, k - (m - 1)) == 0.0;
      }
    }
  }

  /** r holds the entries of a times b0 + b1 x, where a is zero above degA:
      a[k] b0 + a[k - 1] b1 up to degA + 1 and zero beyond. */
  predicate LinearProduct(a: seq<real>, degA: nat, r: seq<real>, b0: real, b1: real) {
    && |a| == |r| && degA + 1 < |a|
    && (forall k :: degA < k < |a| ==> a[k] == 0.0)
    && (forall k :: degA + 1 < k < |r| ==> r[k] == 0.0)
    && r[0] == a[0] * b0
    && (forall k :: 1 <= k < degA + 2 ==> r[k] == a[k] * b0 + a[k - 1] * b1)
  }

  /** Entry 0 of a product with a linear factor. */
  lemma LinearCoefFirst(a: seq<real>, degA: nat, b: seq<real>, r: seq<real>)
    requires |a| == |b| == MaxDegree && degA + 1 < MaxDegree
    requires r == MultiplyPoly(a, degA, b, 1)
    ensures r[0] == a[0] * b[0]
  {
    MultiplyPolyCoef(a, degA, b, 1, 0);
    ConvLinear(a, b, 0, degA + 1);
  }

  /** Entry k >= 1 of a product with a linear factor, when a is zero above degA. */
  lemma LinearCoefAt(a: seq<real>, degA: nat, b: seq<real>, r: seq<real>, k: nat)
    requires |a| == |b| == MaxDegree && degA + 1 < MaxDegree && a[degA + 1] == 0.0
    requires r == MultiplyPoly(a, degA, b, 1) && 1 <= k < degA + 2
    ensures r[k] == a[k] * b[0] + a[k - 1] * b[1]
  {
    MultiplyPolyCoef(a, degA, b, 1, k);
    ConvLinear(a, b, k, degA + 1);
    if k == degA + 1 {
      ZeroTimes(a[k], b[0]);
    }
  }

  /** The entries of a product with a linear factor. */
  lemma LinearCoefs(a: seq<real>, degA: nat, b: seq<real>, r: seq<real>)
    requires |a| == |b| == MaxDegree && degA + 1 < MaxDegree
    requires forall k :: degA < k < |a| ==> a[k] == 0.0
    requires r == MultiplyPoly(a, degA, b, 1)
    ensures LinearProduct(a, degA, r, b[0], b[1])
  {
    LinearCoefFirst(a, degA, b, r);
    assert a[degA + 1] == 0.0;
    forall k | 1 <= k < degA + 2
      ensures r[k] == a[k] * b[0] + a[k - 1] * b[1]
    {
      LinearCoefAt(a, degA, b, r, k);
    }
  }

  /** The arithmetic of EvalLinearStep. Stated over plain reals so that the
      solver's nonlinear arithmetic stays within its resource budget; the
      caller binds the parameters to the model's terms. */
  lemma LinearStepAlgebra(rn: real, r1: real, an: real, a1: real, a2: real, ak: real, ak1: real,
                          b0: real, b1: real, v: real, pk: real, pk1: real)
    requires rn == r1 + (ak * b0 + ak1 * b1) * pk
    requires r1 == b0 * a1 + b1 * v * a2
    requires an == a1 + ak * pk
    requires a1 == a2 + ak1 * pk1
    requires pk == pk1 * v
    ensures rn == b0 * an + b1 * v * a1
  {
    calc {
      (ak * b0 + ak1 * b1) * pk;
      b0 * (ak * pk) + b1 * v * (ak1 * pk1);
    }
  }

  /** The step of EvalLinearProduct, on the values of the prefixes involved:
      taking entry n - 1 keeps the relation. */
  lemma EvalLinearStep(a: seq<real>, r: seq<real>, b0: real, b1: real, v: real, n: nat,
                       rn: real, r1: real, an: real, a1: real, a2: real)
    requires 1 < n <= |a| && n <= |r|
    requires rn == EvalTo(r, v, n) && r1 == EvalTo(r, v, n - 1)
    requires an == EvalTo(a, v, n) && a1 == EvalTo(a, v, n - 1) && a2 == EvalTo(a, v, n - 2)
    requires r1 == b0 * a1 + b1 * v * a2
    requires r[n - 1] == a[n - 1] * b0 + a[n - 2] * b1
    ensures rn == b0 * an + b1 * v * a1
  {
    EvalToStep(r, v, n);
    EvalToStep(a, v, n);
    EvalToStep(a, v, n - 1);
    assert Pow(v, n - 1) == Pow(v, n - 2) * v;
    LinearStepAlgebra(rn, r1, an, a1, a2, a[n - 1], a[n - 2], b0, b1, v, Pow(v, n - 1), Pow(v, n - 2));
  }

  /** Entries a[k] b0 + a[k - 1] b1 evaluate to b0 times the value of a plus
      b1 v times the value of a one entry shorter. */
  lemma {:induction false} EvalLinearProduct(a: seq<real>, r: seq<real>, b0: real, b1: real, v: real, n: nat)
    requires 0 < n <= |a| && n <= |r|
    requires r[0] == a[0] * b0
    requires forall k :: 1 <= k < n ==> r[k] == a[k] * b0 + a[k - 1] * b1
    ensures EvalTo(r, v, n) == b0 * EvalTo(a, v, n) + b1 * v * EvalTo(a, v, n - 1)
  {
    if n == 1 {
      assert EvalTo(r, v, 1) == r[0] * Pow(v, 0);
      assert EvalTo(a, v, 1) == a[0] * Pow(v, 0);
    } else {
      EvalLinearProduct(a, r, b0, b1, v, n - 1);
      EvalLinearStep(a, r, b0, b1, v, n, EvalTo(r, v, n), EvalTo(r, v, n - 1),
                     EvalTo(a, v, n), EvalTo(a, v, n - 1), EvalTo(a, v, n - 2));
    }
  }

  /** A linear factor evaluates to b[0] + b[1] v. */
  lemma LinearValue(b: seq<real>, v: real)
    requires 1 < |b|
    ensures EvalTo(b, v, 2) == b[0] + b[1] * v
  {
    assert Pow(v, 1) == v;
    assert EvalTo(b, v, 1) == b[0];
  }

  /** The arithmetic of LinearProductEval. Stated over plain reals so that the
      solver's nonlinear arithmetic stays within its resource budget; the
      caller binds the parameters to the model's terms. */
  lemma ProductAlgebra(er: real, e2: real, e1: real, va: real, b0: real, b1: real, v: real, vb: real)
    requires er == b0 * e2 + b1 * v * e1
    requires e2 == e1 && e1 == va
    requires vb == b0 + b1 * v
    ensures er == va * vb
  {
  }

  /** Entries a[k] b0 + a[k - 1] b1 of a buffer r evaluate to the value of a times
      b0 + b1 v, when a is zero above degA and r above degA + 1. */
  lemma LinearProductEval(a: seq<real>, degA: nat, r: seq<real>, b0: real, b1: real, v: real, va: real, vb: real)
    requires LinearProduct(a, degA, r, b0, b1)
    requires Eval(a, v) == va && vb == b0 + b1 * v
    ensures Eval(r, v) == va * vb
  {
    EvalLinearProduct(a, r, b0, b1, v, degA + 2);
    EvalTrailingZeros(r, degA + 2, v);
    EvalTrailingZeros(a, degA + 1, v);
    EvalZeroTail(a, degA + 1, degA + 2, v);
    ProductAlgebra(Eval(r, v), EvalTo(a, v, degA + 2), EvalTo(a, v, degA + 1), va, b0, b1, v, vb);
  }

  /** Multiplying a polynomial whose entries above degA are zero by a linear
      one multiplies the values ... */
  lemma MultiplyLinearEval(a: seq<real>, degA: nat, b: seq<real>, r: seq<real>, v: real, va: real, vb: real)
    requires |a| == |b| == MaxDegree && degA + 1 < MaxDegree
    requires forall k :: degA < k < |a| ==> a[k] == 0.0
    requires Eval(a, v) == va && EvalTo(b, v, 2) == vb
    requires r == MultiplyPoly(a, degA, b, 1)
    ensures Eval(r, v) == va * vb
  {
    LinearCoefs(a, degA, b, r);
    LinearValue(b, v);
    LinearProductEval(a, degA, r, b[0], b[1], v, va, vb);
  }

  /** ... and puts the product of the two tops one index higher. */
  lemma MultiplyLinearLead(a: seq<real>, degA: nat, b: seq<real>, r: seq<real>, la: real, lb: real)
    requires |a| == |b| == MaxDegree && degA + 1 < MaxDegree
    requires a[degA] == la && b[1] == lb
    requires r == MultiplyPoly(a, degA, b, 1)
    ensures r[degA + 1] == la * lb
  {
    MultiplyPolyLead(a, degA, b, 1);
  }

  // ---------------------------------------------------------------------------
  // addPoly

  /** Number of leading entries addPoly writes: indices up to max(degA, degB),
      never reaching MaxDegree. */
  function AddReach(degA: int, degB: int): nat {
    var top := if degA > degB then degA else degB;
    if top < 0 then 0 else if top + 1 > MaxDegree then MaxDegree else top + 1
  }

  function AddFrom(a: seq<real>, b: seq<real>, reach: nat, i: nat, acc: seq<real>): (r: seq<real>)
    requires reach <= |a| && reach <= |b| && reach <= |acc| && i <= reach
    ensures |r| == |acc|
    ensures forall k :: 0 <= k < |r| ==> r[k] == (if i <= k < reach then a[k] + b[k] else acc[k])
    decreases reach - i
  {
    if i == reach then acc else AddFrom(a, b, reach, i + 1, acc[i := a[i] + b[i]])
  }

  /** addPoly: entry k of the result buffer becomes a[k] + b[k] for every
      k <= max(degA, degB) with k < MaxDegree; all other entries keep the
      value the buffer had. */
  function AddPoly(a: seq<real>, degA: int, b: seq<real>, degB: int, result: seq<real>): (r: seq<real>)
    requires AddReach(degA, degB) <= |a| && AddReach(degA, degB) <= |b| && AddReach(degA, degB) <= |result|
    ensures |r| == |result|
    ensures forall k :: 0 <= k < |r| && k <= degA && k < MaxDegree ==> r[k] == a[k] + b[k]
    ensures forall k :: 0 <= k < |r| && k <= degB && k < MaxDegree ==> r[k] == a[k] + b[k]
    ensures forall k :: 0 <= k < |r| && k > degA && k > degB ==> r[k] == result[k]
    ensures forall k :: MaxDegree <= k < |r| ==> r[k] == result[k]
  {
    AddFrom(a, b, AddReach(degA, degB), 0, result)
  }

  // ---------------------------------------------------------------------------
  // getPolyDegree

  /** getPolyDegree: scanning down from maxDegree, the first index whose
      coefficient is significant, or 0 when there is none. */
  function GetPolyDegree(poly: seq<real>, maxDegree: int): (d: nat)
    requires maxDegree < |poly|
    ensures 0 <= maxDegree ==> d <= maxDegree
    ensures maxDegree < 0 ==> d == 0
    ensures d > 0 ==> Significant(poly[d])
    ensures forall k :: d < k <= maxDegree ==> !Significant(poly[k])
    decreases maxDegree + 1
  {
    if maxDegree < 0 then 0
    else if Significant(poly[maxDegree]) then maxDegree
    else GetPolyDegree(poly, maxDegree - 1)
  }

  /** The value a read of index i yields on a buffer that is |poly| entries
      long: `beyond` stands for whatever lies in memory past its end. */
  function BufferRead(poly: seq<real>, i: int, beyond: real): real {
    if 0 <= i < |poly| then poly[i] else beyond
  }

  /** The degree scan as buildLagrangeTerm issues it, starting at index
      MaxDegree of a MaxDegree-entry buffer, so that its first read falls
      one past the end. */
  function GetPolyDegreeAsWritten(poly: seq<real>, maxDegree: int, beyond: real): (d: nat)
    ensures 0 <= maxDegree ==> d <= maxDegree
    ensures d > 0 ==> Significant(BufferRead(poly, d, beyond))
    ensures forall k :: d < k <= maxDegree ==> !Significant(BufferRead(poly, k, beyond))
    decreases maxDegree + 1
  {
    if maxDegree < 0 then 0
    else if Significant(BufferRead(poly, maxDegree, beyond)) then maxDegree
    else GetPolyDegreeAsWritten(poly, maxDegree - 1, beyond)
  }

  /** On the all-zero buffer, whatever non-negligible value lies past the end
      makes the as-written scan report degree MaxDegree, an index the buffer
      does not have; the bounded scan reports 0. */
  lemma AsWrittenScanLeavesBuffer()
    ensures GetPolyDegreeAsWritten(Zeros(MaxDegree), MaxDegree, 1.0) == MaxDegree == |Zeros(MaxDegree)|
    ensures GetPolyDegree(Zeros(MaxDegree), MaxDegree - 1) == 0
  {
    var z := Zeros(MaxDegree);
    var d := GetPolyDegree(z, MaxDegree - 1);
    assert !Significant(z[d]);
  }
}
