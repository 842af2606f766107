/** printPolynomial as a token stream: which terms appear, in what order,
    with which sign and which prefix. The six-decimal rendering of a
    magnitude is left abstract (a Num token carries the value itself), so
    the stream can be read back and compared with the buffer it came from. */
module PrintPoly {
  import opened Poly

  datatype Option<T> = None | Some(value: T)

  /** One piece of the printed text after "P(x) = ". */
  datatype Token =
    | Neg              // "-" in front of a negative first term
    | Plus             // " + " in front of a later non-negative term
    | Minus            // " - " in front of a later negative term
    | Num(mag: real)   // a magnitude, printed with %.6f
    | X                // "x"
    | XPow(power: nat) // "x^i" for i >= 2
    | ZeroLit          // the "0" printed when no term was

  /** A signed coefficient together with its power, as read off the text. */
  datatype Term = Term(coeff: real, power: nat)

  /** A coefficient the printer shows: its magnitude is not below the threshold.
      The degree scan keeps only magnitudes strictly above it, so at exactly
      1e-10 the two disagree. */
  predicate Shown(c: real) {
    !(Abs(c) < Eps)
  }

  predicate IsSeparator(t: Token) {
    t == Plus || t == Minus
  }

  /** The unsigned text of |c| x^i: the bare number for i = 0, the bare
      variable when the magnitude is exactly 1, otherwise both. */
  function Monomial(mag: real, i: nat): (m: seq<Token>)
    ensures 1 <= |m| <= 2 && ZeroLit !in m
    ensures !IsSeparator(m[0]) && m[0] != Neg
  {
    if i == 0 then [Num(mag)]
    else if mag == 1.0 then [if i == 1 then X else XPow(i)]
    else [Num(mag), if i == 1 then X else XPow(i)]
  }

  /** The sign in front of a term: only "-" (or nothing) before the first one,
      " + " or " - " before every later one. */
  function SignOf(first: bool, c: real): (s: seq<Token>)
    ensures |s| <= 1 && forall t :: t in s ==> t == Neg || IsSeparator(t)
    ensures (Neg in s || Minus in s) <==> c < 0.0
    ensures first <==> !(Plus in s || Minus in s)
  {
    if first then (if c < 0.0 then [Neg] else [])
    else if c >= 0.0 then [Plus] else [Minus]
  }

  /** The printing loop from index i down to 0; `first` stays set until a term
      has been printed, and a "0" closes the text when it never was cleared. */
  function PrintFrom(poly: seq<real>, i: int, first: bool): (out: seq<Token>)
    requires i < |poly|
    ensures first ==> |out| > 0 && !IsSeparator(out[0])
    ensures !first ==> out == [] || IsSeparator(out[0])
    decreases i + 1
  {
    if i < 0 then (if first then [ZeroLit] else [])
    else if Abs(poly[i]) < Eps then PrintFrom(poly, i - 1, first)
    else SignOf(first, poly[i]) + Monomial(Abs(poly[i]), i) + PrintFrom(poly, i - 1, false)
  }

  /** printPolynomial(poly, degree): the text is never empty and never opens
      with a " + " or " - " separator. */
  function PrintPolynomial(poly: seq<real>, degree: int): (out: seq<Token>)
    requires degree < |poly|
    ensures |out| > 0 && !IsSeparator(out[0])
  {
    PrintFrom(poly, degree, true)
  }

  /** The terms that reach the text from index i down, highest power first. */
  function ShownTerms(poly: seq<real>, i: int): (ts: seq<Term>)
    requires i < |poly|
    ensures forall k :: 0 <= k < |ts| ==> ts[k].power <= i
    decreases i + 1
  {
    if i < 0 then []
    else if Abs(poly[i]) < Eps then ShownTerms(poly, i - 1)
    else [Term(poly[i], i)] + ShownTerms(poly, i - 1)
  }

  /** A monomial read back: magnitude, power and the number of tokens it took. */
  datatype Mono = Mono(mag: real, power: nat, used: nat)

  function ReadMonomial(ts: seq<Token>): (m: Option<Mono>)
    ensures m.Some? ==> 1 <= m.value.used <= |ts|
  {
    if |ts| == 0 then None
    else match ts[0]
      case Num(v) =>
        if |ts| > 1 && ts[1] == X then Some(Mono(v, 1, 2))
        else if |ts| > 1 && ts[1].XPow? then Some(Mono(v, ts[1].power, 2))
        else Some(Mono(v, 0, 1))
      case X => Some(Mono(1.0, 1, 1))
      case XPow(k) => Some(Mono(1.0, k, 1))
      case _ => None
  }

  /** Reads the terms after the first: each one behind its separator. */
  function ReadRest(ts: seq<Token>): Option<seq<Term>>
    decreases |ts|
  {
    if ts == [] then Some([])
    else if IsSeparator(ts[0]) then ReadTerm(ts[1..], ts[0] == Minus)
    else None
  }

  /** Reads one term whose sign is already known, then the rest. */
  function ReadTerm(ts: seq<Token>, negative: bool): Option<seq<Term>>
    decreases |ts|
  {
    match ReadMonomial(ts)
    case None => None
    case Some(m) =>
      match ReadRest(ts[m.used..])
      case None => None
      case Some(tail) => Some([Term(if negative then -m.mag else m.mag, m.power)] + tail)
  }

  /** Reads printed text back into its terms; a lone "0" has none. */
  function Decode(ts: seq<Token>): Option<seq<Term>> {
    if |ts| == 1 && ts[0] == ZeroLit then Some([])
    else if |ts| > 0 && ts[0] == Neg then ReadTerm(ts[1..], true)
    else ReadTerm(ts, false)
  }

  /** One printed term reads back as its signed coefficient and power, as long
      as what follows it is empty or opens with a separator. */
  lemma ReadShownTerm(c: real, i: nat, rest: seq<Token>, tail: seq<Term>)
    requires rest == [] || IsSeparator(rest[0])
    requires ReadRest(rest) == Some(tail)
    ensures ReadTerm(Monomial(Abs(c), i) + rest, c < 0.0) == Some([Term(c, i)] + tail)
  {
    var m := Monomial(Abs(c), i);
    var ts := m + rest;
    assert ts[|m|..] == rest;
    assert ReadMonomial(ts) == Some(Mono(Abs(c), i, |m|));
  }

  /** A shown coefficient behind its separator reads back, given that the
      text after it does. */
  lemma ReadRestStep(poly: seq<real>, i: nat)
    requires i < |poly| && !(Abs(poly[i]) < Eps)
    requires ReadRest(PrintFrom(poly, i - 1, false)) == Some(ShownTerms(poly, i - 1))
    ensures ReadRest(PrintFrom(poly, i, false)) == Some(ShownTerms(poly, i))
  {
    var c := poly[i];
    var rest := PrintFrom(poly, i - 1, false);
    var body := Monomial(Abs(c), i) + rest;
    var ts := PrintFrom(poly, i, false);
    ReadShownTerm(c, i, rest, ShownTerms(poly, i - 1));
    PrintFromShown(poly, i, false);
    assert ts[1..] == body;
  }

  /** Every term after the first reads back from its separator on. */
  lemma {:induction false} ReadRestRoundTrip(poly: seq<real>, i: int)
    requires i < |poly|
    ensures ReadRest(PrintFrom(poly, i, false)) == Some(ShownTerms(poly, i))
    decreases i + 1
  {
    if i >= 0 {
      ReadRestRoundTrip(poly, i - 1);
      if !(Abs(poly[i]) < Eps) {
        ReadRestStep(poly, i);
      }
    }
  }

  /** The printed text from a shown coefficient: its sign, its monomial, then
      the later terms. */
  lemma PrintFromShown(poly: seq<real>, i: nat, first: bool)
    requires i < |poly| && !(Abs(poly[i]) < Eps)
    ensures PrintFrom(poly, i, first)
         == SignOf(first, poly[i]) + (Monomial(Abs(poly[i]), i) + PrintFrom(poly, i - 1, false))
  {
    var sign := SignOf(first, poly[i]);
    var m := Monomial(Abs(poly[i]), i);
    assert sign + m + PrintFrom(poly, i - 1, false) == sign + (m + PrintFrom(poly, i - 1, false));
  }

  /** A first term, with its sign, reads back as its signed coefficient and
      power, as long as what follows it is empty or opens with a separator. */
  lemma ReadFirstTerm(c: real, i: nat, rest: seq<Token>, tail: seq<Term>)
    requires rest == [] || IsSeparator(rest[0])
    requires ReadRest(rest) == Some(tail)
    ensures Decode(SignOf(true, c) + (Monomial(Abs(c), i) + rest)) == Some([Term(c, i)] + tail)
  {
    var body := Monomial(Abs(c), i) + rest;
    ReadShownTerm(c, i, rest, tail);
    if c < 0.0 {
      assert ([Neg] + body)[1..] == body;
    } else {
      assert SignOf(true, c) + body == body;
    }
  }

  /** The first shown coefficient reads back with its sign, given that the
      text after it does. */
  lemma DecodeStep(poly: seq<real>, i: nat)
    requires i < |poly| && !(Abs(poly[i]) < Eps)
    requires ReadRest(PrintFrom(poly, i - 1, false)) == Some(ShownTerms(poly, i - 1))
    ensures Decode(PrintFrom(poly, i, true)) == Some(ShownTerms(poly, i))
  {
    PrintFromShown(poly, i, true);
    ReadFirstTerm(poly[i], i, PrintFrom(poly, i - 1, false), ShownTerms(poly, i - 1));
  }

  /** Round trip: reading the printed text gives back exactly the shown terms,
      with their signs, highest power first. */
  lemma {:induction false} PrintDecodeRoundTrip(poly: seq<real>, degree: int)
    requires degree < |poly|
    ensures Decode(PrintPolynomial(poly, degree)) == Some(ShownTerms(poly, degree))
    decreases degree + 1
  {
    if degree >= 0 {
      if Abs(poly[degree]) < Eps {
        PrintDecodeRoundTrip(poly, degree - 1);
      } else {
        ReadRestRoundTrip(poly, degree - 1);
        DecodeStep(poly, degree);
      }
    }
  }

  /** The shown terms are exactly the coefficients at or below index i that
      are not below the threshold, each at its own power, in strictly
      descending order of power. */
  lemma {:induction false} ShownTermsExact(poly: seq<real>, i: int)
    requires i < |poly|
    ensures forall t :: t in ShownTerms(poly, i) <==>
      0 <= t.power <= i && Shown(poly[t.power]) && t.coeff == poly[t.power]
    ensures forall a, b :: 0 <= a < b < |ShownTerms(poly, i)| ==>
      ShownTerms(poly, i)[a].power > ShownTerms(poly, i)[b].power
    decreases i + 1
  {
    if i >= 0 {
      ShownTermsExact(poly, i - 1);
    }
  }

  /** The "0" appears exactly when every coefficient from the degree down has
      magnitude below the threshold, and then it is the whole text. */
  lemma {:induction false} PrintsZeroExactly(poly: seq<real>, i: int, first: bool)
    requires i < |poly|
    ensures ZeroLit in PrintFrom(poly, i, first) <==>
      first && forall k :: 0 <= k <= i ==> Abs(poly[k]) < Eps
    ensures (first && forall k :: 0 <= k <= i ==> Abs(poly[k]) < Eps) ==>
      PrintFrom(poly, i, first) == [ZeroLit]
    decreases i + 1
  {
    if i >= 0 {
      PrintsZeroExactly(poly, i - 1, first);
      if !(Abs(poly[i]) < Eps) {
        PrintsZeroExactly(poly, i - 1, false);
        var out := PrintFrom(poly, i, first);
        var head := SignOf(first, poly[i]) + Monomial(Abs(poly[i]), i);
        assert ZeroLit !in head;
        assert out == head + PrintFrom(poly, i - 1, false);
      }
    }
  }

  /** printPolynomial prints "0" exactly when no coefficient up to the degree
      reaches the threshold. */
  lemma PrintPolynomialZero(poly: seq<real>, degree: int)
    requires degree < |poly|
    ensures ZeroLit in PrintPolynomial(poly, degree) <==>
      forall k :: 0 <= k <= degree ==> Abs(poly[k]) < Eps
    ensures PrintPolynomial(poly, degree) == [ZeroLit] <==>
      forall k :: 0 <= k <= degree ==> Abs(poly[k]) < Eps
  {
    PrintsZeroExactly(poly, degree, true);
  }

  /** The output for -x^2 + 0.5x - 3: "-x^2 + 0.500000x - 3.000000". */
  lemma PrintExample()
    ensures PrintPolynomial([-3.0, 0.5, -1.0], 2) == [Neg, XPow(2), Plus, Num(0.5), X, Minus, Num(3.0)]
  {
    assert PrintFrom([-3.0, 0.5, -1.0], -1, false) == [];
  }
}
