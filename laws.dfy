/**
 * Laws of the complete-number algebra that relate several operations:
 * absorption followed by recovery, scaling round trips, the agreement between
 * a component view and the whole number, and what the rendered terms denote.
 */
module CompleteNumberLaws {
  import opened CompleteNumbers

  // ---------------------------------------------------------------------------
  // Absorption and recovery
  // ---------------------------------------------------------------------------

  /** `(x * 0) / 0` succeeds and gives back the real and imaginary parts, with empty absorbed slots. */
  lemma RecoveryRoundTrip(x: CompleteNumber)
    ensures Mul(x, Scalar(0.0)).Ok?
    ensures Div(Mul(x, Scalar(0.0)).value, Scalar(0.0)) == Ok(CompleteNumber(x.re, x.im))
  {
  }

  /**
   * Absorption overwrites: the result of `x * 0` depends only on the real and
   * imaginary parts of `x`, never on what it had absorbed before.
   */
  lemma AbsorptionOverwrites(x: CompleteNumber, y: CompleteNumber)
    requires x.re == y.re && x.im == y.im
    ensures Mul(x, Scalar(0.0)) == Mul(y, Scalar(0.0))
  {
  }

  /** Absorbing twice loses everything: `(x * 0) * 0` is the all-zero number. */
  lemma DoubleAbsorptionErases(x: CompleteNumber)
    ensures Mul(x, Scalar(0.0)).Ok?
    ensures Mul(Mul(x, Scalar(0.0)).value, Scalar(0.0)) == Ok(Zero)
  {
  }

  /** Recovery undoes absorption only once: `(x * 0) * 0 / 0` is zero, not `x`. */
  lemma RecoveryAfterDoubleAbsorption(x: CompleteNumber)
    ensures Mul(x, Scalar(0.0)).Ok? && Mul(Mul(x, Scalar(0.0)).value, Scalar(0.0)).Ok?
    ensures Div(Mul(Mul(x, Scalar(0.0)).value, Scalar(0.0)).value, Scalar(0.0)) == Ok(Zero)
  {
  }

  // ---------------------------------------------------------------------------
  // Scaling by a non-zero scalar
  // ---------------------------------------------------------------------------

  /**
   * `(x / s) * s` gives back the real and imaginary parts of `x`; the absorbed
   * parts are divided by `s` and then dropped by the multiplication.
   */
  lemma DivThenMul(x: CompleteNumber, s: real)
    requires s != 0.0
    ensures Div(x, Scalar(s)).Ok? && Mul(Div(x, Scalar(s)).value, Scalar(s)).Ok?
    ensures Mul(Div(x, Scalar(s)).value, Scalar(s)) == Ok(CompleteNumber(x.re, x.im))
  {
    var q := Div(x, Scalar(s)).value;
    var m := Mul(q, Scalar(s)).value;
    assert m.re == q.re * s == (x.re / s) * s == x.re;
    assert m.im == q.im * s == (x.im / s) * s == x.im;
    assert m.uRe == 0.0 && m.uIm == 0.0;
    assert m == CompleteNumber(x.re, x.im);
  }

  /** So `(x / s) * s == x` holds exactly for the numbers with nothing absorbed. */
  lemma ScalingIdentityIff(x: CompleteNumber, s: real)
    requires s != 0.0
    ensures Div(x, Scalar(s)).Ok?
    ensures Mul(Div(x, Scalar(s)).value, Scalar(s)) == Ok(x) <==> x.uRe == 0.0 && x.uIm == 0.0
  {
    DivThenMul(x, s);

  }

  /** `(x * s) / s` gives back the real and imaginary parts of `x` with empty absorbed slots. */
  lemma MulThenDiv(x: CompleteNumber, s: real)
    requires s != 0.0
    ensures Mul(x, Scalar(s)).Ok?
    ensures Div(Mul(x, Scalar(s)).value, Scalar(s)) == Ok(CompleteNumber(x.re, x.im))
  {
    var p := Mul(x, Scalar(s)).value;
    var d := Div(p, Scalar(s)).value;
    assert d.re == p.re / s == (x.re * s) / s == x.re;
    assert d.im == p.im / s == (x.im * s) / s == x.im;
    assert d.uRe == 0.0 / s == 0.0 && d.uIm == 0.0 / s == 0.0;
  }

  /** Multiplication by a scalar commutes: `s * x == x * s`, by zero and otherwise. */
  lemma MulCommutes(x: CompleteNumber, s: real)
    ensures RMul(Scalar(s), x) == Mul(x, Scalar(s))
    ensures RMul(Scalar(0.0), x) == Ok(CompleteNumber(0.0, 0.0, x.re, x.im))
  {
  }

  /** Neither operator accepts a non-scalar operand. */
  lemma NonScalarNotImplemented(x: CompleteNumber)
    ensures Mul(x, NonScalar) == NotImplemented
    ensures RMul(NonScalar, x) == NotImplemented
    ensures Div(x, NonScalar) == NotImplemented
  {
  }

  // ---------------------------------------------------------------------------
  // Component views against the whole number
  // ---------------------------------------------------------------------------

  /**
   * `x.real * s` agrees with the real slot of `x * s`: by zero the marker holds
   * what `x * 0` absorbs into u_real, otherwise the plain number is the real
   * part of `x * s`. Likewise for `x.imag` and u_imag.
   */
  lemma ComponentMulAgreesWithWhole(x: CompleteNumber, s: real)
    ensures Mul(x, Scalar(s)).Ok?
    ensures s == 0.0 ==> ComponentMul(RealPart(x), s) == Absorbed(Mul(x, Scalar(s)).value.uRe, Real)
    ensures s == 0.0 ==> ComponentMul(ImagPart(x), s) == Absorbed(Mul(x, Scalar(s)).value.uIm, Imag)
    ensures s != 0.0 ==> ComponentMul(RealPart(x), s) == Plain(Mul(x, Scalar(s)).value.re)
    ensures s != 0.0 ==> ComponentMul(ImagPart(x), s) == Plain(Mul(x, Scalar(s)).value.im)
  {
  }

  /** `x.real / s` and `x.imag / s` agree with the fields of `x / s` for non-zero `s`. */
  lemma ComponentDivAgreesWithWhole(x: CompleteNumber, s: real)
    requires s != 0.0
    ensures Div(x, Scalar(s)).Ok?
    ensures ComponentDiv(RealPart(x), s) == Ok(Div(x, Scalar(s)).value.re)
    ensures ComponentDiv(ImagPart(x), s) == Ok(Div(x, Scalar(s)).value.im)
  {
  }

  /**
   * Only the whole number recovers across zero: a number holding only
   * absorbed parts divides by zero, while its components never do.
   */
  lemma DivisionByZeroAsymmetry(x: CompleteNumber)
    requires OnlyAbsorbed(x)
    ensures Div(x, Scalar(0.0)).Ok?
    ensures ComponentDiv(RealPart(x), 0.0) == DivByZero
    ensures ComponentDiv(ImagPart(x), 0.0) == DivByZero
  {
  }

  /**
   * The marker from `x.real * 0` renders as the u term that `x * 0` renders,
   * when that term is present; likewise `x.imag * 0` and the uj term.
   */
  lemma MarkerIsRenderedTerm(x: CompleteNumber)
    ensures Mul(x, Scalar(0.0)).Ok?
    ensures x.re != 0.0 ==> ProductTerm(ComponentMul(RealPart(x), 0.0)) in Terms(Mul(x, Scalar(0.0)).value)
    ensures x.im != 0.0 ==> ProductTerm(ComponentMul(ImagPart(x), 0.0)) in Terms(Mul(x, Scalar(0.0)).value)
  {
  }

  // ---------------------------------------------------------------------------
  // What the rendered terms denote
  // ---------------------------------------------------------------------------

  /** Field-wise sum of two complete numbers. */
  function Sum(a: CompleteNumber, b: CompleteNumber): (r: CompleteNumber)
    ensures forall k :: Field(r, k) == Field(a, k) + Field(b, k)
  {
    CompleteNumber(a.re + b.re, a.im + b.im, a.uRe + b.uRe, a.uIm + b.uIm)
  }

  /** The number a single term stands for: its value in its own slot. */
  function Place(t: Term): (r: CompleteNumber)
    ensures forall k :: Field(r, k) == if k == t.kind then t.value else 0.0
  {
    match t.kind
    case RealTerm => CompleteNumber(t.value, 0.0, 0.0, 0.0)
    case ImagTerm => CompleteNumber(0.0, t.value, 0.0, 0.0)
    case AbsorbedRealTerm => CompleteNumber(0.0, 0.0, t.value, 0.0)
    case AbsorbedImagTerm => CompleteNumber(0.0, 0.0, 0.0, t.value)
  }

  /** The number a rendered sum of terms stands for. */
  function Denote(ts: seq<Term>): CompleteNumber {
    if ts == [] then Zero else Sum(Place(ts[0]), Denote(ts[1..]))
  }

  /** Denoting a concatenation adds what the parts denote. */
  lemma {:induction false} DenoteAppend(a: seq<Term>, b: seq<Term>)
    ensures Denote(a + b) == Sum(Denote(a), Denote(b))
  {
    if a == [] {
      assert a + b == b;
    } else {
      assert (a + b)[0] == a[0];
      assert (a + b)[1..] == a[1..] + b;
      DenoteAppend(a[1..], b);
    }
  }

  /** A conditional singleton denotes its term whenever it drops only a zero term. */
  lemma DenoteWhen(c: bool, t: Term)
    requires c || t.value == 0.0
    ensures Denote(When(c, t)) == Place(t)
  {
  }

  /** Denoting four concatenated parts adds what the parts denote. */
  lemma DenoteAppend4(a: seq<Term>, b: seq<Term>, c: seq<Term>, d: seq<Term>)
    ensures Denote(a + b + c + d) == Sum(Sum(Sum(Denote(a), Denote(b)), Denote(c)), Denote(d))
  {
    DenoteAppend(a + b + c, d);
    DenoteAppend(a + b, c);
    DenoteAppend(a, b);
  }

  /** A number is the sum of its four fields, each placed in its own slot. */
  lemma SumOfPlaces(x: CompleteNumber)
    ensures Sum(Sum(Sum(Place(Term(x.re, RealTerm)), Place(Term(x.im, ImagTerm))),
                    Place(Term(x.uRe, AbsorbedRealTerm))), Place(Term(x.uIm, AbsorbedImagTerm))) == x
  {
  }

  /**
   * Rendering shows the whole number: the terms `__repr__` selects add up to
   * exactly `x`, so no non-zero field is left out and nothing is shown twice.
   */
  lemma RenderDenotes(x: CompleteNumber)
    ensures Denote(Terms(x)) == x
  {
    var forced := x.im == 0.0 && x.uRe == 0.0 && x.uIm == 0.0;
    var a := When(x.re != 0.0 || forced, Term(x.re, RealTerm));
    var b := When(x.im != 0.0, Term(x.im, ImagTerm));
    var c := When(x.uRe != 0.0, Term(x.uRe, AbsorbedRealTerm));
    var d := When(x.uIm != 0.0, Term(x.uIm, AbsorbedImagTerm));
    assert Terms(x) == a + b + c + d;
    DenoteAppend4(a, b, c, d);
    DenoteWhen(x.re != 0.0 || forced, Term(x.re, RealTerm));
    DenoteWhen(x.im != 0.0, Term(x.im, ImagTerm));
    DenoteWhen(x.uRe != 0.0, Term(x.uRe, AbsorbedRealTerm));
    DenoteWhen(x.uIm != 0.0, Term(x.uIm, AbsorbedImagTerm));
    SumOfPlaces(x);
  }

  /** Hence two numbers with the same rendered terms are the same number. */
  lemma RenderInjective(x: CompleteNumber, y: CompleteNumber)
    requires Terms(x) == Terms(y)
    ensures x == y
  {
    RenderDenotes(x);
    RenderDenotes(y);
  }

  // ---------------------------------------------------------------------------
  // The worked scenarios of the source's demonstrations
  // ---------------------------------------------------------------------------

  /** `3 + 4j`, its absorbed form `3u + 4uj`, and zero render as the expected terms. */
  lemma RenderingScenarios()
    ensures Terms(CompleteNumber(3.0, 4.0)) == [Term(3.0, RealTerm), Term(4.0, ImagTerm)]
    ensures Mul(CompleteNumber(3.0, 4.0), Scalar(0.0)) == Ok(CompleteNumber(0.0, 0.0, 3.0, 4.0))
    ensures Terms(CompleteNumber(0.0, 0.0, 3.0, 4.0)) == [Term(3.0, AbsorbedRealTerm), Term(4.0, AbsorbedImagTerm)]
    ensures Terms(Zero) == [Term(0.0, RealTerm)]
    ensures ProductTerm(ComponentMul(RealPart(CompleteNumber(3.0, 4.0)), 0.0)) == Term(3.0, AbsorbedRealTerm)
    ensures ProductTerm(ComponentMul(ImagPart(CompleteNumber(3.0, 4.0)), 0.0)) == Term(4.0, AbsorbedImagTerm)
  {
  }

  /**
   * The vanishing-summation walk-through: 5 and 3 absorbed by zero, their
   * absorbed parts added field by field to 8u, and 8 recovered by dividing by zero.
   */
  lemma VanishingSummation()
    ensures Mul(CompleteNumber(5.0, 0.0), Scalar(0.0)).Ok?
    ensures Mul(CompleteNumber(3.0, 0.0), Scalar(0.0)).Ok?
    ensures Sum(Mul(CompleteNumber(5.0, 0.0), Scalar(0.0)).value,
                Mul(CompleteNumber(3.0, 0.0), Scalar(0.0)).value) == CompleteNumber(0.0, 0.0, 8.0, 0.0)
    ensures Terms(CompleteNumber(0.0, 0.0, 8.0, 0.0)) == [Term(8.0, AbsorbedRealTerm)]
    ensures Div(CompleteNumber(0.0, 0.0, 8.0, 0.0), Scalar(0.0)) == Ok(CompleteNumber(8.0, 0.0))
  {
  }
}
