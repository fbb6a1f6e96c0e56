/**
 * A complete number extends a complex number real + imag·j with two
 * "absorbed" slots u_real and u_imag. Multiplying by zero does not erase the
 * real and imaginary parts: it moves them into the absorbed slots, and
 * dividing a number that holds only absorbed parts by zero moves them back.
 *
 * The four fields are mathematical reals; IEEE-754 rounding, NaN, infinities
 * and signed zero are not part of this model.
 */
module CompleteNumbers {

  /** The two origins a component can have: the `'real'` or `'imag'` tag. */
  datatype Slot = Real | Imag

  /**
   * The value type. The absorbed parts default to zero, as the two-argument
   * constructor call `CompleteNumber(r, i)` leaves them.
   */
  datatype CompleteNumber = CompleteNumber(re: real, im: real, uRe: real := 0.0, uIm: real := 0.0)

  /** The number whose four fields are all zero. */
  const Zero := CompleteNumber(0.0, 0.0, 0.0, 0.0)

  /**
   * The right-hand operand of `*` and `/` on a complete number: either a plain
   * int or float, or anything else (another complete number, a complex, ...),
   * for which the operators answer NotImplemented.
   */
  datatype Operand = Scalar(s: real) | NonScalar

  /** What an operator produces: a value, a ZeroDivisionError, or NotImplemented. */
  datatype Outcome<T> = Ok(value: T) | DivByZero | NotImplemented

  // ---------------------------------------------------------------------------
  // CompleteNumber operators
  // ---------------------------------------------------------------------------

  /**
   * `x * other`. By zero, the real and imaginary parts move into the absorbed
   * slots (whatever was absorbed before is overwritten); by any other scalar
   * the real and imaginary parts scale and the absorbed parts fall back to
   * their defaults.
   */
  function Mul(x: CompleteNumber, other: Operand): (r: Outcome<CompleteNumber>)
    ensures r.Ok? <==> other.Scalar?
    ensures r != DivByZero
    ensures other == Scalar(0.0) ==> r.value.re == 0.0 && r.value.im == 0.0
    ensures other == Scalar(0.0) ==> r.value.uRe == x.re && r.value.uIm == x.im
    ensures other.Scalar? && other.s != 0.0 ==>
              r.value.uRe == 0.0 && r.value.uIm == 0.0 &&
              r.value.re == x.re * other.s && r.value.im == x.im * other.s
  {
    match other
    case NonScalar => NotImplemented
    case Scalar(s) =>
      if s == 0.0 then Ok(CompleteNumber(0.0, 0.0, x.re, x.im))
      else Ok(CompleteNumber(x.re * s, x.im * s))
  }

  /** `other * x`, which Python routes back to `x * other`. */
  function RMul(other: Operand, x: CompleteNumber): (r: Outcome<CompleteNumber>)
    ensures r == Mul(x, other)
  {
    Mul(x, other)
  }

  /** True when the real and imaginary parts are zero, so only absorbed parts may be present. */
  predicate OnlyAbsorbed(x: CompleteNumber) {
    x.re == 0.0 && x.im == 0.0
  }

  /**
   * `x / other`. By zero, a number with a non-zero real or imaginary part
   * fails; a number holding only absorbed parts is recovered: the absorbed
   * parts move back into the real and imaginary slots. By any other scalar,
   * all four fields are divided.
   */
  function Div(x: CompleteNumber, other: Operand): (r: Outcome<CompleteNumber>)
    ensures other.NonScalar? ==> r == NotImplemented
    ensures r == DivByZero <==> other == Scalar(0.0) && !OnlyAbsorbed(x)
    ensures other == Scalar(0.0) && OnlyAbsorbed(x) ==>
              r.Ok? && r.value.re == x.uRe && r.value.im == x.uIm &&
              r.value.uRe == 0.0 && r.value.uIm == 0.0
    ensures other.Scalar? && other.s != 0.0 ==>
              r.Ok? && r.value.re * other.s == x.re && r.value.im * other.s == x.im &&
              r.value.uRe * other.s == x.uRe && r.value.uIm * other.s == x.uIm
  {
    match other
    case NonScalar => NotImplemented
    case Scalar(s) =>
      if s == 0.0 then
        if x.re != 0.0 || x.im != 0.0 then DivByZero
        else Ok(CompleteNumber(x.uRe, x.uIm))
      else Ok(CompleteNumber(x.re / s, x.im / s, x.uRe / s, x.uIm / s))
  }

  // ---------------------------------------------------------------------------
  // Components: the `.real` and `.imag` views
  // ---------------------------------------------------------------------------

  /** One field of a complete number, tagged with the slot it was read from. */
  datatype Component = Component(value: real, slot: Slot)

  /** What a component times a number gives: a plain number, or an absorbed marker. */
  datatype Product = Plain(v: real) | Absorbed(value: real, slot: Slot)

  /** The `.real` accessor. */
  function RealPart(x: CompleteNumber): (c: Component)
    ensures c.slot == Real && c.value == x.re
  {
    Component(x.re, Real)
  }

  /** The `.imag` accessor. */
  function ImagPart(x: CompleteNumber): (c: Component)
    ensures c.slot == Imag && c.value == x.im
  {
    Component(x.im, Imag)
  }

  /**
   * `c * other`. By zero, the marker remembers the component's value and its
   * slot; by anything else, the plain product, with the tag dropped.
   */
  function ComponentMul(c: Component, other: real): (p: Product)
    ensures p.Absorbed? <==> other == 0.0
    ensures p.Absorbed? ==> p.value == c.value && p.slot == c.slot
    ensures p.Plain? ==> p.v == c.value * other
  {
    if other == 0.0 then Absorbed(c.value, c.slot) else Plain(c.value * other)
  }

  /** `other * c`, which Python routes back to `c * other`. */
  function ComponentRMul(other: real, c: Component): (p: Product)
    ensures p == ComponentMul(c, other)
  {
    ComponentMul(c, other)
  }

  /** `c / other`: dividing a component by zero always fails, whatever its value. */
  function ComponentDiv(c: Component, other: real): (r: Outcome<real>)
    ensures r == DivByZero <==> other == 0.0
    ensures r != NotImplemented
    ensures r.Ok? ==> r.value * other == c.value
  {
    if other == 0.0 then DivByZero else Ok(c.value / other)
  }

  /**
   * `other / c`. The effective definition is the later one in the class body,
   * which answers NotImplemented for every operand, so `other / c` is never a number.
   */
  function ComponentRDiv(other: real, c: Component): (r: Outcome<real>)
    ensures !r.Ok? && !r.DivByZero?
  {
    NotImplemented
  }

  // ---------------------------------------------------------------------------
  // Rendering, as the list of terms that `__repr__` joins with " + "
  // ---------------------------------------------------------------------------

  /** Which field a rendered term shows; the kind fixes the term's suffix. */
  datatype TermKind = RealTerm | ImagTerm | AbsorbedRealTerm | AbsorbedImagTerm

  /** One rendered term: a value followed by its kind's suffix. */
  datatype Term = Term(value: real, kind: TermKind)

  /** The text written after a term's value. */
  function Suffix(k: TermKind): string {
    match k
    case RealTerm => ""
    case ImagTerm => "j"
    case AbsorbedRealTerm => "u"
    case AbsorbedImagTerm => "uj"
  }

  /** The position of a kind in the fixed rendering order. */
  function Rank(k: TermKind): nat {
    match k
    case RealTerm => 0
    case ImagTerm => 1
    case AbsorbedRealTerm => 2
    case AbsorbedImagTerm => 3
  }

  /** The field of `x` that a term of kind `k` shows. */
  function Field(x: CompleteNumber, k: TermKind): real {
    match k
    case RealTerm => x.re
    case ImagTerm => x.im
    case AbsorbedRealTerm => x.uRe
    case AbsorbedImagTerm => x.uIm
  }

  /** Some term of `ts` has kind `k`. */
  predicate HasKind(ts: seq<Term>, k: TermKind) {
    exists i :: 0 <= i < |ts| && ts[i].kind == k
  }

  /** `[t]` when `c` holds, nothing otherwise. */
  function When(c: bool, t: Term): (ts: seq<Term>)
    ensures forall k :: HasKind(ts, k) <==> c && t.kind == k
  {
    if c then assert [t][0].kind == t.kind; [t] else []
  }

  /** A kind occurs in a concatenation exactly when it occurs in one of the parts. */
  lemma HasKindAppend(a: seq<Term>, b: seq<Term>)
    ensures forall k :: HasKind(a + b, k) <==> HasKind(a, k) || HasKind(b, k)
  {
    forall k ensures HasKind(a + b, k) <==> HasKind(a, k) || HasKind(b, k) {
      if HasKind(a + b, k) {
        var i :| 0 <= i < |a + b| && (a + b)[i].kind == k;
        if i >= |a| { assert b[i - |a|].kind == k; }
      }
      if HasKind(a, k) {
        var i :| 0 <= i < |a| && a[i].kind == k;
        assert (a + b)[i].kind == k;
      }
      if HasKind(b, k) {
        var i :| 0 <= i < |b| && b[i].kind == k;
        assert (a + b)[|a| + i].kind == k;
      }
    }
  }

  /**
   * The terms `__repr__` renders, in order real, imag·j, u_real·u, u_imag·uj:
   * only the non-zero fields, except that the real term is forced when the
   * other three are zero, so the list is never empty.
   */
  function Terms(x: CompleteNumber): (ts: seq<Term>)
    ensures 1 <= |ts| <= 4
  {
    When(x.re != 0.0 || (x.im == 0.0 && x.uRe == 0.0 && x.uIm == 0.0), Term(x.re, RealTerm))
    + When(x.im != 0.0, Term(x.im, ImagTerm))
    + When(x.uRe != 0.0, Term(x.uRe, AbsorbedRealTerm))
    + When(x.uIm != 0.0, Term(x.uIm, AbsorbedImagTerm))
  }

  /** The rendered terms appear in the fixed order, each kind at most once. */
  lemma TermsOrdered(x: CompleteNumber)
    ensures forall i, j :: 0 <= i < j < |Terms(x)| ==> Rank(Terms(x)[i].kind) < Rank(Terms(x)[j].kind)
  {
  }

  /** Every rendered term shows the current value of the field its kind names. */
  lemma TermsShowFields(x: CompleteNumber)
    ensures forall i :: 0 <= i < |Terms(x)| ==> Terms(x)[i].value == Field(x, Terms(x)[i].kind)
  {
  }

  /**
   * A field is rendered exactly when it is non-zero, except that the real
   * term is also rendered, as the only term, for the all-zero number.
   */
  lemma TermsSelection(x: CompleteNumber)
    ensures forall k :: HasKind(Terms(x), k) <==> Field(x, k) != 0.0 || (k == RealTerm && x == Zero)
    ensures x == Zero <==> Terms(x) == [Term(0.0, RealTerm)]
  {
    var forced := x.im == 0.0 && x.uRe == 0.0 && x.uIm == 0.0;
    var a := When(x.re != 0.0 || forced, Term(x.re, RealTerm));
    var b := When(x.im != 0.0, Term(x.im, ImagTerm));
    var c := When(x.uRe != 0.0, Term(x.uRe, AbsorbedRealTerm));
    var d := When(x.uIm != 0.0, Term(x.uIm, AbsorbedImagTerm));
    assert Terms(x) == a + b + c + d;
    HasKindAppend(a, b);
    HasKindAppend(a + b, c);
    HasKindAppend(a + b + c, d);
    if a + b + c + d == [Term(0.0, RealTerm)] {
      assert !HasKind(a + b + c + d, ImagTerm);
      assert !HasKind(a + b + c + d, AbsorbedRealTerm);
      assert !HasKind(a + b + c + d, AbsorbedImagTerm);
      assert b == [] && c == [] && d == [];
      assert a + b + c + d == a;
    }
  }

  /** The term an absorbed or plain component product renders as. */
  function ProductTerm(p: Product): (t: Term)
    ensures p.Absorbed? ==> t.value == p.value && Suffix(t.kind) == (if p.slot == Real then "u" else "uj")
    ensures p.Plain? ==> t.value == p.v && Suffix(t.kind) == ""
  {
    match p
    case Plain(v) => Term(v, RealTerm)
    case Absorbed(v, Real) => Term(v, AbsorbedRealTerm)
    case Absorbed(v, Imag) => Term(v, AbsorbedImagTerm)
  }
}
