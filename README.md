# Complete numbers, modelled in Dafny

A complete number is a complex number `real + imag·j` with two extra
"absorbed" slots, `u_real` and `u_imag`. Multiplying it by zero does not
destroy its real and imaginary parts: they move into the absorbed slots.
Dividing a number that holds only absorbed parts by zero moves them back. This
recovers what the multiplication hid. The `.real` and `.imag` accessors give a
component view of one field. Multiplying a component by zero gives an absorbed
marker (`3.0u`, `4.0uj`) instead of `0.0`.

The model has two files:

- `complete_numbers.dfy` (module `CompleteNumbers`) holds the value type, the
  operators, the component views and the rendering.
  - `CompleteNumber` is a datatype with four `real` fields; the absorbed
    fields default to zero, as in the Python constructor.
  - `Operand` says whether an operand is a scalar (an int or float) or
    something else, for which the operators answer `NotImplemented`.
  - `Outcome` is `Ok | DivByZero | NotImplemented`. `DivByZero` stands for
    Python's `ZeroDivisionError`.
  - `Product` is `Plain(v) | Absorbed(value, slot)`. The Python code returns a
    float or a formatted string here.
  - Rendering is modelled as the list of `(value, kind)` terms that
    `__repr__` joins with `" + "`. Each kind fixes its suffix: none, `j`, `u`
    or `uj`.
- `laws.dfy` (module `CompleteNumberLaws`) holds laws that relate several
  operations, and the meaning of the rendered terms. `Denote` adds the terms
  back up into a number, and `RenderDenotes` proves that this gives back the
  number that was rendered.

All four fields are mathematical reals. Zero tests and field placement are
exact, and IEEE-754 behaviour is not modelled (see below).

Behaviour that the code fixes and a reader might not expect:

- Multiplying by a non-zero scalar drops the absorbed parts. The two-argument
  constructor call at `src/complete_numbers.py:87` leaves them at their
  defaults. Division by a non-zero scalar, however, divides all four fields.
  So `(x / s) * s == x` holds only when nothing is absorbed
  (`ScalingIdentityIff`). The model follows the code, not a reading in which
  the absorbed parts pass through the multiplication.
- Multiplying by zero overwrites the absorbed slots; it never adds to them.
- `CompleteComponent` defines `__rtruediv__` twice. The later definition
  (lines 54-57) replaces the earlier one and answers `NotImplemented` for
  every operand. The model follows that later definition.

## Model

| member | source | states |
|---|---|---|
| `CompleteNumbers.Mul` | src/complete_numbers.py:80-88 | a scalar operand always gives a number and any other operand gives NotImplemented; multiplication never fails; by zero, real and imag become 0 and move into u_real and u_imag; by a non-zero `s`, real and imag are scaled by `s` and the absorbed parts are reset to 0 |
| `CompleteNumbers.RMul` | src/complete_numbers.py:121-122 | `s * x` is exactly `x * s` for every operand |
| `CompleteNumbers.Div` | src/complete_numbers.py:90-113 | a non-scalar operand gives NotImplemented; the result is DivByZero exactly when dividing by 0 a number whose real or imag part is non-zero; dividing by 0 a number with only absorbed parts moves u_real and u_imag back into real and imag, with empty absorbed slots; by a non-zero `s`, each of the four result fields times `s` gives back the original field |
| `CompleteNumbers.RealPart` | src/complete_numbers.py:72-74 | `.real` is the component holding the real field, tagged with the real slot |
| `CompleteNumbers.ImagPart` | src/complete_numbers.py:76-78 | `.imag` is the component holding the imag field, tagged with the imag slot |
| `CompleteNumbers.ComponentMul` | src/complete_numbers.py:25-35 | the product is an absorbed marker exactly when the factor is 0; the marker carries the component's own value and slot; any other factor gives the plain product, with the tag dropped |
| `CompleteNumbers.ComponentRMul` | src/complete_numbers.py:51-52 | `other * c` is exactly `c * other` |
| `CompleteNumbers.ComponentDiv` | src/complete_numbers.py:37-44 | dividing a component fails exactly when the divisor is 0, whatever the component's value; it never answers NotImplemented; otherwise the quotient times the divisor is the component's value |
| `CompleteNumbers.ComponentRDiv` | src/complete_numbers.py:54-57 | `other / c` is never a number and never a division by zero: the effective definition answers NotImplemented |
| `CompleteNumbers.When` | src/complete_numbers.py:126-133 | a conditionally appended term contributes its kind exactly when its condition holds |
| `CompleteNumbers.Terms` | src/complete_numbers.py:124-135 | the rendering always has between one and four terms |
| `CompleteNumbers.TermsOrdered` | src/complete_numbers.py:126-133 | the terms come in the fixed order real, imag·j, u_real·u, u_imag·uj, each kind at most once |
| `CompleteNumbers.TermsShowFields` | src/complete_numbers.py:126-133 | each term shows the current value of the field its kind names |
| `CompleteNumbers.TermsSelection` | src/complete_numbers.py:126-133 | a field is rendered exactly when it is non-zero, except that the real term is forced for the all-zero number; the all-zero number, and only it, renders as the single real term 0 |
| `CompleteNumbers.ProductTerm` | src/complete_numbers.py:27-35 | an absorbed marker renders its value with suffix `u` for the real slot and `uj` for the imag slot; a plain product renders with no suffix |
| `CompleteNumberLaws.RecoveryRoundTrip` | src/complete_numbers.py:80-104 | `(x * 0) / 0` succeeds and gives back x's real and imag parts with empty absorbed slots |
| `CompleteNumberLaws.AbsorptionOverwrites` | src/complete_numbers.py:82-84 | `x * 0` depends only on x's real and imag parts; earlier absorbed values are overwritten, not accumulated |
| `CompleteNumberLaws.DoubleAbsorptionErases` | src/complete_numbers.py:82-84 | `(x * 0) * 0` is the all-zero number |
| `CompleteNumberLaws.RecoveryAfterDoubleAbsorption` | src/complete_numbers.py:80-104 | after absorbing twice, dividing by zero recovers zero, not x |
| `CompleteNumberLaws.DivThenMul` | src/complete_numbers.py:80-112 | for a non-zero `s`, `(x / s) * s` gives back x's real and imag parts, and its absorbed parts are 0 |
| `CompleteNumberLaws.ScalingIdentityIff` | src/complete_numbers.py:80-112 | for a non-zero `s`, `(x / s) * s == x` holds if and only if x has nothing absorbed |
| `CompleteNumberLaws.MulThenDiv` | src/complete_numbers.py:80-112 | for a non-zero `s`, `(x * s) / s` gives back x's real and imag parts with empty absorbed slots |
| `CompleteNumberLaws.MulCommutes` | src/complete_numbers.py:121-122 | `s * x == x * s` for every scalar, and `0 * x` absorbs x's real and imag parts |
| `CompleteNumberLaws.NonScalarNotImplemented` | src/complete_numbers.py:80-113 | `*`, reversed `*` and `/` all answer NotImplemented to a non-scalar operand |
| `CompleteNumberLaws.ComponentMulAgreesWithWhole` | src/complete_numbers.py:25-35 | `x.real * s` and `x.imag * s` agree with `x * s`: by zero, the markers carry what `x * 0` absorbs into u_real and u_imag; otherwise, the plain products are the real and imag parts of `x * s` |
| `CompleteNumberLaws.ComponentDivAgreesWithWhole` | src/complete_numbers.py:37-44 | for a non-zero `s`, `x.real / s` and `x.imag / s` are the real and imag parts of `x / s` |
| `CompleteNumberLaws.DivisionByZeroAsymmetry` | src/complete_numbers.py:37-44 | a number with only absorbed parts can be divided by zero, but its `.real` and `.imag` components cannot |
| `CompleteNumberLaws.MarkerIsRenderedTerm` | src/complete_numbers.py:124-135 | the marker of `x.real * 0` (or `x.imag * 0`) is among the terms rendered for `x * 0` whenever that field is non-zero |
| `CompleteNumberLaws.DenoteAppend` | src/complete_numbers.py:124-135 | the terms of a concatenation add up to the sum of what each part adds up to |
| `CompleteNumberLaws.RenderDenotes` | src/complete_numbers.py:124-135 | the rendered terms add up to exactly the number rendered: no non-zero field is missing and none appears twice |
| `CompleteNumberLaws.RenderInjective` | src/complete_numbers.py:124-135 | two numbers with the same rendered terms are equal |
| `CompleteNumberLaws.RenderingScenarios` | src/complete_numbers.py:144-160 | `3 + 4j` renders as the real and j terms; `x * 0` is `3u + 4uj`; zero renders as the single real term 0; `.real * 0` and `.imag * 0` render as `3u` and `4uj` |
| `CompleteNumberLaws.VanishingSummation` | src/complete_numbers.py:226-256 | 5 and 3 absorbed by zero and added field by field give `8u`, and dividing that by zero recovers 8 |

## Left out

- Float formatting is left out: `str(float)` text such as `3.0`, the `" + "`
  join and the `" + -"` to `" - "` rewrite. They depend on the host library.
  Rendering is modelled as the list of terms and their suffixes.
- IEEE-754 semantics are left out: NaN, infinities, signed zero, rounding and
  the `float(...)` coercions in the constructors. The fields are exact reals.
- `CompleteNumber.__rtruediv__` (lines 115-119) is left out. It reads the
  attribute `_value`, which a complete number does not have, so it can only
  raise `AttributeError`.
- The first `CompleteComponent.__rtruediv__` (lines 46-49) is left out. The
  later definition replaces it, so it is never called.
- The component's `__repr__` and `__float__` (lines 59-63) are left out. They
  only convert the value to text or to a float.
- `ComponentMul`, `ComponentRMul` and `ComponentDiv` take a real operand only.
  The component methods do not check the operand's type. A non-numeric operand
  reaches Python's own operator dispatch, and that dispatch is not modelled.
- Python's dynamic dispatch details are left out: `bool` counts as an `int`,
  and `complex` operands are not int or float. The `Operand` datatype stands
  in for the `isinstance` test.
- The demonstration drivers and the `__main__` block (lines 137-269) are left
  out. They only print results. Their worked inputs appear as
  `RenderingScenarios` and `VanishingSummation`.
