# VoydWalkr util: the `Rate` / `SerRate` bridge

The `util` crate of the VoydWalkr suite gives the suite one type for rates,
`Rate`. It is an alias of `num_rational::Rational64`, an exact rational that is
always held in lowest terms with a positive denominator. Beside it sits
`SerRate`, a serialisable "bean": a plain pair of `i64` fields, `numer` and
`denom`. `SerRate` is never reduced, and equality on it is field by field.
The crate converts between the two in both directions. It also renders a
`SerRate` as text, in the form `"<numer>/<denom>"`.

The model has these modules:

- `Util` (`util.dfy`) holds the crate itself. It has `SerRate` and
  `SerRate::new`, the two `From` conversions and the `String` form. It also
  has the lemmas that relate them.
- `Rational` (`rational.dfy`) is an abstract model of the library constructor
  `Rational64::new`. This is the normalising constructor the bridge relies on.
  A `Ratio` datatype holds the raw pair. The subset type `Rational64` holds the
  pairs with `denom > 0` and `gcd(|numer|, denom) == 1`. `New` follows the
  library's reduction: it rejects a zero denominator and keeps the shortcuts
  for a zero numerator and for equal parts. It divides both parts by their gcd,
  then negates both parts when the denominator is negative.
- `Divisibility` (`divisibility.dfy`) has Euclid's gcd and the divisibility
  facts the proofs need: common divisors divide the gcd, the gcd scales, and
  reduced fractions are unique. It also has the parity facts about `2^63`.
- `Decimal` (`decimal.dfy`) renders an integer in base 10 the way Rust's
  `format!("{}")` does. `DigitsValue` and `DecimalValue` say which number a
  text denotes.
- `Int64` (`int64.dfy`) has the `i64` newtype. `Wrappers` (`wrappers.dfy`) has
  `Result`.

Rust panics in two places. The model returns them as error values instead:

- A zero denominator becomes `ZeroDenominator`.
- `NegationOverflow` covers one more case. Suppose the denominator is still
  negative after reduction, and one part is `i64::MIN`. Then making the
  denominator positive has to negate `i64::MIN`, which overflows. A debug build
  panics there. The model proves that this happens exactly when the
  denominator is negative, one part is `i64::MIN` and the other part is odd.
  With a positive denominator nothing is negated, so `(i64::MIN, 3)` is kept
  as it is.

`SerRate::new` checks nothing, so `SerRate::new(5, 0)` is accepted
(`crates/util/src/lib.rs:16-18`). A zero denominator becomes an error only in
`From<SerRate> for Rate`, where `Rational64::new` panics
(`crates/util/src/lib.rs:23`); the model returns `Err(ZeroDenominator)`.

## Model

| member | source | states |
|---|---|---|
| `Util.NewSerRate` | crates/util/src/lib.rs:15-18 | the pair stores both arguments exactly as given: no reduction and no sign change |
| `Util.RateFromSerRate` | crates/util/src/lib.rs:21-25 | it fails with `ZeroDenominator` exactly when `denom == 0`, and with `NegationOverflow` exactly in the `i64::MIN` case; on success the result is a reduced rate with a positive denominator and the same cross products as the pair |
| `Util.SerRateFromRate` | crates/util/src/lib.rs:26-30 | it is total and copies `numer()` and `denom()` unchanged, so its result is always in lowest terms with a positive denominator |
| `Util.StringFromSerRate` | crates/util/src/lib.rs:31-35 | the text is the literal `numer` as a canonical decimal (no leading zero, no `-0`), then `/`, then the literal `denom` as a canonical decimal, with no reduction and no sign change |
| `Util.RenderingUnique` | crates/util/src/lib.rs:33 | only one text writes a given pair that way, so the contract of `StringFromSerRate` fixes its result completely |
| `Util.RateRoundTrip` | crates/util/src/lib.rs:21-30 | every `Rate` sent to `SerRate` and back comes back equal to itself |
| `Util.SerRateRoundTrip` | crates/util/src/lib.rs:21-30 | a `SerRate` survives the trip through `Rate` if and only if it is already in lowest terms with a positive denominator |
| `Util.RateFromSerRateCanonical` | crates/util/src/lib.rs:21-24 | whenever the conversion succeeds, its result is the one `Rate` equal in value to the pair, and no other `Rate` is |
| `Util.SameRateIffSameValue` | crates/util/src/lib.rs:21-24 | two convertible pairs give the same `Rate` if and only if their cross products agree |
| `Util.StructuralEquality` | crates/util/src/lib.rs:10 | `SerRate` equality compares fields: `(1, 2)` and `(2, 4)` differ as `SerRate` values, yet they convert to the same `Rate` |
| `Util.RateFromExamples` | crates/util/src/lib.rs:42-45 | the crate's test: `Rate::new(42, 2)` becomes `SerRate(21, 1)`, `SerRate(42, 2)` becomes `Rate::new(21, 1)`, and `SerRate::new(42, 2)` stays `(42, 2)` |
| `Util.ZeroDenominatorRejected` | crates/util/src/lib.rs:23 | `SerRate::new(n, 0)` is accepted, and converting it to `Rate` gives `ZeroDenominator`, never a value |
| `Util.StringFromSerRateInjective` | crates/util/src/lib.rs:31-34 | the text form is lossless: different pairs render differently, so it neither reduces nor moves the sign |
| `Util.StringExamples` | crates/util/src/lib.rs:33 | `(-3, 4)` renders as `"-3/4"`, `(3, -4)` as `"3/-4"` and `(42, 2)` as `"42/2"` |
| `Rational.New` | crates/util/src/lib.rs:23 | the model of `Rational64::new`: its error conditions are exact, and any result it returns is normalised and has the same cross products as the input |
| `Rational.NewReduces` | crates/util/src/lib.rs:23 | on success, the magnitudes of the parts are the input magnitudes divided by their gcd, and the numerator is negative exactly when the input parts have opposite signs |
| `Rational.NewCanonical` | crates/util/src/lib.rs:23 | a successful `Rational64::new` returns the unique normalised value equal to `numer / denom` |
| `Rational.NewOfNormalised` | crates/util/src/lib.rs:23 | a pair that is already normalised is returned unchanged |
| `Rational.NormalisedUnique` | crates/util/src/lib.rs:6 | two normalised rates with equal cross products are the same rate |
| `Divisibility.Gcd` | crates/util/src/lib.rs:23 | the gcd is zero only for `(0, 0)`, and otherwise divides both arguments |
| `Divisibility.GcdGreatest` | crates/util/src/lib.rs:23 | every common divisor divides the gcd |
| `Divisibility.ReducedCoprime` | crates/util/src/lib.rs:23 | dividing both parts by their gcd leaves coprime parts |
| `Divisibility.CoprimeCrossEqual` | crates/util/src/lib.rs:23 | two reduced fractions with positive denominators and equal cross products are equal |
| `Divisibility.CoprimePow2` | crates/util/src/lib.rs:23 | `2^k` (with `k >= 1`) and a positive `x` are coprime exactly when `x` is odd; this locates the `i64::MIN` overflow |
| `Decimal.NatToDecimal` | crates/util/src/lib.rs:33 | the rendering is a non-empty string of digits with no leading zero unless the number is zero |
| `Decimal.IntToDecimal` | crates/util/src/lib.rs:33 | the `Display` of an integer is a canonical decimal with no `/`, and it starts with `-` exactly when the number is negative |
| `Decimal.CanonicalDecimalUnique` | crates/util/src/lib.rs:33 | two canonical decimal texts denoting the same integer are the same text |
| `Decimal.DigitsRoundTrip` | crates/util/src/lib.rs:33 | a digit string without leading zeros is exactly the rendering of the number it denotes |
| `Decimal.IntToDecimalValue` | crates/util/src/lib.rs:33 | the text `format!("{}")` writes for an integer denotes exactly that integer |
| `Decimal.IntToDecimalInjective` | crates/util/src/lib.rs:33 | different integers are rendered differently |

## Left out

- The `Serialize`, `Deserialize` and `JsonSchema` derives are serde and schemars framework code. The model only fixes the record shape: two `i64` fields, `numer` and `denom`.
- The `Copy`, `Clone` and `Debug` derives carry no semantics. `PartialEq` is Dafny's structural equality on the `SerRate` datatype.
- Rational arithmetic (addition, comparison and so on) lives in `num_rational` and is not used by the bridge.
- Rational.New: a debug build panics when it negates `i64::MIN`, and the model follows that as `NegationOverflow`. In a release build the negation wraps around instead, which is not modelled. When the numerator is `i64::MIN` (and the denominator negative and odd), the result has a positive denominator but the wrong sign: `(MIN, -1)` becomes `(MIN, 1)`. When the denominator is `i64::MIN` (and the numerator odd), the result keeps the negative denominator `i64::MIN`.
- Rational.New: the library computes the gcd with the binary (Stein) algorithm. The model uses Euclid's algorithm on absolute values, which gives the same number.
- Panics are modelled as `Err` results. Unwinding, and the panic message, are not modelled.
- The `Rate` alias is modelled only as the normalised `Rational64` values, with read access to `numer()` and `denom()`.
