# Short-position fees of the Hyperdrive math crate

This project models the fee formulas a Hyperdrive pool charges on short
positions, from `crates/hyperdrive-math/src/short/fees.rs`:

- the **open-short curve fee** `phi_curve * (1 - p) * dy`, on the short amount `dy` at a spot price `p`;
- the **open-short governance fee**, the governance LP fee rate times that curve fee;
- the **close-short curve fee** `phi_curve * (1 - p) * (dy * t / c)`, in shares, where `t` is the normalized time remaining and `c` the vault share price;
- the **close-short flat fee** `(dy * (1 - t) / c) * phi_flat`, in shares.

Every value is an 18-decimal fixed-point number. In the model it is a `nat`
standing for `x / 10^18` (`FixedPointMath.ONE` is `10^18`). The fixed-point
`*` is `MulDown(a, b) = a * b / 10^18`, `mul_div_down` is
`MulDivDown(a, b, c) = a * b / c`, and both round down. The fixed-point `-`
fails on underflow, so `Sub(a, b)` requires `b <= a`. The source panics
rather than returning an error on underflow and on a zero divisor, so those
conditions are modelled as preconditions: the spot price at most one, the
time remaining at most one for the flat fee, and a positive vault share price.

The `State` readings the formulas consult are the fields of
`ShortFees.FeeState`: `curve_fee()`, `flat_fee()`, `governance_lp_fee()`,
`get_spot_price()` and `vault_share_price()`. The value of
`calculate_normalized_time_remaining(maturity_time, current_time)` is the
parameter `timeRemaining` of the two close-short fees. As in the source,
`open_short_curve_fee` takes its spot price as an argument and ignores the
pool's own spot price. The close-short curve fee has no `1 - t` term, so it
places no bound on `timeRemaining`.

Every fee rounds down, so a trader pays at most the exact value of the
formula. The protocol's stated rounding policy is to favour the pool, which
for a fee the trader pays would mean rounding up. These functions round
down, and the model follows the code.

## Model

| member | source | states |
|---|---|---|
| `FixedPointMath.Sub` | crates/hyperdrive-math/src/short/fees.rs:14 | fixed-point `a - b` (used as `1e18 - p` and `1e18 - t`): defined only when `b <= a`; the result plus `b` is `a` |
| `FixedPointMath.MulDown` | crates/hyperdrive-math/src/short/fees.rs:14 | fixed-point `*` rounds down: the result is the largest `r` with `r * 1e18 <= a * b` |
| `FixedPointMath.MulDivDown` | crates/hyperdrive-math/src/short/fees.rs:40 | `mul_div_down` rounds down: the result is the largest `r` with `r * c <= a * b`; needs `c > 0` |
| `FixedPointMath.MulDownMonotone` | crates/hyperdrive-math/src/short/fees.rs:14 | the rounded-down product never decreases when either operand grows |
| `FixedPointMath.MulDivDownMonotone` | crates/hyperdrive-math/src/short/fees.rs:40 | `mul_div_down` never decreases when a factor grows or the divisor shrinks |
| `FixedPointMath.MulDownByFraction` | crates/hyperdrive-math/src/short/fees.rs:23 | multiplying by a fixed-point rate of at most one never increases a value |
| `ShortFees.OpenShortCurveFee` | crates/hyperdrive-math/src/short/fees.rs:9-15 | defined when the spot price is at most one; zero when the spot price is one, the curve fee rate is zero or the short amount is zero |
| `ShortFees.OpenShortGovernanceFee` | crates/hyperdrive-math/src/short/fees.rs:18-24 | at most the governance rate times the open-short curve fee; never more than that curve fee when the rate is at most one; zero when the rate or the curve fee is zero |
| `ShortFees.CloseShortCurveFee` | crates/hyperdrive-math/src/short/fees.rs:28-41 | defined when the spot price is at most one and the vault share price is positive; zero when no time remains (at or after maturity), and zero when the spot price is one, the curve fee rate is zero or the bond amount is zero |
| `ShortFees.CloseShortFlatFee` | crates/hyperdrive-math/src/short/fees.rs:45-58 | defined when the time remaining is at most one and the vault share price is positive; zero when the whole term remains, the flat fee rate is zero or the bond amount is zero |
| `ShortFees.MulDownTwiceBounds` | crates/hyperdrive-math/src/short/fees.rs:14 | for `r = MulDown(MulDown(a, b), x)`: `r * 1e36 <= a * b * x < (r + 1) * 1e36 + x * 1e18`, the bounds on the open-short curve fee's left-to-right rounding |
| `ShortFees.OpenShortCurveFeeRoundsDown` | crates/hyperdrive-math/src/short/fees.rs:14 | the open-short curve fee is at most `(1 - p) * phi_curve * dy` computed exactly, and below it by less than `1 + dy / 1e18` units |
| `ShortFees.CloseShortCurveFeeRoundsDown` | crates/hyperdrive-math/src/short/fees.rs:37-40 | the close-short curve fee is at most `((1 - p) * phi_curve * dy * t) / c` computed exactly |
| `ShortFees.CloseShortFlatFeeRoundsDown` | crates/hyperdrive-math/src/short/fees.rs:53-57 | the close-short flat fee is at most `(dy * (1 - t) * phi_flat) / c` computed exactly |
| `ShortFees.OpenShortCurveFeeMonotone` | crates/hyperdrive-math/src/short/fees.rs:9-15 | the open-short curve fee is non-decreasing in the curve fee rate and the short amount, and non-increasing in the spot price |
| `ShortFees.OpenShortGovernanceFeeMonotone` | crates/hyperdrive-math/src/short/fees.rs:18-24 | the open-short governance fee is non-decreasing in the short amount |
| `ShortFees.CloseShortCurveFeeMonotone` | crates/hyperdrive-math/src/short/fees.rs:28-41 | the close-short curve fee is non-decreasing in the curve fee rate, the bond amount and the time remaining, and non-increasing in the spot price and the vault share price |
| `ShortFees.CloseShortFlatFeeMonotone` | crates/hyperdrive-math/src/short/fees.rs:45-58 | the close-short flat fee is non-decreasing in the flat fee rate and the bond amount, and non-increasing in the time remaining and the vault share price |
| `ShortFees.OpenShortCurveFeeAtMostAmount` | crates/hyperdrive-math/src/short/fees.rs:14 | with a curve fee rate of at most one, the open-short curve fee never exceeds the short amount |
| `ShortFees.CloseShortCurveFeeAtFullTerm` | crates/hyperdrive-math/src/short/fees.rs:38-40 | with the whole term remaining, the close-short curve fee equals the open-short curve fee, at the pool's spot price, of the share equivalent `dy / c` |
| `FixedPointMath.MulDownSplit` | crates/hyperdrive-math/src/short/fees.rs:14 | by a fixed factor, the rounded-down product of a sum is at least the sum of the rounded-down products and at most one unit more |
| `ShortFees.OpenShortCurveFeeSplit` | crates/hyperdrive-math/src/short/fees.rs:9-15 | opening a short as several pieces at one spot price pays no more curve fee in total than opening it at once, and less by fewer units than there are pieces |
| `ShortFees.CloseShortCurveFeeSplit` | crates/hyperdrive-math/src/short/fees.rs:28-41 | closing a short in two pieces with the same time remaining pays no more curve fee than closing it at once |
| `ShortFees.CloseShortFlatFeeSplit` | crates/hyperdrive-math/src/short/fees.rs:45-58 | closing a short in two pieces with the same time remaining pays no more flat fee than closing it at once |

## Left out

- `calculate_normalized_time_remaining`, `get_spot_price`, `vault_share_price`, `curve_fee`, `flat_fee` and `governance_lp_fee` are `State` methods that are not part of this model. Their results are inputs: the fields of `FeeState` and the `timeRemaining` parameter.
- 256-bit overflow: values are unbounded naturals. A product that would overflow `U256` and make the source fail is not modelled. The fixed-point library's overflow behaviour is not part of this model.
- Failures (underflow of `1e18 - x`, division by a zero vault share price) are preconditions, not error results, because the source aborts on them instead of returning an error.
- The `fixed!` macro is modelled only as the constant `ONE = 10^18`.
