# Sodium protocol loan arithmetic in Dafny

This project models the fixed-point loan arithmetic of the Sodium lending
protocol, `helpers/maths.js`. It has two formulas:

- `calculateInterestAndFee` gives the interest owed to lenders and the protocol fee on outstanding principal.
  Elapsed time is first truncated to whole hours.
  The base interest is `principal * APR * hours-in-seconds / (86400 * 365 * 10000)`.
  The base fee is `baseInterest * feeNumerator / feeDenominator`.
  The result is `interest = baseInterest - baseFee` and `fee = baseFee + baseFee`.
  The doubled fee is reproduced exactly as written.
- `calculatePartialPayment` takes a payment `available`.
  It computes in closed form the largest principal reduction whose exact charge over the untruncated duration fits that payment.
  It then recomputes the interest and fee on that reduction.

Amounts are `ethers.BigNumber` values, which have arbitrary precision. They are modelled as Dafny `nat`.
Every division truncates. For non-negative operands, truncation and Dafny's `/` agree.
`interest` is an `int` because it can go negative when `feeNumerator > feeDenominator`.

Files:
- `arith.dfy` (module `Arith`): facts about multiplication and truncating division on naturals.
- `maths.dfy` (module `Maths`): the constants, the result datatypes `Accrual` and `PartialPayment`, and the two formulas.
  `CalculatePartialPayment` copies the source's inline recomputation, including the literal `315360000000`.
  Its agreement with `CalculateInterestAndFee` is therefore a proved fact, not a definition.
- `maths_properties.dfy` (module `MathsProperties`): the properties of the two formulas.
  It also holds two reference definitions.
  `TickedInterest` credits interest one whole hour at a time, truncating each hourly tick on its own.
  `FitsUntruncated` says that a principal plus its exact interest and fee over the untruncated duration fits a payment.

The reduction at helpers/maths.js:54 is computed before `duration` is truncated at lines 57-59.
So the reduction's denominator uses the untruncated `duration`, while the recomputed interest uses the hour-truncated duration.
As a result, the reduction is the largest one only for the exact charge over the untruncated duration (`PartialPaymentMaximal`).
Under the charge actually recomputed, the payment can be under-used (`TruncatedChargeLeavesSlack`).

## Model

| member | source | states |
|---|---|---|
| `Maths.HourTicks` | helpers/maths.js:11-14 | the effective duration is a multiple of 3600, at most the elapsed time, and less than one hour short of it |
| `Maths.BaseInterest` | helpers/maths.js:16-19 | base interest is the exact pro-rata interest `principal * APR * truncatedDuration / 315360000000` rounded down (floor bounds) |
| `Maths.BaseFee` | helpers/maths.js:21-22 | base fee is `baseInterest * feeNumerator / feeDenominator` rounded down (floor bounds); requires a non-zero denominator |
| `Maths.CalculateInterestAndFee` | helpers/maths.js:4-30 | the fee is even; interest plus half the fee is the base interest; less than one hour elapsed gives `(0, 0)` |
| `Maths.CalculatePartialPayment` | helpers/maths.js:33-73 | the interest and fee returned equal `CalculateInterestAndFee` applied to the returned reduction |
| `MathsProperties.HourTicksMonotone` | helpers/maths.js:12-14 | a longer elapsed time never has fewer whole hours |
| `MathsProperties.SameHourSameAccrual` | helpers/maths.js:11-19 | any two durations in the same hour window accrue identical interest and fee |
| `MathsProperties.BaseInterestVersusHourlyTicks` | helpers/maths.js:11-19 | truncating once at the end credits at least as much as truncating every hourly tick (`TickedInterest`), and less than one unit more per whole hour elapsed |
| `MathsProperties.InterestFeeSplit` | helpers/maths.js:22-27 | `interest + baseFee == baseInterest`, `fee == 2 * baseFee`, and `interest + fee == baseInterest + baseFee` |
| `MathsProperties.BaseFeeWithinInterest` | helpers/maths.js:21-22 | with `feeNumerator <= feeDenominator` the base fee never exceeds the base interest |
| `MathsProperties.InterestNonNegative` | helpers/maths.js:22-27 | with `feeNumerator <= feeDenominator` the net interest is non-negative and the fee is at most twice the base interest |
| `MathsProperties.BaseInterestMonotone` | helpers/maths.js:12-19 | base interest is non-decreasing in principal, APR and duration (across hour boundaries) |
| `MathsProperties.NetInterestMonotone` | helpers/maths.js:22-25 | with a fee fraction at most one, net interest is non-decreasing in the base interest |
| `MathsProperties.AccrualMonotone` | helpers/maths.js:12-27 | the fee is non-decreasing in principal, APR and duration; so is the interest when `feeNumerator <= feeDenominator` |
| `MathsProperties.PartialPaymentMaximal` | helpers/maths.js:40-54 | any x fits the payment under the exact untruncated charge (principal + interest + fee scaled by `feeDenominator * 315360000000`) if and only if x is at most the reduction |
| `MathsProperties.FitsWithinAvailable` | helpers/maths.js:40-45 | any principal whose exact untruncated charge fits the payment is at most the payment |
| `MathsProperties.PartialPaymentWithinAvailable` | helpers/maths.js:41-54 | the reduction never exceeds the payment |
| `MathsProperties.PartialPaymentFits` | helpers/maths.js:40-70 | reduction plus the recomputed interest plus the recomputed fee never exceeds the payment |
| `MathsProperties.FitsUntruncatedWeaken` | helpers/maths.js:45-52 | a principal that fits still fits with a larger payment, a lower APR or a shorter duration |
| `MathsProperties.PartialPaymentMonotone` | helpers/maths.js:41-54 | the reduction is non-decreasing in the payment and non-increasing in APR and duration |
| `MathsProperties.TruncatedChargeLeavesSlack` | helpers/maths.js:45-64 | with 3599 s elapsed, a payment of 100 retires 99 although nothing accrues, so the reduction is not maximal for the hour-truncated charge |
| `MathsProperties.ReductionNotMaximalForTruncatedCharge` | helpers/maths.js:40-64 | some payment leaves room for a principal larger than the computed reduction within the hour-truncated charge |
| `MathsProperties.DefaultFeeExamples` | helpers/maths.js:11-29 | worked values with the default 5/100 fee: 10 units at 500 bps for a day accrue `(0, 0)`; 10·10^18 units accrue `(1301369863013699, 136986301369862)` |

## Left out

- Division by zero: `BigNumber.div` throws when a divisor is zero. Both formulas always divide by `feeDenominator`, so `feeDenominator > 0` is a precondition rather than a modelled exception.
- Negative inputs: amounts, APR, durations and fee terms are on-chain unsigned integers, modelled as `nat`. Negative `BigNumber` arguments and their truncation toward zero are not modelled.
- `helpers/lending.js`: EIP-712 typed-data signing of meta-contributions, signature splitting, keccak256 of ABI-encoded tuples and asynchronous contract calls. These are foreign cryptographic and blockchain calls whose behaviour is not visible here.
- `helpers/requesting.js`: loan-id derivation (keccak256 of an ABI encoding) and token minting and transfer against deployed contracts.
- `helpers/scenarios.js`: test orchestration that chains requests, contributions and time increases. It has no arithmetic of its own.
- `helpers/tokens.js`, `helpers/deploy.js`, `helpers/wallet.js`, `hardhat.config.js`: token minting and approval, contract deployment, event queries, permission grants and network configuration. All of this is blockchain I/O or configuration.
- The loan ledger, nonce store and lifecycle state machine are Solidity contracts, which are not part of this model.
