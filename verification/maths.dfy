/** Fixed-point loan arithmetic of the lending protocol: the interest and
    protocol fee owed on outstanding principal, and the principal reduction
    that a partial repayment buys. All amounts are unsigned integers of
    arbitrary precision; every division truncates. */
module Maths {
  import Arith

  /** Interest accrues in ticks of one whole hour. */
  const SecondsPerHour: nat := 3600
  const SecondsPerDay: nat := 86400
  const DaysPerYear: nat := 365
  /** APR is expressed in basis points: 10000 is 100% per year. */
  const BasisPoints: nat := 10000
  /** Seconds per year times basis points, the literal the partial-payment
      formula writes out in full (equal to 86400 * 365 * 10000). */
  const YearBasisPoints: nat := 315360000000

  /** The result of an accrual: net interest owed to lenders and the protocol fee.
      The interest can be negative when the fee fraction exceeds one. */
  datatype Accrual = Accrual(interest: int, fee: nat)

  /** The result of a partial repayment: the principal it retires and the
      interest and fee charged on that principal. */
  datatype PartialPayment = PartialPayment(reduction: nat, interest: int, fee: nat)

  /** Elapsed seconds truncated down to a whole number of hours. */
  function HourTicks(duration: nat): (elapsed: nat)
    ensures elapsed % SecondsPerHour == 0
    ensures elapsed <= duration < elapsed + SecondsPerHour
  {
    SecondsPerHour * (duration / SecondsPerHour)
  }

  /** Pro-rata interest on `principal` at `apr` basis points for the whole
      hours in `duration`, truncated to an integer. */
  function BaseInterest(principal: nat, apr: nat, duration: nat): (b: nat)
    ensures b * YearBasisPoints <= principal * apr * HourTicks(duration) < (b + 1) * YearBasisPoints
  {
    Arith.DivBounds(principal * apr * HourTicks(duration), SecondsPerDay * DaysPerYear * BasisPoints);
    principal * apr * HourTicks(duration) / (SecondsPerDay * DaysPerYear * BasisPoints)
  }

  /** The fraction feeNumerator / feeDenominator of the base interest, truncated. */
  function BaseFee(baseInterest: nat, feeNumerator: nat, feeDenominator: nat): (f: nat)
    requires feeDenominator > 0
    ensures f * feeDenominator <= baseInterest * feeNumerator < (f + 1) * feeDenominator
  {
    var product := baseInterest * feeNumerator;
    Arith.DivBounds(product, feeDenominator);
    product / feeDenominator
  }

  /** Interest and fee owed on `principal` after `duration` seconds. The fee
      is the base fee added to itself, exactly as the protocol reports it. */
  function CalculateInterestAndFee(principal: nat, apr: nat, duration: nat,
                                   feeNumerator: nat, feeDenominator: nat): (r: Accrual)
    requires feeDenominator > 0
    ensures r.fee % 2 == 0
    ensures r.interest + r.fee / 2 == BaseInterest(principal, apr, duration)
    ensures duration < SecondsPerHour ==> r == Accrual(0, 0)
  {
    var baseInterest := BaseInterest(principal, apr, duration);
    var baseFee := BaseFee(baseInterest, feeNumerator, feeDenominator);
    Accrual(baseInterest - baseFee, baseFee + baseFee)
  }

  /** The largest principal reduction x whose exact, untruncated charge
      x * (1 + apr * duration / YearBasisPoints * (1 + feeNumerator / feeDenominator))
      fits in `available`, followed by the interest and fee charged on x
      over the whole hours of `duration`. The reduction is solved with the
      untruncated duration; the recomputed charge uses the truncated one. */
  function CalculatePartialPayment(available: nat, apr: nat, duration: nat,
                                   feeNumerator: nat, feeDenominator: nat): (r: PartialPayment)
    requires feeDenominator > 0
    ensures Accrual(r.interest, r.fee) == CalculateInterestAndFee(r.reduction, apr, duration, feeNumerator, feeDenominator)
  {
    var reductionNum := available * feeDenominator * YearBasisPoints;
    var reductionDenom := feeDenominator * YearBasisPoints + duration * apr * (feeNumerator + feeDenominator);
    Arith.PositiveCharge(feeDenominator, YearBasisPoints, duration, apr, feeNumerator);
    Arith.MulMonotone(0, available * feeDenominator, YearBasisPoints);
    var reduction := reductionNum / reductionDenom;
    var elapsed := SecondsPerHour * (duration / SecondsPerHour);
    assert elapsed == HourTicks(duration);
    assert SecondsPerDay * DaysPerYear * BasisPoints == YearBasisPoints;
    var baseInterest := reduction * apr * elapsed / YearBasisPoints;
    assert baseInterest == BaseInterest(reduction, apr, duration);
    var baseFee := baseInterest * feeNumerator / feeDenominator;
    assert baseFee == BaseFee(baseInterest, feeNumerator, feeDenominator);
    PartialPayment(reduction, baseInterest - baseFee, baseFee + baseFee)
  }
}
