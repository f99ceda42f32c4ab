/** What the interest and partial-repayment formulas promise: whole-hour
    accrual, an exact split of the base interest between lenders and the
    protocol, monotonicity, agreement of the two formulas and the fact that
    a partial repayment never charges more than the payment offered. */
module MathsProperties {
  import opened Maths
  import Arith

  // ----- Whole-hour accrual -----

  /** Truncating to whole hours preserves the order of durations. */
  lemma HourTicksMonotone(d1: nat, d2: nat)
    requires d1 <= d2
    ensures HourTicks(d1) <= HourTicks(d2)
  {
    Arith.DivMonotone(d1, d2, SecondsPerHour);
  }

  /** Two durations within the same hour window accrue the same interest and fee. */
  lemma SameHourSameAccrual(principal: nat, apr: nat, d1: nat, d2: nat,
                            feeNumerator: nat, feeDenominator: nat)
    requires feeDenominator > 0
    requires HourTicks(d1) <= d2 < HourTicks(d1) + SecondsPerHour
    ensures CalculateInterestAndFee(principal, apr, d1, feeNumerator, feeDenominator)
         == CalculateInterestAndFee(principal, apr, d2, feeNumerator, feeDenominator)
  {
    Arith.DivUnique(d2, SecondsPerHour, d1 / SecondsPerHour);
    assert HourTicks(d2) == HourTicks(d1);
  }

  /** Interest credited hour by hour, each hourly tick truncated on its own:
      every whole hour adds principal * apr * 3600 / YearBasisPoints. */
  function TickedInterest(principal: nat, apr: nat, hours: nat): (t: nat)
  {
    if hours == 0 then 0 else TickedInterest(principal, apr, hours - 1) + principal * apr * SecondsPerHour / YearBasisPoints
  }

  /** Every hourly tick credits the same truncated amount, so `hours` ticks credit `hours` times it. */
  lemma {:induction false} TickedInterestClosedForm(principal: nat, apr: nat, hours: nat)
    ensures TickedInterest(principal, apr, hours) == hours * (principal * apr * SecondsPerHour / YearBasisPoints)
  {
    if hours > 0 {
      TickedInterestClosedForm(principal, apr, hours - 1);
      var tick := principal * apr * SecondsPerHour / YearBasisPoints;
      assert hours * tick == (hours - 1) * tick + tick;
    }
  }

  /** Truncating once at the end, as the closed form does, credits at least
      as much as truncating every hourly tick, and less than one unit more
      per whole hour elapsed. */
  lemma BaseInterestVersusHourlyTicks(principal: nat, apr: nat, duration: nat)
    ensures var hours := duration / SecondsPerHour;
            && TickedInterest(principal, apr, hours) <= BaseInterest(principal, apr, duration)
            && (hours > 0 ==> BaseInterest(principal, apr, duration) < TickedInterest(principal, apr, hours) + hours)
  {
    var hours := duration / SecondsPerHour;
    var k := principal * apr * SecondsPerHour;
    TickedInterestClosedForm(principal, apr, hours);
    assert principal * apr * HourTicks(duration) == hours * k;
    Arith.FloorOfMultiple(hours, k, YearBasisPoints);
  }

  // ----- Splitting the base interest between lenders and the protocol -----

  /** The net interest and the base fee add up to the base interest exactly,
      the reported fee is twice the base fee, and so interest plus fee is the
      base interest plus one more base fee. */
  lemma InterestFeeSplit(principal: nat, apr: nat, duration: nat,
                         feeNumerator: nat, feeDenominator: nat)
    requires feeDenominator > 0
    ensures var r := CalculateInterestAndFee(principal, apr, duration, feeNumerator, feeDenominator);
            var baseInterest := BaseInterest(principal, apr, duration);
            var baseFee := BaseFee(baseInterest, feeNumerator, feeDenominator);
            && r.interest + baseFee == baseInterest
            && r.fee == 2 * baseFee
            && r.interest + r.fee == baseInterest + baseFee
  {
  }

  /** A fee fraction of at most one never takes more than the base interest. */
  lemma BaseFeeWithinInterest(baseInterest: nat, feeNumerator: nat, feeDenominator: nat)
    requires 0 < feeDenominator
    requires feeNumerator <= feeDenominator
    ensures BaseFee(baseInterest, feeNumerator, feeDenominator) <= baseInterest
  {
    var f := BaseFee(baseInterest, feeNumerator, feeDenominator);
    Arith.MulMonotone(feeNumerator, feeDenominator, baseInterest);
    assert f * feeDenominator <= baseInterest * feeDenominator;
    Arith.MulCancel(f, baseInterest, feeDenominator);
  }

  /** With a fee fraction of at most one the lenders' net interest is never
      negative and the reported fee is at most twice the base interest. */
  lemma InterestNonNegative(principal: nat, apr: nat, duration: nat,
                            feeNumerator: nat, feeDenominator: nat)
    requires 0 < feeDenominator
    requires feeNumerator <= feeDenominator
    ensures var r := CalculateInterestAndFee(principal, apr, duration, feeNumerator, feeDenominator);
            0 <= r.interest && r.fee <= 2 * BaseInterest(principal, apr, duration)
  {
    BaseFeeWithinInterest(BaseInterest(principal, apr, duration), feeNumerator, feeDenominator);
  }

  // ----- Monotonicity -----

  /** Base interest does not decrease when principal, APR or duration grow. */
  lemma BaseInterestMonotone(p1: nat, p2: nat, a1: nat, a2: nat, d1: nat, d2: nat)
    requires p1 <= p2 && a1 <= a2 && d1 <= d2
    ensures BaseInterest(p1, a1, d1) <= BaseInterest(p2, a2, d2)
  {
    var h1, h2 := HourTicks(d1), HourTicks(d2);
    HourTicksMonotone(d1, d2);
    Arith.MulMonotone(p1, p2, a1);
    Arith.MulMonotone(a1, a2, p2);
    assert p1 * a1 <= p2 * a2;
    Arith.MulMonotone(p1 * a1, p2 * a2, h1);
    Arith.MulMonotone(h1, h2, p2 * a2);
    assert p1 * a1 * h1 <= p2 * a2 * h2;
    Arith.DivMonotone(p1 * a1 * h1, p2 * a2 * h2, SecondsPerDay * DaysPerYear * BasisPoints);
  }

  /** When the fee fraction is at most one, the net interest b - fee(b) does
      not decrease as the base interest b grows. */
  lemma NetInterestMonotone(b1: nat, b2: nat, feeNumerator: nat, feeDenominator: nat)
    requires 0 < feeDenominator
    requires feeNumerator <= feeDenominator
    requires b1 <= b2
    ensures b1 - BaseFee(b1, feeNumerator, feeDenominator) <= b2 - BaseFee(b2, feeNumerator, feeDenominator)
  {
    var f1 := BaseFee(b1, feeNumerator, feeDenominator);
    var f2 := BaseFee(b2, feeNumerator, feeDenominator);
    var gap: nat := b2 - b1;
    Arith.MulMonotone(feeNumerator, feeDenominator, gap);
    assert b2 * feeNumerator == b1 * feeNumerator + gap * feeNumerator;
    assert (f1 + 1 + gap) * feeDenominator == (f1 + 1) * feeDenominator + gap * feeDenominator;
    Arith.MulCancelStrict(f2, f1 + 1 + gap, feeDenominator);
  }

  /** Interest and fee do not decrease when principal, APR or duration grow;
      the net interest only when the fee fraction is at most one. */
  lemma AccrualMonotone(p1: nat, p2: nat, a1: nat, a2: nat, d1: nat, d2: nat,
                        feeNumerator: nat, feeDenominator: nat)
    requires 0 < feeDenominator
    requires p1 <= p2 && a1 <= a2 && d1 <= d2
    ensures var r1 := CalculateInterestAndFee(p1, a1, d1, feeNumerator, feeDenominator);
            var r2 := CalculateInterestAndFee(p2, a2, d2, feeNumerator, feeDenominator);
            && r1.fee <= r2.fee
            && (feeNumerator <= feeDenominator ==> r1.interest <= r2.interest)
  {
    var b1, b2 := BaseInterest(p1, a1, d1), BaseInterest(p2, a2, d2);
    BaseInterestMonotone(p1, p2, a1, a2, d1, d2);
    Arith.MulMonotone(b1, b2, feeNumerator);
    Arith.DivMonotone(b1 * feeNumerator, b2 * feeNumerator, feeDenominator);
    if feeNumerator <= feeDenominator {
      NetInterestMonotone(b1, b2, feeNumerator, feeDenominator);
    }
  }

  // ----- Partial repayment -----

  /** Principal x, with the interest and the fee on it computed exactly over
      the untruncated duration, fits in the payment `available`. Both sides of
        x + x * apr * duration / Y + (x * apr * duration / Y) * feeNumerator / feeDenominator <= available
      are scaled by feeDenominator * Y, where Y is YearBasisPoints. */
  predicate FitsUntruncated(x: nat, available: nat, apr: nat, duration: nat,
                            feeNumerator: nat, feeDenominator: nat)
  {
    Arith.ScaledFits(x, x * apr * duration, feeNumerator, feeDenominator, YearBasisPoints, available)
  }

  /** Proof step: unfolds the reduction into the closed-form quotient of the
      scaled payment by the scaled untruncated charge per unit of principal. */
  lemma ReductionIsQuotient(available: nat, apr: nat, duration: nat,
                            feeNumerator: nat, feeDenominator: nat)
    requires feeDenominator > 0
    ensures feeDenominator * YearBasisPoints + duration * apr * (feeNumerator + feeDenominator) > 0
    ensures CalculatePartialPayment(available, apr, duration, feeNumerator, feeDenominator).reduction
         == (available * feeDenominator * YearBasisPoints)
            / (feeDenominator * YearBasisPoints + duration * apr * (feeNumerator + feeDenominator))
  {
    Arith.PositiveCharge(feeDenominator, YearBasisPoints, duration, apr, feeNumerator);
  }

  /** The reduction is exactly the largest principal whose untruncated charge
      fits in the payment: every x fits if and only if x <= reduction. */
  lemma PartialPaymentMaximal(available: nat, apr: nat, duration: nat,
                              feeNumerator: nat, feeDenominator: nat, x: nat)
    requires feeDenominator > 0
    ensures FitsUntruncated(x, available, apr, duration, feeNumerator, feeDenominator)
            <==> x <= CalculatePartialPayment(available, apr, duration, feeNumerator, feeDenominator).reduction
  {
    ReductionIsQuotient(available, apr, duration, feeNumerator, feeDenominator);
    Arith.FitsIffAtMostQuotient(x, available, feeDenominator, YearBasisPoints, apr, duration, feeNumerator);
  }

  /** A principal whose exact untruncated charge fits the payment is at most the payment. */
  lemma FitsWithinAvailable(x: nat, available: nat, apr: nat, duration: nat,
                            feeNumerator: nat, feeDenominator: nat)
    requires feeDenominator > 0
    requires FitsUntruncated(x, available, apr, duration, feeNumerator, feeDenominator)
    ensures x <= available
  {
    Arith.ScaledWithin(x, x * apr * duration, feeNumerator, feeDenominator, YearBasisPoints, available);
  }

  /** A partial repayment never retires more principal than the payment. */
  lemma PartialPaymentWithinAvailable(available: nat, apr: nat, duration: nat,
                                      feeNumerator: nat, feeDenominator: nat)
    requires feeDenominator > 0
    ensures CalculatePartialPayment(available, apr, duration, feeNumerator, feeDenominator).reduction <= available
  {
    var r := CalculatePartialPayment(available, apr, duration, feeNumerator, feeDenominator).reduction;
    PartialPaymentMaximal(available, apr, duration, feeNumerator, feeDenominator, r);
    FitsWithinAvailable(r, available, apr, duration, feeNumerator, feeDenominator);
  }

  /** The principal retired plus the interest and fee charged on it, over the
      whole hours elapsed, never exceed the payment offered. */
  lemma PartialPaymentFits(available: nat, apr: nat, duration: nat,
                           feeNumerator: nat, feeDenominator: nat)
    requires feeDenominator > 0
    ensures var p := CalculatePartialPayment(available, apr, duration, feeNumerator, feeDenominator);
            p.reduction + p.interest + p.fee <= available
  {
    var p := CalculatePartialPayment(available, apr, duration, feeNumerator, feeDenominator);
    var r := p.reduction;
    var b := BaseInterest(r, apr, duration);
    var f := BaseFee(b, feeNumerator, feeDenominator);
    assert p.reduction + p.interest + p.fee == r + b + f;
    PartialPaymentMaximal(available, apr, duration, feeNumerator, feeDenominator, r);
    Arith.ChargeWithin(r, b, f, apr, duration, HourTicks(duration), feeNumerator, feeDenominator,
                       YearBasisPoints, available);
  }

  /** A principal that fits a payment still fits a larger payment charged
      at no higher APR over no longer a duration. */
  lemma FitsUntruncatedWeaken(x: nat, av1: nat, av2: nat, a1: nat, a2: nat, d1: nat, d2: nat,
                              feeNumerator: nat, feeDenominator: nat)
    requires av1 <= av2 && a2 <= a1 && d2 <= d1
    requires FitsUntruncated(x, av1, a1, d1, feeNumerator, feeDenominator)
    ensures FitsUntruncated(x, av2, a2, d2, feeNumerator, feeDenominator)
  {
    Arith.MulMonotone3(x, a2, a1, d2, d1);
    Arith.ScaledWeaken(x, x * a1 * d1, x * a2 * d2, feeNumerator, feeDenominator, YearBasisPoints, av1, av2);
  }

  /** A larger payment never retires less principal; a longer duration or a
      higher APR never retires more. */
  lemma PartialPaymentMonotone(av1: nat, av2: nat, a1: nat, a2: nat, d1: nat, d2: nat,
                               feeNumerator: nat, feeDenominator: nat)
    requires feeDenominator > 0
    requires av1 <= av2 && a2 <= a1 && d2 <= d1
    ensures CalculatePartialPayment(av1, a1, d1, feeNumerator, feeDenominator).reduction
         <= CalculatePartialPayment(av2, a2, d2, feeNumerator, feeDenominator).reduction
  {
    var r1 := CalculatePartialPayment(av1, a1, d1, feeNumerator, feeDenominator).reduction;
    PartialPaymentMaximal(av1, a1, d1, feeNumerator, feeDenominator, r1);
    FitsUntruncatedWeaken(r1, av1, av2, a1, a2, d1, d2, feeNumerator, feeDenominator);
    PartialPaymentMaximal(av2, a2, d2, feeNumerator, feeDenominator, r1);
  }

  /** The reduction is maximal only for the untruncated charge: with one
      second short of an hour nothing accrues, so retiring the whole payment
      of 100 would fit, yet the formula retires 99. */
  lemma TruncatedChargeLeavesSlack()
    ensures CalculatePartialPayment(100, 10000, 3599, 5, 100).reduction == 99
    ensures CalculateInterestAndFee(100, 10000, 3599, 5, 100) == Accrual(0, 0)
  {
  }

  /** Some payment leaves room for a reduction larger than the one computed:
      under the hour-truncated charge that the formula recomputes, a larger
      principal x still fits the payment. */
  lemma ReductionNotMaximalForTruncatedCharge()
    ensures exists available: nat, x: nat ::
              && x > CalculatePartialPayment(available, 10000, 3599, 5, 100).reduction
              && x + CalculateInterestAndFee(x, 10000, 3599, 5, 100).interest
                   + CalculateInterestAndFee(x, 10000, 3599, 5, 100).fee <= available
  {
    TruncatedChargeLeavesSlack();
  }

  // ----- Worked values -----

  /** Ten units at 500 basis points for one day with the default 5/100 fee
      accrue nothing; ten tokens of 18 decimals accrue a positive amount. */
  lemma DefaultFeeExamples()
    ensures CalculateInterestAndFee(10, 500, 86400, 5, 100) == Accrual(0, 0)
    ensures CalculateInterestAndFee(10 * 1000000000000000000, 500, 86400, 5, 100)
         == Accrual(1301369863013699, 136986301369862)
  {
  }
}
