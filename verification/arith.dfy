/** Small facts about non-negative multiplication and truncating division
    that the interest formulas rely on. */
module Arith {

  /** Truncating division by a positive divisor is the floor of the exact quotient. */
  lemma DivBounds(x: nat, d: nat)
    requires d > 0
    ensures (x / d) * d <= x < (x / d) * d + d
  {
  }

  /** A number q is the quotient x / d exactly when q * d <= x < (q + 1) * d. */
  lemma DivUnique(x: nat, d: nat, q: nat)
    requires d > 0
    requires q * d <= x < (q + 1) * d
    ensures x / d == q
  {
    DivBounds(x, d);
    if x / d < q {
      MulMonotone(x / d + 1, q, d);
    } else if q < x / d {
      MulMonotone(q + 1, x / d, d);
    }
  }

  /** Multiplying by a natural number preserves order. */
  lemma MulMonotone(a: nat, b: nat, c: nat)
    requires a <= b
    ensures a * c <= b * c
  {
  }

  /** Cancelling a positive factor from both sides of an inequality. */
  lemma MulCancel(a: nat, b: nat, c: nat)
    requires c > 0
    requires a * c <= b * c
    ensures a <= b
  {
    if b < a {
      MulMonotone(b + 1, a, c);
    }
  }

  /** Truncating division by a positive divisor preserves order. */
  lemma DivMonotone(x: nat, y: nat, d: nat)
    requires d > 0
    requires x <= y
    ensures x / d <= y / d
  {
    DivBounds(x, d);
    DivBounds(y, d);
    if y / d < x / d {
      MulMonotone(y / d + 1, x / d, d);
    }
  }

  /** Cancelling a common factor from a strict inequality. */
  lemma MulCancelStrict(a: nat, b: nat, c: nat)
    requires a * c < b * c
    ensures a < b
  {
    if b <= a {
      MulMonotone(b, a, c);
    }
  }

  /** A product x * a * t grows with each of its last two factors. */
  lemma MulMonotone3(x: nat, a1: nat, a2: nat, t1: nat, t2: nat)
    requires a1 <= a2 && t1 <= t2
    ensures x * a1 * t1 <= x * a2 * t2
  {
    MulMonotone(a1, a2, x);
    MulMonotone(x * a1, x * a2, t1);
    MulMonotone(t1, t2, x * a2);
  }

  /** A principal x with charge s per scaled unit fits the scaled budget:
      x * d * y + s * d + s * n <= p * d * y. */
  predicate ScaledFits(x: nat, s: nat, n: nat, d: nat, y: nat, p: nat)
  {
    x * d * y + s * d + s * n <= p * d * y
  }

  /** If x * d * y plus non-negative extras stays within p * d * y, then x <= p. */
  lemma ScaledWithin(x: nat, s: nat, n: nat, d: nat, y: nat, p: nat)
    requires d > 0 && y > 0
    requires ScaledFits(x, s, n, d, y, p)
    ensures x <= p
  {
    MulMonotone(0, s, d);
    MulMonotone(0, s, n);
    assert x * (d * y) <= p * (d * y);
    MulCancel(x, p, d * y);
  }

  /** A scaled budget inequality survives a smaller charge s and a larger budget p. */
  lemma ScaledWeaken(x: nat, s1: nat, s2: nat, n: nat, d: nat, y: nat, p1: nat, p2: nat)
    requires s2 <= s1 && p1 <= p2
    requires ScaledFits(x, s1, n, d, y, p1)
    ensures ScaledFits(x, s2, n, d, y, p2)
  {
    MulMonotone(s2, s1, d);
    MulMonotone(s2, s1, n);
    MulMonotone(p1, p2, d * y);
    assert p1 * d * y <= p2 * d * y;
  }

  /** Scaling the interest bound b * y <= s by d and the fee bound f * d <= b * n
      by y bounds both parts of the scaled charge by the exact ones. */
  lemma ScaledParts(b: nat, f: nat, s: nat, n: nat, d: nat, y: nat)
    requires b * y <= s
    requires f * d <= b * n
    ensures b * y * d + f * d * y <= s * d + s * n
  {
    MulMonotone(b * y, s, d);
    MulMonotone(f * d, b * n, y);
    MulMonotone(b * y, s, n);
    assert b * n * y == b * y * n;
  }

  /** Expands the scaled sum (r + b + f) * (d * y) term by term. */
  lemma DistributeSum(r: nat, b: nat, f: nat, d: nat, y: nat)
    ensures (r + b + f) * (d * y) == r * d * y + b * y * d + f * d * y
  {
  }

  /** The charge r + b + f stays within p when b is at most the exact interest
      r * a * t / y (through the truncated h <= t), f at most b * n / d, and the
      exact charge over t fits p once scaled by d * y. */
  lemma ChargeWithin(r: nat, b: nat, f: nat, a: nat, t: nat, h: nat, n: nat, d: nat, y: nat, p: nat)
    requires d > 0 && y > 0 && h <= t
    requires b * y <= r * a * h
    requires f * d <= b * n
    requires ScaledFits(r, r * a * t, n, d, y, p)
    ensures r + b + f <= p
  {
    var s := r * a * t;
    MulMonotone(h, t, r * a);
    assert b * y <= s;
    ScaledParts(b, f, s, n, d, y);
    DistributeSum(r, b, f, d, y);
    assert (r + b + f) * (d * y) <= p * (d * y);
    MulCancel(r + b + f, p, d * y);
  }

  /** The quotient num / den is the largest x with x * den <= num. */
  lemma DivIsLargest(x: nat, num: nat, den: nat)
    requires den > 0
    ensures x * den <= num <==> x <= num / den
  {
    DivBounds(num, den);
    if x <= num / den {
      MulMonotone(x, num / den, den);
    } else {
      MulMonotone(num / den + 1, x, den);
    }
  }

  /** Expands x times the closed-form denominator d * y + t * a * (n + d). */
  lemma DistributeCharge(x: nat, d: nat, y: nat, a: nat, t: nat, n: nat)
    ensures x * (d * y + t * a * (n + d)) == x * d * y + x * a * t * d + x * a * t * n
  {
  }

  /** The closed-form denominator d * y + t * a * (n + d) is at least d * y. */
  lemma PositiveCharge(d: nat, y: nat, t: nat, a: nat, n: nat)
    requires d > 0 && y > 0
    ensures d * y + t * a * (n + d) >= d * y > 0
  {
    MulMonotone(0, t * a, n + d);
    MulMonotone(1, d, y);
  }

  /** x fits the scaled budget p * d * y exactly when x is at most the
      closed-form quotient (p * d * y) / (d * y + t * a * (n + d)). */
  lemma FitsIffAtMostQuotient(x: nat, p: nat, d: nat, y: nat, a: nat, t: nat, n: nat)
    requires d > 0 && y > 0
    ensures ScaledFits(x, x * a * t, n, d, y, p) <==> x <= (p * d * y) / (d * y + t * a * (n + d))
  {
    var den := d * y + t * a * (n + d);
    PositiveCharge(d, y, t, a, n);
    DistributeCharge(x, d, y, a, t, n);
    DivIsLargest(x, p * d * y, den);
  }

  /** Expands h * (q * y + m) into (h * q) * y + h * m. */
  lemma Distribute(h: nat, q: nat, y: nat, m: nat)
    ensures h * (q * y + m) == (h * q) * y + h * m
  {
  }

  /** With k == q * y + m and m < y, the product h * k lies in
      [(h * q) * y, (h * q + h) * y), strictly below the top when h > 0. */
  lemma MultipleBetween(h: nat, q: nat, m: nat, y: nat)
    requires m < y
    ensures (h * q) * y <= h * (q * y + m)
    ensures h > 0 ==> h * (q * y + m) < (h * q + h) * y
  {
    Distribute(h, q, y, m);
    MulMonotone(0, m, h);
    if h > 0 {
      MulMonotone(m + 1, y, h);
      Distribute(h, q, y, y);
    }
  }

  /** Truncating h * k once loses less than truncating each of h copies of k:
      h * (k / y) <= (h * k) / y, and the gap is below h when h > 0. */
  lemma FloorOfMultiple(h: nat, k: nat, y: nat)
    requires y > 0
    ensures h * (k / y) <= (h * k) / y
    ensures h > 0 ==> (h * k) / y < h * (k / y) + h
  {
    var q, m := k / y, k % y;
    assert k == q * y + m;
    MultipleBetween(h, q, m, y);
    DivIsLargest(h * q, h * k, y);
    DivIsLargest(h * q + h, h * k, y);
  }
}
