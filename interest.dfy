/** `calculate_interest`: simple interest of 10% of the principal per elapsed
    hour, on the absolute elapsed time, rounded half to even (Python's `round`). */
module Interest {
  import opened Loans

  /** Seconds in an hour times the reciprocal of the hourly rate (10%): the
      interest on `amount` over `s` seconds is `amount * s / RateDivisor`. */
  const RateDivisor: int := 36000

  function Abs(x: int): (r: nat)
    ensures r == x || r == -x
  {
    if x < 0 then -x else x
  }

  /** r is the integer nearest to n / d, and the even one on an exact half. */
  predicate NearestEven(n: int, d: int, r: int)
    requires d > 0
  {
    && 2 * Abs(n - r * d) <= d
    && (2 * Abs(n - r * d) == d ==> r % 2 == 0)
  }

  /** Python's `round` on the quotient n / d. */
  function RoundHalfEven(n: int, d: int): (r: int)
    requires d > 0
    ensures NearestEven(n, d, r)
  {
    var q, m := n / d, n % d;
    assert n - q * d == m;
    assert n - (q + 1) * d == m - d;
    if 2 * m < d then q
    else if 2 * m > d then q + 1
    else if q % 2 == 0 then q
    else q + 1
  }

  /** Multiplying by a non-negative factor keeps an inequality. */
  lemma {:induction false} MulMono(x: int, y: int, d: int)
    requires x <= y && d >= 0
    ensures x * d <= y * d
  {
    var z := y - x;
    assert y * d - x * d == z * d;
    MulNonNegative(z, d);
  }

  lemma {:induction false} MulNonNegative(x: int, y: int)
    requires x >= 0 && y >= 0
    ensures x * y >= 0
  {
    if x > 0 {
      MulNonNegative(x - 1, y);
      assert x * y == (x - 1) * y + y;
    }
  }

  /** The products of a positive d by small integers, as linear facts. */
  lemma MulCases(k: int, d: int)
    requires d > 0
    ensures k >= 2 ==> k * d >= 2 * d
    ensures k <= -2 ==> k * d <= -2 * d
    ensures k >= 1 ==> k * d >= d
    ensures k == 1 ==> k * d == d
    ensures k == -1 ==> k * d == -d
  {
    if k >= 2 {
      MulMono(2, k, d);
    } else if k <= -2 {
      MulMono(k, -2, d);
    }
    if k >= 1 {
      MulMono(1, k, d);
    } else if k <= -1 {
      MulMono(k, -1, d);
    }
  }

  /** At most one integer is the half-to-even rounding of n / d. */
  lemma {:induction false} NearestEvenUnique(n: int, d: int, r1: int, r2: int)
    requires d > 0 && NearestEven(n, d, r1) && NearestEven(n, d, r2)
    ensures r1 == r2
  {
    var e1, e2 := n - r1 * d, n - r2 * d;
    var k := r2 - r1;
    assert k * d == e1 - e2 by {
      assert (r2 - r1) * d == r2 * d - r1 * d;
    }
    MulCases(k, d);
    assert -d <= 2 * e1 <= d && -d <= 2 * e2 <= d;
    assert 2 * e1 == d || 2 * e1 == -d ==> r1 % 2 == 0;
    assert 2 * e2 == d || 2 * e2 == -d ==> r2 % 2 == 0;
    // |e1 - e2| <= d leaves k in {-1, 0, 1}; k == 1 or k == -1 would make
    // both e1 and e2 ties, so r1 and r2 both even
  }

  /** NearestEven characterises RoundHalfEven. */
  lemma RoundHalfEvenUnique(n: int, d: int, r: int)
    requires d > 0 && NearestEven(n, d, r)
    ensures r == RoundHalfEven(n, d)
  {
    NearestEvenUnique(n, d, r, RoundHalfEven(n, d));
  }

  lemma RoundHalfEvenNonNegative(n: int, d: int)
    requires d > 0 && n >= 0
    ensures RoundHalfEven(n, d) >= 0
  {
    var r := RoundHalfEven(n, d);
    if r < 0 {
      MulMono(r, -1, d);
    }
  }

  lemma {:induction false} NearestEvenMonotone(n1: int, n2: int, d: int, r1: int, r2: int)
    requires d > 0 && n1 <= n2 && NearestEven(n1, d, r1) && NearestEven(n2, d, r2)
    ensures r1 <= r2
  {
    var k := r1 - r2;
    assert k >= 1 ==> n1 >= n2 by {
      assert k * d == r1 * d - r2 * d;
      MulCases(k, d);
      assert 2 * (n1 - r1 * d) >= -d;
      assert 2 * (n2 - r2 * d) <= d;
    }
    if k >= 1 {
      // n1 would then lie at least as far right as n2, so n1 == n2
      NearestEvenUnique(n1, d, r1, r2);
    }
  }

  /** Rounding is monotone in the numerator. */
  lemma RoundHalfEvenMonotone(n1: int, n2: int, d: int)
    requires d > 0 && n1 <= n2
    ensures RoundHalfEven(n1, d) <= RoundHalfEven(n2, d)
  {
    NearestEvenMonotone(n1, n2, d, RoundHalfEven(n1, d), RoundHalfEven(n2, d));
  }

  lemma AbsMul(e: int, k: int)
    requires k > 0
    ensures Abs(e * k) == Abs(e) * k
  {
    if e >= 0 {
      MulNonNegative(e, k);
    } else {
      MulNonNegative(-e, k);
      assert e * k == -((-e) * k);
    }
  }

  lemma ScaleBound(t: int, d: int, k: int)
    requires k > 0 && t <= d
    ensures t * k <= d * k
    ensures t * k == d * k ==> t == d
  {
    MulMono(t, d, k);
    MulCases(t - d, k);
    assert (t - d) * k == t * k - d * k;
  }

  lemma {:induction false} NearestEvenScale(n: int, d: int, k: int, r: int)
    requires d > 0 && k > 0 && NearestEven(n, d, r)
    ensures d * k > 0 && NearestEven(n * k, d * k, r)
  {
    var e := n - r * d;
    assert d * k > 0 by { MulMono(1, d, k); }
    assert 2 * Abs(n * k - r * (d * k)) == (2 * Abs(e)) * k by {
      assert r * (d * k) == (r * d) * k;
      assert (n - r * d) * k == n * k - (r * d) * k;
      AbsMul(e, k);
    }
    ScaleBound(2 * Abs(e), d, k);
  }

  /** Scaling numerator and denominator by the same factor does not change the
      rounded quotient. */
  lemma RoundHalfEvenScale(n: int, d: int, k: int)
    requires d > 0 && k > 0
    ensures d * k > 0 && RoundHalfEven(n * k, d * k) == RoundHalfEven(n, d)
  {
    NearestEvenScale(n, d, k, RoundHalfEven(n, d));
    RoundHalfEvenUnique(n * k, d * k, RoundHalfEven(n, d));
  }

  /** An exact quotient is not rounded. */
  lemma {:induction false} RoundHalfEvenExact(q: int, d: int)
    requires d > 0
    ensures RoundHalfEven(q * d, d) == q
  {
    RoundHalfEvenUnique(q * d, d, q);
  }

  /** Accrued interest of a loan at time `now` (bot.py `calculate_interest`):
      nothing on a closed loan or an unreadable `created_at`, otherwise
      amount * 0.1 * |now - created_at| / 3600, rounded. */
  function CalculateInterest(loan: Loan, now: int): (r: int)
    ensures loan.status != Pending ==> r == 0
    ensures loan.createdAt.Unparseable? ==> r == 0
    ensures loan.amount >= 0 ==> r >= 0
    ensures loan.status == Pending && loan.createdAt.At? ==>
      2 * Abs(loan.amount * Abs(now - loan.createdAt.seconds) - r * RateDivisor) <= RateDivisor
    ensures loan.status == Pending && loan.createdAt.At? ==>
      r == RoundHalfEven(loan.amount * Abs(now - loan.createdAt.seconds), RateDivisor)
  {
    if loan.status != Pending then 0
    else match loan.createdAt
      case Unparseable => 0
      case At(t) =>
        var n := loan.amount * Abs(now - t);
        assert loan.amount >= 0 ==> n >= 0;
        RoundHalfEvenNonNegative(if n >= 0 then n else 0, RateDivisor);
        RoundHalfEven(n, RateDivisor)
  }

  /** What the borrower owes now: principal plus accrued interest. */
  function TotalOwed(loan: Loan, now: int): (r: int)
    ensures loan.status != Pending ==> r == loan.amount
    ensures loan.amount >= 0 ==> r >= loan.amount
  {
    loan.amount + CalculateInterest(loan, now)
  }

  /** With a non-negative principal, interest does not decrease as the elapsed
      time (in absolute value) grows. */
  lemma {:induction false} InterestMonotone(loan: Loan, now1: int, now2: int)
    requires loan.amount >= 0 && loan.createdAt.At?
    requires Abs(now1 - loan.createdAt.seconds) <= Abs(now2 - loan.createdAt.seconds)
    ensures CalculateInterest(loan, now1) <= CalculateInterest(loan, now2)
  {
    if loan.status == Pending {
      var t := loan.createdAt.seconds;
      assert loan.amount * Abs(now1 - t) <= loan.amount * Abs(now2 - t);
      RoundHalfEvenMonotone(loan.amount * Abs(now1 - t), loan.amount * Abs(now2 - t), RateDivisor);
    }
  }

  /** Clock skew does not matter: a `now` before `created_at` accrues as much
      as the same distance after it. */
  lemma {:induction false} InterestSymmetric(loan: Loan, d: int)
    requires loan.createdAt.At?
    ensures CalculateInterest(loan, loan.createdAt.seconds - d)
         == CalculateInterest(loan, loan.createdAt.seconds + d)
  {
    var t := loan.createdAt.seconds;
    assert Abs(t - d - t) == Abs(t + d - t);
  }

  /** Over exactly h whole hours a pending loan accrues round(amount * 0.1 * h). */
  lemma {:induction false} InterestWholeHours(loan: Loan, h: nat)
    requires loan.status == Pending && loan.createdAt.At?
    ensures CalculateInterest(loan, loan.createdAt.seconds + 3600 * h)
         == RoundHalfEven(loan.amount * h, 10)
  {
    var t := loan.createdAt.seconds;
    assert Abs(t + 3600 * h - t) == 3600 * h;
    assert loan.amount * (3600 * h) == (loan.amount * h) * 3600;
    RoundHalfEvenScale(loan.amount * h, 10, 3600);
  }

  /** Interest exceeds a positive principal only after more than ten hours. */
  lemma {:induction false} HighInterestNeedsTenHours(loan: Loan, now: int)
    requires loan.amount > 0 && loan.createdAt.At?
    requires CalculateInterest(loan, now) > loan.amount
    ensures Abs(now - loan.createdAt.seconds) > 10 * 3600
  {
    var a, e := loan.amount, Abs(now - loan.createdAt.seconds);
    var r := CalculateInterest(loan, now);
    var n := a * e;
    assert 2 * (n - r * RateDivisor) >= -RateDivisor;
    MulMono(a + 1, r, RateDivisor);
    assert (a + 1) * RateDivisor == a * RateDivisor + RateDivisor;
    assert n > a * RateDivisor;
    if e <= RateDivisor {
      MulMono(e, RateDivisor, a);
    }
  }

  /** After twenty hours every pending loan with a positive principal has
      interest above its principal. */
  lemma {:induction false} TwentyHoursIsHighInterest(loan: Loan, now: int)
    requires loan.status == Pending && loan.amount > 0 && loan.createdAt.At?
    requires Abs(now - loan.createdAt.seconds) >= 20 * 3600
    ensures CalculateInterest(loan, now) > loan.amount
  {
    var a, e := loan.amount, Abs(now - loan.createdAt.seconds);
    var n := a * e;
    assert CalculateInterest(loan, now) == RoundHalfEven(n, RateDivisor);
    MulMono(2 * RateDivisor, e, a);
    assert (2 * a) * RateDivisor <= n;
    RoundHalfEvenExact(2 * a, RateDivisor);
    RoundHalfEvenMonotone((2 * a) * RateDivisor, n, RateDivisor);
  }
}
