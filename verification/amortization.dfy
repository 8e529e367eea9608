/**
 * The four calculations of the calculator (annuity payment, annuity principal,
 * annuity timeframe, differentiated schedule) and the text each one prints.
 *
 * The floating-point formulas are computed here in exact rational arithmetic;
 * `ceil(log(x, 1 + i))` is the least whole `n` with `(1 + i) ** n >= x`.
 */
module Amortization {
  import opened Numbers
  import opened Text

  /** A Python exception the calculator does not catch. */
  datatype Fault =
    | ZeroDivision  // ZeroDivisionError
    | MathDomain    // ValueError: math domain error, from `log` of a non-positive number

  /** What a call of the calculator ends with. */
  datatype Response =
    | Printed(text: string)  // the string returned for display
    | Raised(fault: Fault)   // an exception escapes
    | Interactive            // no arguments: the interactive session takes over

  // ----- The loan as an economic process -----

  /**
   * The debt after `k` months, when each month interest at rate `i` accrues
   * and then `payment` is paid.
   */
  function Balance(principal: real, payment: real, i: real, k: nat): real {
    if k == 0 then principal else Balance(principal, payment, i, k - 1) * (1.0 + i) - payment
  }

  /** `i * Balance(k) == payment - (1 + i)^k * (payment - i * principal)`. */
  lemma {:induction false} BalanceClosedForm(principal: real, payment: real, i: real, k: nat)
    ensures i * Balance(principal, payment, i, k)
         == payment - Pow(1.0 + i, k) * (payment - i * principal)
  {
    if k > 0 {
      var b := Balance(principal, payment, i, k - 1);
      var p := Pow(1.0 + i, k - 1);
      BalanceClosedForm(principal, payment, i, k - 1);
      ClosedFormStep(i, b, payment, p, payment - i * principal,
                     Balance(principal, payment, i, k), Pow(1.0 + i, k));
    }
  }

  /** One month of `BalanceClosedForm`, on plain numbers: `next` is the balance a month later. */
  lemma ClosedFormStep(i: real, b: real, payment: real, p: real, x: real, next: real, grown: real)
    requires i * b == payment - p * x
    requires next == b * (1.0 + i) - payment && grown == (1.0 + i) * p
    ensures i * next == payment - grown * x
  {
    calc {
      i * next;
      (1.0 + i) * (i * b) - i * payment;
      (1.0 + i) * (payment - p * x) - i * payment;
      payment - grown * x;
    }
  }

  // ----- Annuity payment and principal -----

  /** `i * (1 + i)^n / ((1 + i)^n - 1)`: the payment per unit of principal. */
  function AnnuityFactor(i: real, n: nat): (f: real)
    requires i > 0.0 && n > 0
    ensures f > 0.0
    ensures f * (Pow(1.0 + i, n) - 1.0) == i * Pow(1.0 + i, n)
  {
    PowAboveOne(1.0 + i, n);
    var p := Pow(1.0 + i, n);
    i * p / (p - 1.0)
  }

  /** A monthly payment clears a principal within `n` months exactly when it is at least principal * factor. */
  lemma RepaidIff(principal: real, payment: real, i: real, n: nat)
    requires i > 0.0 && n > 0
    ensures Balance(principal, payment, i, n) <= 0.0 <==> payment >= principal * AnnuityFactor(i, n)
  {
    BalanceClosedForm(principal, payment, i, n);
    PowAboveOne(1.0 + i, n);
    RepaidAlgebra(i, Balance(principal, payment, i, n), Pow(1.0 + i, n), AnnuityFactor(i, n), principal, payment);
  }

  /**
   * With `i * b == q - p * (q - i * principal)` and `f * (p - 1) == i * p`
   * (`p > 1`, `i > 0`): `b <= 0` exactly when `q >= principal * f`.
   */
  lemma RepaidAlgebra(i: real, b: real, p: real, f: real, principal: real, q: real)
    requires i > 0.0 && p > 1.0
    requires i * b == q - p * (q - i * principal)
    requires f * (p - 1.0) == i * p
    ensures b <= 0.0 <==> q >= principal * f
  {
    assert i * b == (p - 1.0) * (principal * f - q) by {
      assert (p - 1.0) * (principal * f) == principal * (f * (p - 1.0));
    }
    MulPositiveSign(i, b);
    MulPositiveSign(p - 1.0, principal * f - q);
  }

  /** `ceil(principal * factor)`. */
  function AnnuityPaymentAmount(principal: int, n: nat, i: real): int
    requires i > 0.0 && n > 0
  {
    Ceil(principal as real * AnnuityFactor(i, n))
  }

  /**
   * The computed payment clears the debt within `n` months, and one unit less
   * would not: it is the least whole payment that repays the loan on time.
   */
  lemma AnnuityPaymentRepays(principal: int, n: nat, i: real)
    requires i > 0.0 && n > 0
    ensures var q := AnnuityPaymentAmount(principal, n, i);
      && Balance(principal as real, q as real, i, n) <= 0.0
      && Balance(principal as real, (q - 1) as real, i, n) > 0.0
  {
    var q := AnnuityPaymentAmount(principal, n, i);
    var owed := principal as real * AnnuityFactor(i, n);
    assert owed <= q as real < owed + 1.0;
    assert (q - 1) as real < owed;
    RepaidIff(principal as real, q as real, i, n);
    RepaidIff(principal as real, (q - 1) as real, i, n);
  }

  /** Paying the computed amount for `n` months never pays back less than the principal. */
  lemma AnnuityPaymentCoversPrincipal(principal: int, n: nat, i: real)
    requires principal >= 0 && i > 0.0 && n > 0
    ensures AnnuityPaymentAmount(principal, n, i) * n >= principal
  {
    var f := AnnuityFactor(i, n);
    var q := AnnuityPaymentAmount(principal, n, i);
    assert n as real * f >= 1.0 by {
      GrowthBound(i, n);
      PowAboveOne(1.0 + i, n);
      FactorTimesPeriods(i, Pow(1.0 + i, n), f, n as real);
    }
    assert q as real >= principal as real * f;
    CoverAlgebra(principal as real, f, q as real, n as real);
    assert (q * n) as real == q as real * n as real;
  }

  /** From `p - 1 <= n * i * p` and `f * (p - 1) == i * p` with `p > 1`: `n * f >= 1`. */
  lemma FactorTimesPeriods(i: real, p: real, f: real, n: real)
    requires p > 1.0 && p - 1.0 <= n * i * p && f * (p - 1.0) == i * p
    ensures n * f >= 1.0
  {
    assert (p - 1.0) * (n * f - 1.0) == n * i * p - (p - 1.0);
    MulPositiveSign(p - 1.0, n * f - 1.0);
  }

  /** `q >= principal * f` and `n * f >= 1` give `q * n >= principal`, all non-negative. */
  lemma CoverAlgebra(principal: real, f: real, q: real, n: real)
    requires principal >= 0.0 && n >= 0.0 && q >= principal * f && n * f >= 1.0
    ensures q * n >= principal
  {
    MulMonotone(n, principal * f, q);
    MulMonotone(principal, 1.0, n * f);
    assert n * (principal * f) == principal * (n * f);
  }

  /** `round(payment / factor)`. */
  function AnnuityPrincipalAmount(payment: int, n: nat, i: real): int
    requires i > 0.0 && n > 0
  {
    RoundHalfEven(payment as real / AnnuityFactor(i, n))
  }

  /**
   * `payment / factor` is the principal that `n` payments clear exactly, and
   * the computed principal is within one half of it.
   */
  lemma AnnuityPrincipalNearest(payment: int, n: nat, i: real)
    requires i > 0.0 && n > 0
    ensures var exact := payment as real / AnnuityFactor(i, n);
      && Balance(exact, payment as real, i, n) == 0.0
      && exact - 0.5 <= AnnuityPrincipalAmount(payment, n, i) as real <= exact + 0.5
  {
    var f := AnnuityFactor(i, n);
    var exact := payment as real / f;
    assert Balance(exact, payment as real, i, n) == 0.0 by {
      BalanceClosedForm(exact, payment as real, i, n);
      PowAboveOne(1.0 + i, n);
      ExactPrincipalAlgebra(i, Balance(exact, payment as real, i, n), Pow(1.0 + i, n), f, payment as real, exact);
    }
  }

  /** With `e * f == q`, `f * (p - 1) == i * p` and `i > 0`, the closed form gives a zero balance. */
  lemma ExactPrincipalAlgebra(i: real, b: real, p: real, f: real, q: real, e: real)
    requires i > 0.0 && f > 0.0 && e == q / f && f * (p - 1.0) == i * p
    requires i * b == q - p * (q - i * e)
    ensures b == 0.0
  {
    assert e * f == q;
    assert p * (i * e) == e * (f * (p - 1.0));
    assert i * b == 0.0;
  }

  /**
   * Computing the payment for a principal and then the principal for that
   * payment never lands below the original principal, and overshoots it by
   * less than `1 / factor + 1/2` (the ceiling of the first step, divided back).
   */
  lemma PaymentThenPrincipal(principal: int, n: nat, i: real)
    requires i > 0.0 && n > 0
    ensures var back := AnnuityPrincipalAmount(AnnuityPaymentAmount(principal, n, i), n, i);
      && principal <= back
      && (back - principal) as real < 1.0 / AnnuityFactor(i, n) + 0.5
  {
    var f := AnnuityFactor(i, n);
    var q := AnnuityPaymentAmount(principal, n, i);
    var x := q as real / f;
    assert q as real >= principal as real * f;
    assert x >= principal as real by {
      assert x * f == q as real;
    }
    RoundHalfEvenAtLeast(x, principal);
    assert x < principal as real + 1.0 / f by {
      assert q as real < principal as real * f + 1.0;
      assert x * f == q as real;
      assert (principal as real + 1.0 / f) * f == principal as real * f + 1.0;
    }
  }

  // ----- Annuity timeframe -----

  /**
   * Whether `n` months suffice: `(1 + i)^n * (payment - i * principal) >= payment`,
   * that is `n >= log(payment / (payment - i * principal), 1 + i)`.
   */
  predicate ClearsBy(principal: int, payment: int, i: real, n: nat) {
    Pow(1.0 + i, n) * (payment as real - i * principal as real) >= payment as real
  }

  /** With a positive rate, `ClearsBy` is exactly "the balance is paid off after `n` months". */
  lemma ClearsByIff(principal: int, payment: int, i: real, n: nat)
    requires i > 0.0
    ensures ClearsBy(principal, payment, i, n) <==> Balance(principal as real, payment as real, i, n) <= 0.0
  {
    var b := Balance(principal as real, payment as real, i, n);
    var d := payment as real - i * principal as real;
    var p := Pow(1.0 + i, n);
    BalanceClosedForm(principal as real, payment as real, i, n);
    assert i * b == payment as real - p * d;
    MulPositiveSign(i, b);
    assert ClearsBy(principal, payment, i, n) <==> p * d >= payment as real;
  }

  /** Some debt is still outstanding after `k` months. */
  predicate OwesAfter(principal: int, payment: int, i: real, k: nat) {
    Balance(principal as real, payment as real, i, k) > 0.0
  }

  /**
   * `(x - 1) / i` for `x = payment / (payment - i * principal)`: by Bernoulli's
   * inequality, any month count at least this large clears the loan.
   */
  function BernoulliRatio(principal: int, payment: int, i: real): (r: real)
    requires principal >= 0 && i > 0.0 && payment as real > i * principal as real
    ensures r >= 0.0
  {
    MulMonotone(i, 0.0, principal as real);
    RatioSteps(payment as real, payment as real - i * principal as real, i);
    (payment as real / (payment as real - i * principal as real) - 1.0) / i
  }

  /** A month count at which `ClearsBy` holds. */
  function ClearingBound(principal: int, payment: int, i: real): (bound: nat)
    requires principal >= 0 && i > 0.0 && payment as real > i * principal as real
    ensures ClearsBy(principal, payment, i, bound)
  {
    BernoulliBound(principal, payment, i);
    Ceil(BernoulliRatio(principal, payment, i))
  }

  /** The least whole month count at or above `BernoulliRatio` clears the loan. */
  lemma BernoulliBound(principal: int, payment: int, i: real)
    requires principal >= 0 && i > 0.0 && payment as real > i * principal as real
    ensures var b := Ceil(BernoulliRatio(principal, payment, i));
      b >= 0 && ClearsBy(principal, payment, i, b)
  {
    var d := payment as real - i * principal as real;
    var b := Ceil(BernoulliRatio(principal, payment, i));
    Bernoulli(i, b);
    ReachAlgebra(i, d, payment as real, b as real, Pow(1.0 + i, b));
  }

  /** For `0 < d <= q` and `i > 0`: `(q / d - 1) / i >= 0`. */
  lemma RatioSteps(q: real, d: real, i: real)
    requires 0.0 < d <= q && i > 0.0
    ensures (q / d - 1.0) / i >= 0.0
  {
    DivMonotone(d, q, d);
    DivMonotone(0.0, q / d - 1.0, i);
    assert 0.0 / i == 0.0;
  }

  /**
   * With `b >= (q / d - 1) / i`, `i > 0` and `w >= 1 + b * i` (Bernoulli's
   * inequality for `w = (1 + i) ** b`): `w * d >= q`.
   */
  lemma ReachAlgebra(i: real, d: real, q: real, b: real, w: real)
    requires i > 0.0 && d > 0.0 && b >= (q / d - 1.0) / i && w >= 1.0 + b * i
    ensures w * d >= q
  {
    var x := q / d;
    MulMonotone(i, (x - 1.0) / i, b);
    assert w >= x;
    MulMonotone(d, x, w);
  }

  /** The first month count from `k` on at which `ClearsBy` holds. */
  function FirstClearingFrom(principal: int, payment: int, i: real, k: nat, bound: nat): (n: nat)
    requires k <= bound && ClearsBy(principal, payment, i, bound)
    ensures k <= n <= bound && ClearsBy(principal, payment, i, n)
    ensures forall j: nat :: k <= j < n ==> !ClearsBy(principal, payment, i, j)
    decreases bound - k
  {
    if ClearsBy(principal, payment, i, k) then k
    else FirstClearingFrom(principal, payment, i, k + 1, bound)
  }

  /** `ceil(log(payment / (payment - i * principal), 1 + i))` in exact arithmetic. */
  function TimeframePeriods(principal: int, payment: int, i: real): (n: nat)
    requires principal >= 0 && i > 0.0 && payment as real > i * principal as real
    ensures ClearsBy(principal, payment, i, n)
    ensures forall j: nat :: j < n ==> !ClearsBy(principal, payment, i, j)
  {
    FirstClearingFrom(principal, payment, i, 0, ClearingBound(principal, payment, i))
  }

  /**
   * The computed number of months is the first month at which the balance,
   * growing by the monthly interest and reduced by the payment, is paid off.
   */
  lemma TimeframeRepays(principal: int, payment: int, i: real)
    requires principal >= 0 && i > 0.0 && payment as real > i * principal as real
    ensures var n := TimeframePeriods(principal, payment, i);
      && !OwesAfter(principal, payment, i, n)
      && forall k: nat :: k < n ==> OwesAfter(principal, payment, i, k)
  {
    var n := TimeframePeriods(principal, payment, i);
    ClearsByIff(principal, payment, i, n);
    forall k: nat | k < n
      ensures OwesAfter(principal, payment, i, k)
    {
      ClearsByIff(principal, payment, i, k);
    }
  }

  // ----- Printed text -----

  /** The inner `pluralize` of `annuity_timeframe`: the singular word exactly for 1 and -1. */
  function Pluralize(singular: string, plural: string, number: int): string {
    if number == 1 || number == -1 then singular else plural
  }

  /** `"{count} {word} "` when the count is positive, nothing otherwise. */
  function Clause(count: nat, singular: string, plural: string): string {
    if count > 0 then IntToString(count) + " " + (Pluralize(singular, plural, count) + " ") else ""
  }

  /** The part between `"You need "` and `"to repay this credit!"`. */
  function Duration(years: nat, months: nat): string {
    Clause(years, "year", "years") + ((if years > 0 && months > 0 then "and " else "") + Clause(months, "month", "months"))
  }

  /** The sentence `annuity_timeframe` prints for a split into years and months. */
  function TimeframeSentence(years: nat, months: nat): string {
    "You need " + Duration(years, months) + "to repay this credit!"
  }

  /** The trailing overpayment line, printed only for a positive overpayment. */
  function OverpaymentLine(overpayment: int): (s: string)
    ensures s == "" <==> overpayment <= 0
  {
    if overpayment > 0 then "\nOverpayment = " + IntToString(overpayment) else ""
  }

  lemma ClauseAt(count: nat, singular: string, plural: string, rest: string)
    requires count > 0
    ensures Clause(count, singular, plural) + rest
         == IntToString(count) + " " + (Pluralize(singular, plural, count) + " " + rest)
  {
  }

  /**
   * A positive count is followed by the singular word exactly when it is 1
   * (given two different words).
   */
  lemma ClauseWording(count: nat, singular: string, plural: string)
    requires count > 0 && singular != plural
    ensures Clause(count, singular, plural) == IntToString(count) + " " + (singular + " ") <==> count == 1
  {
    var number := IntToString(count) + " ";
    if count != 1 && Clause(count, singular, plural) == number + (singular + " ") {
      AppendAssociative(number, plural, " ");
      AppendAssociative(number, singular, " ");
      SameMiddle(number, plural, singular, " ");
      assert false;
    }
  }

  /** A clause is empty exactly for a zero count, and otherwise names its count. */
  lemma ClauseInjective(c1: nat, c2: nat, singular: string, plural: string)
    requires Clause(c1, singular, plural) == Clause(c2, singular, plural)
    ensures c1 == c2
  {
    if c1 > 0 && c2 > 0 {
      NatStringHasNo(c1, ' ');
      NatStringHasNo(c2, ' ');
      ClauseAt(c1, singular, plural, "");
      ClauseAt(c2, singular, plural, "");
      SameFirstWord(IntToString(c1), Pluralize(singular, plural, c1) + " " + "",
                    IntToString(c2), Pluralize(singular, plural, c2) + " " + "", ' ');
      IntToStringInjective(c1, c2);
    }
  }

  /** A years clause and a months clause never read the same. */
  lemma YearsNotMonths(y: nat, yRest: string, m: nat, mRest: string)
    requires y > 0 && m > 0
    ensures Clause(y, "year", "years") + yRest != Clause(m, "month", "months") + mRest
  {
    NatStringHasNo(y, ' ');
    NatStringHasNo(m, ' ');
    ClauseAt(y, "year", "years", yRest);
    ClauseAt(m, "month", "months", mRest);
    var yw := Pluralize("year", "years", y) + " " + yRest;
    var mw := Pluralize("month", "months", m) + " " + mRest;
    FirstIndexAfter(IntToString(y), yw, ' ');
    FirstIndexAfter(IntToString(m), mw, ' ');
    var l := IntToString(y) + [' '] + yw;
    var r := IntToString(m) + [' '] + mw;
    assert l[FirstIndex(l, ' ') + 1] == 'y';
    assert r[FirstIndex(r, ' ') + 1] == 'm';
  }

  /** Different splits print different durations. */
  lemma DurationInjective(y1: nat, m1: nat, y2: nat, m2: nat)
    requires Duration(y1, m1) == Duration(y2, m2)
    ensures y1 == y2 && m1 == m2
  {
    var and1 := (if y1 > 0 && m1 > 0 then "and " else "") + Clause(m1, "month", "months");
    var and2 := (if y2 > 0 && m2 > 0 then "and " else "") + Clause(m2, "month", "months");
    if y1 > 0 && y2 > 0 {
      NatStringHasNo(y1, ' ');
      NatStringHasNo(y2, ' ');
      ClauseAt(y1, "year", "years", and1);
      ClauseAt(y2, "year", "years", and2);
      SameFirstWord(IntToString(y1), Pluralize("year", "years", y1) + " " + and1,
                    IntToString(y2), Pluralize("year", "years", y2) + " " + and2, ' ');
      IntToStringInjective(y1, y2);
      SameMiddle(Pluralize("year", "years", y1) + " ", and1, and2, "");
      if m1 > 0 && m2 > 0 {
        SameMiddle("and ", Clause(m1, "month", "months"), Clause(m2, "month", "months"), "");
        ClauseInjective(m1, m2, "month", "months");
      }
    } else if y1 > 0 {
      assert Duration(y2, m2) == Clause(m2, "month", "months");
      if m2 > 0 {
        YearsNotMonths(y1, and1, m2, "");
      }
    } else if y2 > 0 {
      assert Duration(y1, m1) == Clause(m1, "month", "months");
      if m1 > 0 {
        YearsNotMonths(y2, and2, m1, "");
      }
    } else {
      assert Duration(y1, m1) == Clause(m1, "month", "months");
      assert Duration(y2, m2) == Clause(m2, "month", "months");
      ClauseInjective(m1, m2, "month", "months");
    }
  }

  /** The sentence identifies the years and months it was built from. */
  lemma TimeframeSentenceInjective(y1: nat, m1: nat, y2: nat, m2: nat)
    requires TimeframeSentence(y1, m1) == TimeframeSentence(y2, m2)
    ensures y1 == y2 && m1 == m2
  {
    SameMiddle("You need ", Duration(y1, m1), Duration(y2, m2), "to repay this credit!");
    DurationInjective(y1, m1, y2, m2);
  }

  /** The clauses the examples below are made of. */
  lemma SmallClauses()
    ensures Clause(0, "year", "years") == "" && Clause(0, "month", "months") == ""
    ensures Clause(2, "year", "years") == "2 years "
    ensures Clause(3, "month", "months") == "3 months "
    ensures Clause(1, "month", "months") == "1 month "
  {
    assert IntToString(1) == "1" && IntToString(2) == "2" && IntToString(3) == "3";
  }

  /**
   * The sentences the interactive tests expect for 24, 3 and 25 months
   * ("You need 2 years to repay this credit!" and so on), written as the
   * pieces the sentence is built from.
   */
  lemma TimeframeSentenceYears()
    ensures TimeframeSentence(24 / 12, 24 % 12) == "You need " + "2 years " + "to repay this credit!"
  {
    SmallClauses();
    assert Duration(2, 0) == "2 years " + ("" + "");
  }

  lemma TimeframeSentenceMonths()
    ensures TimeframeSentence(3 / 12, 3 % 12) == "You need " + "3 months " + "to repay this credit!"
  {
    SmallClauses();
    assert Duration(0, 3) == "" + ("" + "3 months ");
  }

  lemma TimeframeSentenceYearsAndMonths()
    ensures TimeframeSentence(25 / 12, 25 % 12)
         == "You need " + ("2 years " + ("and " + "1 month ")) + "to repay this credit!"
  {
    SmallClauses();
  }

  // ----- Differentiated schedule -----

  /**
   * Month `m`'s amount before rounding:
   * `principal / periods + i * (principal - principal * (m - 1) / periods)`.
   */
  function MonthAmount(principal: int, periods: int, i: real, m: int): real
    requires periods != 0
  {
    principal as real / periods as real
      + i * (principal as real - principal as real * (m - 1) as real / periods as real)
  }

  /** Month `m`'s payment: the amount rounded up. */
  function MonthPayment(principal: int, periods: int, i: real, m: int): int
    requires periods != 0
  {
    Ceil(MonthAmount(principal, periods, i, m))
  }

  /** Up to month `periods + 1`, a month pays at least the share `principal / periods`. */
  lemma MonthAmountAtLeastShare(principal: int, periods: int, i: real, m: int)
    requires principal >= 0 && periods > 0 && i >= 0.0 && m <= periods + 1
    ensures MonthAmount(principal, periods, i, m) >= principal as real / periods as real
  {
    var p := principal as real;
    var t := periods as real;
    MulMonotone(p, (m - 1) as real, t);
    DivMonotone(p * (m - 1) as real, p * t, t);
    assert p * t / t == p;
    MulMonotone(i, 0.0, p - p * (m - 1) as real / t);
  }

  /** Later months never pay more: the schedule declines. */
  lemma MonthPaymentDeclines(principal: int, periods: int, i: real, m1: int, m2: int)
    requires principal >= 0 && periods > 0 && i >= 0.0 && m1 <= m2
    ensures MonthPayment(principal, periods, i, m1) >= MonthPayment(principal, periods, i, m2)
  {
    var p := principal as real;
    var t := periods as real;
    MulMonotone(p, (m1 - 1) as real, (m2 - 1) as real);
    DivMonotone(p * (m1 - 1) as real, p * (m2 - 1) as real, t);
    MulMonotone(i, p - p * (m2 - 1) as real / t, p - p * (m1 - 1) as real / t);
    CeilMonotone(MonthAmount(principal, periods, i, m2), MonthAmount(principal, periods, i, m1));
  }

  /**
   * While the balance is positive after `m - 1` months that each paid at
   * least the share `principal / periods`, month `m` is within `periods`,
   * pays at least 1, and the total again covers `m` shares.
   */
  lemma NextMonth(principal: int, periods: int, i: real, m: int, paid: int)
    requires principal >= 0 && periods > 0 && i >= 0.0 && 1 <= m <= periods + 1
    requires paid as real >= (m - 1) as real * (principal as real / periods as real)
    requires principal - paid > 0
    ensures m <= periods
    ensures MonthPayment(principal, periods, i, m) >= 1
    ensures (paid + MonthPayment(principal, periods, i, m)) as real
         >= m as real * (principal as real / periods as real)
  {
    var share := principal as real / periods as real;
    ShareFacts(principal as real, periods as real, (m - 1) as real, paid as real);
    MonthAmountAtLeastShare(principal, periods, i, m);
  }

  /**
   * With `share = p / t` and `paid >= k * share` below `p`: `k < t`, the
   * share is positive, and `k * share + share == (k + 1) * share`.
   */
  lemma ShareFacts(p: real, t: real, k: real, paid: real)
    requires p >= 0.0 && t > 0.0 && k >= 0.0 && paid >= k * (p / t) && p > paid
    ensures k < t && p / t > 0.0
    ensures k * (p / t) + p / t == (k + 1.0) * (p / t)
  {
    var share := p / t;
    assert t * share == p;
    if k >= t {
      MulMonotone(share, t, k);
    }
    assert share > 0.0;
  }

  function Sum(s: seq<int>): int {
    if s == [] then 0 else s[0] + Sum(s[1..])
  }

  lemma {:induction false} SumAppend(s: seq<int>, x: int)
    ensures Sum(s + [x]) == Sum(s) + x
  {
    if s != [] {
      assert (s + [x])[1..] == s[1..] + [x];
      SumAppend(s[1..], x);
    }
  }

  /**
   * The payments the loop of `differentiate_payment` makes from month `m` on,
   * having paid `paid` so far: it goes on while the balance `principal - paid`
   * is positive. Each month pays at least `principal / periods`, so the loop
   * ends by month `periods`.
   */
  function DiffPaymentsFrom(principal: int, periods: int, i: real, m: nat, paid: int): (ps: seq<int>)
    requires principal >= 0 && periods > 0 && i >= 0.0 && 1 <= m <= periods + 1
    requires paid as real >= (m - 1) as real * (principal as real / periods as real)
    ensures |ps| <= periods + 1 - m
    decreases periods + 1 - m
  {
    if principal - paid <= 0 then []
    else
      NextMonth(principal, periods, i, m, paid);
      var payment := MonthPayment(principal, periods, i, m);
      [payment] + DiffPaymentsFrom(principal, periods, i, m + 1, paid + payment)
  }

  /**
   * What the loop pays: month `m + k` pays `MonthPayment(m + k)`, at least 1;
   * the running total stays below the principal before each payment and
   * reaches it after the last one.
   */
  lemma {:induction false} DiffPaymentsFromFacts(principal: int, periods: int, i: real, m: nat, paid: int)
    requires principal >= 0 && periods > 0 && i >= 0.0 && 1 <= m <= periods + 1
    requires paid as real >= (m - 1) as real * (principal as real / periods as real)
    ensures var ps := DiffPaymentsFrom(principal, periods, i, m, paid);
      && paid + Sum(ps) >= principal
      && (forall k :: 0 <= k < |ps| ==> paid + Sum(ps[..k]) < principal)
      && (forall k :: 0 <= k < |ps| ==> ps[k] == MonthPayment(principal, periods, i, m + k) && ps[k] >= 1)
    decreases periods + 1 - m
  {
    var ps := DiffPaymentsFrom(principal, periods, i, m, paid);
    if principal - paid > 0 {
      NextMonth(principal, periods, i, m, paid);
      var payment := MonthPayment(principal, periods, i, m);
      var rest := DiffPaymentsFrom(principal, periods, i, m + 1, paid + payment);
      assert ps == [payment] + rest;
      DiffPaymentsFromFacts(principal, periods, i, m + 1, paid + payment);
      forall k | 0 <= k < |ps|
        ensures paid + Sum(ps[..k]) < principal
        ensures ps[k] == MonthPayment(principal, periods, i, m + k) && ps[k] >= 1
      {
        if k > 0 {
          assert ps[..k] == [payment] + rest[..k - 1];
          assert ps[..k][1..] == rest[..k - 1];
          assert ps[k] == rest[k - 1];
        }
      }
    }
  }

  /** The loop state of `differentiate_payment` after the payments `done`, with `m` the next month. */
  ghost predicate DiffLoopState(principal: int, periods: int, i: real, m: nat, paid: int, done: seq<int>)
  {
    && principal >= 0 && periods > 0 && i >= 0.0 && 1 <= m <= periods + 1
    && paid as real >= (m - 1) as real * (principal as real / periods as real)
    && DiffPayments(principal, periods, i) == done + DiffPaymentsFrom(principal, periods, i, m, paid)
  }

  /** One pass of the loop keeps the payments made a prefix of `DiffPayments`. */
  lemma DiffLoopStep(principal: int, periods: int, i: real, m: nat, paid: int, done: seq<int>)
    requires DiffLoopState(principal, periods, i, m, paid, done)
    requires principal - paid > 0
    ensures m <= periods
    ensures DiffLoopState(principal, periods, i, m + 1, paid + MonthPayment(principal, periods, i, m),
                          done + [MonthPayment(principal, periods, i, m)])
  {
    NextMonth(principal, periods, i, m, paid);
    var payment := MonthPayment(principal, periods, i, m);
    var rest := DiffPaymentsFrom(principal, periods, i, m + 1, paid + payment);
    assert DiffPaymentsFrom(principal, periods, i, m, paid) == [payment] + rest;
    assert done + ([payment] + rest) == (done + [payment]) + rest;
  }

  /** The payments of the whole schedule: none for zero periods, which only a zero principal reaches. */
  function DiffPayments(principal: int, periods: int, i: real): seq<int>
    requires principal >= 0 && periods >= 0 && i >= 0.0 && (periods > 0 || principal == 0)
  {
    if periods == 0 then [] else DiffPaymentsFrom(principal, periods, i, 1, 0)
  }

  /**
   * For a positive principal and period count: between 1 and `periods`
   * payments, month `k + 1` paying `MonthPayment(k + 1) >= 1`, never more
   * than the month before, the total first reaching the principal with the
   * last one. A zero principal gives no payments.
   */
  lemma DiffPaymentsFacts(principal: int, periods: int, i: real)
    requires principal >= 0 && periods >= 0 && i >= 0.0 && (periods > 0 || principal == 0)
    ensures var ps := DiffPayments(principal, periods, i);
      && (principal == 0 ==> ps == [])
      && (principal > 0 ==> 1 <= |ps| <= periods)
      && Sum(ps) >= principal
      && (forall k :: 0 <= k < |ps| ==> Sum(ps[..k]) < principal)
      && (forall k :: 0 <= k < |ps| ==> ps[k] == MonthPayment(principal, periods, i, k + 1) && ps[k] >= 1)
      && (forall j, k :: 0 <= j <= k < |ps| ==> ps[j] >= ps[k])
  {
    var ps := DiffPayments(principal, periods, i);
    if periods > 0 {
      DiffPaymentsFromFacts(principal, periods, i, 1, 0);
      forall j, k | 0 <= j <= k < |ps|
        ensures ps[j] >= ps[k]
      {
        MonthPaymentDeclines(principal, periods, i, j + 1, k + 1);
      }
    }
  }

  /** One line of the schedule without its newline. */
  function LineText(m: int, payment: int): string {
    "Month " + IntToString(m) + ": paid out " + IntToString(payment)
  }

  /** `f"Month {m}: paid out {payment}\n"`. */
  function MonthLine(m: int, payment: int): string {
    LineText(m, payment) + "\n"
  }

  /** The lines for `payments`, numbered from `first`, each ending in a newline. */
  function ScheduleLines(payments: seq<int>, first: int): string {
    if payments == [] then ""
    else MonthLine(first, payments[0]) + ScheduleLines(payments[1..], first + 1)
  }

  /** `render(first + k, values[k])` for each `k`, in order. */
  function Numbered(render: (int, int) -> string, values: seq<int>, first: int): (lines: seq<string>)
    ensures |lines| == |values|
  {
    if values == [] then [] else [render(first, values[0])] + Numbered(render, values[1..], first + 1)
  }

  lemma {:induction false} NumberedAt(render: (int, int) -> string, values: seq<int>, first: int, k: nat)
    requires k < |values|
    ensures Numbered(render, values, first)[k] == render(first + k, values[k])
  {
    if k > 0 {
      NumberedAt(render, values[1..], first + 1, k - 1);
      assert values[1..][k - 1] == values[k];
    }
  }

  /** The line texts for `payments`, numbered from `first`. */
  function LineTexts(payments: seq<int>, first: int): (lines: seq<string>)
    ensures |lines| == |payments|
  {
    Numbered(LineText, payments, first)
  }

  /** The `k`-th line text numbers month `first + k` and shows `payments[k]`. */
  lemma LineTextsAt(payments: seq<int>, first: int, k: nat)
    requires k < |payments|
    ensures LineTexts(payments, first)[k] == LineText(first + k, payments[k])
  {
    NumberedAt(LineText, payments, first, k);
  }

  lemma {:induction false} ScheduleLinesAppend(payments: seq<int>, first: int, p: int)
    ensures ScheduleLines(payments + [p], first)
         == ScheduleLines(payments, first) + MonthLine(first + |payments|, p)
  {
    if payments == [] {
      assert payments + [p] == [p];
      assert ScheduleLines([p], first) == MonthLine(first, p) + ScheduleLines([], first + 1);
    } else {
      var head := MonthLine(first, payments[0]);
      var last := MonthLine(first + |payments|, p);
      var rest := ScheduleLines(payments[1..], first + 1);
      assert ScheduleLines(payments + [p], first) == head + ScheduleLines(payments[1..] + [p], first + 1) by {
        assert (payments + [p])[0] == payments[0];
        assert (payments + [p])[1..] == payments[1..] + [p];
      }
      assert ScheduleLines(payments[1..] + [p], first + 1) == rest + last by {
        ScheduleLinesAppend(payments[1..], first + 1, p);
      }
      assert ScheduleLines(payments, first) == head + rest;
      AppendAssociative(head, rest, last);
    }
  }

  lemma LineTextHasNoNewline(m: int, payment: int)
    ensures '\n' !in LineText(m, payment)
  {
    IntStringHasNo(m, '\n');
    IntStringHasNo(payment, '\n');
  }

  lemma ScheduleLinesUnfold(payments: seq<int>, first: int)
    requires payments != []
    ensures ScheduleLines(payments, first)
         == LineText(first, payments[0]) + (['\n'] + ScheduleLines(payments[1..], first + 1))
  {
  }

  /**
   * Cut at its newlines, the schedule is one line per payment, the `k`-th
   * saying "Month first+k: paid out payments[k]", then the empty rest.
   */
  lemma {:induction false} ScheduleLinesSplit(payments: seq<int>, first: int)
    ensures Split(ScheduleLines(payments, first), '\n') == LineTexts(payments, first) + [""]
  {
    if payments != [] {
      var line := LineText(first, payments[0]);
      var rest := ScheduleLines(payments[1..], first + 1);
      LineTextHasNoNewline(first, payments[0]);
      ScheduleLinesUnfold(payments, first);
      SplitAfterPlainPart(line, ['\n'] + rest, '\n');
      SplitAtSeparator(rest, '\n');
      ScheduleLinesSplit(payments[1..], first + 1);
      var after := Split(['\n'] + rest, '\n');
      assert after[0] == "" && after[1..] == LineTexts(payments[1..], first + 1) + [""];
      assert line + after[0] == line;
      assert LineTexts(payments, first) == [line] + LineTexts(payments[1..], first + 1);
    }
  }

  /**
   * Principal 10 over 6 months at 0% pays 2 a month and is done after 5
   * months: the balance-driven loop can print fewer lines than `periods`.
   */
  lemma ScheduleShorterThanPeriods()
    ensures |DiffPayments(10, 6, 0.0)| == 5
  {
    assert forall m :: MonthPayment(10, 6, 0.0, m) == 2;
    var ps := DiffPaymentsFrom(10, 6, 0.0, 6, 10);
    assert ps == [];
    assert DiffPaymentsFrom(10, 6, 0.0, 5, 8) == [2] + ps;
    assert DiffPaymentsFrom(10, 6, 0.0, 4, 6) == [2, 2];
    assert DiffPaymentsFrom(10, 6, 0.0, 3, 4) == [2, 2, 2];
    assert DiffPaymentsFrom(10, 6, 0.0, 2, 2) == [2, 2, 2, 2];
    assert DiffPaymentsFrom(10, 6, 0.0, 1, 0) == [2, 2, 2, 2, 2];
  }

  // ----- The four calculations as the calculator runs them -----

  /** `"Your annuity payment = {payment}!"` and the overpayment line. */
  function PaymentMessage(payment: int, overpayment: int): string {
    "Your annuity payment = " + IntToString(payment) + "!" + OverpaymentLine(overpayment)
  }

  /** `"Your credit principal = {principal}!"` and the overpayment line. */
  function PrincipalMessage(principal: int, overpayment: int): string {
    "Your credit principal = " + IntToString(principal) + "!" + OverpaymentLine(overpayment)
  }

  /** The timeframe sentence for `divmod(months, 12)` and the overpayment line. */
  function TimeframeMessage(months: nat, overpayment: int): string {
    TimeframeSentence(months / 12, months % 12) + OverpaymentLine(overpayment)
  }

  /**
   * What `annuity_timeframe` prints once the logarithm is defined: the sentence for the
   * least clearing month count and the overpayment over those months.
   */
  function TimeframeReport(principal: int, payment: int, i: real): string
    requires principal >= 0 && i > 0.0 && payment as real > i * principal as real
  {
    var n := TimeframePeriods(principal, payment, i);
    TimeframeMessage(n, payment * n - principal)
  }

  /** The schedule lines and the overpayment line. */
  function ScheduleMessage(payments: seq<int>, overpayment: int): string {
    ScheduleLines(payments, 1) + OverpaymentLine(overpayment)
  }

  /** `annuity_payment`: the payment, and the overpayment when positive. */
  function AnnuityPayment(principal: int, timeframe: int, interestRate: real): (r: Response)
    requires timeframe >= 0 && interestRate >= 0.0
    ensures r.Raised? <==> interestRate == 0.0 || timeframe == 0
    ensures r.Raised? ==> r.fault == ZeroDivision
    ensures r.Printed? <==> !(interestRate == 0.0 || timeframe == 0)
    ensures r.Printed? ==>
      var payment := AnnuityPaymentAmount(principal, timeframe, MonthlyRate(interestRate));
      r.text == PaymentMessage(payment, payment * timeframe - principal)
  {
    var i := MonthlyRate(interestRate);
    if i == 0.0 || timeframe == 0 then
      Raised(ZeroDivision)  // `numerator / denominator` with `(1 + 0) ** n - 1 == 0`
    else
      var payment := AnnuityPaymentAmount(principal, timeframe, i);
      Printed(PaymentMessage(payment, payment * timeframe - principal))
  }

  /** `annuity_principal`: the principal, and the overpayment when positive. */
  function AnnuityPrincipal(payment: int, timeframe: int, interestRate: real): (r: Response)
    requires timeframe >= 0 && interestRate >= 0.0
    ensures r.Raised? <==> interestRate == 0.0 || timeframe == 0
    ensures r.Raised? ==> r.fault == ZeroDivision
    ensures r.Printed? <==> !(interestRate == 0.0 || timeframe == 0)
    ensures r.Printed? ==>
      var principal := AnnuityPrincipalAmount(payment, timeframe, MonthlyRate(interestRate));
      r.text == PrincipalMessage(principal, payment * timeframe - principal)
  {
    var i := MonthlyRate(interestRate);
    if i == 0.0 || timeframe == 0 then
      Raised(ZeroDivision)
    else
      var principal := AnnuityPrincipalAmount(payment, timeframe, i);
      Printed(PrincipalMessage(principal, payment * timeframe - principal))
  }

  /**
   * `annuity_timeframe` for the monthly rate `i`: `payment - i * principal`
   * must be positive for the logarithm and `i` positive for its base.
   */
  function TimeframeOutcome(principal: int, payment: int, i: real): (r: Response)
    requires principal >= 0 && payment >= 0 && i >= 0.0
    ensures r == Raised(MathDomain) <==> payment as real - i * principal as real < 0.0
    ensures r == Raised(ZeroDivision) <==> payment as real - i * principal as real == 0.0 || i == 0.0
    ensures r.Printed? <==> i > 0.0 && payment as real > i * principal as real
    ensures r.Printed? ==>
      && i > 0.0 && payment as real > i * principal as real
      && r.text == TimeframeReport(principal, payment, i)
  {
    var left := payment as real - i * principal as real;
    if left == 0.0 then
      Raised(ZeroDivision)  // `payment / (payment - interest * principal)`
    else if left < 0.0 then
      Raised(MathDomain)    // the logarithm of a negative number
    else if i == 0.0 then
      Raised(ZeroDivision)  // a logarithm to base 1
    else
      Printed(TimeframeReport(principal, payment, i))
  }

  /**
   * `annuity_timeframe`: the number of months, split by `divmod(n, 12)` into
   * years and months, and the overpayment when positive.
   */
  function AnnuityTimeframe(principal: int, payment: int, interestRate: real): (r: Response)
    requires principal >= 0 && payment >= 0 && interestRate >= 0.0
    ensures r == Raised(MathDomain) <==> payment as real < MonthlyRate(interestRate) * principal as real
    ensures r == Raised(ZeroDivision) <==>
              payment as real == MonthlyRate(interestRate) * principal as real || interestRate == 0.0
    ensures r.Printed? <==> MonthlyRate(interestRate) > 0.0 && payment as real > MonthlyRate(interestRate) * principal as real
    ensures r.Printed? ==>
      var i := MonthlyRate(interestRate);
      && i > 0.0 && payment as real > i * principal as real
      && r.text == TimeframeReport(principal, payment, i)
  {
    var i := MonthlyRate(interestRate);
    assert i == 0.0 <==> interestRate == 0.0;
    TimeframeOutcome(principal, payment, i)
  }

  /** Different month counts are reported with different sentences. */
  lemma TimeframeSentenceDistinguishes(n1: nat, n2: nat)
    requires TimeframeSentence(n1 / 12, n1 % 12) == TimeframeSentence(n2 / 12, n2 % 12)
    ensures n1 == n2
  {
    TimeframeSentenceInjective(n1 / 12, n1 % 12, n2 / 12, n2 % 12);
  }

  /** `differentiate_payment` as a value: the month lines, then the overpayment when positive. */
  function DifferentiateSchedule(principal: int, timeframe: int, interestRate: real): (r: Response)
    requires principal >= 0 && timeframe >= 0 && interestRate >= 0.0
    ensures r.Raised? <==> principal > 0 && timeframe == 0
    ensures r.Raised? ==> r.fault == ZeroDivision
    ensures r.Printed? <==> !(principal > 0 && timeframe == 0)
    ensures r.Printed? ==>
      var ps := DiffPayments(principal, timeframe, MonthlyRate(interestRate));
      r.text == ScheduleMessage(ps, Sum(ps) - principal)
  {
    if principal > 0 && timeframe == 0 then
      Raised(ZeroDivision)  // `principal / timeframe` in the first month
    else
      var ps := DiffPayments(principal, timeframe, MonthlyRate(interestRate));
      Printed(ScheduleMessage(ps, Sum(ps) - principal))
  }

  /** A zero principal prints nothing at all, whatever the periods and rate. */
  lemma ZeroPrincipalPrintsNothing(timeframe: int, interestRate: real)
    requires timeframe >= 0 && interestRate >= 0.0
    ensures DifferentiateSchedule(0, timeframe, interestRate) == Printed("")
  {
    DiffPaymentsFacts(0, timeframe, MonthlyRate(interestRate));
    assert ScheduleMessage([], 0) == "" + "";
  }

  /**
   * `differentiate_payment`: pays month after month while the balance is
   * positive, appending one line per month, then the overpayment when positive.
   */
  method DifferentiatePayment(principal: int, timeframe: int, interestRate: real) returns (r: Response)
    requires principal >= 0 && timeframe >= 0 && interestRate >= 0.0
    ensures r == DifferentiateSchedule(principal, timeframe, interestRate)
  {
    var m := 1;
    var balance := principal;
    var paid := 0;
    var output := "";
    ghost var i := MonthlyRate(interestRate);
    ghost var done: seq<int> := [];

    while balance > 0
      invariant balance == principal - paid
      invariant m == |done| + 1
      invariant paid == Sum(done)
      invariant output == ScheduleLines(done, 1)
      invariant timeframe == 0 ==> done == []
      invariant timeframe > 0 ==> DiffLoopState(principal, timeframe, i, m, paid, done)
      decreases timeframe + 1 - m
    {
      if timeframe == 0 {
        return Raised(ZeroDivision);  // `principal / timeframe`
      }
      var interest := MonthlyRate(interestRate);
      var payment := MonthPayment(principal, timeframe, interest, m);
      DiffLoopStep(principal, timeframe, i, m, paid, done);
      ScheduleLinesAppend(done, 1, payment);
      SumAppend(done, payment);
      output := output + MonthLine(m, payment);
      balance := balance - payment;
      paid := paid + payment;
      m := m + 1;
      done := done + [payment];
    }

    ghost var ps := DiffPayments(principal, timeframe, i);
    assert ps == done by {
      if timeframe > 0 {
        assert DiffPaymentsFrom(principal, timeframe, i, m, paid) == [];
        assert ps == done + [];
      }
    }
    var overpayment := paid - principal;
    if overpayment > 0 {
      output := output + ("\nOverpayment = " + IntToString(overpayment));
    }
    assert output == ScheduleMessage(ps, Sum(ps) - principal);
    return Printed(output);
  }
}
