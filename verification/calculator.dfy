/**
 * The command-line entry point of the calculator (`credit_calculator/calculator.py`):
 * it checks the parsed flags, picks one of the four calculations, and turns
 * every validation error into the single message "Incorrect parameters".
 */
module CreditCalculator {
  import opened Wrappers
  import opened Text
  import opened Validation
  import opened Numbers
  import opened Amortization

  /** `ERR_INCORRECT_PARAMETERS`. */
  const IncorrectParameters: string := "Incorrect parameters"

  /** Which branch of `calculate` a record takes. */
  datatype Route = Timeframe | Principal | Payment | Schedule | Rejected

  /**
   * The branch `calculate` takes: rejected by the checks, or the annuity
   * calculation of the one absent value, or the schedule for `diff`, which
   * needs both the principal and the period count.
   */
  function RouteOf(a: LoanInputs): (route: Route)
    ensures route == Timeframe <==> Resolved(a) && a.scheme == Some(Annuity) && a.periods.None?
    ensures route == Principal <==> Resolved(a) && a.scheme == Some(Annuity) && a.principal.None?
    ensures route == Payment <==> Resolved(a) && a.scheme == Some(Annuity) && a.payment.None?
    ensures route == Schedule <==> Resolved(a) && a.scheme == Some(Diff) && a.payment.None?
    ensures route == Rejected <==> !Resolved(a) || (a.scheme == Some(Diff) && a.payment.Some?)
  {
    match Validate(a)
    case Err(_) => Rejected
    case Ok(v) =>
      assert v == a && Resolved(a);
      match a.scheme.value
      case Annuity =>
        if a.periods.None? then Timeframe
        else if a.principal.None? then Principal
        else Payment
      case Diff =>
        if a.principal.Some? && a.periods.Some? then Schedule else Rejected
  }

  /** What `calculate` returns for a parsed record. */
  function CalculateInputs(a: LoanInputs): (r: Response)
    ensures RouteOf(a) == Rejected ==> r == Printed(IncorrectParameters)
    ensures RouteOf(a) == Timeframe ==>
      r == AnnuityTimeframe(a.principal.value, a.payment.value, a.interest.value)
    ensures RouteOf(a) == Principal ==>
      r == AnnuityPrincipal(a.payment.value, a.periods.value, a.interest.value)
    ensures RouteOf(a) == Payment ==>
      r == AnnuityPayment(a.principal.value, a.periods.value, a.interest.value)
    ensures RouteOf(a) == Schedule ==>
      r == DifferentiateSchedule(a.principal.value, a.periods.value, a.interest.value)
  {
    match RouteOf(a)
    case Rejected => Printed(IncorrectParameters)
    case Timeframe => AnnuityTimeframe(a.principal.value, a.payment.value, a.interest.value)
    case Principal => AnnuityPrincipal(a.payment.value, a.periods.value, a.interest.value)
    case Payment => AnnuityPayment(a.principal.value, a.periods.value, a.interest.value)
    case Schedule => DifferentiateSchedule(a.principal.value, a.periods.value, a.interest.value)
  }

  /** `calculate`: no arguments start the interactive session; otherwise the record is calculated. */
  function Calculation(args: Option<LoanInputs>): (r: Response)
    ensures args.None? <==> r == Interactive
  {
    match args
    case None => Interactive
    case Some(a) => CalculateInputs(a)
  }

  /**
   * Every failed check reads "Incorrect parameters": all five flags (even with
   * a negative value among them), fewer than four, a negative value, or no
   * type or interest.
   */
  lemma RejectedInputs(a: LoanInputs)
    requires AllPresent(a) || PresentCount(a) < 4 || HasNegative(a) || a.scheme.None? || a.interest.None?
    ensures CalculateInputs(a) == Printed(IncorrectParameters)
  {
    PresentCountSum(a);
  }

  // ----- No calculation prints the error message -----

  lemma ScheduleLinesStart(payments: seq<int>)
    requires payments != []
    ensures ScheduleLines(payments, 1)[0] == 'M'
  {
    ScheduleLinesUnfold(payments, 1);
    assert LineText(1, payments[0])[0] == 'M';
  }

  /** The annuity payment and principal messages begin with "Your". */
  lemma AnnuityMessagesAreNotTheError(amount: int, overpayment: int)
    ensures PaymentMessage(amount, overpayment) != IncorrectParameters
    ensures PrincipalMessage(amount, overpayment) != IncorrectParameters
  {
    assert IncorrectParameters[0] == 'I';
    assert PaymentMessage(amount, overpayment)[0] == 'Y';
    assert PrincipalMessage(amount, overpayment)[0] == 'Y';
  }

  /** The timeframe message begins with "You need". */
  lemma TimeframeReportIsNotTheError(principal: int, payment: int, i: real)
    requires principal >= 0 && i > 0.0 && payment as real > i * principal as real
    ensures TimeframeReport(principal, payment, i) != IncorrectParameters
  {
    var n := TimeframePeriods(principal, payment, i);
    assert IncorrectParameters[0] == 'I';
    assert TimeframeSentence(n / 12, n % 12)[0] == 'Y';
    assert TimeframeMessage(n, payment * n - principal)[0] == 'Y';
  }

  /** The schedule begins with "Month", or is empty for a zero principal. */
  lemma ScheduleIsNotTheError(principal: int, periods: int, i: real)
    requires principal >= 0 && periods >= 0 && i >= 0.0 && (periods > 0 || principal == 0)
    ensures var ps := DiffPayments(principal, periods, i);
      ScheduleMessage(ps, Sum(ps) - principal) != IncorrectParameters
  {
    var ps := DiffPayments(principal, periods, i);
    if ps == [] {
      assert ScheduleMessage(ps, Sum(ps) - principal) == "" + OverpaymentLine(0 - principal);
    } else {
      ScheduleLinesStart(ps);
      assert ScheduleMessage(ps, Sum(ps) - principal)[0] == 'M';
    }
  }

  /**
   * "Incorrect parameters" is printed exactly for the records `calculate`
   * rejects; a calculation that goes through never prints it.
   */
  lemma ErrorMessageIffRejected(a: LoanInputs)
    ensures CalculateInputs(a) == Printed(IncorrectParameters) <==> RouteOf(a) == Rejected
  {
    if RouteOf(a) != Rejected {
      var i := MonthlyRate(a.interest.value);
      match RouteOf(a)
      case Timeframe =>
        if i > 0.0 && a.payment.value as real > i * a.principal.value as real {
          TimeframeReportIsNotTheError(a.principal.value, a.payment.value, i);
        }
      case Principal =>
        if i > 0.0 && a.periods.value > 0 {
          var p := AnnuityPrincipalAmount(a.payment.value, a.periods.value, i);
          AnnuityMessagesAreNotTheError(p, a.payment.value * a.periods.value - p);
        }
      case Payment =>
        if i > 0.0 && a.periods.value > 0 {
          var p := AnnuityPaymentAmount(a.principal.value, a.periods.value, i);
          AnnuityMessagesAreNotTheError(p, p * a.periods.value - a.principal.value);
        }
      case Schedule =>
        if a.periods.value > 0 || a.principal.value == 0 {
          ScheduleIsNotTheError(a.principal.value, a.periods.value, i);
        }
    }
  }

  /**
   * The first loop of `_check_arguments`: counts the given fields and
   * collects the answers of `value_missing` in a set.
   */
  method TallyArguments(given: seq<bool>) returns (argc: nat, existingValues: set<bool>)
    ensures argc == CountTrue(given)
    ensures existingValues == set j | 0 <= j < |given| :: !given[j]
  {
    argc := 0;
    existingValues := {};
    var k := 0;
    while k < |given|
      invariant 0 <= k <= |given|
      invariant argc == CountTrue(given[..k])
      invariant existingValues == set j | 0 <= j < k :: !given[j]
    {
      assert given[..k + 1][..k] == given[..k];
      var missing := !given[k];
      if !missing {
        argc := argc + 1;
      }
      existingValues := existingValues + {missing};
      k := k + 1;
    }
    assert given[..|given|] == given;
  }

  /** The calculator object: it keeps the last parsed record. */
  class Calculator {
    var arguments: Option<LoanInputs>

    /** A calculator that has parsed nothing yet. */
    constructor()
      ensures arguments == None
    {
      arguments := None;
    }

    /**
     * `_check_arguments`: stores the record, counts the given flags and
     * collects the "missing" answers, then applies the rules in order.
     */
    method CheckArguments(a: LoanInputs) returns (r: Result<LoanInputs, ValidationError>)
      modifies this
      ensures arguments == Some(a)
      ensures r == Validate(a)
    {
      arguments := Some(a);
      var argc, existingValues := TallyArguments(Presence(a));
      assert existingValues == MissingAnswers(a);
      MissingAnswersAllFalse(a);
      PresentCountSum(a);
      if existingValues == {false} {
        return Err(TooManyValues);
      }
      if argc < 4 {
        return Err(ValueMissing);
      }
      var numbers := NumericArguments(a);
      NegativeAmongNumbers(a);
      for k := 0 to |numbers|
        invariant forall j :: 0 <= j < k ==> !(numbers[j].Some? && numbers[j].value < 0.0)
      {
        if numbers[k].Some? && numbers[k].value < 0.0 {
          return Err(NegativeValue);
        }
      }
      if a.scheme.None? || a.interest.None? {
        return Err(MissingParameter);
      }
      return Ok(a);
    }

    /**
     * `calculate`: the interactive session for no arguments; otherwise the
     * checks, the chosen calculation, and "Incorrect parameters" for any
     * failed check or a `diff` request without principal or periods.
     */
    method Calculate(args: Option<LoanInputs>) returns (out: Response)
      modifies this
      ensures out == Calculation(args)
      ensures arguments == if args.Some? then args else old(arguments)
    {
      if args.None? {
        return Interactive;
      }
      var checked := CheckArguments(args.value);
      if checked.Err? {
        return Printed(IncorrectParameters);
      }
      var v := checked.value;
      var principal, interest, periods, payment := v.principal, v.interest.value, v.periods, v.payment;
      if v.scheme.value == Annuity {
        if periods.None? {
          return AnnuityTimeframe(principal.value, payment.value, interest);
        } else if principal.None? {
          return AnnuityPrincipal(payment.value, periods.value, interest);
        } else {
          return AnnuityPayment(principal.value, periods.value, interest);
        }
      } else if principal.Some? && periods.Some? {
        out := DifferentiatePayment(principal.value, periods.value, interest);
      } else {
        return Printed(IncorrectParameters);  // `raise ValueMissingError`, caught below it
      }
    }
  }
}
