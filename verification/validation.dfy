/**
 * The input record of the calculator and the ordered rules that decide
 * whether it can be computed (`Calculator._check_arguments`).
 */
module Validation {
  import opened Wrappers

  /** The `--type` choice: `annuity` or `diff`. */
  datatype Scheme = Annuity | Diff

  /**
   * The five optional fields as the argument parser yields them: `None` for a
   * flag that was not given. Principal, periods and payment are Python ints,
   * the interest is a float (a percentage per year).
   */
  datatype LoanInputs = LoanInputs(
    scheme: Option<Scheme>,
    principal: Option<int>,
    interest: Option<real>,
    periods: Option<int>,
    payment: Option<int>)

  /** The four exception classes `_check_arguments` raises. */
  datatype ValidationError = TooManyValues | ValueMissing | NegativeValue | MissingParameter

  /** Which fields are present, in the order the source walks them: type, principal, interest, periods, payment. */
  function Presence(a: LoanInputs): (flags: seq<bool>)
    ensures |flags| == 5
  {
    [a.scheme.Some?, a.principal.Some?, a.interest.Some?, a.periods.Some?, a.payment.Some?]
  }

  /** Number of `true` entries. */
  function CountTrue(flags: seq<bool>): (n: nat)
    ensures n <= |flags|
  {
    if flags == [] then 0 else CountTrue(flags[..|flags| - 1]) + (if flags[|flags| - 1] then 1 else 0)
  }

  /** The number of fields given. */
  function PresentCount(a: LoanInputs): (n: nat)
    ensures n <= 5
  {
    CountTrue(Presence(a))
  }

  /** Nothing is left to solve for. */
  predicate AllPresent(a: LoanInputs) {
    a.scheme.Some? && a.principal.Some? && a.interest.Some? && a.periods.Some? && a.payment.Some?
  }

  /** Some given numeric field is below zero (zero itself passes). */
  predicate HasNegative(a: LoanInputs) {
    || (a.principal.Some? && a.principal.value < 0)
    || (a.interest.Some? && a.interest.value < 0.0)
    || (a.periods.Some? && a.periods.value < 0)
    || (a.payment.Some? && a.payment.value < 0)
  }

  /**
   * What a record that passes every rule looks like: type and interest given,
   * exactly one of principal, periods and payment absent, nothing negative.
   */
  predicate Resolved(a: LoanInputs) {
    && a.scheme.Some? && a.interest.Some? && a.interest.value >= 0.0
    && (a.principal.Some? ==> a.principal.value >= 0)
    && (a.periods.Some? ==> a.periods.value >= 0)
    && (a.payment.Some? ==> a.payment.value >= 0)
    && ((a.principal.None? && a.periods.Some? && a.payment.Some?)
     || (a.principal.Some? && a.periods.None? && a.payment.Some?)
     || (a.principal.Some? && a.periods.Some? && a.payment.None?))
  }

  lemma PresentCountSum(a: LoanInputs)
    ensures PresentCount(a) ==
      (if a.scheme.Some? then 1 else 0) + (if a.principal.Some? then 1 else 0)
      + (if a.interest.Some? then 1 else 0) + (if a.periods.Some? then 1 else 0)
      + (if a.payment.Some? then 1 else 0)
  {
    var f := Presence(a);
    assert f[..5 - 1] == f[..4];
    assert f[..4][..3] == f[..3];
    assert f[..3][..2] == f[..2];
    assert f[..2][..1] == f[..1];
    assert f[..1][..0] == [];
    assert CountTrue(f[..1]) == (if f[0] then 1 else 0);
    assert CountTrue(f[..2]) == CountTrue(f[..1]) + (if f[1] then 1 else 0);
    assert CountTrue(f[..3]) == CountTrue(f[..2]) + (if f[2] then 1 else 0);
    assert CountTrue(f[..4]) == CountTrue(f[..3]) + (if f[3] then 1 else 0);
  }

  /** The answers of `value_missing` for the five fields, as the set the source collects them in. */
  function MissingAnswers(a: LoanInputs): set<bool> {
    set j | 0 <= j < 5 :: !Presence(a)[j]
  }

  /** The set of answers is `{False}` exactly when every field is given. */
  lemma MissingAnswersAllFalse(a: LoanInputs)
    ensures MissingAnswers(a) == {false} <==> AllPresent(a)
  {
    var given := Presence(a);
    if AllPresent(a) {
      assert !given[0] in MissingAnswers(a);
    } else {
      var j := if !given[0] then 0 else if !given[1] then 1 else if !given[2] then 2
               else if !given[3] then 3 else 4;
      assert !given[j] in MissingAnswers(a);
    }
  }

  /** The numeric fields in the order the source checks their signs: principal, interest, periods, payment. */
  function NumericArguments(a: LoanInputs): (numbers: seq<Option<real>>)
    ensures |numbers| == 4
  {
    [ if a.principal.Some? then Some(a.principal.value as real) else None,
      a.interest,
      if a.periods.Some? then Some(a.periods.value as real) else None,
      if a.payment.Some? then Some(a.payment.value as real) else None ]
  }

  /** Some numeric field is negative exactly when one of the checked values is. */
  lemma NegativeAmongNumbers(a: LoanInputs)
    ensures HasNegative(a) <==>
      exists j :: 0 <= j < 4 && NumericArguments(a)[j].Some? && NumericArguments(a)[j].value < 0.0
  {
    var numbers := NumericArguments(a);
    if HasNegative(a) {
      var j := if a.principal.Some? && a.principal.value < 0 then 0
               else if a.interest.Some? && a.interest.value < 0.0 then 1
               else if a.periods.Some? && a.periods.value < 0 then 2 else 3;
      assert numbers[j].Some? && numbers[j].value < 0.0;
    }
  }

  /**
   * The rules of `_check_arguments` in their order; the first that fails decides the error:
   * all five given, fewer than four given, a negative number, type or interest absent.
   */
  function Validate(a: LoanInputs): (r: Result<LoanInputs, ValidationError>)
    ensures r == Err(TooManyValues) <==> AllPresent(a)
    ensures r == Err(ValueMissing) <==> PresentCount(a) < 4
    ensures r == Err(NegativeValue) <==> PresentCount(a) == 4 && HasNegative(a)
    ensures r == Err(MissingParameter) <==>
              PresentCount(a) == 4 && !HasNegative(a) && (a.scheme.None? || a.interest.None?)
    ensures r.Ok? <==> Resolved(a)
    ensures r.Ok? ==> r.value == a && PresentCount(a) == 4
  {
    PresentCountSum(a);
    if AllPresent(a) then Err(TooManyValues)
    else if PresentCount(a) < 4 then Err(ValueMissing)
    else if HasNegative(a) then Err(NegativeValue)
    else if a.scheme.None? || a.interest.None? then Err(MissingParameter)
    else Ok(a)
  }
}
