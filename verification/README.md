# credit_calculator in Dafny

A model of the loan calculator `credit_calculator`. It is a command-line tool that takes
a loan described by up to five flags: `--type` (`annuity` or `diff`), `--principal`,
`--interest` (a yearly percentage), `--periods` (months) and `--payment`. It then computes
the one value that is missing:
- the monthly annuity payment;
- the principal that a payment repays;
- the number of months until the loan is repaid;
- for a differentiated loan, the schedule of declining monthly payments.

Any violation of the flag rules prints "Incorrect parameters". With no flags, the tool
starts an interactive session built from `Prompt` and `Choice` objects.

The modules follow the source files:

- `Validation` (validation.dfy): the parsed flag record `LoanInputs` and the ordered
  rules of `Calculator._check_arguments`, as the function `Validate`.
- `CreditCalculator` (calculator.dfy): the `Calculator` class, with
  `CheckArguments` (the two loops of `_check_arguments`) and `Calculate` (the dispatch
  of `calculate`), plus the function `Calculation` they are proved against.
- `Amortization` (amortization.dfy): the four calculations. Each returns a
  `Response`: the printed text, or the Python exception it would raise (`ZeroDivision`,
  `MathDomain`).
  - The annuity formulas are tied to the month-by-month loan balance. The payment is the
    least whole payment that clears the loan. The principal is the nearest whole number
    to the exactly repaid principal. The timeframe is the least month count that clears
    the loan.
  - The differentiated schedule is computed by the imperative method `DifferentiatePayment`.
    It mirrors the `while balance > 0` loop and is proved equal to the recursive
    `DiffPayments`.
- `Prompts` (prompt.dfy): the `Prompt` class, covering building the menu, reading a
  reply, and the integer and float prompts with their 0 fallback.
- `Choices` (choice.dfy): the `Choice` menu entry and its display line.
- `Numbers` (numbers.dfy): exact-real `ceil`, round-half-even `round`, integer powers,
  and the monthly rate `(rate / 12) / 100`.
- `Text` (text.dfy): decimal rendering of integers, ASCII lower-casing, and `join`/`split`
  on a separator.
- `Wrappers` (wrappers.dfy): `Option` and `Result`.

Python floats are modelled as exact reals throughout. `ceil(log(x, 1 + i))` is modelled
by its meaning: the least month count `n` with `(1 + i)^n >= x`.

## Model

| member | source | states |
|---|---|---|
| Numbers.MonthlyRate | credit_calculator/calculator.py:33-40 | the monthly rate is the yearly percentage divided by 1200 |
| Numbers.Ceil | credit_calculator/calculator.py:134 | `ceil` gives the least integer at or above its argument |
| Numbers.RoundHalfEven | credit_calculator/calculator.py:156 | `round` lies within one half of its argument; on an exact tie it picks the even neighbour |
| Validation.Validate | credit_calculator/calculator.py:42-86 | the rules apply in order: all five flags present gives TooManyValues; fewer than four gives ValueMissing; with four, a negative number gives NegativeValue; then a missing type or interest gives MissingParameter; otherwise the record is accepted unchanged, and accepted exactly when it is resolved (one of principal, periods and payment missing, nothing negative) |
| Validation.MissingAnswersAllFalse | credit_calculator/calculator.py:62-73 | the set of "missing" answers over the five fields equals `{False}` exactly when every field is given |
| Validation.NegativeAmongNumbers | credit_calculator/calculator.py:78-81 | the second loop finds a given, negative entry among principal, interest, periods and payment exactly when the record has a negative value |
| Validation.PresentCountSum | credit_calculator/calculator.py:64-68 | the count of given flags is the sum of one per given field |
| CreditCalculator.TallyArguments | credit_calculator/calculator.py:55-70 | the loop's `argc` counts the given fields, and `existing_values` holds exactly the "missing" answers seen |
| CreditCalculator.Calculator.constructor | credit_calculator/calculator.py:19-24 | a new calculator has no parsed arguments |
| CreditCalculator.Calculator.CheckArguments | credit_calculator/calculator.py:42-86 | stores the record and returns what `Validate` decides, error for error |
| CreditCalculator.RouteOf | credit_calculator/calculator.py:96-112 | each branch is taken exactly when the record is resolved and of that type with that value missing; a `diff` record with the payment given is rejected |
| CreditCalculator.CalculateInputs | credit_calculator/calculator.py:98-114 | each branch yields the result of its calculation; a rejected record yields "Incorrect parameters" |
| CreditCalculator.Calculation | credit_calculator/calculator.py:88-116 | the interactive session starts exactly when no arguments are given |
| CreditCalculator.Calculator.Calculate | credit_calculator/calculator.py:88-116 | the method returns what `Calculation` specifies, and keeps the given record |
| CreditCalculator.RejectedInputs | credit_calculator/calculator.py:72-84 | each failed check prints "Incorrect parameters" |
| CreditCalculator.ErrorMessageIffRejected | credit_calculator/calculator.py:113-114 | "Incorrect parameters" is printed exactly for the rejected records; no calculation prints it |
| Amortization.AnnuityFactor | credit_calculator/calculator.py:131-133 | `i * (1+i)^n / ((1+i)^n - 1)` is positive and satisfies its defining equation |
| Amortization.BalanceClosedForm | credit_calculator/calculator.py:131-134 | the balance after `k` months of paying `q` at rate `i` has the closed form `q - (1+i)^k (q - i P)`, divided by `i` |
| Amortization.RepaidIff | credit_calculator/calculator.py:131-134 | a payment repays the principal in `n` months exactly when it is at least the principal times the annuity factor |
| Amortization.AnnuityPaymentRepays | credit_calculator/calculator.py:130-134 | the computed payment clears the loan in the given months, and one unit less does not: it is the least whole payment that repays |
| Amortization.AnnuityPaymentCoversPrincipal | credit_calculator/calculator.py:134-135 | payment times months is at least the principal, so the overpayment is never negative |
| Amortization.AnnuityPrincipalNearest | credit_calculator/calculator.py:152-156 | the payment repays `payment / factor` exactly, and the printed principal is within one half of it |
| Amortization.PaymentThenPrincipal | credit_calculator/calculator.py:130-156 | computing the payment for a principal, then the principal for that payment, gives back at least the original, and less than `1/factor + 1/2` more |
| Amortization.ClearsByIff | credit_calculator/calculator.py:175-177 | the inequality `(1+i)^n >= payment / (payment - i P)` holds exactly when the balance is paid off after `n` months |
| Amortization.ClearingBound | credit_calculator/calculator.py:175-177 | when the payment exceeds the monthly interest, some month count clears the loan (a Bernoulli bound) |
| Amortization.TimeframePeriods | credit_calculator/calculator.py:175-177 | `ceil(log(...))` is the least month count that satisfies the clearing inequality |
| Amortization.TimeframeRepays | credit_calculator/calculator.py:175-177 | after the computed months nothing is owed, and after every earlier month something still is |
| Amortization.ClauseWording | credit_calculator/calculator.py:182-199 | a positive count uses the singular word exactly when it is 1 |
| Amortization.ClauseInjective | credit_calculator/calculator.py:192-199 | the `"{n} {word} "` clause determines its count |
| Amortization.DurationInjective | credit_calculator/calculator.py:188-201 | the years-and-months wording determines both the years and the months |
| Amortization.TimeframeSentenceInjective | credit_calculator/calculator.py:188-201 | the timeframe sentence determines the years and the months |
| Amortization.TimeframeSentenceDistinguishes | credit_calculator/calculator.py:177-201 | different month counts give different sentences (the `divmod` by 12 loses nothing) |
| Amortization.TimeframeSentenceYears | credit_calculator/calculator.py:188-201 | 24 months reads "You need 2 years to repay this credit!" |
| Amortization.TimeframeSentenceMonths | credit_calculator/calculator.py:188-201 | 3 months reads "You need 3 months to repay this credit!" |
| Amortization.TimeframeSentenceYearsAndMonths | credit_calculator/calculator.py:188-201 | 25 months reads "You need 2 years and 1 month to repay this credit!" |
| Amortization.SmallClauses | credit_calculator/calculator.py:182-199 | a zero count prints nothing; 1 takes the singular; 2 and 3 take the plural |
| Amortization.OverpaymentLine | credit_calculator/calculator.py:138-139 | the overpayment line is printed exactly when the overpayment is positive |
| Amortization.AnnuityPayment | credit_calculator/calculator.py:118-141 | raises ZeroDivisionError exactly for a zero rate or zero months; otherwise prints the least repaying payment and the overpayment `payment * months - principal` |
| Amortization.AnnuityPrincipal | credit_calculator/calculator.py:143-164 | raises ZeroDivisionError exactly for a zero rate or zero months; otherwise prints the rounded principal and the overpayment `payment * months - principal` |
| Amortization.TimeframeOutcome | credit_calculator/calculator.py:175-206 | raises a math domain error exactly when the payment is below the monthly interest, and ZeroDivisionError exactly when it equals it or the rate is zero; otherwise prints the report for the least clearing month count |
| Amortization.AnnuityTimeframe | credit_calculator/calculator.py:166-206 | the same three outcomes, stated in terms of the yearly percentage |
| Amortization.MonthAmountAtLeastShare | credit_calculator/calculator.py:228 | up to the month after the last, each month's amount is at least `principal / timeframe` |
| Amortization.MonthPaymentDeclines | credit_calculator/calculator.py:228-230 | later months never pay more than earlier ones |
| Amortization.NextMonth | credit_calculator/calculator.py:226-234 | while something is owed, the month number stays within the term, the payment is at least 1, and the total paid keeps pace with the principal share |
| Amortization.DiffPaymentsFrom | credit_calculator/calculator.py:226-234 | the loop continued from month `m` makes at most `timeframe + 1 - m` more payments |
| Amortization.DiffPaymentsFromFacts | credit_calculator/calculator.py:226-234 | the continued loop stops as soon as the total paid reaches the principal, and not before; each payment is that month's formula, rounded up, and at least 1 |
| Amortization.DiffLoopStep | credit_calculator/calculator.py:226-234 | one iteration of the loop keeps its invariant |
| Amortization.DiffPaymentsFacts | credit_calculator/calculator.py:221-234 | no payments for a zero principal; otherwise between 1 and `timeframe` payments; they are each month's formula, non-increasing, at least 1; the loop stops exactly when the principal is covered |
| Amortization.ScheduleShorterThanPeriods | credit_calculator/calculator.py:226-234 | principal 10 over 6 months at no interest is paid in 5 months, not 6 |
| Amortization.ScheduleLinesAppend | credit_calculator/calculator.py:231 | appending a payment appends its `Month {m}: paid out {p}` line |
| Amortization.LineTextHasNoNewline | credit_calculator/calculator.py:231 | a month line holds no newline before its end |
| Amortization.LineTextsAt | credit_calculator/calculator.py:231 | the `k`-th line names month `first + k` and the `k`-th payment |
| Amortization.ScheduleLinesSplit | credit_calculator/calculator.py:231 | splitting the schedule at newlines gives back exactly the month lines, then an empty part |
| Amortization.DifferentiateSchedule | credit_calculator/calculator.py:208-241 | raises ZeroDivisionError exactly for a positive principal over zero months; otherwise prints the month lines and the overpayment `paid - principal` |
| Amortization.ZeroPrincipalPrintsNothing | credit_calculator/calculator.py:221-239 | a zero principal prints nothing at all |
| Amortization.DifferentiatePayment | credit_calculator/calculator.py:208-241 | the `while balance > 0` loop returns what `DifferentiateSchedule` specifies |
| Text.IntToStringRoundTrip | credit_calculator/calculator.py:136 | the decimal text of an integer in an f-string parses back to that integer |
| Text.IntToStringInjective | credit_calculator/calculator.py:136 | different integers print differently |
| Text.Lower | credit_calculator/prompt.py:47 | lower-casing keeps the length, turns each capital letter into its lower-case letter, leaves no capital letter and changes nothing else |
| Text.LowerIdempotent | credit_calculator/prompt.py:47 | lower-casing twice is lower-casing once |
| Text.SplitJoin | credit_calculator/prompt.py:36 | splitting the `"\n".join` of lines without newlines gives back the lines |
| Choices.ChoiceStoresArguments | credit_calculator/choice.py:2-12 | a choice keeps its letter and description and is not the default unless asked |
| Choices.ShowShape | credit_calculator/choice.py:14-25 | the line is the quoted letter, " - " and the description, with " (default)" appended exactly for the default entry |
| Choices.ShowInjective | credit_calculator/choice.py:20-23 | for letters without a quote and an equal default flag, the line determines the entry |
| Choices.ShowAmbiguousAcrossFlags | credit_calculator/choice.py:20-23 | the flag does not always show: a description ending in " (default)" reads like the default entry |
| Prompts.Prompt.constructor | credit_calculator/prompt.py:5-16 | a new prompt keeps its text and choices, has no accepted values, no default and no answer |
| Prompts.Shows | credit_calculator/prompt.py:28-30 | the list of displayed lines has one line per choice |
| Prompts.ShowsAt | credit_calculator/prompt.py:29-30 | the `k`-th displayed line is the `k`-th choice's `show()` |
| Prompts.LettersOfEntries | credit_calculator/prompt.py:29-31 | the letters added to the accepted values are exactly those of the choices |
| Prompts.LastDefaultIsLastFlagged | credit_calculator/prompt.py:29-34 | the default after the loop is the last flagged choice, or the old default when none is flagged |
| Prompts.LastDefaultIdempotent | credit_calculator/prompt.py:29-34 | walking the choices again does not change the default |
| Prompts.WalkOneMore | credit_calculator/prompt.py:29-34 | one iteration appends one line, adds one letter and replaces the default only for a flagged entry |
| Prompts.MenuLines | credit_calculator/prompt.py:24-39 | the menu splits into the question line, one line per choice (the last one ending in ": ") and the "> " line |
| Prompts.Prompt.BuildPrompt | credit_calculator/prompt.py:18-39 | returns the menu; adds every letter to the accepted values; sets the default to the last flagged choice; changes nothing else |
| Prompts.RebuildIdempotent | credit_calculator/prompt.py:18-39 | building the prompt a second time leaves the accepted values and the default as they are |
| Prompts.Reply | credit_calculator/prompt.py:49-53 | an empty reply gives the default's letter when there is a default; otherwise the reply is returned as typed |
| Prompts.Prompt.Ask | credit_calculator/prompt.py:41-53 | shows the menu, lower-cases the input and returns `Reply`; records the input as the choice unless the default's letter was returned |
| Prompts.Prompt.IntPrompt | credit_calculator/prompt.py:55-64 | the reply converted to an integer, or 0 when it does not convert; as in `prompt`, the lower-cased input is recorded as the choice unless the default's letter was returned |
| Prompts.Prompt.FloatPrompt | credit_calculator/prompt.py:66-75 | the reply converted to a number, or 0 when it does not convert; as in `prompt`, the lower-cased input is recorded as the choice unless the default's letter was returned |

## Left out

- Floating point: every float is an exact real. `pow`, `log`, `ceil` and `round` can differ
  from the model where IEEE rounding moves a value across an integer or a half. `OverflowError`
  and infinities for huge inputs are not modelled.
- `ceil(log(x, 1 + i))` is modelled as the least `n` with `(1 + i)^n >= x`. For exact reals
  that is the same thing; for floats it can be off by one at an exact power.
- The argument parser (`argument_parser.py`, argparse) is not part of this model. `LoanInputs`
  is its result, so typing errors, unknown flags and `--type` values outside `annuity`/`diff`
  never reach the model.
- CreditCalculator.Calculator.Calculate: only the first call with arguments on a calculator
  matches the source. `ArgumentParser.parse_args` registers the five flags again on every call
  (credit_calculator/argument_parser.py:12-16). So on a second call with arguments, argparse
  raises `ArgumentError` ("conflicting option string") before parsing. `calculate` does not
  catch that error (credit_calculator/calculator.py:113), and `self.arguments` keeps its old
  value. The model's `Calculate` and `CheckArguments` accept any number of calls and store
  each new record.
- `interactive_mode` and `load_interactive_prompts` are not modelled; `calculate` with no
  arguments returns `Interactive`. For the same reason the Calculator's
  `calc_prompt`/`principal_prompt`/… fields are absent, as is its `argument_parser`.
- Prompts.Prompt.Ask: `input()` is replaced by the line the user typed, passed as a
  parameter. The printed menu is returned as `shown`.
- Prompts.Prompt.IntPrompt and Prompts.Prompt.FloatPrompt: Python's `int()` and `float()`
  are passed in as `parse`, which returns `None` where Python raises `ValueError`. Their
  accepted syntax (signs, whitespace, underscores) is not modelled. `float_prompt` returns
  the integer `0` on failure; the model returns `0.0`, which is the same number.
- Text.Lower: `str.lower()` is modelled for ASCII letters only.
- `accepted_values` is collected by `_build_prompt` but never consulted; the model keeps it
  the same way.
- `is ()` on the choice tuple in `_build_prompt` is modelled as an emptiness test. The
  varargs always form a tuple, and CPython has a single empty tuple.
- Amortization.AnnuityTimeframe, Amortization.TimeframeOutcome, Amortization.AnnuityPayment,
  Amortization.AnnuityPrincipal, Amortization.DifferentiateSchedule and
  Amortization.DifferentiatePayment require non-negative amounts, months and interest. They
  are not modelled for negative inputs, because `calculate` reaches them only after the
  negative-value check (credit_calculator/calculator.py:79-81).
- Amortization.DifferentiatePayment: `interactive_mode` (credit_calculator/calculator.py:273-278)
  passes prompt answers without that check. `int_prompt` returns -5 for "-5". There, a
  positive principal with negative months and no positive interest makes every month's
  amount negative (calculator.py:228). The balance then only grows, so `while balance > 0`
  (calculator.py:226) never ends: `differentiate_payment(100, -5, 0)` does not return. The
  model's loop is proved to terminate only under its requires, so it does not capture
  this case.
- Amortization.DiffPaymentsFacts: one would expect the differentiated schedule to have one
  line per period. The code instead runs the loop until the balance is paid, so rounding up
  can end it early. The model follows the code: at most `timeframe` lines, and fewer in
  cases such as principal 10 over 6 months (`ScheduleShorterThanPeriods`).
- Amortization.PaymentThenPrincipal: the round trip from payment back to principal is not
  exact to within one. The rounded-up payment can exceed the exact one by almost 1, which
  returns up to `1/factor` more principal. The lemma states that bound instead.
- Uncaught exceptions are values of `Response` (`Raised(ZeroDivision)`, `Raised(MathDomain)`)
  rather than control flow.
