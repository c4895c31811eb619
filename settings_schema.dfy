/**
 * Request validation for a settings update: all three policy values are
 * required and each must lie in its range.
 */
module SettingsSchema {
  import opened Wrappers
  import opened Models
  import opened Validation

  /** A settings request body as received; a missing field is `None`. */
  datatype SettingsInput = SettingsInput(
    pickupWindowDays: Option<int>,
    standardLoanDays: Option<int>,
    dailyFineAmount: Option<real>)

  /** A request body that passed validation. */
  datatype SettingsUpdate = SettingsUpdate(pickupWindowDays: int, standardLoanDays: int, dailyFineAmount: real)

  predicate PickupWindowOk(n: int) { 1 <= n <= 14 }

  predicate LoanDaysOk(n: int) { 1 <= n <= 120 }

  predicate FineRateOk(x: real) { 0.0 <= x <= 100.0 }

  /** A policy every value of which the validator would accept. */
  predicate ValidPolicy(p: Policy) {
    PickupWindowOk(p.pickupWindowDays) && LoanDaysOk(p.standardLoanDays) && FineRateOk(p.dailyFineAmount)
  }

  /** Validates a request body, reporting every bad field in declaration order. */
  function ValidateSettingsUpdate(input: SettingsInput): (r: Result<SettingsUpdate, seq<FieldError>>)
    ensures r.Success? <==>
      && input.pickupWindowDays.Some? && PickupWindowOk(input.pickupWindowDays.value)
      && input.standardLoanDays.Some? && LoanDaysOk(input.standardLoanDays.value)
      && input.dailyFineAmount.Some? && FineRateOk(input.dailyFineAmount.value)
    ensures r.Success? ==>
      r.value == SettingsUpdate(input.pickupWindowDays.value, input.standardLoanDays.value, input.dailyFineAmount.value)
    ensures r.Failure? ==> r.error != []
    ensures r.Failure? ==> forall e | e in r.error ::
      (e.field == "pickup_window_days" ==> !(input.pickupWindowDays.Some? && PickupWindowOk(input.pickupWindowDays.value)))
      && (e.field == "standard_loan_days" ==> !(input.standardLoanDays.Some? && LoanDaysOk(input.standardLoanDays.value)))
      && (e.field == "daily_fine_amount" ==> !(input.dailyFineAmount.Some? && FineRateOk(input.dailyFineAmount.value)))
  {
    var errs :=
      FieldErrors("pickup_window_days", input.pickupWindowDays, PickupWindowOk)
      + FieldErrors("standard_loan_days", input.standardLoanDays, LoanDaysOk)
      + FieldErrors("daily_fine_amount", input.dailyFineAmount, FineRateOk);
    if errs == [] then
      Success(SettingsUpdate(input.pickupWindowDays.value, input.standardLoanDays.value, input.dailyFineAmount.value))
    else
      Failure(errs)
  }
}
