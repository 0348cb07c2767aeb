/** The payment record the generator reads: twelve public, non-final fields of which only the
    constructors insist that amount and iban are present. Because the fields can be reassigned to
    null afterwards, every field here is optional and the validator checks them again. */
module Payment {
  import opened Wrappers

  /** A java.math.BigDecimal: unscaled * 10^(-scale). */
  datatype Decimal = Decimal(unscaled: int, scale: int)

  /** A java.util.Date as the calendar day it falls on in the default time zone (year of era,
      month 1 to 12, day of month). */
  datatype Date = Date(year: nat, month: nat, day: nat)

  datatype PaymentData = PaymentData(
    amount: Option<Decimal>,
    iban: Option<string>,
    swift: Option<string>,
    date: Option<Date>,
    beneficiaryName: Option<string>,
    currency: Option<string>,
    variableSymbol: Option<string>,
    constantSymbol: Option<string>,
    specificSymbol: Option<string>,
    note: Option<string>,
    beneficiaryAddr1: Option<string>,
    beneficiaryAddr2: Option<string>)

  /** The twelve-argument constructor: Objects.requireNonNull on amount, then on iban, then every
      field assigned as passed. A NullPointerException is a Failure carrying its message. */
  function NewPaymentData(
    amount: Option<Decimal>, iban: Option<string>, swift: Option<string>, date: Option<Date>,
    beneficiaryName: Option<string>, currency: Option<string>, variableSymbol: Option<string>,
    constantSymbol: Option<string>, specificSymbol: Option<string>, note: Option<string>,
    beneficiaryAddr1: Option<string>, beneficiaryAddr2: Option<string>): (r: Result<PaymentData, string>)
    ensures r.Success? <==> amount.Some? && iban.Some?
    ensures amount.None? ==> r == Failure("Amount is required")
    ensures amount.Some? && iban.None? ==> r == Failure("IBAN is required")
    ensures r.Success? ==>
      r.value.amount == amount && r.value.iban == iban && r.value.swift == swift &&
      r.value.date == date && r.value.beneficiaryName == beneficiaryName &&
      r.value.currency == currency && r.value.variableSymbol == variableSymbol &&
      r.value.constantSymbol == constantSymbol && r.value.specificSymbol == specificSymbol &&
      r.value.note == note && r.value.beneficiaryAddr1 == beneficiaryAddr1 &&
      r.value.beneficiaryAddr2 == beneficiaryAddr2
  {
    if amount.None? then Failure("Amount is required")
    else if iban.None? then Failure("IBAN is required")
    else Success(PaymentData(amount, iban, swift, date, beneficiaryName, currency, variableSymbol,
                             constantSymbol, specificSymbol, note, beneficiaryAddr1, beneficiaryAddr2))
  }

  /** The six-argument constructor. `today` stands for the `new Date()` it takes as the due date. */
  function NewSimplePaymentData(
    amount: Option<Decimal>, iban: Option<string>, currency: Option<string>,
    variableSymbol: Option<string>, constantSymbol: Option<string>, note: Option<string>,
    today: Date): (r: Result<PaymentData, string>)
    ensures r.Success? <==> amount.Some? && iban.Some?
    ensures amount.None? ==> r == Failure("Amount is required")
    ensures amount.Some? && iban.None? ==> r == Failure("IBAN is required")
    ensures r.Success? ==>
      r.value.amount == amount && r.value.iban == iban && r.value.currency == currency &&
      r.value.variableSymbol == variableSymbol && r.value.constantSymbol == constantSymbol &&
      r.value.note == note && r.value.date == Some(today) &&
      r.value.swift.None? && r.value.beneficiaryName.None? && r.value.specificSymbol.None? &&
      r.value.beneficiaryAddr1.None? && r.value.beneficiaryAddr2.None?
  {
    NewPaymentData(amount, iban, None, Some(today), None, currency, variableSymbol, constantSymbol,
                   None, note, None, None)
  }
}
