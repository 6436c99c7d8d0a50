/** The ledger entry record of models/transaction.py and its validator. */
module Transaction {
  import opened Wrappers
  import DateFormat

  /** The two entry types the validator admits (income, expense). */
  const Income: string := "수입"
  const Expense: string := "지출"

  /**
   * The Python object held in `amount`. The dataclass does not enforce its
   * annotation, so the validator has to look at the runtime type; `bool` is a
   * subclass of `int` in Python, so `isinstance(True, int)` holds.
   */
  datatype AmountValue = IntValue(i: int) | BoolValue(b: bool) | OtherValue

  /** `isinstance(amount, int)`: an int, or a bool because `bool` subclasses `int`; nothing else. */
  function IsInt(v: AmountValue): (b: bool)
    ensures v.BoolValue? ==> b
    ensures b <==> !v.OtherValue?
  {
    v.IntValue? || v.BoolValue?
  }

  /** One ledger line. `type` is a keyword here, so the field is called `kind`. */
  datatype Transaction = Transaction(
    date: string,
    kind: string,
    category: string,
    description: string,
    amount: AmountValue)

  /** Which check raised ValueError. */
  datatype ValidationError = InvalidDate | InvalidType | InvalidAmount

  /** `Transaction.validate`: Pass where the Python returns normally, Fail where it raises. */
  function Validate(tx: Transaction): (r: Outcome<ValidationError>)
    ensures r.Pass? ==> DateFormat.Parse(tx.date).Some? && IsInt(tx.amount)
  {
    if DateFormat.Parse(tx.date).None? then Fail(InvalidDate)
    else if tx.kind != Income && tx.kind != Expense then Fail(InvalidType)
    else if !IsInt(tx.amount) then Fail(InvalidAmount)
    else Pass
  }

  /** The validator accepts exactly the entries that pass all three checks. */
  lemma ValidateAcceptsExactly(tx: Transaction)
    ensures Validate(tx) == Pass <==>
      && DateFormat.Parse(tx.date).Some?
      && (tx.kind == Income || tx.kind == Expense)
      && IsInt(tx.amount)
  {
  }

  /** The checks run in order: the first one that fails is the one reported. */
  lemma ValidateReportsFirstFailure(tx: Transaction)
    ensures DateFormat.Parse(tx.date).None? ==> Validate(tx) == Fail(InvalidDate)
    ensures DateFormat.Parse(tx.date).Some? && tx.kind != Income && tx.kind != Expense ==>
              Validate(tx) == Fail(InvalidType)
    ensures DateFormat.Parse(tx.date).Some? && (tx.kind == Income || tx.kind == Expense) && !IsInt(tx.amount) ==>
              Validate(tx) == Fail(InvalidAmount)
  {
  }

  /** Category and description are free text: they never affect the verdict. */
  lemma ValidateIgnoresCategoryAndDescription(tx: Transaction, category: string, description: string)
    ensures Validate(tx.(category := category, description := description)) == Validate(tx)
  {
  }

  /** Only the type of the amount is checked, never its sign. */
  lemma NegativeAmountAccepted(date: string, kind: string, amount: int)
    requires DateFormat.Parse(date).Some?
    requires kind == Income || kind == Expense
    requires amount < 0
    ensures Validate(Transaction(date, kind, "", "", IntValue(amount))) == Pass
  {
  }

  /** A canonical date, a known type and an integer amount make a valid entry. */
  lemma FormattedEntryValid(d: DateFormat.Date, kind: string, category: string, description: string, amount: int)
    requires DateFormat.ValidDate(d)
    requires kind == Income || kind == Expense
    ensures Validate(Transaction(DateFormat.FormatDate(d), kind, category, description, IntValue(amount))) == Pass
  {
    DateFormat.ParseFormatRoundTrip(d);
  }

  /** Calendar errors are date errors: month 13, February 30th, February 29th of a common year. */
  lemma CalendarErrorsRejected(kind: string, amount: AmountValue)
    ensures Validate(Transaction("2025-13-01", kind, "", "", amount)) == Fail(InvalidDate)
    ensures Validate(Transaction("2024-02-30", kind, "", "", amount)) == Fail(InvalidDate)
    ensures Validate(Transaction("2023-02-29", kind, "", "", amount)) == Fail(InvalidDate)
  {
    DateFormat.RejectsMonth13();
    DateFormat.RejectsFebruary30();
    DateFormat.RejectsCommonLeapDay();
  }
}
