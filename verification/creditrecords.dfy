/**
  `process_credit` (`src/main.py`): every transaction is run through the
  incoming-transfer check and then the reversal check; then `DATE` is
  added. As in `DebitRecords`, a row is assembled from which checks fire
  (`Checks`) and what the extractors return (`Fields`).

  As written, the reversal block reads its amount from the header, which
  must equal the fixed reversal headline and so holds no naira sign: the
  conversion always raises. `IntendedFieldsOf` reads that amount from the
  body instead; `ProcessCredit` keeps the program as written.
 */
module CreditRecords {
  import opened PyStr
  import opened Records
  import Processes
  import Credit

  // ---------------------------------------------------------------------
  // What the checks decide and what the extractors return

  datatype Checks = Checks(alert: bool, reversal: bool)

  function ChecksOf(t: Transaction): (r: Checks) {
    Checks(Credit.IsCreditByAlert(t.information), Credit.IsCreditByReversal(t.header))
  }

  /**
    The alert amount (token found first, commas removed after), the alert
    details, and the amount the reversal block converts.
   */
  datatype Fields = Fields(amount: Result<int>, alert: Result<Credit.CreditInfo>, reversalAmount: Result<int>)

  /** As written: the reversal amount comes from the header. */
  function FieldsOf(t: Transaction): (r: Fields) {
    Fields(Processes.TokenAmount(t.information), Credit.GetCreditByAlertInfo(t.information),
           Processes.StrippedAmount(t.header))
  }

  /** As intended: the reversal amount comes from the body, like every other amount. */
  function IntendedFieldsOf(t: Transaction): (r: Fields) {
    Fields(Processes.TokenAmount(t.information), Credit.GetCreditByAlertInfo(t.information),
           Processes.StrippedAmount(t.information))
  }

  // ---------------------------------------------------------------------
  // The two blocks of the loop body, in program order

  /** Incoming transfer: the amount is converted before the sender is cut out. */
  function AlertStep(c: Checks, f: Fields, res: Record): (r: Result<Record>) {
    if !c.alert then Ok(res.(creditByAlert := Some(Flag(false))))
    else
      var amount :- f.amount;
      var alert :- f.alert;
      Ok(res.(creditByAlert := Some(Flag(true)), amount := Some(Int(amount)),
              sender := Some(Str(alert.sender)), description := Some(Str(alert.description))))
  }

  /** Reversal: overwrites `AMOUNT`, then sets its flag. */
  function ReversalStep(c: Checks, f: Fields, res: Record): (r: Result<Record>) {
    if !c.reversal then Ok(res.(creditByReversal := Some(Flag(false))))
    else
      var amount :- f.reversalAmount;
      Ok(res.(amount := Some(Int(amount)), creditByReversal := Some(Flag(true))))
  }

  function BuildCredit(c: Checks, f: Fields, date: string): (r: Result<Record>) {
    var r1 :- AlertStep(c, f, EmptyRecord);
    var r2 :- ReversalStep(c, f, r1);
    Ok(r2.(date := Some(Str(date))))
  }

  /** The row one iteration of the loop builds, or the exception it raises. */
  function CreditRecord(t: Transaction): (r: Result<Record>) {
    BuildCredit(ChecksOf(t), FieldsOf(t), t.date)
  }

  /** The row with the reversal amount read from the body. */
  function IntendedCreditRecord(t: Transaction): (r: Result<Record>) {
    BuildCredit(ChecksOf(t), IntendedFieldsOf(t), t.date)
  }

  // ---------------------------------------------------------------------
  // Reference descriptions and properties of the assembly

  /** Whether a row holds a column, read off the checks that fire. */
  predicate Expected(c: Checks, col: Column) {
    match col
    case CreditByAlert | CreditByReversal | Date => true
    case Amount => c.alert || c.reversal
    case Sender | Description => c.alert
    case _ => false
  }

  /** The first field a firing block consumes that is an error, in the order the blocks run. */
  function FirstFailure(c: Checks, f: Fields): (r: Option<PyError>) {
    if c.alert && f.amount.Err? then Some(f.amount.error)
    else if c.alert && f.alert.Err? then Some(f.alert.error)
    else if c.reversal && f.reversalAmount.Err? then Some(f.reversalAmount.error)
    else None
  }

  lemma BuildFails(c: Checks, f: Fields, date: string)
    ensures BuildCredit(c, f, date).Err? <==> FirstFailure(c, f).Some?
    ensures BuildCredit(c, f, date).Err? ==> BuildCredit(c, f, date).error == FirstFailure(c, f).value
  {
  }

  lemma BuildValues(c: Checks, f: Fields, date: string)
    requires BuildCredit(c, f, date).Ok?
    ensures var rec := BuildCredit(c, f, date).value;
            && (forall col :: Get(rec, col).Some? <==> Expected(c, col))
            && rec.creditByAlert == Some(Flag(c.alert))
            && rec.creditByReversal == Some(Flag(c.reversal))
            && rec.date == Some(Str(date))
            && (c.alert ==> f.alert.Ok? && rec.sender == Some(Str(f.alert.value.sender))
                                        && rec.description == Some(Str(f.alert.value.description)))
            && (c.reversal ==> f.reversalAmount.Ok? && rec.amount == Some(Int(f.reversalAmount.value)))
            && (c.alert && !c.reversal ==> f.amount.Ok? && rec.amount == Some(Int(f.amount.value)))
  {
  }

  // ---------------------------------------------------------------------
  // Properties of one row, as written

  /** The reversal headline holds no amount: converting it always raises. */
  lemma ReversalHeaderHasNoAmount()
    ensures Processes.StrippedAmount(Credit.ReversalHeader).Err?
  {
    var h := Credit.ReversalHeader;
    Credit.ReversalHeaderChars();
    RemoveCharAbsent(h, ',');
    Processes.NoSignNoAnchor(h);
    Processes.StrippedAmountValue(h);
  }

  /** When each field of a row is an error, and what it raises. */
  lemma FieldErrors(t: Transaction)
    ensures var f := FieldsOf(t);
            && (f.amount.Err? <==> Processes.AmountAnchor(t.information).None?)
            && (f.amount.Err? ==> f.amount.error == NotAFloat(Processes.AmountNotFound))
            && (Credit.IsCreditByAlert(t.information) ==> f.alert.Ok?)
            && (Credit.IsCreditByReversal(t.header) ==>
                  f.reversalAmount.Err? && f.reversalAmount.error == NotAFloat(Processes.AmountNotFound))
  {
    Processes.TokenAmountValue(t.information);
    Processes.TokenAmountError(t.information);
    if Credit.IsCreditByAlert(t.information) {
      Credit.AlertHasJust(t.information);
    }
    if Credit.IsCreditByReversal(t.header) {
      ReversalHeaderHasNoAmount();
      Processes.StrippedAmountError(t.header);
    }
  }

  /**
    A row raises exactly when it is a reversal, or an incoming transfer
    whose body has no amount; either way on the text `get_amount` returns
    when it finds none.
   */
  lemma CreditRecordError(t: Transaction)
    ensures CreditRecord(t).Err? <==>
              || Credit.IsCreditByReversal(t.header)
              || (Credit.IsCreditByAlert(t.information) && Processes.AmountAnchor(t.information).None?)
    ensures CreditRecord(t).Err? ==> CreditRecord(t).error == NotAFloat(Processes.AmountNotFound)
  {
    BuildFails(ChecksOf(t), FieldsOf(t), t.date);
    FieldErrors(t);
  }

  /** Every reversal aborts the batch. */
  lemma ReversalAlwaysAborts(t: Transaction)
    requires Credit.IsCreditByReversal(t.header)
    ensures CreditRecord(t).Err?
  {
    CreditRecordError(t);
  }

  /**
    A successful row is never a reversal. Its flags mirror the matchers,
    `DATE` is the transaction's date, and an incoming transfer stores the
    sender cut from the body, an empty description and the amount the body
    converts to (`Processes.TokenAmountValue` says which number that is).
   */
  lemma CreditRecordValues(t: Transaction)
    requires CreditRecord(t).Ok?
    ensures var rec := CreditRecord(t).value;
            var info := t.information;
            && !Credit.IsCreditByReversal(t.header)
            && (forall col :: Get(rec, col).Some? <==> Expected(ChecksOf(t), col))
            && rec.creditByAlert == Some(Flag(Credit.IsCreditByAlert(info)))
            && rec.creditByReversal == Some(Flag(false))
            && rec.date == Some(Str(t.date))
            && (Credit.IsCreditByAlert(info) ==>
                  && Processes.AmountAnchor(info).Some?
                  && Credit.GetCreditByAlertInfo(info).Ok?
                  && rec.sender == Some(Str(Credit.GetCreditByAlertInfo(info).value.sender))
                  && rec.description == Some(Str(""))
                  && Processes.TokenAmount(info).Ok?
                  && rec.amount == Some(Int(Processes.TokenAmount(info).value)))
  {
    CreditRecordError(t);
    BuildValues(ChecksOf(t), FieldsOf(t), t.date);
  }

  // ---------------------------------------------------------------------
  // The row as intended

  /**
    With the reversal amount read from the body, a reversal whose body has
    an amount succeeds, sets its flag, and stores that amount, overwriting
    any amount an incoming-transfer block wrote before it.
   */
  lemma IntendedReversal(t: Transaction)
    requires Credit.IsCreditByReversal(t.header)
    requires Processes.AmountAnchor(RemoveChar(t.information, ',')).Some?
    requires Credit.IsCreditByAlert(t.information) ==> Processes.AmountAnchor(t.information).Some?
    ensures var r := IntendedCreditRecord(t);
            var s := RemoveChar(t.information, ',');
            && r.Ok?
            && r.value.creditByReversal == Some(Flag(true))
            && r.value.amount == Some(Int(Processes.DigitsValue(Processes.LeadingDigits(s[Processes.AmountAnchor(s).value + 1..]))))
  {
    IntendedFields(t);
    BuildFails(ChecksOf(t), IntendedFieldsOf(t), t.date);
    BuildValues(ChecksOf(t), IntendedFieldsOf(t), t.date);
  }

  /** Under the conditions of `IntendedReversal`, no field a firing block consumes is an error. */
  lemma IntendedFields(t: Transaction)
    requires Processes.AmountAnchor(RemoveChar(t.information, ',')).Some?
    requires Credit.IsCreditByAlert(t.information) ==> Processes.AmountAnchor(t.information).Some?
    ensures var f := IntendedFieldsOf(t);
            var s := RemoveChar(t.information, ',');
            && f.reversalAmount.Ok?
            && f.reversalAmount.value == Processes.DigitsValue(Processes.LeadingDigits(s[Processes.AmountAnchor(s).value + 1..]))
            && (Credit.IsCreditByAlert(t.information) ==> f.amount.Ok? && f.alert.Ok?)
  {
    Processes.TokenAmountValue(t.information);
    Processes.StrippedAmountValue(t.information);
    if Credit.IsCreditByAlert(t.information) {
      Credit.AlertHasJust(t.information);
    }
  }

  // ---------------------------------------------------------------------
  // The batch

  /** The dictionary `process_credit` returns. */
  datatype CreditReport = CreditReport(creditAlert: seq<Record>, noOfCreditAlert: int)

  /**
    `process_credit` as written: one row per transaction, in order; the
    count is initialised and never incremented, so it is always 0.
   */
  method ProcessCredit(ts: seq<Transaction>) returns (r: Result<CreditReport>)
    ensures r.Ok? <==> forall i :: 0 <= i < |ts| ==> CreditRecord(ts[i]).Ok?
    ensures r.Ok? ==>
              && r.value.noOfCreditAlert == 0
              && |r.value.creditAlert| == |ts|
              && forall i :: 0 <= i < |ts| ==> r.value.creditAlert[i] == CreditRecord(ts[i]).value
    ensures r.Err? ==>
              exists i :: && 0 <= i < |ts| && CreditRecord(ts[i]).Err? && r.error == CreditRecord(ts[i]).error
                          && forall j :: 0 <= j < i ==> CreditRecord(ts[j]).Ok?
  {
    var noOfCreditAlerts := 0;
    var rows := RunBatch(ts, CreditRecord);
    if rows.Err? {
      return Err(rows.error);
    }
    return Ok(CreditReport(rows.value, noOfCreditAlerts));
  }

  /**
    `process_credit` as intended: reversal amounts read from the body and
    the rows counted, as `process_debit` counts its rows.
   */
  method ProcessCreditIntended(ts: seq<Transaction>) returns (r: Result<CreditReport>)
    ensures r.Ok? <==> forall i :: 0 <= i < |ts| ==> IntendedCreditRecord(ts[i]).Ok?
    ensures r.Ok? ==>
              && r.value.noOfCreditAlert == |ts| == |r.value.creditAlert|
              && forall i :: 0 <= i < |ts| ==> r.value.creditAlert[i] == IntendedCreditRecord(ts[i]).value
    ensures r.Err? ==>
              exists i :: && 0 <= i < |ts| && IntendedCreditRecord(ts[i]).Err? && r.error == IntendedCreditRecord(ts[i]).error
                          && forall j :: 0 <= j < i ==> IntendedCreditRecord(ts[j]).Ok?
  {
    var rows := RunBatch(ts, IntendedCreditRecord);
    if rows.Err? {
      return Err(rows.error);
    }
    return Ok(CreditReport(rows.value, |rows.value|));
  }
}
