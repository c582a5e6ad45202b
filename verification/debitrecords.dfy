/**
  `process_debit` (`src/main.py`): every transaction is run through five
  checks in a fixed order, each writing its flag and, when it fires, the
  details it extracts and an `AMOUNT`; then `DATE` is added. Any raised
  exception aborts the whole batch.

  A row is assembled in two stages. `ChecksOf` says which checks fire and
  `FieldsOf` holds what every extractor returns on the body; `BuildDebit`
  then performs the writes in program order. The extractors are pure, so
  computing their results up front changes nothing: a block that does not
  fire never looks at its fields, and a block that fires raises exactly
  when the field it consumes is an error.
 */
module DebitRecords {
  import opened PyStr
  import opened Records
  import Processes
  import Debit

  // ---------------------------------------------------------------------
  // What the checks decide and what the extractors return

  /** Which of the five checks fire. */
  datatype Checks = Checks(airtime: bool, transfer: bool, pos: bool, online: bool, save: bool)
  {
    predicate Any() { airtime || transfer || pos || online || save }
  }

  function ChecksOf(t: Transaction): (r: Checks) {
    Checks(Debit.IsAirtimeRecharge(t.information), Debit.IsTransfer(t.information),
           Debit.IsCardPos(t.header), Debit.IsCardOnline(t.header), Debit.IsSpendAndSave(t.header))
  }

  /**
    The extractors' results on a body: airtime details, transfer details,
    the amount converted after stripping commas, and the raw amount token.
   */
  datatype Fields = Fields(airtime: Result<Debit.AirtimeInfo>, transfer: Result<Debit.AlertInfo>,
                           amount: Result<int>, token: string)

  function FieldsOf(info: string): (r: Fields) {
    Fields(Debit.GetDebitByAirtimeInfo(info), Debit.GetDebitByAlertInfo(info),
           Processes.StrippedAmount(info), Processes.GetAmount(info))
  }

  // ---------------------------------------------------------------------
  // The five blocks of the loop body, in program order

  /** Airtime: flag, network and phone number, then the comma-stripped amount. */
  function AirtimeStep(c: Checks, f: Fields, res: Record): (r: Result<Record>) {
    if !c.airtime then Ok(res.(airtimeRecharge := Some(Flag(false))))
    else
      var airtime :- f.airtime;
      var amount :- f.amount;
      Ok(res.(airtimeRecharge := Some(Flag(true)), network := Some(Str(airtime.network)),
              phoneNumber := Some(Str(airtime.phoneNumber)), amount := Some(Int(amount))))
  }

  /** Transfer: receiver and description are extracted before the amount is converted. */
  function TransferStep(c: Checks, f: Fields, res: Record): (r: Result<Record>) {
    if !c.transfer then Ok(res.(transfer := Some(Flag(false))))
    else
      var transfer :- f.transfer;
      var amount :- f.amount;
      Ok(res.(transfer := Some(Flag(true)), amount := Some(Int(amount)),
              receiver := Some(Str(transfer.receiver)), description := Some(Str(transfer.description))))
  }

  /** Card at a POS: a miss writes `CARD POS WITHDRAWAL`, a hit writes `CARD` and `ATM CARD`. */
  function PosStep(c: Checks, f: Fields, res: Record): (r: Result<Record>) {
    if !c.pos then Ok(res.(cardPosWithdrawal := Some(Flag(false))))
    else
      var amount :- f.amount;
      Ok(res.(card := Some(Flag(true)), atmCard := Some(Flag(true)), amount := Some(Int(amount))))
  }

  /** Card online: the amount is stored as the raw token text, unconverted, so this block never raises. */
  function OnlineStep(c: Checks, f: Fields, res: Record): (r: Record) {
    if !c.online then res.(cardOnline := Some(Flag(false)))
    else res.(card := Some(Flag(true)), cardOnline := Some(Flag(true)), amount := Some(Str(f.token)))
  }

  /** Spend and save. */
  function SaveStep(c: Checks, f: Fields, res: Record): (r: Result<Record>) {
    if !c.save then Ok(res.(spendAndSave := Some(Flag(false))))
    else
      var amount :- f.amount;
      Ok(res.(spendAndSave := Some(Flag(true)), amount := Some(Int(amount))))
  }

  /** The five blocks in order, then the date. */
  function BuildDebit(c: Checks, f: Fields, date: string): (r: Result<Record>) {
    var r1 :- AirtimeStep(c, f, EmptyRecord);
    var r2 :- TransferStep(c, f, r1);
    var r3 :- PosStep(c, f, r2);
    var r4 := OnlineStep(c, f, r3);
    var r5 :- SaveStep(c, f, r4);
    Ok(r5.(date := Some(Str(date))))
  }

  /** The row one iteration of the loop builds, or the exception it raises. */
  function DebitRecord(t: Transaction): (r: Result<Record>) {
    BuildDebit(ChecksOf(t), FieldsOf(t.information), t.date)
  }

  // ---------------------------------------------------------------------
  // Reference descriptions of a row

  /** Whether a row holds a column, read off the checks that fire. */
  predicate Expected(c: Checks, col: Column) {
    match col
    case AirtimeRecharge | Transfer | CardOnline | SpendAndSave | Date => true
    case Network | PhoneNumber => c.airtime
    case Receiver | Description => c.transfer
    case Card => c.pos || c.online
    case AtmCard => c.pos
    case CardPosWithdrawal => !c.pos
    case Amount => c.Any()
    case CreditByAlert | Sender | CreditByReversal => false
  }

  /** The first field a firing block consumes that is an error, in the order the blocks run. */
  function FirstFailure(c: Checks, f: Fields): (r: Option<PyError>) {
    if c.airtime && f.airtime.Err? then Some(f.airtime.error)
    else if c.airtime && f.amount.Err? then Some(f.amount.error)
    else if c.transfer && f.transfer.Err? then Some(f.transfer.error)
    else if (c.transfer || c.pos || c.save) && f.amount.Err? then Some(f.amount.error)
    else None
  }

  // ---------------------------------------------------------------------
  // Properties of the assembly

  lemma BuildFails(c: Checks, f: Fields, date: string)
    ensures BuildDebit(c, f, date).Err? <==> FirstFailure(c, f).Some?
    ensures BuildDebit(c, f, date).Err? ==> BuildDebit(c, f, date).error == FirstFailure(c, f).value
  {
  }

  lemma BuildColumns(c: Checks, f: Fields, date: string)
    requires BuildDebit(c, f, date).Ok?
    ensures forall col :: Get(BuildDebit(c, f, date).value, col).Some? <==> Expected(c, col)
  {
  }

  lemma BuildValues(c: Checks, f: Fields, date: string)
    requires BuildDebit(c, f, date).Ok?
    ensures var rec := BuildDebit(c, f, date).value;
            && rec.airtimeRecharge == Some(Flag(c.airtime))
            && rec.transfer == Some(Flag(c.transfer))
            && rec.cardOnline == Some(Flag(c.online))
            && rec.spendAndSave == Some(Flag(c.save))
            && (c.pos ==> rec.atmCard == Some(Flag(true)))
            && (!c.pos ==> rec.cardPosWithdrawal == Some(Flag(false)))
            && (c.pos || c.online ==> rec.card == Some(Flag(true)))
            && rec.date == Some(Str(date))
            && (c.airtime ==> f.airtime.Ok? && rec.network == Some(Str(f.airtime.value.network))
                                            && rec.phoneNumber == Some(Str(f.airtime.value.phoneNumber)))
            && (c.transfer ==> f.transfer.Ok? && rec.receiver == Some(Str(f.transfer.value.receiver))
                                              && rec.description == Some(Str(f.transfer.value.description)))
            && (c.save ==> f.amount.Ok? && rec.amount == Some(Int(f.amount.value)))
            && (c.online && !c.save ==> rec.amount == Some(Str(f.token)))
            && (c.Any() && !c.online ==> f.amount.Ok? && rec.amount == Some(Int(f.amount.value)))
  {
  }

  // ---------------------------------------------------------------------
  // Properties of one row

  /** No amount survives in the body once its commas are removed. */
  predicate NoStrippedAmount(info: string) {
    Processes.AmountAnchor(RemoveChar(info, ',')).None?
  }

  /**
    The exception a row raises, if any, in the order the checks run: the
    airtime extractor needs a `d` and a `-`, the transfer extractor a `-`
    after the last `to`, and every converted amount a naira sign followed
    by a digit.
   */
  function DebitError(t: Transaction): (r: Option<PyError>) {
    var info := t.information;
    var c := ChecksOf(t);
    if c.airtime && 'd' !in info then Some(SubstringNotFound("d"))
    else if c.airtime && '-' !in info then Some(SubstringNotFound("-"))
    else if c.airtime && NoStrippedAmount(info) then Some(NotAFloat(Processes.AmountNotFound))
    else if c.transfer && '-' !in LastSegment(info, "to") then Some(SubstringNotFound("-"))
    else if (c.transfer || c.pos || c.save) && NoStrippedAmount(info) then Some(NotAFloat(Processes.AmountNotFound))
    else None
  }

  /** A row fails exactly as `DebitError` predicts, with the same exception. */
  lemma DebitRecordError(t: Transaction)
    ensures DebitRecord(t).Err? <==> DebitError(t).Some?
    ensures DebitRecord(t).Err? ==> DebitRecord(t).error == DebitError(t).value
  {
    BuildFails(ChecksOf(t), FieldsOf(t.information), t.date);
    FieldErrors(t.information);
  }

  /** When each extractor raises, and what. */
  lemma FieldErrors(info: string)
    ensures var f := FieldsOf(info);
            && (f.airtime.Err? <==> 'd' !in info || '-' !in info)
            && (f.airtime.Err? ==> f.airtime.error == SubstringNotFound(if 'd' !in info then "d" else "-"))
            && (f.transfer.Err? <==> '-' !in LastSegment(info, "to"))
            && (f.transfer.Err? ==> f.transfer.error == SubstringNotFound("-"))
            && (f.amount.Err? <==> NoStrippedAmount(info))
            && (f.amount.Err? ==> f.amount.error == NotAFloat(Processes.AmountNotFound))
  {
    Processes.StrippedAmountValue(info);
    Processes.StrippedAmountError(info);
  }

  /** A successful row has exactly the expected columns. */
  lemma DebitRecordColumns(t: Transaction)
    requires DebitRecord(t).Ok?
    ensures forall col :: Get(DebitRecord(t).value, col).Some? <==> Expected(ChecksOf(t), col)
  {
    BuildColumns(ChecksOf(t), FieldsOf(t.information), t.date);
  }

  /** Flags mirror the matchers; `DATE` is the transaction's date; the details are the extractors'. */
  lemma DebitRecordFlags(t: Transaction)
    requires DebitRecord(t).Ok?
    ensures var rec := DebitRecord(t).value;
            var info := t.information;
            && rec.airtimeRecharge == Some(Flag(Debit.IsAirtimeRecharge(info)))
            && rec.transfer == Some(Flag(Debit.IsTransfer(info)))
            && rec.cardOnline == Some(Flag(Debit.IsCardOnline(t.header)))
            && rec.spendAndSave == Some(Flag(Debit.IsSpendAndSave(t.header)))
            && (Debit.IsCardPos(t.header) ==> rec.atmCard == Some(Flag(true)))
            && (!Debit.IsCardPos(t.header) ==> rec.cardPosWithdrawal == Some(Flag(false)))
            && (Debit.IsCardPos(t.header) || Debit.IsCardOnline(t.header) ==> rec.card == Some(Flag(true)))
            && rec.date == Some(Str(t.date))
            && (Debit.IsAirtimeRecharge(info) ==>
                  var a := Debit.GetDebitByAirtimeInfo(info);
                  a.Ok? && rec.network == Some(Str(a.value.network)) && rec.phoneNumber == Some(Str(a.value.phoneNumber)))
            && (Debit.IsTransfer(info) ==>
                  var d := Debit.GetDebitByAlertInfo(info);
                  d.Ok? && rec.receiver == Some(Str(d.value.receiver)) && rec.description == Some(Str(d.value.description)))
  {
    BuildValues(ChecksOf(t), FieldsOf(t.information), t.date);
  }

  /**
    `AMOUNT` is written by every check that fires and the last write wins:
    a card-online debit keeps the raw token text (the headers rule out a
    later spend-and-save write), every other firing check leaves the
    integer read after the first naira sign of the comma-free body.
   */
  lemma DebitRecordAmount(t: Transaction)
    requires DebitRecord(t).Ok?
    ensures var rec := DebitRecord(t).value;
            var c := ChecksOf(t);
            var s := RemoveChar(t.information, ',');
            && (rec.amount.Some? <==> c.Any())
            && (c.online ==> rec.amount == Some(Str(Processes.GetAmount(t.information))))
            && (c.Any() && !c.online ==>
                  && Processes.AmountAnchor(s).Some?
                  && rec.amount == Some(Int(Processes.DigitsValue(Processes.LeadingDigits(s[Processes.AmountAnchor(s).value + 1..])))))
  {
    var c := ChecksOf(t);
    var f := FieldsOf(t.information);
    var s := RemoveChar(t.information, ',');
    var v := if Processes.AmountAnchor(s).Some?
             then Processes.DigitsValue(Processes.LeadingDigits(s[Processes.AmountAnchor(s).value + 1..]))
             else 0;
    Debit.HeaderMatchersExclusive(t.header);
    if f.amount.Ok? {
      StrippedAmountRead(t.information);
    }
    BuildAmount(c, f, t.date, v);
  }

  /** Who writes `AMOUNT` last, on abstract checks and fields. */
  lemma BuildAmount(c: Checks, f: Fields, date: string, v: int)
    requires BuildDebit(c, f, date).Ok? && !(c.online && c.save)
    requires f.amount.Ok? ==> f.amount.value == v
    ensures var rec := BuildDebit(c, f, date).value;
            && (rec.amount.Some? <==> c.Any())
            && (c.online ==> rec.amount == Some(Str(f.token)))
            && (c.Any() && !c.online ==> f.amount.Ok? && rec.amount == Some(Int(v)))
  {
  }

  /** A converted amount is the integer read after the first naira sign of the comma-free body. */
  lemma StrippedAmountRead(info: string)
    requires FieldsOf(info).amount.Ok?
    ensures var s := RemoveChar(info, ',');
            && Processes.AmountAnchor(s).Some?
            && FieldsOf(info).amount.value == Processes.DigitsValue(Processes.LeadingDigits(s[Processes.AmountAnchor(s).value + 1..]))
  {
    Processes.StrippedAmountValue(info);
  }

  /** A debit no check recognises is the five `'False'` flags and the date. */
  lemma UnrecognisedDebit(t: Transaction)
    requires !ChecksOf(t).Any()
    ensures DebitRecord(t).Ok?
    ensures DebitRecord(t).value == EmptyRecord.(airtimeRecharge := Some(Flag(false)), transfer := Some(Flag(false)),
                                                 cardPosWithdrawal := Some(Flag(false)), cardOnline := Some(Flag(false)),
                                                 spendAndSave := Some(Flag(false)), date := Some(Str(t.date)))
  {
  }

  // ---------------------------------------------------------------------
  // The batch

  /** The dictionary `process_debit` returns. */
  datatype DebitReport = DebitReport(debitAlert: seq<Record>, noOfDebitAlert: int)

  /**
    `process_debit`: one row per transaction, in order, and the count of
    rows; the first transaction whose row raises aborts the batch.
   */
  method ProcessDebit(ts: seq<Transaction>) returns (r: Result<DebitReport>)
    ensures r.Ok? <==> forall i :: 0 <= i < |ts| ==> DebitRecord(ts[i]).Ok?
    ensures r.Ok? ==>
              && r.value.noOfDebitAlert == |ts| == |r.value.debitAlert|
              && forall i :: 0 <= i < |ts| ==> r.value.debitAlert[i] == DebitRecord(ts[i]).value
    ensures r.Err? ==>
              exists i :: && 0 <= i < |ts| && DebitRecord(ts[i]).Err? && r.error == DebitRecord(ts[i]).error
                          && forall j :: 0 <= j < i ==> DebitRecord(ts[j]).Ok?
  {
    var rows := RunBatch(ts, DebitRecord);
    if rows.Err? {
      return Err(rows.error);
    }
    return Ok(DebitReport(rows.value, |rows.value|));
  }
}
