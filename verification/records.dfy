/**
  The rows `process_debit` and `process_credit` build (`src/main.py`): one
  dictionary per transaction, keyed by fixed column names, whose values are
  the strings `'True'`/`'False'`, extracted text, or an integer amount.
 */
module Records {
  import opened PyStr

  /** A value stored in a row: text or an integer amount. */
  datatype Value = Str(s: string) | Int(i: int)

  /**
    The columns a row can carry. Keys are an enumeration here; `ColumnName`
    gives the dictionary key the program writes for each.
   */
  datatype Column =
    | AirtimeRecharge | Network | PhoneNumber | Amount
    | Transfer | Receiver | Description
    | CardPosWithdrawal | Card | AtmCard | CardOnline | SpendAndSave
    | CreditByAlert | Sender | CreditByReversal
    | Date

  function ColumnName(c: Column): (key: string) {
    match c
    case AirtimeRecharge => "AIRTIME RECHARGE"
    case Network => "NETWORK"
    case PhoneNumber => "PHONE NUMBER"
    case Amount => "AMOUNT"
    case Transfer => "TRANSFER"
    case Receiver => "RECEIVER"
    case Description => "DESCRIPTION"
    case CardPosWithdrawal => "CARD POS WITHDRAWAL"
    case Card => "CARD"
    case AtmCard => "ATM CARD"
    case CardOnline => "CARD ONLINE"
    case SpendAndSave => "SPEND AND SAVE"
    case CreditByAlert => "CREDIT BY ALERT"
    case Sender => "SENDER"
    case CreditByReversal => "CREDIT BY REVERSAL"
    case Date => "DATE"
  }

  /**
    No two columns share a key, so one slot per column is the same as the
    dictionary: writing one column never touches another.
   */
  lemma ColumnNamesDistinct(a: Column, b: Column)
    requires a != b
    ensures ColumnName(a) != ColumnName(b)
  {
  }

  /**
    A row: the dictionary the loop body fills, one slot per column, `None`
    while the key has not been written.
   */
  datatype Record = Record(
    airtimeRecharge: Option<Value>, network: Option<Value>, phoneNumber: Option<Value>, amount: Option<Value>,
    transfer: Option<Value>, receiver: Option<Value>, description: Option<Value>,
    cardPosWithdrawal: Option<Value>, card: Option<Value>, atmCard: Option<Value>, cardOnline: Option<Value>,
    spendAndSave: Option<Value>, creditByAlert: Option<Value>, sender: Option<Value>,
    creditByReversal: Option<Value>, date: Option<Value>)

  /** `{}` */
  const EmptyRecord := Record(None, None, None, None, None, None, None, None,
                              None, None, None, None, None, None, None, None)

  /** `res.get(ColumnName(c))` */
  function Get(r: Record, c: Column): (v: Option<Value>) {
    match c
    case AirtimeRecharge => r.airtimeRecharge
    case Network => r.network
    case PhoneNumber => r.phoneNumber
    case Amount => r.amount
    case Transfer => r.transfer
    case Receiver => r.receiver
    case Description => r.description
    case CardPosWithdrawal => r.cardPosWithdrawal
    case Card => r.card
    case AtmCard => r.atmCard
    case CardOnline => r.cardOnline
    case SpendAndSave => r.spendAndSave
    case CreditByAlert => r.creditByAlert
    case Sender => r.sender
    case CreditByReversal => r.creditByReversal
    case Date => r.date
  }

  /**
    A stored transaction as the processors hand it over: the mail's header
    line, its body text and the date taken from its file name.
   */
  datatype Transaction = Transaction(header: string, information: string, date: string)

  /** The program stores flags as the strings `'True'` and `'False'`. */
  function Flag(b: bool): (r: Value) {
    Str(if b then "True" else "False")
  }

  /**
    The loop both processors share: `row` is applied to every transaction in
    order, and the first one that raises aborts the batch with its exception.
   */
  method RunBatch(ts: seq<Transaction>, row: Transaction -> Result<Record>) returns (r: Result<seq<Record>>)
    ensures r.Ok? <==> forall i :: 0 <= i < |ts| ==> row(ts[i]).Ok?
    ensures r.Ok? ==> |r.value| == |ts| && forall i :: 0 <= i < |ts| ==> r.value[i] == row(ts[i]).value
    ensures r.Err? ==>
              exists i :: && 0 <= i < |ts| && row(ts[i]).Err? && r.error == row(ts[i]).error
                          && forall j :: 0 <= j < i ==> row(ts[j]).Ok?
  {
    var rows: seq<Record> := [];
    for i := 0 to |ts|
      invariant |rows| == i
      invariant forall j :: 0 <= j < i ==> row(ts[j]).Ok? && rows[j] == row(ts[j]).value
    {
      var res := row(ts[i]);
      if res.Err? {
        return Err(res.error);
      }
      rows := rows + [res.value];
    }
    return Ok(rows);
  }
}
