# Kuda alert reporter: the classification and extraction core

The Kuda assistant reads the bank's alert mails and turns each one into a
row of a debit or credit report. This project models and proves facts about
the part that does the work:

- the matchers that decide what kind of transaction a mail is, and the
  extractors that cut out the receiver, description, network, phone number
  and sender (`src/debit.py`, `src/credit.py`);
- the amount search `get_amount` and the date search `process_date`
  (`utils/processes.py`);
- the two loops `process_debit` and `process_credit` (`src/main.py`). They run
  every matcher on every transaction, fill one row per transaction and
  return the rows with a count.

Modules, in dependency order:

- `PyStr` (`pystr.dfy`): the Python string operations the code relies on.
  It covers `in`, `str.index` (which raises when the needle is missing),
  slices with negative and out-of-range bounds, `split(sep)[-1]`, `join` and
  `str.replace`. Exceptions are the `Err` case of a `Result`.
  - `RemoveChar` is an independent reference for deleting one character.
  - `Join(Split(..))` is an independent reference for `replace`.
- `Processes` (`processes.dfy`): `get_amount` as a specification of the regular
  expression `₦(\d+(?:,\d+)*(?:\.\d{2})?)`, with a scanner that implements
  it. Also `int(float(..))` on the strings that can reach it, and
  `process_date`.
- `Debit` and `Credit` (`debit.dfy`, `credit.dfy`): the matchers and
  extractors. Each extractor returns the dictionary as a datatype, or the
  `ValueError` raised by `str.index`.
- `Records` (`records.dfy`): the report row, with one optional slot per
  dictionary key. It also holds the shared loop `RunBatch`: the first row
  that raises aborts the batch.
- `DebitRecords` and `CreditRecords` (`debitrecords.dfy`, `creditrecords.dfy`):
  the loop bodies. Each is split into which checks fire (`ChecksOf`) and what
  every extractor returns (`FieldsOf`). `BuildDebit`/`BuildCredit` then do
  the writes in program order. The row is described by reference
  definitions: `Expected` says which columns a row has, `FirstFailure` and
  `DebitError` say which exception it raises.
- `Golden` (`golden.dfy`): the values the repository's unit tests pin down.

Behaviour of the code worth knowing:

- The raw phone number is the slice `info[k-14:k-1]` around the first `-`,
  at index `k`. When `k >= 14` it is the 13 characters ending one before the
  dash. Nearer the front the negative start counts from the end of the
  string: in a body of at least 13 characters the slice is empty when the
  dash is at index 1 to 13, and is `info[-14:-1]` when the body opens with
  the dash. Every `234` in the number becomes `0`, wherever it stands.
  `Debit.PhoneRewriteIsGlobal` shows `"234234"` becoming `"00"`.
- An extractor that cannot find its anchor raises. That exception ends the
  whole batch.
- The receiver is read from two characters after the last `to`. The
  template therefore has two spaces after `to`, as the test string
  `"You just sent ₦800.00 to  Jack - Gum. "` does.
- A card-online debit stores `AMOUNT` as the raw matched text, without
  removing commas or converting it.
- `process_credit` never increments its count, and it reads the reversal
  amount from the header. Both are listed under Findings.

## Model

| member | source | states |
|---|---|---|
| PyStr.Index | src/debit.py:76 | `str.index` raises exactly when the needle does not occur; otherwise it returns an occurrence with none before it |
| PyStr.PySlice | src/debit.py:76 | a Python slice clamps negative and out-of-range bounds: inside the string it is the plain slice, and empty when the clamped end is not after the clamped start |
| PyStr.PySliceNegativeEnd | src/debit.py:76 | a slice ending at `-k` stops `k` characters before the end, which is how `index('-') - 1 == -1` behaves |
| PyStr.SplitJoin | src/debit.py:74 | joining the pieces of `split(sep)` with `sep` gives back the original string |
| PyStr.SplitPartsAvoidSep | src/debit.py:74 | no piece of `split(sep)` contains the separator |
| PyStr.LastSegmentIsTail | src/debit.py:74-75 | `split(sep)[-1]` is a suffix of the text, preceded by the separator whenever the separator occurs |
| PyStr.LastSegmentAvoidsSep | src/debit.py:74-75 | `split(sep)[-1]` holds no separator |
| PyStr.LastSegmentAfterFinalSep | src/debit.py:74-75 | after a separator whose first character does not repeat in it, a separator-free tail is what `split(sep)[-1]` returns |
| PyStr.ReplaceIsJoinOfSplit | src/debit.py:87 | `s.replace(pat, rep)` equals `rep.join(s.split(pat))` |
| PyStr.ReplaceAbsent | src/debit.py:87 | replacing a pattern that does not occur changes nothing |
| PyStr.ReplaceKeepsChar | src/debit.py:87-89 | a character that appears nowhere in the pattern survives the replacement |
| PyStr.ReplaceTrailing | src/debit.py:87 | deleting a signature that ends the text and occurs nowhere else leaves the text before it |
| PyStr.ReplaceRemovesAll | src/debit.py:108 | after a replacement by non-empty text that shares no character with the pattern, the pattern no longer occurs |
| PyStr.DeletionCanRecreate | src/debit.py:87 | a deleting replace is a single pass, so it can leave the pattern behind: `"223434".replace("234", "")` is `"234"` |
| PyStr.ReplaceCharIsRemove | src/main.py:270 | `s.replace(',', '')` deletes every comma and keeps everything else, in order |
| PyStr.RemoveCharOnce | src/main.py:360 | deleting the only occurrence of a character, such as the one thousands comma, joins the text on either side of it |
| PyStr.RemoveCharMembers | src/main.py:270 | after removing a character, a character occurs exactly when it occurred before and is not the removed one |
| Processes.GetAmount | utils/processes.py:28-37 | no `₦` followed by a digit gives `Amount not found`; otherwise the result is the longest word of the amount grammar right after the first such `₦`, and holds no `₦` |
| Processes.GreedyIsLongest | utils/processes.py:29-31 | the greedy scan takes a word of `\d+(,\d+)*(\.\d\d)?`, and no longer text from the same start is one |
| Processes.LongestTokenUnique | utils/processes.py:29-31 | the longest match at a position is unique, so the specification of `re.search` fixes the result |
| Processes.GetAmountOfRendered | utils/processes.py:28-35 | on text with no earlier `₦`, a `₦` followed by an amount and a non-continuing character yields exactly that amount |
| Processes.TokenHasNoNaira | utils/processes.py:29 | a matched amount starts and ends with a digit and holds no `₦` |
| Processes.FloatToInt | src/main.py:270 | `int(float(x))` succeeds exactly on an unsigned plain decimal, and yields the value of its digits before the point |
| Processes.NotFoundIsNoNumber | src/main.py:270 | converting the `Amount not found` sentinel raises the `float()` error |
| Processes.StrippedAmountValue | src/main.py:270 | with commas removed first, the conversion fails exactly when no `₦` is followed by a digit; otherwise it yields the digits right after the first one |
| Processes.TokenAmountValue | src/main.py:359-360 | removing commas from the matched amount and converting gives the value of its integer part without commas; the conversion fails when nothing matched |
| Processes.StrippedAmountError | src/main.py:270 | the only error the comma-stripped conversion raises is the one for `Amount not found` |
| Processes.TokenAmountError | src/main.py:359-360 | the only error the credit-alert conversion raises is the one for `Amount not found` |
| Processes.ProcessDate | utils/processes.py:18-25 | no `dddd-dd-dd` in the file name gives nothing; otherwise the result is the first such date in it |
| Processes.ProcessDateOfRendered | utils/processes.py:18-25 | a date after text without digits is the date found |
| Debit.IsAirtimeRecharge | src/debit.py:7-13 | true exactly when the body contains `You just recharged` |
| Debit.IsTransfer | src/debit.py:21-26 | true exactly when the body contains `You just sent` |
| Debit.HeaderMatchersExclusive | src/debit.py:34-65 | the card-online, card-POS and spend-and-save headers are three different exact strings, so at most one of those checks fires |
| Debit.HeaderMatchIsExact | src/debit.py:34-65 | the header checks are exact: a different case or extra space does not match |
| Debit.ProcessReceiver | src/debit.py:73-78 | raises exactly when the text after the last `to` has no `-`; a receiver never contains `to` |
| Debit.ReceiverOfRendered | src/debit.py:73-78 | on `...to  <name> -...` with no later `to`, the receiver is the name |
| Debit.ReceiverWhenDashLeads | src/debit.py:76 | when the last segment starts with `-`, the end index wraps to `-1` and the receiver is that segment without its first two and last characters |
| Debit.GetDebitByAlertInfo | src/debit.py:86-95 | raises exactly when the text after the last `to` has no `-`, and then with the `-` error; a receiver never contains `to` |
| Debit.DashSurvivesSignature | src/debit.py:87-89 | a `-` after the last `to` is still present once the signature is deleted |
| Debit.AlertInfoOfRendered | src/debit.py:86-95 | on the transfer template, signed or not, the extractor returns the receiver and description that were filled in |
| Debit.GetDebitByAirtimeInfo | src/debit.py:103-114 | raises exactly when the body lacks a `d` or a `-`, naming the first that is missing; the network has at most three characters and the phone number holds no `234` |
| Debit.NetworkAt | src/debit.py:105-106 | with the first `d` at `i`, the network is the three characters from `i + 2` |
| Debit.RawPhoneAt | src/debit.py:107 | with the first `-` at `k >= 14`, the raw phone number is the 13 characters ending at `k - 1` |
| Debit.RawPhoneWraps | src/debit.py:107 | with the first `-` at index 1 to 13 of a body of at least 13 characters, the negative start counts from the end and the raw phone number is empty |
| Debit.RawPhoneDashLeads | src/debit.py:107 | when the body opens with `-`, both bounds are negative and the raw phone number is the 13 characters before the last one |
| Debit.AirtimeInfoOfRendered | src/debit.py:103-114 | on the airtime template the extractor returns the network and the phone number with `234` rewritten to `0` |
| Debit.PhoneRewriteIsGlobal | src/debit.py:108 | every `234` is rewritten, not only a leading one |
| Credit.IsCreditByAlert | src/credit.py:1-10 | true exactly when the body contains `just sent you` |
| Credit.ReversalMatchIsExact | src/credit.py:13-21 | the reversal check accepts the headline itself and rejects it with a changed case or an extra leading or trailing blank |
| Credit.GetCreditByAlertInfo | src/credit.py:24-33 | raises exactly when the body lacks `just`; the description is always empty and the sender is a prefix of the body |
| Credit.SenderOfRendered | src/credit.py:24-33 | on `<name> just ...` with no `just` in the name, the sender is the name |
| Credit.SenderWhenJustLeads | src/credit.py:26 | a body that opens with `just` makes the slice end `-1`, so the sender is the body without its last character |
| Credit.SenderAvoidsJust | src/credit.py:26 | unless the body opens with `just`, the sender never contains `just` |
| Credit.AlertHasJust | src/credit.py:1-33 | a body the alert matcher accepts always contains `just`, so its extractor never raises |
| Records.ColumnNamesDistinct | src/main.py:261-313 | the keys the debit loop writes are pairwise distinct strings, so a row with one slot per key is the dictionary: writing one key leaves every other unchanged |
| Records.RunBatch | src/main.py:254-319 | the batch succeeds exactly when every row does, with the rows in order; otherwise it fails with the error of the first failing row |
| DebitRecords.BuildFails | src/main.py:260-313 | the debit row raises exactly when a firing block consumes a failed field, with the first such error in program order |
| DebitRecords.BuildColumns | src/main.py:260-313 | a debit row holds exactly the columns the firing checks write |
| DebitRecords.BuildValues | src/main.py:260-313 | each flag mirrors its check, the details are the extractors' results, and the last block that writes `AMOUNT` wins |
| DebitRecords.DebitRecordError | src/main.py:260-313 | a debit row fails exactly as the matchers and the body predict, in program order: no `d`, no `-`, or no amount for a recharge; then no dash after the last `to` for a transfer; then no amount for a transfer, POS or save debit |
| DebitRecords.DebitRecordColumns | src/main.py:260-313 | a successful debit row has exactly the expected columns |
| DebitRecords.DebitRecordFlags | src/main.py:260-313 | the flags equal the matchers' answers, `DATE` is the transaction's date and the details are the extractors' |
| DebitRecords.DebitRecordAmount | src/main.py:270-311 | `AMOUNT` is present exactly when a check fires; card online keeps the raw text; otherwise it is the integer after the first `₦` followed by a digit in the comma-free body |
| DebitRecords.UnrecognisedDebit | src/main.py:260-313 | a debit no check recognises gives the five `False` flags and the date |
| DebitRecords.ProcessDebit | src/main.py:235-325 | one row per transaction, in order, and a count equal to the number of rows; the first raising row aborts the batch |
| CreditRecords.BuildFails | src/main.py:352-374 | the credit row raises exactly when a firing block consumes a failed field, with the first such error |
| CreditRecords.BuildValues | src/main.py:352-374 | a credit row holds exactly the expected columns and values; a reversal's amount overwrites the alert's |
| CreditRecords.FieldErrors | src/main.py:359-371 | the alert amount fails exactly when the body has no `₦` before a digit; the alert extractor succeeds on alerts; on a reversal, the reversal amount fails |
| CreditRecords.ReversalHeaderHasNoAmount | src/main.py:371 | the reversal header has no `₦`, so its amount conversion raises |
| CreditRecords.CreditRecordError | src/main.py:352-374 | a credit row raises exactly on a reversal, or on an alert without an amount, and always with the `float()` error |
| CreditRecords.CreditRecordValues | src/main.py:352-374 | a successful credit row is never a reversal; an alert row holds its sender, an empty description and the converted amount |
| CreditRecords.ReversalAlwaysAborts | src/main.py:371 | every reversal makes its row raise |
| CreditRecords.IntendedReversal | src/main.py:365-372 | with the amount read from the body, a reversal row succeeds and records the body's amount |
| CreditRecords.IntendedFields | src/main.py:359-371 | read from the body, the reversal amount is the integer after the first `₦` followed by a digit in the comma-free body |
| CreditRecords.ProcessCredit | src/main.py:328-385 | one row per transaction and the first raising row aborts; the count stays 0 |
| CreditRecords.ProcessCreditIntended | src/main.py:328-385 | with the count incremented per row, the count equals the number of rows |
| Golden.ReceiverExample | tests/test_debit.py:34-36 | the receiver of `You just sent ₦800.00 to  Jack - Gum. ` is `Jack` |
| Golden.TransferExample | tests/test_debit.py:38-40 | the same body gives receiver `Jack` and description `Gum` |
| Golden.TransferMatches | tests/test_debit.py:18-20 | that body is a transfer |
| Golden.AirtimeMatches | tests/test_debit.py:14-16 | the airtime test body is a recharge |
| Golden.AirtimeExample | tests/test_debit.py:42-48 | the airtime test body gives network `MTN` and phone number `08102462547` |
| Golden.PhoneExample | tests/test_debit.py:46-48 | `2348102462547` becomes `08102462547` |
| Golden.CreditExample | tests/test_credit.py:19-22 | the sender of `Jack just sent you ₦25,000.00. ` is `Jack` |
| Golden.CreditAmountExample | src/main.py:359-360 | on the credit test body `Jack just sent you ₦25,000.00. ` the amount matched is `25,000.00` and the stored amount is 25000 |
| Golden.ShortFractionExample | utils/processes.py:29 | a point followed by one digit is not a fraction: `₦5.0` gives `5` |

## Left out

- Mail retrieval, the MongoDB collections and the read/unread bookkeeping are not modelled. Neither are logging, the spreadsheet export with pandas and sorting by date, and the mailer. They are I/O with no logic of the core.
- `process_date_str` is not modelled. It parses dates with `datetime.strptime`, which depends on the clock library and locale.
- The order of keys in a row dictionary is not modelled. A row is one slot per column.
- A transaction missing `header`, `information` or `date` is not modelled; transactions here always hold three strings. With `dict.get` returning `None`, a missing header makes the `!=` header checks return False and the row is still built (src/debit.py:37, src/debit.py:50, src/debit.py:63, src/credit.py:19). A missing date is stored as `None` (src/main.py:313, src/main.py:374). Only a missing body raises, a `TypeError` from `in`.
- A `None` entry in the transaction list is not modelled. The mail readers return `None` for a mail without a header or body (src/main.py:105-111), `compute_transaction` appends it (src/main.py:224, src/main.py:229), and `process_debit` then raises `AttributeError` at `transaction.get` (src/main.py:261), which aborts the whole batch like any other exception.
- Processes.FloatToInt: models only the unsigned plain decimals that can reach it (a matched amount or the sentinel). The value is exact, whereas `float` rounds to the nearest double before `int` truncates. From 2^47 on, a fraction such as `.99` can round up to the next integer (`int(float('140737488355328.99'))` is 140737488355329), and above 2^53 the integer part itself is rounded. An integer part too large for a double, from about 309 digits on, makes `float` return `inf`, and `int(inf)` raises `OverflowError` (src/main.py:270, src/main.py:280, src/main.py:292, src/main.py:311, src/main.py:360); the model returns the exact value there instead.
- Processes.GetAmount: `\d` is the ASCII digits. Python's `re` on `str` also accepts other Unicode decimal digits.
- Processes.ProcessDate: the same holds for the `\d` of the date pattern (utils/processes.py:19); `IsIsoDate` accepts ASCII digits only.
- PyStr.Split: requires a non-empty separator. Python raises `ValueError` for an empty one, and the only separator the code passes is `to`.
- `utils/constants.py` is not modelled. Its report and directory names depend on today's date, and none of them reaches the core.
- `tests/test_main.py` and the credit matcher test that passes a set instead of a string are not modelled.

## Findings

| source | as written | input that shows it | evidently intended | confidence | as-written member | corrected member |
|---|---|---|---|---|---|---|
| src/main.py:371 | the reversal amount is searched in the header, which is the fixed reversal headline and holds no `₦`, so `float('Amount not found')` raises | any transaction whose header is `We Reversed Some Money Into Your Account` | search the body, as every other amount does | not executed | CreditRecords.ReversalAlwaysAborts | CreditRecords.IntendedReversal |
| src/main.py:344 | `no_of_credit_alerts` starts at 0 and is never incremented, so the report always says 0 credits | one transaction with header `x` and body `y` | add one per row, as `process_debit` does at src/main.py:314 | not executed | CreditRecords.ProcessCredit | CreditRecords.ProcessCreditIntended |
