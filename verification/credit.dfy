/**
  The credit side of `src/credit.py`: two matchers and the extractor that
  cuts the sender's name off the front of an incoming-transfer body, as
  in `Jack just sent you ₦25,000.00. `.
 */
module Credit {
  import opened PyStr
  import Processes

  const AlertPhrase: string := "just sent you"
  const ReversalHeader: string := "We Reversed Some Money Into Your Account"

  /** The word the sender's name is cut at. */
  const Just: string := "just"

  /** `is_credit_by_alert`: the body says money was sent to the account holder. */
  predicate IsCreditByAlert(info: string)
    ensures IsCreditByAlert(info) <==> Occurs(info, AlertPhrase)
  {
    Contains(info, AlertPhrase)
  }

  /** The reversal headline has neither a naira sign nor a thousands separator. */
  lemma ReversalHeaderChars()
    ensures Processes.Naira !in ReversalHeader && ',' !in ReversalHeader
  {
  }

  /** `is_credit_by_reversal` */
  predicate IsCreditByReversal(header: string) {
    header == ReversalHeader
  }

  /** The reversal check is exact: the headline itself matches, a changed case or an extra blank does not. */
  lemma ReversalMatchIsExact()
    ensures IsCreditByReversal("We Reversed Some Money Into Your Account")
    ensures !IsCreditByReversal("We reversed some money into your account")
    ensures !IsCreditByReversal(ReversalHeader + " ")
    ensures !IsCreditByReversal(" " + ReversalHeader)
  {
    assert "We reversed some money into your account"[3] != ReversalHeader[3];
  }

  /** The dictionary `get_credit_by_alert_info` returns: always these two keys. */
  datatype CreditInfo = CreditInfo(sender: string, description: string)

  /**
    `get_credit_by_alert_info`: the sender is everything before the first
    `just` except the character right before it; the description is always
    empty. When `just` opens the body, the end index is -1 and the sender
    is the whole body but its last character.
   */
  function GetCreditByAlertInfo(info: string): (r: Result<CreditInfo>)
    ensures r.Err? <==> !Occurs(info, Just)
    ensures r.Err? ==> r.error == SubstringNotFound(Just)
    ensures r.Ok? ==> r.value.description == [] && r.value.sender <= info
  {
    var j :- Index(info, Just);
    Ok(CreditInfo(PySlice(info, 0, j - 1), ""))
  }

  /** Unless the body opens with `just`, the sender never contains `just`. */
  lemma SenderAvoidsJust(info: string)
    requires Occurs(info, Just) && !At(info, Just, 0)
    ensures !Occurs(GetCreditByAlertInfo(info).value.sender, Just)
  {
    var j := Index(info, Just).value;
    var sender := GetCreditByAlertInfo(info).value.sender;
    assert sender == info[..j - 1];
    PrefixAvoids(info, Just, j - 1);
  }

  /**
    On the alert template, a name with no `just` in it, one separating
    character, then `just ...`, the sender is the name.
   */
  lemma SenderOfRendered(name: string, sep: char, q: string)
    requires !Occurs(name, Just) && sep !in Just
    ensures GetCreditByAlertInfo(name + [sep] + Just + q) == Ok(CreditInfo(name, ""))
  {
    var s := name + [sep] + Just + q;
    FindAfterSeparator(name, sep, Just, q);
    assert Index(s, Just).value == |name| + 1;
    assert s[..|name|] == name;
  }

  /** A body that opens with `just` wraps the slice end: the sender is all but the last character. */
  lemma SenderWhenJustLeads(info: string)
    requires At(info, Just, 0)
    ensures GetCreditByAlertInfo(info) == Ok(CreditInfo(info[..|info| - 1], ""))
  {
    FindIsFirst(info, Just, 0);
    assert Index(info, Just).value == 0;
  }

  /** A body that says `just sent you` contains `just`, so the alert extractor never raises on it. */
  lemma AlertHasJust(info: string)
    requires IsCreditByAlert(info)
    ensures GetCreditByAlertInfo(info).Ok?
  {
    var i :| At(info, AlertPhrase, i);
    assert info[i..i + |Just|] == AlertPhrase[..|Just|];
    assert At(info, Just, i);
  }
}
