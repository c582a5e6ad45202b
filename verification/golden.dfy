/**
  The alerts the repository's unit tests feed to the matchers and the
  extractors (`tests/test_debit.py`, `tests/test_credit.py`), with the
  values those tests expect, derived from the general template lemmas.
  Each body is written as the concatenation of the template pieces it is
  made of; the pieces join to exactly the text of the test.
 */
module Golden {
  import opened PyStr
  import Debit
  import Credit
  import Processes

  /** `You just sent ₦800.00 to  Jack - Gum. ` is a transfer. */
  lemma TransferMatches()
    ensures Debit.IsTransfer("You just sent" + " ₦800.00 to  Jack - Gum. ")
  {
    Debit.PhraseMatches("", Debit.TransferPhrase, " ₦800.00 to  Jack - Gum. ");
  }

  /** The transfer alert's receiver: `Jack`. */
  lemma ReceiverExample()
    ensures var r := Debit.ProcessReceiver("You just sent ₦800.00 " + "to" + ("  " + "Jack" + " -" + " Gum. "));
            r.Ok? && r.value == "Jack"
  {
    AbsentFirstChar("  " + "Jack" + " -" + " Gum. ", "to");
    Debit.ReceiverOfRendered("You just sent ₦800.00 ", "Jack", " Gum. ");
  }

  /** The transfer alert's details: receiver `Jack`, description `Gum`. */
  lemma TransferExample()
    ensures var r := Debit.GetDebitByAlertInfo("You just sent ₦800.00 " + "to" + ("  " + "Jack" + " -" + (" " + "Gum" + ". " + "")));
            r.Ok? && r.value == Debit.AlertInfo("Jack", "Gum")
  {
    var p := "You just sent ₦800.00 ";
    AbsentFirstChar("  " + "Jack" + " -" + (" " + "Gum" + ". " + ""), "to");
    AbsentFirstChar(p + "to  " + "Jack" + " " + "-" + (" " + "Gum" + ". "), Debit.Signature);
    Debit.AlertInfoOfRendered(p, "Jack", "Gum", "");
  }

  /** `You just recharged MTN NG VTU ... - Airtime with ₦6,000.00` is an airtime purchase. */
  lemma AirtimeMatches()
    ensures Debit.IsAirtimeRecharge("You just recharged" + " MTN NG VTU 2348102462547 - Airtime with ₦6,000.00")
  {
    Debit.PhraseMatches("", Debit.RechargePhrase, " MTN NG VTU 2348102462547 - Airtime with ₦6,000.00");
  }

  /** The airtime alert: network `MTN`, phone `08102462547`. */
  lemma AirtimeExample()
    ensures var info := "You just recharge" + "d" + " " + "MTN" + " NG VTU " + ("234" + "8102462547") + " -" + " Airtime with ₦6,000.00";
            var r := Debit.GetDebitByAirtimeInfo(info);
            r.Ok? && r.value == Debit.AirtimeInfo("MTN", "0" + "8102462547")
  {
    var phone := "234" + "8102462547";
    var pre := "You just recharge" + "d" + " " + "MTN" + " NG VTU " + phone + " ";
    assert '-' !in pre;
    Debit.AirtimeInfoOfRendered("You just recharge", ' ', "MTN", " NG VTU ", phone, " Airtime with ₦6,000.00");
    PhoneExample();
  }

  /** Only the leading `234` of the test's phone number is rewritten. */
  lemma PhoneExample()
    ensures Replace("234" + "8102462547", "234", "0") == "0" + "8102462547"
  {
    AbsentChar("8102462547", "234", 1);
    ReplaceLeading("234", "8102462547", "0");
  }

  /** The incoming transfer: sender `Jack`, an empty description. */
  lemma CreditExample()
    ensures var r := Credit.GetCreditByAlertInfo("Jack" + " " + "just" + " sent you ₦25,000.00. ");
            r.Ok? && r.value == Credit.CreditInfo("Jack", "")
  {
    AbsentFirstChar("Jack", Credit.Just);
    Credit.SenderOfRendered("Jack", ' ', " sent you ₦25,000.00. ");
  }

  /** A point followed by a single digit is no fraction: `₦5.0` gives `5`. */
  lemma ShortFractionExample()
    ensures Processes.GetAmount("₦5.0") == "5"
  {
    assert "₦5.0" == [] + [Processes.Naira] + "5" + ".0";
    Processes.GetAmountOfRendered([], "5", ".0");
  }

  /** The incoming transfer's amount: `25,000.00` is matched, and 25000 is stored. */
  lemma CreditAmountExample()
    ensures Processes.GetAmount("Jack just sent you " + [Processes.Naira] + "25,000.00" + ". ") == "25,000.00"
    ensures var r := Processes.TokenAmount("Jack just sent you " + [Processes.Naira] + "25,000.00" + ". "); r.Ok? && r.value == 25000
  {
    GroupedAmountIsToken();
    Processes.GetAmountOfRendered("Jack just sent you ", "25,000.00", ". ");
    GroupedAmountValue();
  }

  /** `25,000.00` is a word of the amount grammar. */
  lemma GroupedAmountIsToken()
    ensures Processes.IsAmountToken("25,000.00")
  {
    var tok := "25,000.00";
    assert tok[..|tok| - 3] == "25,000" && tok[|tok| - 3..] == ".00";
    assert Processes.DigitsAndGroups("25,000", 0, 6);
  }

  /** Dropping the comma of `25,000.00` and converting gives 25000. */
  lemma GroupedAmountValue()
    ensures var r := Processes.FloatToInt(Replace("25,000.00", ",", "")); r.Ok? && r.value == 25000
  {
    ReplaceCharIsRemove("25,000.00", ',');
    CommaDropped();
    ThousandsValue();
    Processes.DecimalTokenValue("25000" + ".00", "25000", ".00");
  }

  /** The thousands separator is the only comma in `25,000.00`. */
  lemma CommaDropped()
    ensures RemoveChar("25,000.00", ',') == "25000" + ".00"
  {
    assert "25,000.00" == "25" + [','] + "000.00";
    RemoveCharOnce("25", ',', "000.00");
    assert "25" + "000.00" == "25000" + ".00";
  }

  /** `25000` read as decimal digits. */
  lemma ThousandsValue()
    ensures Processes.AllDigits("25000") && Processes.DigitsValue("25000") == 25000
  {
    assert "25000"[..4] == "2500";
    assert "2500"[..3] == "250";
    assert "250"[..2] == "25";
    assert "25"[..1] == "2";
    assert "2"[..0] == [];
  }
}
