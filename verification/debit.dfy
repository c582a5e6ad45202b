/**
  The debit side of `src/debit.py`: five matchers that classify an alert
  by its body or header, and the extractors that slice the receiver and
  description of a transfer, and the network and phone number of an
  airtime recharge, out of the body.

  The extractors follow a fixed template: a transfer body reads
  `You just sent ₦800.00 to  Jack - Gum. ` (two blanks after `to`), an
  airtime body reads `You just recharged MTN NG VTU 2348102462547 - ...`.
  Their lemmas state what the slices give on that template and where
  they fail.
 */
module Debit {
  import opened PyStr

  const RechargePhrase: string := "You just recharged"
  const TransferPhrase: string := "You just sent"
  const CardOnlineHeader: string := "You Used Your Kuda Card Online"
  const CardPosHeader: string := "You Used Your Kuda Card On A POS"
  const SpendAndSaveHeader: string := "You Saved Some Money"

  /** The sign-off deleted from a transfer body before its description is cut. */
  const Signature: string := "Love, The Kuda Team."

  // ---------------------------------------------------------------------
  // Matchers

  /** `is_debit_by_airtime_recharge`: the body mentions a recharge. */
  predicate IsAirtimeRecharge(info: string)
    ensures IsAirtimeRecharge(info) <==> Occurs(info, RechargePhrase)
  {
    Contains(info, RechargePhrase)
  }

  /** `is_debit_by_transfer`: the body mentions money sent. */
  predicate IsTransfer(info: string)
    ensures IsTransfer(info) <==> Occurs(info, TransferPhrase)
  {
    Contains(info, TransferPhrase)
  }

  /** `is_debit_by_card_online` */
  predicate IsCardOnline(header: string) {
    header == CardOnlineHeader
  }

  /** `is_debit_by_card_pos` */
  predicate IsCardPos(header: string) {
    header == CardPosHeader
  }

  /** `is_debit_by_spend_and_save` */
  predicate IsSpendAndSave(header: string) {
    header == SpendAndSaveHeader
  }

  /** The three header matchers compare for equality, so at most one of them holds. */
  lemma HeaderMatchersExclusive(header: string)
    ensures !(IsCardOnline(header) && IsCardPos(header))
    ensures !(IsCardOnline(header) && IsSpendAndSave(header))
    ensures !(IsCardPos(header) && IsSpendAndSave(header))
  {
    assert |CardOnlineHeader| != |CardPosHeader|;
    assert |CardOnlineHeader| != |SpendAndSaveHeader|;
    assert |CardPosHeader| != |SpendAndSaveHeader|;
  }

  /** Header matching is exact: a changed letter case or a trailing blank is a miss. */
  lemma HeaderMatchIsExact()
    ensures !IsCardOnline("You used your Kuda card online")
    ensures !IsCardOnline(CardOnlineHeader + " ")
    ensures !IsCardPos("you used your kuda card on a pos")
    ensures !IsSpendAndSave(" " + SpendAndSaveHeader)
  {
    assert "You used your Kuda card online"[4] != CardOnlineHeader[4];
    assert "you used your kuda card on a pos"[0] != CardPosHeader[0];
  }

  /** A body that carries a phrase matches it, whatever surrounds it. */
  lemma PhraseMatches(p: string, phrase: string, q: string)
    ensures Occurs(p + phrase + q, phrase)
  {
    assert (p + phrase + q)[|p|..|p| + |phrase|] == phrase;
    assert At(p + phrase + q, phrase, |p|);
  }

  // ---------------------------------------------------------------------
  // Receiver

  /**
    `process_receiver`: in the text after the last `to`, the characters
    from index 2 up to one before the first dash. The dash is required.
   */
  function ProcessReceiver(info: string): (r: Result<string>)
    ensures r.Err? <==> '-' !in LastSegment(info, "to")
    ensures r.Ok? ==> !Occurs(r.value, "to")
  {
    var chunk := LastSegment(info, "to");
    OccursChar(chunk, '-');
    LastSegmentAvoidsSep(info, "to");
    var k :- Index(chunk, "-");
    PySliceAvoids(chunk, "to", 2, k - 1);
    Ok(PySlice(chunk, 2, k - 1))
  }

  /**
    On the transfer template the receiver is the name between the two
    blanks after the last `to` and the ` -` that follows it.
   */
  lemma ReceiverOfRendered(p: string, name: string, rest: string)
    requires '-' !in name
    requires !Occurs("  " + name + " -" + rest, "to")
    ensures var r := ProcessReceiver(p + "to" + ("  " + name + " -" + rest)); r.Ok? && r.value == name
  {
    var c := "  " + name + " -" + rest;
    assert "to"[1..] == "o";
    LastSegmentAfterFinalSep(p, "to", c);
    var k := |name| + 3;
    assert c[k] == '-';
    AtChar(c, '-', k);
    assert c[..k] == "  " + name + " ";
    FindByFirstChar(c, "-", k);
    assert c[2..k - 1] == name;
  }

  /** When the text after the last `to` starts with its dash, the slice end wraps around to the back. */
  lemma ReceiverWhenDashLeads(info: string)
    requires var c := LastSegment(info, "to"); |c| >= 3 && c[0] == '-'
    ensures var c := LastSegment(info, "to"); ProcessReceiver(info) == Ok(c[2..|c| - 1])
  {
    var c := LastSegment(info, "to");
    AtChar(c, '-', 0);
    FindIsFirst(c, "-", 0);
    assert Index(c, "-") == Ok(0);
    assert PySlice(c, 2, -1) == c[2..|c| - 1];
  }

  // ---------------------------------------------------------------------
  // Transfer details

  /** The dictionary `get_debit_by_alert_info` returns. */
  datatype AlertInfo = AlertInfo(receiver: string, description: string)

  /**
    `get_debit_by_alert_info`: the receiver comes from the body as given,
    the description from the body with every sign-off deleted: from two
    past its first dash to two before its end.
   */
  function GetDebitByAlertInfo(body: string): (r: Result<AlertInfo>)
    ensures r.Err? <==> '-' !in LastSegment(body, "to")
    ensures r.Err? ==> r.error == SubstringNotFound("-")
    ensures r.Ok? ==> !Occurs(r.value.receiver, "to") && |r.value.description| <= |body|
  {
    var receiver :- ProcessReceiver(body);
    var info := Replace(body, Signature, "");
    DashSurvivesSignature(body);
    ReplaceShrinks(body, Signature);
    // `info.index("-")` cannot raise here: the receiver step found a dash
    var j := Index(info, "-").value;
    Ok(AlertInfo(receiver, PySlice(info, j + 2, |info| - 2)))
  }

  /** A dash after the last `to` is a dash of the body, and deleting sign-offs keeps it. */
  lemma DashSurvivesSignature(body: string)
    requires '-' in LastSegment(body, "to")
    ensures Occurs(Replace(body, Signature, ""), "-")
  {
    var c := LastSegment(body, "to");
    LastSegmentIsTail(body, "to");
    var i :| 0 <= i < |c| && c[i] == '-';
    assert body[|body| - |c| + i] == '-';
    assert forall m :: 0 <= m < |Signature| ==> Signature[m] != '-';
    var j := ReplaceKeepsChar(body, Signature, "", |body| - |c| + i);
    AtChar(Replace(body, Signature, ""), '-', j);
  }

  /** The description cut: what lies between `- ` after the first dash and the final two characters. */
  lemma DescriptionOfRendered(pre: string, desc: string)
    requires '-' !in pre
    ensures var x := pre + "-" + (" " + desc + ". ");
            && Index(x, "-").Ok? && Index(x, "-").value == |pre|
            && PySlice(x, |pre| + 2, |x| - 2) == desc
  {
    var x := pre + "-" + (" " + desc + ". ");
    FindFirstChar(pre, '-', " " + desc + ". ");
    assert x[|pre| + 2..|x| - 2] == desc;
  }

  /**
    On the transfer template, with or without the sign-off at the end, the
    receiver and the description are the two fields that were written.
   */
  lemma AlertInfoOfRendered(p: string, name: string, desc: string, tail: string)
    requires tail == "" || tail == Signature
    requires '-' !in p && '-' !in name
    requires !Occurs("  " + name + " -" + (" " + desc + ". " + tail), "to")
    requires !Occurs(p + "to  " + name + " " + "-" + (" " + desc + ". "), Signature)
    ensures var r := GetDebitByAlertInfo(p + "to" + ("  " + name + " -" + (" " + desc + ". " + tail)));
            r.Ok? && r.value == AlertInfo(name, desc)
  {
    var x := p + "to  " + name + " " + "-" + (" " + desc + ". ");
    var j := |p| + |name| + 5;
    AlertTemplateParts(p, name, desc, tail);
    assert PySlice(x, j + 2, |x| - 2) == desc;
    AlertInfoFromParts(x, tail, name, j, desc);
  }

  /** The transfer template split into the body before the sign-off and the cuts taken from it. */
  lemma AlertTemplateParts(p: string, name: string, desc: string, tail: string)
    requires '-' !in p && '-' !in name
    requires !Occurs("  " + name + " -" + (" " + desc + ". " + tail), "to")
    ensures var x := p + "to  " + name + " " + "-" + (" " + desc + ". ");
            && p + "to" + ("  " + name + " -" + (" " + desc + ". " + tail)) == x + tail
            && Index(x, "-").Ok? && Index(x, "-").value == |p| + |name| + 5
            && PySlice(x, |p| + |name| + 7, |x| - 2) == desc
            && ProcessReceiver(x + tail).Ok? && ProcessReceiver(x + tail).value == name
  {
    var rest := " " + desc + ". ";
    var pre := p + "to  " + name + " ";
    TemplateJoin(p, name, rest + tail);
    assert p + "to" + ("  " + name + " -" + (rest + tail)) == pre + "-" + rest + tail;
    DescriptionOfRendered(pre, desc);
    ReceiverOfRendered(p, name, rest + tail);
  }

  /** The transfer template regrouped around its first dash. */
  lemma TemplateJoin(p: string, name: string, rest: string)
    requires '-' !in p && '-' !in name
    ensures p + "to" + ("  " + name + " -" + rest) == p + "to  " + name + " " + "-" + rest
    ensures '-' !in p + "to  " + name + " "
  {
  }

  /** Deleting the sign-off from a body that ends with it, or lacks it, leaves the text before it. */
  lemma SignatureDeleted(x: string, tail: string)
    requires tail == "" || tail == Signature
    requires !Occurs(x, Signature)
    ensures Replace(x + tail, Signature, "") == x
  {
    if tail == Signature {
      assert Signature[1..] == "ove, The Kuda Team.";
      ReplaceTrailing(x, Signature);
    } else {
      assert x + tail == x;
      ReplaceAbsent(x, Signature, "");
    }
  }

  /** `get_debit_by_alert_info` assembled from the results of its steps. */
  lemma AlertInfoFromParts(info: string, tail: string, name: string, j: nat, desc: string)
    requires tail == "" || tail == Signature
    requires !Occurs(info, Signature)
    requires ProcessReceiver(info + tail).Ok? && ProcessReceiver(info + tail).value == name
    requires Index(info, "-").Ok? && Index(info, "-").value == j
    requires PySlice(info, j + 2, |info| - 2) == desc
    ensures GetDebitByAlertInfo(info + tail).Ok?
    ensures GetDebitByAlertInfo(info + tail).value == AlertInfo(name, desc)
  {
    SignatureDeleted(info, tail);
    AlertInfoSteps(info + tail, name, info);
  }

  /** Once the receiver is known and the sign-offs are deleted, the description is cut from what is left. */
  lemma AlertInfoSteps(body: string, name: string, info: string)
    requires ProcessReceiver(body).Ok? && ProcessReceiver(body).value == name
    requires Replace(body, Signature, "") == info
    ensures Index(info, "-").Ok?
    ensures GetDebitByAlertInfo(body) == Ok(AlertInfo(name, PySlice(info, Index(info, "-").value + 2, |info| - 2)))
  {
    assert Index(info, "-").Ok? by {
      DashSurvivesSignature(body);
    }
  }

  // ---------------------------------------------------------------------
  // Airtime details

  /** The dictionary `get_debit_by_airtime_info` returns. */
  datatype AirtimeInfo = AirtimeInfo(network: string, phoneNumber: string)

  /** The three characters from two past the first `d`. */
  function Network(info: string): (r: Result<string>)
    ensures r.Err? <==> 'd' !in info
    ensures r.Ok? ==> |r.value| <= 3
  {
    OccursChar(info, 'd');
    var d :- Index(info, "d");
    Ok(PySlice(info, d + 2, d + 5))
  }

  /**
    The slice from fourteen before the first dash to one before it. With
    the dash at index 14 or later these are the thirteen characters ending
    one before it; nearer the front the negative start counts from the end
    of the text (`RawPhoneWraps`, `RawPhoneDashLeads`).
   */
  function RawPhone(info: string): (r: Result<string>)
    ensures r.Err? <==> '-' !in info
    ensures r.Ok? ==> |r.value| <= 13
  {
    OccursChar(info, '-');
    var k :- Index(info, "-");
    Ok(PySlice(info, k - 14, k - 1))
  }

  /**
    `get_debit_by_airtime_info`: the network, then the raw phone number
    with every `234` turned into `0`. The `d` is looked up first, so its
    absence is the error reported when both are missing.
   */
  function GetDebitByAirtimeInfo(info: string): (r: Result<AirtimeInfo>)
    ensures r.Err? <==> 'd' !in info || '-' !in info
    ensures r.Err? ==> r.error == SubstringNotFound(if 'd' !in info then "d" else "-")
    ensures r.Ok? ==> |r.value.network| <= 3 && !Occurs(r.value.phoneNumber, "234")
  {
    var network :- Network(info);
    var raw :- RawPhone(info);
    assert '0' !in "234";
    ReplaceRemovesAll(raw, "234", "0");
    Ok(AirtimeInfo(network, Replace(raw, "234", "0")))
  }

  /** The network is read two past the first `d`. */
  lemma NetworkAt(info: string, i: nat)
    requires i + 5 <= |info| && info[i] == 'd' && 'd' !in info[..i]
    ensures Network(info).Ok? && Network(info).value == info[i + 2..i + 5]
  {
    AtChar(info, 'd', i);
    FindByFirstChar(info, "d", i);
  }

  /** The raw phone number ends one before the first dash. */
  lemma RawPhoneAt(info: string, k: nat)
    requires 14 <= k < |info| && info[k] == '-' && '-' !in info[..k]
    ensures RawPhone(info).Ok? && RawPhone(info).value == info[k - 14..k - 1]
  {
    AtChar(info, '-', k);
    FindByFirstChar(info, "-", k);
  }

  /** A dash at index 1 to 13 wraps the start past the end: the raw phone number is empty. */
  lemma RawPhoneWraps(info: string, k: nat)
    requires 1 <= k < 14 && 13 <= |info| && k < |info| && info[k] == '-' && '-' !in info[..k]
    ensures RawPhone(info) == Ok([])
  {
    AtChar(info, '-', k);
    FindByFirstChar(info, "-", k);
  }

  /** A body that opens with a dash gives the thirteen characters before its last one. */
  lemma RawPhoneDashLeads(info: string)
    requires 14 <= |info| && info[0] == '-'
    ensures RawPhone(info) == Ok(info[|info| - 14..|info| - 1])
  {
    AtChar(info, '-', 0);
    FindByFirstChar(info, "-", 0);
  }

  /**
    On the airtime template the network is the three characters after the
    first `d` and a blank, and the phone number is the thirteen characters
    before the blank and dash, rewritten.
   */
  lemma AirtimeInfoOfRendered(p: string, gap: char, net: string, mid: string, phone: string, q: string)
    requires 'd' !in p && |net| == 3 && |phone| == 13
    requires '-' !in p + "d" + [gap] + net + mid + phone + " "
    ensures GetDebitByAirtimeInfo(p + "d" + [gap] + net + mid + phone + " -" + q)
            == Ok(AirtimeInfo(net, Replace(phone, "234", "0")))
  {
    var x := p + "d" + [gap] + net + mid;
    var info := x + phone + " -" + q;
    assert info == p + "d" + [gap] + net + (mid + phone + " -" + q);
    NetworkOfRendered(p, gap, net, mid + phone + " -" + q);
    PhoneOfRendered(x, phone, q);
    AirtimeInfoFromParts(info, net, phone);
  }

  /** The network is the three characters after the first `d` and the character following it. */
  lemma NetworkOfRendered(p: string, gap: char, net: string, rest: string)
    requires 'd' !in p && |net| == 3
    ensures var r := Network(p + "d" + [gap] + net + rest); r.Ok? && r.value == net
  {
    var info := p + "d" + [gap] + net + rest;
    var i := |p|;
    assert info[..i] == p;
    assert info[i] == 'd';
    assert info[i + 2..i + 5] == net;
    NetworkAt(info, i);
  }

  /** The raw phone is the thirteen characters before ` -` when that is the first dash. */
  lemma PhoneOfRendered(x: string, phone: string, q: string)
    requires |phone| == 13 && '-' !in x + phone + " "
    ensures var r := RawPhone(x + phone + " -" + q); r.Ok? && r.value == phone
  {
    var info := x + phone + " -" + q;
    var k := |x| + 14;
    assert info[..k] == x + phone + " ";
    assert info[k] == '-';
    assert info[k - 14..k - 1] == phone;
    RawPhoneAt(info, k);
  }

  /** `get_debit_by_airtime_info` assembled from the results of its steps. */
  lemma AirtimeInfoFromParts(info: string, net: string, raw: string)
    requires Network(info).Ok? && Network(info).value == net
    requires RawPhone(info).Ok? && RawPhone(info).value == raw
    ensures GetDebitByAirtimeInfo(info).Ok?
    ensures GetDebitByAirtimeInfo(info).value == AirtimeInfo(net, Replace(raw, "234", "0"))
  {
  }

  /** Every `234` of the phone is rewritten, not only a leading country code. */
  lemma PhoneRewriteIsGlobal()
    ensures Replace("234234", "234", "0") == "00"
  {
    var s: string := "234234";
    ReplaceAtStart(s, "234", "0");
    assert s[3..] == "234";
    ReplaceAtStart("234", "234", "0");
    assert "234"[3..] == [];
    ReplaceAbsent([], "234", "0");
  }
}
