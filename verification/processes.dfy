/**
  The two token scanners of `utils/processes.py` and the `int(float(...))`
  conversion the aggregators apply to amounts.

  `get_amount` searches for the regular expression `₦(\d+(?:,\d+)*(?:\.\d{2})?)`
  and returns group 1. Nothing follows the group, so at the first `₦` that
  is followed by a digit the engine's match is the longest word of the token
  grammar `IsAmountToken` starting there. A `,` with no digit after it or a
  `.` with fewer than two digits after it is given back, and the match ends
  before it. The scanner below reads digits, then comma groups, then an
  optional two-digit fraction; `GreedyIsLongest` proves that it finds that
  longest word, and the contract of `GetAmount` states the leftmost-longest
  match. Digits are ASCII `0`-`9`.
 */
module Processes {
  import opened PyStr

  /** U+20A6, the naira sign. */
  const Naira: char := '₦'

  /** What `get_amount` returns when the text holds no amount. */
  const AmountNotFound: string := "Amount not found"

  // ---------------------------------------------------------------------
  // The amount grammar  \d+(,\d+)*(\.\d\d)?

  /** Every character of `s[lo..hi]` is a digit or a comma, and every comma is followed by a digit. */
  predicate DigitsAndGroups(s: string, lo: int, hi: int)
    requires 0 <= lo <= hi <= |s|
  {
    && (forall k :: lo <= k < hi ==> IsDigit(s[k]) || s[k] == ',')
    && (forall a, b :: lo <= a < hi && b == a + 1 && b < hi && s[a] == ',' ==> IsDigit(s[b]))
    && (lo < hi ==> IsDigit(s[hi - 1]))
  }

  /** `\d+(,\d+)*`: starts with a digit, and every comma is followed by a digit. */
  predicate IntPart(t: string) {
    |t| > 0 && IsDigit(t[0]) && DigitsAndGroups(t, 0, |t|)
  }

  /** `\.\d{2}` */
  predicate IsFraction(t: string) {
    |t| == 3 && t[0] == '.' && IsDigit(t[1]) && IsDigit(t[2])
  }

  /** A word of the whole group `\d+(?:,\d+)*(?:\.\d{2})?`. */
  predicate IsAmountToken(t: string) {
    || IntPart(t)
    || (|t| > 3 && IntPart(t[..|t| - 3]) && IsFraction(t[|t| - 3..]))
  }

  /** The match can start at `i`: a naira sign followed by a digit. */
  predicate AnchorAt(s: string, i: int) {
    0 <= i && i + 1 < |s| && s[i] == Naira && IsDigit(s[i + 1])
  }

  /** `r` sits at `st` in `s`, is a token, and no longer text from `st` is one. */
  predicate LongestTokenAt(s: string, st: nat, r: string) {
    && st + |r| <= |s|
    && s[st..st + |r|] == r
    && IsAmountToken(r)
    && forall e :: st + |r| < e <= |s| ==> !IsAmountToken(s[st..e])
  }

  // ---------------------------------------------------------------------
  // The greedy scanner

  /** End of the run of digits starting at `i`. */
  function DigitsEnd(s: string, i: nat): (e: nat)
    requires i <= |s|
    ensures i <= e <= |s|
    ensures i < |s| && IsDigit(s[i]) ==> i < e
    ensures forall k :: i <= k < e ==> IsDigit(s[k])
    ensures e == |s| || !IsDigit(s[e])
    decreases |s| - i
  {
    if i == |s| || !IsDigit(s[i]) then i else DigitsEnd(s, i + 1)
  }

  /** A `,\d` starts at `j`. */
  predicate CommaGroupAt(s: string, j: nat) {
    j + 1 < |s| && s[j] == ',' && IsDigit(s[j + 1])
  }

  /** `(?:,\d+)*` taken greedily from `j`, right after a run of digits. */
  function GroupsEnd(s: string, j: nat): (e: nat)
    requires j <= |s| && (j == |s| || !IsDigit(s[j]))
    ensures j <= e <= |s|
    ensures e == |s| || (!IsDigit(s[e]) && !CommaGroupAt(s, e))
    ensures DigitsAndGroups(s, j, e)
    decreases |s| - j
  {
    if CommaGroupAt(s, j) then
      var d := DigitsEnd(s, j + 1);
      assert DigitsAndGroups(s, j, d);
      GroupsEnd(s, d)
    else j
  }

  /** `\.\d{2}` starts at `e`. */
  predicate FractionAt(s: string, e: nat) {
    e + 2 < |s| && s[e] == '.' && IsDigit(s[e + 1]) && IsDigit(s[e + 2])
  }

  /** Where the greedy match of the group ends when it starts with a digit at `st`. */
  function AmountEnd(s: string, st: nat): (e: nat)
    requires st < |s| && IsDigit(s[st])
    ensures st < e <= |s|
  {
    var e0 := GroupsEnd(s, DigitsEnd(s, st));
    if FractionAt(s, e0) then e0 + 3 else e0
  }

  /** Joining two adjacent stretches of digits and comma groups. */
  lemma DigitsAndGroupsJoin(s: string, lo: int, mid: int, hi: int)
    requires 0 <= lo <= mid <= hi <= |s|
    requires DigitsAndGroups(s, lo, mid) && DigitsAndGroups(s, mid, hi)
    requires lo < mid
    ensures DigitsAndGroups(s, lo, hi)
  {
  }

  /** Shifting a stretch of digits and comma groups into the slice that holds it. */
  lemma DigitsAndGroupsSlice(s: string, lo: int, hi: int)
    requires 0 <= lo <= hi <= |s| && DigitsAndGroups(s, lo, hi)
    ensures DigitsAndGroups(s[lo..hi], 0, hi - lo)
  {
    var t := s[lo..hi];
    forall a, b | 0 <= a < |t| && b == a + 1 && b < |t| && t[a] == ','
      ensures IsDigit(t[b])
    {
      assert t[a] == s[lo + a] && t[b] == s[lo + b];
    }
  }

  /** The text the digits-and-comma-groups part covers is a word of `\d+(,\d+)*`. */
  lemma IntPartScanned(s: string, st: nat)
    requires st < |s| && IsDigit(s[st])
    ensures IntPart(s[st..GroupsEnd(s, DigitsEnd(s, st))])
    ensures DigitsAndGroups(s, st, GroupsEnd(s, DigitsEnd(s, st)))
  {
    ScannedGroups(s, st);
    SliceIntPart(s, st, GroupsEnd(s, DigitsEnd(s, st)));
  }

  /** A stretch of digits and comma groups that starts with a digit, cut out, is `\d+(,\d+)*`. */
  lemma SliceIntPart(s: string, lo: nat, hi: nat)
    requires lo < hi <= |s| && IsDigit(s[lo]) && DigitsAndGroups(s, lo, hi)
    ensures IntPart(s[lo..hi])
  {
    DigitsAndGroupsSlice(s, lo, hi);
    assert s[lo..hi][0] == s[lo];
  }

  /** The digits from `st` and the comma groups after them form one stretch. */
  lemma ScannedGroups(s: string, st: nat)
    requires st < |s| && IsDigit(s[st])
    ensures DigitsAndGroups(s, st, GroupsEnd(s, DigitsEnd(s, st)))
  {
    var d := DigitsEnd(s, st);
    assert DigitsAndGroups(s, st, d);
    DigitsAndGroupsJoin(s, st, d, GroupsEnd(s, d));
  }

  /** The greedy scan yields a token, and no longer text from `st` is a token. */
  lemma {:induction false} GreedyIsLongest(s: string, st: nat)
    requires st < |s| && IsDigit(s[st])
    ensures LongestTokenAt(s, st, s[st..AmountEnd(s, st)])
  {
    var end := AmountEnd(s, st);
    GreedyIsToken(s, st);
    var e0 := GroupsEnd(s, DigitsEnd(s, st));
    assert end == if FractionAt(s, e0) then e0 + 3 else e0;
    forall e | end < e <= |s|
      ensures !IsAmountToken(s[st..e])
    {
      NoLongerToken(s, st, e0, e);
    }
    assert s[st..st + |s[st..end]|] == s[st..end];
  }

  /** What the greedy scan takes is a token, and the digits and groups before any fraction run up to where the groups end. */
  lemma {:induction false} GreedyIsToken(s: string, st: nat)
    requires st < |s| && IsDigit(s[st])
    ensures IsAmountToken(s[st..AmountEnd(s, st)])
    ensures var e0 := GroupsEnd(s, DigitsEnd(s, st));
            st < e0 && DigitsAndGroups(s, st, e0)
  {
    var e0 := GroupsEnd(s, DigitsEnd(s, st));
    var e := AmountEnd(s, st);
    IntPartScanned(s, st);
    if FractionAt(s, e0) {
      assert e == e0 + 3;
      FractionToken(s, st, e0);
    } else {
      assert e == e0;
      assert IsAmountToken(s[st..e0]);
    }
  }

  /** An integer part followed by `.\d\d` is a token with its fraction. */
  lemma FractionToken(s: string, st: nat, e0: nat)
    requires st < e0 && FractionAt(s, e0) && IntPart(s[st..e0])
    ensures IsAmountToken(s[st..e0 + 3])
  {
    var r := s[st..e0 + 3];
    assert r[..|r| - 3] == s[st..e0];
    assert r[|r| - 3..] == s[e0..e0 + 3];
  }

  /** A character that is no digit and starts no `,\d` blocks `\d+(,\d+)*` through it. */
  lemma Blocked(u: string, p: int, hi: int)
    requires 0 <= p < hi <= |u| && !IsDigit(u[p])
    requires !(u[p] == ',' && p + 1 < hi && IsDigit(u[p + 1]))
    ensures !DigitsAndGroups(u, 0, hi)
  {
  }

  /** The step of `GreedyIsLongest` for one candidate end `e`. */
  lemma NoLongerToken(s: string, st: nat, e0: nat, e: nat)
    requires st < e0 <= |s| && DigitsAndGroups(s, st, e0)
    requires e0 == |s| || (!IsDigit(s[e0]) && !CommaGroupAt(s, e0))
    requires (if FractionAt(s, e0) then e0 + 3 else e0) < e <= |s|
    ensures !IsAmountToken(s[st..e])
  {
    var t := s[st..e];
    assert !IntPart(t) by { BlockedAt(s, st, e0, e); }
    if |t| > 3 {
      assert !(IntPart(t[..|t| - 3]) && IsFraction(t[|t| - 3..])) by { NoFractionPast(s, st, e0, e); }
    }
  }

  /** The character at `e0` cannot continue `\d+(,\d+)*` into any longer stretch. */
  lemma BlockedAt(s: string, st: nat, e0: nat, e: nat)
    requires st < e0 < e <= |s| && !IsDigit(s[e0]) && !CommaGroupAt(s, e0)
    ensures !DigitsAndGroups(s[st..e], 0, e - st)
  {
    var t := s[st..e];
    var p := e0 - st;
    assert t[p] == s[e0];
    if p + 1 < |t| {
      assert t[p + 1] == s[e0 + 1];
    }
    Blocked(t, p, |t|);
  }

  /** Nor, unless it starts the fraction already taken, can a fraction end a longer token. */
  lemma NoFractionPast(s: string, st: nat, e0: nat, e: nat)
    requires st < e0 <= |s| && DigitsAndGroups(s, st, e0)
    requires e0 == |s| || (!IsDigit(s[e0]) && !CommaGroupAt(s, e0))
    requires (if FractionAt(s, e0) then e0 + 3 else e0) < e <= |s| && e - st > 3
    ensures var t := s[st..e]; !(IntPart(t[..|t| - 3]) && IsFraction(t[|t| - 3..]))
  {
    var t := s[st..e];
    var m := e - 3;
    var u := t[..|t| - 3];
    var f := t[|t| - 3..];
    assert u == s[st..m] && f == s[m..e];
    assert f[0] == s[m];
    if m > e0 {
      BlockedAt(s, st, e0, m);
    } else if m < e0 {
      assert IsDigit(s[m]) || s[m] == ',';
    } else {
      assert f[1] == s[e0 + 1] && f[2] == s[e0 + 2];
      assert IsFraction(f) ==> FractionAt(s, e0);
    }
  }

  // ---------------------------------------------------------------------
  // get_amount

  /** The leftmost anchor at or after `from`. */
  function AnchorFrom(s: string, from: nat): (r: Option<nat>)
    requires from <= |s|
    ensures r.Some? ==> from <= r.value && AnchorAt(s, r.value)
    ensures r.Some? ==> forall j :: from <= j < r.value ==> !AnchorAt(s, j)
    ensures r.None? ==> forall j :: from <= j ==> !AnchorAt(s, j)
    decreases |s| - from
  {
    if from == |s| then None
    else if AnchorAt(s, from) then Some(from)
    else AnchorFrom(s, from + 1)
  }

  /** The leftmost anchor is wherever one sits with none before it. */
  lemma AnchorIsFirst(s: string, i: nat)
    requires AnchorAt(s, i) && forall j :: 0 <= j < i ==> !AnchorAt(s, j)
    ensures AmountAnchor(s) == Some(i)
  {
  }

  /** Where `re.search` starts its match: the leftmost naira sign followed by a digit. */
  function AmountAnchor(s: string): (r: Option<nat>)
    ensures r.None? <==> forall i :: !AnchorAt(s, i)
    ensures r.Some? ==> AnchorAt(s, r.value) && forall j :: 0 <= j < r.value ==> !AnchorAt(s, j)
  {
    AnchorFrom(s, 0)
  }

  /** Text without a naira sign holds no amount. */
  lemma NoSignNoAnchor(s: string)
    requires Naira !in s
    ensures AmountAnchor(s).None?
  {
    forall i ensures !AnchorAt(s, i) {
      if 0 <= i < |s| {
        assert s[i] in s;
      }
    }
  }

  /** `get_amount(text)`. */
  function GetAmount(text: string): (r: string)
    ensures AmountAnchor(text).None? <==> r == AmountNotFound
    ensures AmountAnchor(text).Some? ==>
              && AnchorAt(text, AmountAnchor(text).value)
              && (forall j :: 0 <= j < AmountAnchor(text).value ==> !AnchorAt(text, j))
              && LongestTokenAt(text, AmountAnchor(text).value + 1, r)
              && Naira !in r
  {
    match AmountAnchor(text)
    case None => AmountNotFound
    case Some(i) =>
      GreedyIsLongest(text, i + 1);
      var r := text[i + 1..AmountEnd(text, i + 1)];
      TokenHasNoNaira(r);
      assert r[0] == text[i + 1];
      r
  }

  /** Tokens are made of digits, commas and one dot only. */
  lemma TokenHasNoNaira(t: string)
    requires IsAmountToken(t)
    ensures Naira !in t
    ensures |t| > 0 && IsDigit(t[0]) && IsDigit(t[|t| - 1])
  {
    if !IntPart(t) {
      var u := t[..|t| - 3];
      var f := t[|t| - 3..];
      assert u[0] == t[0];
      forall k | 0 <= k < |t|
        ensures t[k] != Naira
      {
        if k < |t| - 3 {
          assert u[k] == t[k];
        } else {
          assert f[k - |t| + 3] == t[k];
        }
      }
      assert f[2] == t[|t| - 1];
    }
  }

  /** At a given start there is at most one longest token. */
  lemma LongestTokenUnique(s: string, st: nat, r1: string, r2: string)
    requires LongestTokenAt(s, st, r1) && LongestTokenAt(s, st, r2)
    ensures r1 == r2
  {
  }

  /** A token followed by text that cannot continue it is not a longer token. */
  lemma ExtensionIsNoToken(tok: string, x: string, q: string)
    requires IsAmountToken(tok) && 0 < |x| && x <= q
    requires IntPart(tok) ==> !IsDigit(q[0]) && !CommaGroupAt(q, 0) && !FractionAt(q, 0)
    ensures !IsAmountToken(tok + x)
  {
    var t := tok + x;
    assert t[|tok|] == q[0];
    if |x| > 1 {
      assert t[|tok| + 1] == q[1];
    }
    if |x| > 2 {
      assert t[|tok| + 2] == q[2];
    }
    if |t| > 3 {
      // where a fraction of `t` would have to start
      var m := |t| - 3;
      var u := t[..m];
      if |tok| < m {
        assert u[|tok|] == q[0];
        if |tok| + 1 < m {
          assert u[|tok| + 1] == q[1];
        }
      }
      if m < |tok| {
        assert t[m] == tok[m];
      }
      if !IntPart(tok) && |tok| - 3 < m {
        assert u[|tok| - 3] == tok[|tok| - 3];
      }
    }
    if !IntPart(tok) {
      // `tok` already ends with its fraction, whose '.' no token can hold earlier
      assert t[|tok| - 3] == tok[|tok| - 3] == tok[|tok| - 3..][0];
    }
  }

  /** A rendered token is the longest token at its position. */
  lemma RenderedIsLongest(p: string, tok: string, q: string)
    requires IsAmountToken(tok)
    requires IntPart(tok) ==> q == [] || (!IsDigit(q[0]) && !CommaGroupAt(q, 0) && !FractionAt(q, 0))
    ensures LongestTokenAt(p + [Naira] + tok + q, |p| + 1, tok)
  {
    var s := p + [Naira] + tok + q;
    var st := |p| + 1;
    assert s[st..st + |tok|] == tok;
    assert s[st + |tok|..] == q;
    forall e | st + |tok| < e <= |s|
      ensures !IsAmountToken(s[st..e])
    {
      var x := s[st + |tok|..e];
      assert s[st..e] == tok + x;
      assert x == q[..e - st - |tok|];
      ExtensionIsNoToken(tok, x, q);
    }
  }

  /**
    Extraction inverts rendering: writing `₦` and a token into text that has
    no earlier naira sign, followed by anything that cannot extend the
    token, gives the token back.
   */
  lemma GetAmountOfRendered(p: string, tok: string, q: string)
    requires Naira !in p
    requires IsAmountToken(tok)
    requires IntPart(tok) ==> q == [] || (!IsDigit(q[0]) && !CommaGroupAt(q, 0) && !FractionAt(q, 0))
    ensures GetAmount(p + [Naira] + tok + q) == tok
  {
    var s := p + [Naira] + tok + q;
    TokenHasNoNaira(tok);
    forall j | 0 <= j < |p|
      ensures !AnchorAt(s, j)
    {
      assert s[j] == p[j];
    }
    assert s[|p|] == Naira && s[|p| + 1] == tok[0];
    assert AnchorAt(s, |p|);
    AnchorIsFirst(s, |p|);
    RenderedIsLongest(p, tok, q);
    LongestTokenUnique(s, |p| + 1, GetAmount(s), tok);
  }

  // ---------------------------------------------------------------------
  // int(float(x))

  predicate AllDigits(t: string) {
    forall k :: 0 <= k < |t| ==> IsDigit(t[k])
  }

  /** The number a run of decimal digits denotes (0 for the empty run). */
  function DigitsValue(t: string): (r: nat)
    requires AllDigits(t)
    decreases |t|
  {
    if |t| == 0 then 0 else 10 * DigitsValue(t[..|t| - 1]) + (t[|t| - 1] as int - '0' as int)
  }

  /** The run of digits `x` starts with. */
  function LeadingDigits(x: string): (d: string)
    ensures AllDigits(d) && d <= x
    ensures |d| == |x| || !IsDigit(x[|d|])
  {
    var e := DigitsEnd(x, 0);
    assert forall k :: 0 <= k < e ==> x[..e][k] == x[k];
    x[..e]
  }

  /** A numeral `float()` accepts that has no sign, exponent, blank or underscore. */
  predicate IsPlainDecimal(x: string) {
    && |x| > 0 && x != "."
    && (forall k :: 0 <= k < |x| ==> IsDigit(x[k]) || x[k] == '.')
    && (forall i, j :: 0 <= i < j < |x| && x[i] == '.' ==> x[j] != '.')
  }

  /** A run of digits from `from` that stops at `i` makes `DigitsEnd` stop at `i`. */
  lemma {:induction false} DigitsEndAt(s: string, from: nat, i: nat)
    requires from <= i <= |s|
    requires forall k :: from <= k < i ==> IsDigit(s[k])
    requires i == |s| || !IsDigit(s[i])
    ensures DigitsEnd(s, from) == i
    decreases i - from
  {
    if from < i {
      DigitsEndAt(s, from + 1, i);
    }
  }

  /**
    `int(float(x))` on a plain decimal numeral: the fraction is truncated
    away. Anything else is a `ValueError`.
   */
  function FloatToInt(x: string): (r: Result<int>)
    ensures r.Ok? <==> IsPlainDecimal(x)
    ensures r.Ok? ==> r.value == DigitsValue(LeadingDigits(x))
  {
    match Find(x, ".")
    case None =>
      OccursChar(x, '.');
      if 0 < |x| && AllDigits(x) then
        DigitsEndAt(x, 0, |x|);
        assert LeadingDigits(x) == x;
        Ok(DigitsValue(x))
      else
        Err(NotAFloat(x))
    case Some(i) =>
      AtChar(x, '.', i);
      var whole := x[..i];
      var frac := x[i + 1..];
      assert forall k :: 0 <= k < i ==> whole[k] == x[k];
      assert forall k :: i < k < |x| ==> frac[k - i - 1] == x[k];
      assert |x| == 1 ==> x == ".";
      if 0 < |whole| + |frac| && AllDigits(whole) && AllDigits(frac) then
        assert forall k :: 0 <= k < |x| && k != i ==> IsDigit(x[k]);
        DigitsEndAt(x, 0, i);
        Ok(DigitsValue(whole))
      else
        Err(NotAFloat(x))
  }

  /** The text `get_amount` returns on failure is no number: converting it raises. */
  lemma NotFoundIsNoNumber()
    ensures FloatToInt(AmountNotFound) == Err(NotAFloat(AmountNotFound))
  {
    assert AmountNotFound[0] == 'A';
  }

  /** Removing commas from the failure text leaves it unconvertible. */
  lemma NotFoundStripped()
    ensures RemoveChar(AmountNotFound, ',') == AmountNotFound
    ensures FloatToInt(RemoveChar(AmountNotFound, ',')).Err?
  {
    assert ',' !in AmountNotFound;
    RemoveCharAbsent(AmountNotFound, ',');
    NotFoundIsNoNumber();
  }

  /** The digits of a token before its fraction, thousands separators included. */
  function IntegerPart(tok: string): (w: string)
    requires IsAmountToken(tok)
    ensures IntPart(w) && w <= tok
    ensures w == tok || (|tok| == |w| + 3 && IsFraction(tok[|w|..]))
  {
    if IntPart(tok) then tok else tok[..|tok| - 3]
  }

  /** Removing the thousands separators of an integer part leaves a non-empty run of digits. */
  lemma IntPartWithoutCommas(w: string)
    requires IntPart(w)
    ensures var d := RemoveChar(w, ','); |d| > 0 && AllDigits(d)
  {
    var d := RemoveChar(w, ',');
    RemoveCharMembers(w, ',', w[0]);
    forall k | 0 <= k < |d|
      ensures IsDigit(d[k])
    {
      RemoveCharMembers(w, ',', d[k]);
    }
  }

  /**
    A token with its commas removed converts to the integer its integer
    part spells: `int(float("6,000.00".replace(",", "")))` is 6000.
   */
  lemma TokenValue(tok: string)
    requires IsAmountToken(tok)
    ensures var d := RemoveChar(IntegerPart(tok), ',');
            AllDigits(d) && FloatToInt(RemoveChar(tok, ',')) == Ok(DigitsValue(d))
  {
    var w := IntegerPart(tok);
    var d := RemoveChar(w, ',');
    IntPartWithoutCommas(w);
    var f := tok[|w|..];
    assert tok == w + f;
    RemoveCharConcat(w, f, ',');
    assert ',' !in f by {
      assert f == [] || IsFraction(f);
    }
    RemoveCharAbsent(f, ',');
    assert RemoveChar(tok, ',') == d + f;
    DigitsThenFraction(d, f);
  }

  /** Digits followed by an optional `.dd` form a plain decimal whose leading digits are those digits. */
  lemma DigitsThenFraction(d: string, f: string)
    requires |d| > 0 && AllDigits(d)
    requires f == [] || IsFraction(f)
    ensures IsPlainDecimal(d + f) && LeadingDigits(d + f) == d
  {
    var x := d + f;
    assert forall k :: 0 <= k < |d| ==> x[k] == d[k];
    assert forall k :: |d| <= k < |x| ==> x[k] == f[k - |d|];
    assert f != [] ==> x[|d|] == '.';
    assert forall k :: 0 <= k < |x| && x[k] == '.' ==> k == |d|;
    assert x[0] == d[0];
    forall i, j | 0 <= i < j < |x| && x[i] == '.'
      ensures x[j] != '.'
    {
      assert i == |d|;
    }
    DigitsEndAt(x, 0, |d|);
  }

  // ---------------------------------------------------------------------
  // The two ways the aggregators turn an amount into an integer

  /** Without commas, the greedy scan takes no thousands groups. */
  lemma GroupsEndNoComma(s: string, j: nat)
    requires j <= |s| && (j == |s| || !IsDigit(s[j])) && ',' !in s
    ensures GroupsEnd(s, j) == j
  {
    assert j < |s| ==> s[j] in s;
  }

  /** The leading digits of `s[st..]` are the run `DigitsEnd` scans. */
  lemma LeadingDigitsFrom(s: string, st: nat)
    requires st <= |s|
    ensures LeadingDigits(s[st..]) == s[st..DigitsEnd(s, st)]
  {
    var d := DigitsEnd(s, st);
    var t := s[st..];
    assert forall k :: 0 <= k < d - st ==> t[k] == s[st + k];
    assert d < |s| ==> t[d - st] == s[d];
    DigitsEndAt(t, 0, d - st);
  }

  /** The token starts right after the anchor and ends where the greedy scan stops. */
  lemma GetAmountSlice(s: string, a: nat)
    requires AmountAnchor(s).Some? && AmountAnchor(s).value == a
    ensures a + 1 < AmountEnd(s, a + 1) <= |s|
    ensures GetAmount(s) == s[a + 1..AmountEnd(s, a + 1)]
  {
  }

  /** In comma-free text the token is a run of digits and an optional fraction. */
  lemma CommaFreeToken(s: string, a: nat)
    requires AmountAnchor(s).Some? && AmountAnchor(s).value == a && ',' !in s
    ensures var d := DigitsEnd(s, a + 1);
            var f := if FractionAt(s, d) then s[d..d + 3] else [];
            && GetAmount(s) == s[a + 1..d] + f
            && (f == [] || IsFraction(f))
  {
    var st := a + 1;
    var d := DigitsEnd(s, st);
    GroupsEndNoComma(s, d);
    GetAmountSlice(s, a);
    DigitsThenOptionalFraction(s, st, d);
  }

  /** The text from `st` up to the end of a digit run at `d` and the fraction after it, if any. */
  lemma DigitsThenOptionalFraction(s: string, st: nat, d: nat)
    requires st <= d <= |s|
    ensures var f := if FractionAt(s, d) then s[d..d + 3] else [];
            var e := if FractionAt(s, d) then d + 3 else d;
            && s[st..e] == s[st..d] + f
            && (f == [] || IsFraction(f))
  {
    if FractionAt(s, d) {
      assert s[st..d + 3] == s[st..d] + s[d..d + 3];
    } else {
      assert s[st..d] == s[st..d] + [];
    }
  }

  /** `int(float(get_amount(info.replace(',', ''))))`, the conversion of the airtime, transfer, POS and spend-and-save branches. */
  function StrippedAmount(info: string): (r: Result<int>)
  {
    FloatToInt(GetAmount(Replace(info, ",", "")))
  }

  /**
    With the commas removed from the whole text before the search, the
    value is the run of digits right after the first naira sign that a
    digit follows, and the conversion fails exactly when there is none.
   */
  lemma StrippedAmountValue(info: string)
    ensures var s := RemoveChar(info, ',');
            && (AmountAnchor(s).None? ==> StrippedAmount(info).Err?)
            && (AmountAnchor(s).Some? ==>
                  && StrippedAmount(info).Ok?
                  && StrippedAmount(info).value == DigitsValue(LeadingDigits(s[AmountAnchor(s).value + 1..])))
  {
    ReplaceCharIsRemove(info, ',');
    var s := RemoveChar(info, ',');
    RemoveCharMembers(info, ',', ',');
    CommaFreeValue(s);
  }

  /** Converting the token of comma-free text reads the digits after the anchor. */
  lemma CommaFreeValue(s: string)
    requires ',' !in s
    ensures AmountAnchor(s).None? ==> FloatToInt(GetAmount(s)).Err?
    ensures AmountAnchor(s).Some? ==>
              && FloatToInt(GetAmount(s)).Ok?
              && FloatToInt(GetAmount(s)).value == DigitsValue(LeadingDigits(s[AmountAnchor(s).value + 1..]))
  {
    if AmountAnchor(s).None? {
      assert GetAmount(s) == AmountNotFound;
      NotFoundIsNoNumber();
    } else {
      CommaFreeValueAt(s, AmountAnchor(s).value);
    }
  }

  /** The same, with the anchor named. */
  lemma CommaFreeValueAt(s: string, a: nat)
    requires AmountAnchor(s).Some? && AmountAnchor(s).value == a && ',' !in s
    ensures FloatToInt(GetAmount(s)).Ok? && FloatToInt(GetAmount(s)).value == DigitsValue(LeadingDigits(s[a + 1..]))
  {
    var d := DigitsEnd(s, a + 1);
    var f := if FractionAt(s, d) then s[d..d + 3] else [];
    var digits := s[a + 1..d];
    CommaFreeToken(s, a);
    DigitsAfterAnchor(s, a);
    DecimalTokenValue(GetAmount(s), digits, f);
  }

  /** After the anchor comes a non-empty run of digits, which is what `LeadingDigits` reads there. */
  lemma DigitsAfterAnchor(s: string, a: nat)
    requires AnchorAt(s, a)
    ensures var d := DigitsEnd(s, a + 1);
            && a + 1 < d && AllDigits(s[a + 1..d]) && LeadingDigits(s[a + 1..]) == s[a + 1..d]
  {
    LeadingDigitsFrom(s, a + 1);
  }

  /** A run of digits, then an optional `.\d\d`, converts to the value of the digits. */
  lemma DecimalTokenValue(tok: string, digits: string, f: string)
    requires |digits| > 0 && AllDigits(digits) && (f == [] || IsFraction(f)) && tok == digits + f
    ensures FloatToInt(tok).Ok? && FloatToInt(tok).value == DigitsValue(digits)
  {
    DigitsThenFraction(digits, f);
  }

  /** `int(float(get_amount(info).replace(',', '')))`, the conversion of the credit-alert branch. */
  function TokenAmount(info: string): (r: Result<int>)
  {
    FloatToInt(Replace(GetAmount(info), ",", ""))
  }

  /**
    With the token found first and its commas removed afterwards, the value
    is the integer part of the token read without its thousands
    separators, and the conversion fails exactly when there is no token.
   */
  lemma TokenAmountValue(info: string)
    ensures match AmountAnchor(info)
            case None => TokenAmount(info).Err?
            case Some(_) =>
              var d := RemoveChar(IntegerPart(GetAmount(info)), ',');
              AllDigits(d) && TokenAmount(info) == Ok(DigitsValue(d))
  {
    var tok := GetAmount(info);
    ReplaceCharIsRemove(tok, ',');
    assert TokenAmount(info) == FloatToInt(RemoveChar(tok, ','));
    match AmountAnchor(info)
    case None =>
      assert tok == AmountNotFound;
      NotFoundStripped();
    case Some(_) =>
      TokenValue(tok);
  }

  /** Whenever `StrippedAmount` raises, it raises on the text `get_amount` returns when it finds no amount. */
  lemma StrippedAmountError(info: string)
    ensures StrippedAmount(info).Err? ==> StrippedAmount(info).error == NotAFloat(AmountNotFound)
  {
    var u := Replace(info, ",", "");
    if AmountAnchor(u).None? {
      assert GetAmount(u) == AmountNotFound;
      NotFoundIsNoNumber();
    } else {
      ReplaceCharIsRemove(info, ',');
      StrippedAmountValue(info);
    }
  }

  /** Whenever `TokenAmount` raises, it raises on the text `get_amount` returns when it finds no amount. */
  lemma TokenAmountError(info: string)
    ensures TokenAmount(info).Err? ==> TokenAmount(info).error == NotAFloat(AmountNotFound)
  {
    if AmountAnchor(info).None? {
      NotFoundStripped();
      NotFoundIsNoNumber();
      ReplaceCharIsRemove(AmountNotFound, ',');
      assert GetAmount(info) == AmountNotFound;
    } else {
      TokenAmountValue(info);
    }
  }

  // ---------------------------------------------------------------------
  // process_date

  /** `\d{4}-\d{2}-\d{2}` */
  predicate IsIsoDate(d: string) {
    && |d| == 10 && d[4] == '-' && d[7] == '-'
    && forall k :: 0 <= k < 10 && k != 4 && k != 7 ==> IsDigit(d[k])
  }

  /** A date-shaped substring starts at `i`. */
  predicate DateAt(s: string, i: int) {
    0 <= i && i + 10 <= |s| && IsIsoDate(s[i..i + 10])
  }

  /** The leftmost date-shaped substring at or after `from`. */
  function DateFrom(s: string, from: nat): (r: Option<nat>)
    requires from <= |s|
    ensures r.Some? ==> from <= r.value && DateAt(s, r.value)
    ensures r.Some? ==> forall j :: from <= j < r.value ==> !DateAt(s, j)
    ensures r.None? ==> forall j :: from <= j ==> !DateAt(s, j)
    decreases |s| - from
  {
    if from + 10 > |s| then None
    else if IsIsoDate(s[from..from + 10]) then Some(from)
    else DateFrom(s, from + 1)
  }

  /** `process_date(file_name)`: the leftmost date-shaped substring, or `None`. */
  function ProcessDate(fileName: string): (r: Option<string>)
    ensures r.None? <==> forall i :: !DateAt(fileName, i)
    ensures r.Some? ==> IsIsoDate(r.value)
    ensures r.Some? ==> exists i :: DateAt(fileName, i) && fileName[i..i + 10] == r.value
                                     && forall j :: 0 <= j < i ==> !DateAt(fileName, j)
  {
    match DateFrom(fileName, 0)
    case None => None
    case Some(i) => Some(fileName[i..i + 10])
  }

  /** A date is found behind any prefix that holds no digit. */
  lemma ProcessDateOfRendered(p: string, d: string, q: string)
    requires IsIsoDate(d)
    requires forall k :: 0 <= k < |p| ==> !IsDigit(p[k])
    ensures ProcessDate(p + d + q) == Some(d)
  {
    var s := p + d + q;
    assert s[|p|..|p| + 10] == d;
    forall j | 0 <= j < |p|
      ensures !DateAt(s, j)
    {
      if j + 10 <= |s| {
        assert s[j..j + 10][0] == p[j];
      }
    }
    assert DateAt(s, |p|);
  }
}
