/**
  The parts of Python's `str` semantics the alert engine relies on:
  `in`, `str.find`/`str.index`, slicing with negative and out-of-range
  bounds, `str.split`, `str.join` and `str.replace`. Python exceptions are
  modelled as the `Err` case of `Result`.
 */
module PyStr {

  datatype Option<+T> = None | Some(value: T)

  /** The exceptions the core can raise. Both are `ValueError` in Python. */
  datatype PyError =
    | SubstringNotFound(needle: string)   // `str.index` on an absent needle
    | NotAFloat(text: string)             // `float()` on a non-numeric string

  datatype Result<+T> = Ok(value: T) | Err(error: PyError) {
    predicate IsFailure() { Err? }
    function PropagateFailure<U>(): Result<U>
      requires Err?
    {
      Err(error)
    }
    function Extract(): T
      requires Ok?
    {
      value
    }
  }

  predicate IsDigit(c: char) { '0' <= c <= '9' }

  /** `t` occurs in `s` starting at index `i`. */
  predicate At(s: string, t: string, i: int) {
    0 <= i && i + |t| <= |s| && s[i..i + |t|] == t
  }

  /** Python's `t in s`, as a specification. */
  ghost predicate Occurs(s: string, t: string) {
    exists i :: At(s, t, i)
  }

  /** Leftmost occurrence of `t` in `s` at or after `from`. */
  function FindFrom(s: string, t: string, from: nat): (r: Option<nat>)
    requires from <= |s|
    ensures r.Some? ==> from <= r.value && At(s, t, r.value)
    ensures r.Some? ==> forall j :: from <= j < r.value ==> !At(s, t, j)
    ensures r.None? ==> forall j :: from <= j ==> !At(s, t, j)
    decreases |s| - from
  {
    if from + |t| > |s| then None
    else if s[from..from + |t|] == t then Some(from)
    else if from == |s| then None
    else FindFrom(s, t, from + 1)
  }

  /** Python's `s.find(t)`, with `None` for Python's `-1`. */
  function Find(s: string, t: string): (r: Option<nat>)
    ensures r.None? <==> !Occurs(s, t)
    ensures r.Some? ==> At(s, t, r.value) && forall j :: 0 <= j < r.value ==> !At(s, t, j)
  {
    FindFrom(s, t, 0)
  }

  /** Python's `s.index(t)`: the first occurrence, or a `ValueError`. */
  function Index(s: string, t: string): (r: Result<nat>)
    ensures r.Err? <==> !Occurs(s, t)
    ensures r.Ok? ==> At(s, t, r.value) && forall j :: 0 <= j < r.value ==> !At(s, t, j)
  {
    match Find(s, t)
    case None => Err(SubstringNotFound(t))
    case Some(i) => Ok(i)
  }

  /** Python's `t in s`. */
  predicate Contains(s: string, t: string)
    ensures Contains(s, t) <==> Occurs(s, t)
  {
    Find(s, t).Some?
  }

  /** A one-character needle occurs exactly where that character sits. */
  lemma AtChar(s: string, c: char, i: int)
    ensures At(s, [c], i) <==> 0 <= i < |s| && s[i] == c
  {
    if 0 <= i < |s| {
      assert s[i..i + 1] == [s[i]];
    }
  }

  lemma OccursChar(s: string, c: char)
    ensures Occurs(s, [c]) <==> c in s
  {
    if c in s {
      var i :| 0 <= i < |s| && s[i] == c;
      AtChar(s, c, i);
    }
    if Occurs(s, [c]) {
      var i :| At(s, [c], i);
      AtChar(s, c, i);
    }
  }

  /** The first occurrence is wherever `t` sits with no earlier occurrence. */
  lemma FindIsFirst(s: string, t: string, i: nat)
    requires At(s, t, i) && forall j :: 0 <= j < i ==> !At(s, t, j)
    ensures Find(s, t) == Some(i)
  {
  }

  /** A needle whose first character is absent from `s` does not occur in `s`. */
  lemma AbsentFirstChar(s: string, t: string)
    requires |t| > 0 && t[0] !in s
    ensures !Occurs(s, t)
  {
    forall i | 0 <= i && i + |t| <= |s|
      ensures !At(s, t, i)
    {
      assert s[i..i + |t|][0] == s[i];
    }
  }

  /** A needle with any one character absent from `s` does not occur in `s`. */
  lemma AbsentChar(s: string, t: string, k: nat)
    requires k < |t| && t[k] !in s
    ensures !Occurs(s, t)
  {
    forall i | 0 <= i && i + |t| <= |s|
      ensures !At(s, t, i)
    {
      assert s[i..i + |t|][k] == s[i + k];
    }
  }

  /** `t` is found at `i` when its first character does not occur before `i`. */
  lemma FindByFirstChar(s: string, t: string, i: nat)
    requires |t| > 0 && At(s, t, i) && t[0] !in s[..i]
    ensures Find(s, t) == Some(i)
  {
    forall j | 0 <= j < i
      ensures !At(s, t, j)
    {
      if j + |t| <= |s| {
        assert s[j..j + |t|][0] == s[..i][j];
      }
    }
    FindIsFirst(s, t, i);
  }

  /** A character absent from `pre` is first found right after it. */
  lemma FindFirstChar(pre: string, c: char, post: string)
    requires c !in pre
    ensures Find(pre + [c] + post, [c]) == Some(|pre|)
  {
    var s := pre + [c] + post;
    assert s[|pre|] == c;
    AtChar(s, c, |pre|);
    assert s[..|pre|] == pre;
    FindByFirstChar(s, [c], |pre|);
  }

  /**
    In `a + [c] + t + b`, with `t` absent from `a` and the separator `c`
    absent from `t`, the first occurrence of `t` is the one right after `c`.
   */
  lemma FindAfterSeparator(a: string, c: char, t: string, b: string)
    requires |t| > 0 && !Occurs(a, t) && c !in t
    ensures Find(a + [c] + t + b, t) == Some(|a| + 1)
  {
    var s := a + [c] + t + b;
    assert s[|a| + 1..|a| + 1 + |t|] == t;
    forall j | 0 <= j < |a| + 1
      ensures !At(s, t, j)
    {
      if j + |t| <= |a| {
        assert s[j..j + |t|] == a[j..j + |t|];
        assert !At(a, t, j);
      } else if j + |t| <= |s| {
        assert s[j..j + |t|][|a| - j] == c;
      }
    }
    FindIsFirst(s, t, |a| + 1);
  }

  /** An occurrence inside a piece of `s` is an occurrence in `s`. */
  lemma AtShift(s: string, t: string, lo: int, hi: int, i: int)
    requires 0 <= lo <= hi <= |s|
    requires At(s[lo..hi], t, i)
    ensures At(s, t, lo + i)
  {
    forall k | 0 <= k < |t|
      ensures s[lo + i..lo + i + |t|][k] == t[k]
    {
      assert s[lo..hi][i..i + |t|][k] == t[k];
    }
  }

  // ---------------------------------------------------------------------
  // Slicing

  /** Python's normalisation of one slice bound against a length `n`. */
  function SliceBound(i: int, n: nat): (b: nat)
    ensures b <= n
    ensures 0 <= i <= n ==> b == i
    ensures i < 0 <= i + n ==> b == i + n
  {
    if i < 0 then (if i + n < 0 then 0 else i + n)
    else if i > n then n
    else i
  }

  /** Python's `s[start:end]`. */
  function PySlice(s: string, start: int, end: int): (r: string)
    ensures |r| <= |s|
    ensures 0 <= start <= end <= |s| ==> r == s[start..end]
    ensures SliceBound(end, |s|) <= SliceBound(start, |s|) ==> r == []
    ensures SliceBound(start, |s|) < SliceBound(end, |s|) ==>
              r == s[SliceBound(start, |s|)..SliceBound(end, |s|)]
  {
    var lo := SliceBound(start, |s|);
    var hi := SliceBound(end, |s|);
    if hi <= lo then [] else s[lo..hi]
  }

  /** A negative end counts from the back: `s[a:-k]` drops the last `k` characters. */
  lemma PySliceNegativeEnd(s: string, start: int, k: int)
    requires 0 < k <= |s| && 0 <= start <= |s| - k
    ensures PySlice(s, start, -k) == s[start..|s| - k]
  {
  }

  // ---------------------------------------------------------------------
  // Split and join

  /** Python's `s.split(sep)` for a non-empty separator. */
  function Split(s: string, sep: string): (parts: seq<string>)
    requires |sep| > 0
    ensures |parts| >= 1
    decreases |s|
  {
    match Find(s, sep)
    case None => [s]
    case Some(i) => [s[..i]] + Split(s[i + |sep|..], sep)
  }

  /** Python's `glue.join(parts)`. */
  function Join(glue: string, parts: seq<string>): (r: string)
  {
    if |parts| == 0 then []
    else if |parts| == 1 then parts[0]
    else parts[0] + glue + Join(glue, parts[1..])
  }

  /** Python's `s.split(sep)[-1]`. */
  function LastSegment(s: string, sep: string): (r: string)
    requires |sep| > 0
  {
    var parts := Split(s, sep);
    parts[|parts| - 1]
  }

  /** Joining the pieces of a split with the separator gives back the original. */
  lemma {:induction false} SplitJoin(s: string, sep: string)
    requires |sep| > 0
    ensures Join(sep, Split(s, sep)) == s
    decreases |s|
  {
    match Find(s, sep)
    case None =>
    case Some(i) =>
      var rest := s[i + |sep|..];
      var tail := Split(rest, sep);
      SplitJoin(rest, sep);
      assert Split(s, sep) == [s[..i]] + tail;
      assert ([s[..i]] + tail)[1..] == tail;
      assert Join(sep, Split(s, sep)) == s[..i] + sep + Join(sep, tail);
      assert s == s[..i] + sep + rest;
  }

  /** No piece of a split contains the separator. */
  lemma {:induction false} SplitPartsAvoidSep(s: string, sep: string)
    requires |sep| > 0
    ensures forall p :: p in Split(s, sep) ==> !Occurs(p, sep)
    decreases |s|
  {
    match Find(s, sep)
    case None =>
    case Some(i) =>
      var rest := s[i + |sep|..];
      SplitPartsAvoidSep(rest, sep);
      if Occurs(s[..i], sep) {
        var j :| At(s[..i], sep, j);
        AtShift(s, sep, 0, i, j);
        assert false;
      }
      assert Split(s, sep) == [s[..i]] + Split(rest, sep);
  }

  /** The last piece of a split is the last piece of the split of what follows the first separator. */
  lemma LastSegmentStep(s: string, sep: string, i: nat)
    requires |sep| > 0 && Find(s, sep).Some? && Find(s, sep).value == i
    ensures LastSegment(s, sep) == LastSegment(s[i + |sep|..], sep)
  {
    var tail := Split(s[i + |sep|..], sep);
    var parts := Split(s, sep);
    assert parts == [s[..i]] + tail;
    assert parts[|parts| - 1] == tail[|tail| - 1];
  }

  /** `s.split(sep)[-1]` contains no separator. */
  lemma LastSegmentAvoidsSep(s: string, sep: string)
    requires |sep| > 0
    ensures !Occurs(LastSegment(s, sep), sep)
  {
    SplitPartsAvoidSep(s, sep);
    var parts := Split(s, sep);
    assert parts[|parts| - 1] in parts;
  }

  /** Without a separator, `s.split(sep)[-1]` is `s` itself. */
  lemma LastSegmentNoSep(s: string, sep: string)
    requires |sep| > 0 && !Occurs(s, sep)
    ensures LastSegment(s, sep) == s
  {
  }

  /** `s.split(sep)[-1]` is a suffix of `s`. */
  lemma {:induction false} LastSegmentSuffix(s: string, sep: string)
    requires |sep| > 0
    ensures var last := LastSegment(s, sep); |last| <= |s| && s[|s| - |last|..] == last
    decreases |s|
  {
    match Find(s, sep)
    case None =>
      LastSegmentNoSep(s, sep);
    case Some(i) =>
      var rest := s[i + |sep|..];
      LastSegmentSuffix(rest, sep);
      LastSegmentStep(s, sep, i);
      var n := |LastSegment(rest, sep)|;
      assert s[|s| - n..] == rest[|rest| - n..];
  }

  /** `s.split(sep)[-1]` is a suffix of `s`, preceded by a separator when there is one. */
  lemma {:induction false} LastSegmentIsTail(s: string, sep: string)
    requires |sep| > 0
    ensures var last := LastSegment(s, sep);
      && |last| <= |s|
      && s[|s| - |last|..] == last
      && (Occurs(s, sep) ==> At(s, sep, |s| - |last| - |sep|))
    decreases |s|
  {
    LastSegmentSuffix(s, sep);
    match Find(s, sep)
    case None =>
    case Some(i) =>
      var rest := s[i + |sep|..];
      LastSegmentStep(s, sep, i);
      if Occurs(rest, sep) {
        LastSegmentIsTail(rest, sep);
        SepBeforeTail(s, sep, i, |LastSegment(rest, sep)|);
      } else {
        LastSegmentNoSep(rest, sep);
        assert At(s, sep, i);
      }
  }

  /** An occurrence that ends `n` before the end of a suffix ends `n` before the end of the whole. */
  lemma SepBeforeTail(s: string, sep: string, i: nat, n: nat)
    requires i + |sep| <= |s| && At(s[i + |sep|..], sep, |s| - i - |sep| - n - |sep|)
    ensures At(s, sep, |s| - n - |sep|)
  {
    assert s[i + |sep|..] == s[i + |sep|..|s|];
    AtShift(s, sep, i + |sep|, |s|, |s| - i - |sep| - n - |sep|);
  }

  /** An occurrence at or after `k` is an occurrence in the suffix from `k`. */
  lemma AtSuffix(s: string, t: string, k: nat, i: int)
    requires At(s, t, i) && k <= |s|
    ensures k <= i ==> At(s[k..], t, i - k)
  {
    if k <= i {
      assert s[k..][i - k..i - k + |t|] == s[i..i + |t|];
    }
  }

  /** Occurrences of a needle whose first character is unique in it never overlap. */
  lemma NoOverlap(s: string, t: string, x: int, y: int)
    requires |t| > 0 && t[0] !in t[1..]
    requires At(s, t, x) && At(s, t, y)
    ensures x < y ==> x + |t| <= y
  {
  }

  /**
    When the first character of `sep` occurs nowhere else in `sep`, an
    occurrence of `sep` followed by separator-free text `c` at the end of
    `s` fixes `s.split(sep)[-1]` to `c`.
   */
  lemma LastSegmentAfterFinalSep(p: string, sep: string, c: string)
    requires |sep| > 0 && sep[0] !in sep[1..]
    requires !Occurs(c, sep)
    ensures LastSegment(p + sep + c, sep) == c
  {
    var s := p + sep + c;
    var last := LastSegment(s, sep);
    assert At(s, sep, |p|);
    LastSegmentIsTail(s, sep);
    LastSegmentAvoidsSep(s, sep);
    var q := |s| - |last| - |sep|;
    NoOverlap(s, sep, |p|, q);
    NoOverlap(s, sep, q, |p|);
    assert s[|p| + |sep|..] == c;
    AtSuffix(s, sep, |p| + |sep|, q);
    AtSuffix(s, sep, q + |sep|, |p|);
    assert q == |p|;
    assert s[|s| - |last|..] == c;
  }

  // ---------------------------------------------------------------------
  // Replace

  /** Python's `s.replace("", rep)`: `rep` before every character and at the end. */
  function ReplaceEmpty(s: string, rep: string): (r: string)
    ensures |r| == |s| + (|s| + 1) * |rep|
  {
    if |s| == 0 then rep else rep + [s[0]] + ReplaceEmpty(s[1..], rep)
  }

  /** Python's `s.replace(pat, rep)`: every non-overlapping occurrence, left to right. */
  function Replace(s: string, pat: string, rep: string): (r: string)
    decreases |s|
  {
    if |pat| == 0 then ReplaceEmpty(s, rep)
    else
      match Find(s, pat)
      case None => s
      case Some(i) => s[..i] + rep + Replace(s[i + |pat|..], pat, rep)
  }

  /** One step of `Replace`: the text before the first occurrence, `rep`, then the rest replaced. */
  lemma ReplaceStep(s: string, pat: string, rep: string)
    requires |pat| > 0 && Find(s, pat).Some?
    ensures var i := Find(s, pat).value;
            Replace(s, pat, rep) == s[..i] + rep + Replace(s[i + |pat|..], pat, rep)
  {
  }

  /** Deleting occurrences never lengthens a text. */
  lemma ReplaceShrinks(s: string, pat: string)
    requires |pat| > 0
    ensures |Replace(s, pat, "")| <= |s|
    decreases |s|
  {
    if Find(s, pat).Some? {
      var i := Find(s, pat).value;
      ReplaceShrinks(s[i + |pat|..], pat);
      ReplaceStep(s, pat, "");
    }
  }

  /** A text that opens with the pattern has that occurrence replaced first. */
  lemma ReplaceAtStart(s: string, pat: string, rep: string)
    requires |pat| > 0 && At(s, pat, 0)
    ensures Replace(s, pat, rep) == rep + Replace(s[|pat|..], pat, rep)
  {
    FindIsFirst(s, pat, 0);
    ReplaceStep(s, pat, rep);
    assert s[..0] + rep == rep;
  }

  /** `s.replace(pat, rep)` is `rep.join(s.split(pat))`. */
  lemma {:induction false} ReplaceIsJoinOfSplit(s: string, pat: string, rep: string)
    requires |pat| > 0
    ensures Replace(s, pat, rep) == Join(rep, Split(s, pat))
    decreases |s|
  {
    match Find(s, pat)
    case None =>
    case Some(i) =>
      var rest := s[i + |pat|..];
      var tail := Split(rest, pat);
      ReplaceIsJoinOfSplit(rest, pat, rep);
      assert Split(s, pat) == [s[..i]] + tail;
      assert ([s[..i]] + tail)[1..] == tail;
  }

  /** Replacing a needle that does not occur changes nothing. */
  lemma ReplaceAbsent(s: string, pat: string, rep: string)
    requires |pat| > 0 && !Occurs(s, pat)
    ensures Replace(s, pat, rep) == s
  {
  }

  /** A text that opens with the needle, once, gets `rep` in its place. */
  lemma ReplaceLeading(pat: string, rest: string, rep: string)
    requires |pat| > 0 && !Occurs(rest, pat)
    ensures Replace(pat + rest, pat, rep) == rep + rest
  {
    var s := pat + rest;
    assert At(s, pat, 0);
    FindIsFirst(s, pat, 0);
    assert s[|pat|..] == rest;
    ReplaceAbsent(rest, pat, rep);
  }

  /** A character of `s` that is not part of the needle survives the replacement, at index `j`. */
  lemma {:induction false} ReplaceKeepsChar(s: string, pat: string, rep: string, k: nat) returns (j: nat)
    requires |pat| > 0 && k < |s| && forall m :: 0 <= m < |pat| ==> pat[m] != s[k]
    ensures j < |Replace(s, pat, rep)| && Replace(s, pat, rep)[j] == s[k]
    decreases |s|
  {
    var f := Find(s, pat);
    if f.None? {
      j := k;
    } else if k < f.value {
      KeptBefore(s, pat, rep, k);
      j := k;
    } else if k < f.value + |pat| {
      MatchedChar(s, pat, f.value, k);
      assert false;
    } else {
      var rest := s[f.value + |pat|..];
      var k' := k - f.value - |pat|;
      assert rest[k'] == s[k];
      var j' := ReplaceKeepsChar(rest, pat, rep, k');
      KeptAfter(s, pat, rep, j', s[k]);
      j := f.value + |rep| + j';
    }
  }

  /** A character before the first match is copied to the same place. */
  lemma KeptBefore(s: string, pat: string, rep: string, k: nat)
    requires |pat| > 0 && Find(s, pat).Some? && k < Find(s, pat).value
    ensures k < |Replace(s, pat, rep)| && Replace(s, pat, rep)[k] == s[k]
  {
    ReplaceStep(s, pat, rep);
  }

  /** A character inside a match is the needle's. */
  lemma MatchedChar(s: string, pat: string, i: nat, k: nat)
    requires At(s, pat, i) && i <= k < i + |pat|
    ensures pat[k - i] == s[k]
  {
    assert s[i..i + |pat|][k - i] == s[k];
  }

  /** A character the rest after the first match keeps is kept, shifted, by the whole. */
  lemma KeptAfter(s: string, pat: string, rep: string, j': nat, c: char)
    requires |pat| > 0 && Find(s, pat).Some?
    requires var rest := Replace(s[Find(s, pat).value + |pat|..], pat, rep); j' < |rest| && rest[j'] == c
    ensures var j := Find(s, pat).value + |rep| + j';
            j < |Replace(s, pat, rep)| && Replace(s, pat, rep)[j] == c
  {
    ReplaceStep(s, pat, rep);
  }

  /** A slice of a string free of `t` is free of `t`. */
  lemma SliceAvoids(s: string, t: string, lo: int, hi: int)
    requires 0 <= lo <= hi <= |s| && !Occurs(s, t)
    ensures !Occurs(s[lo..hi], t)
  {
    forall i | At(s[lo..hi], t, i)
      ensures At(s, t, lo + i)
    {
      AtShift(s, t, lo, hi, i);
    }
  }

  /** Any Python slice of a string free of `t` is free of `t`. */
  lemma PySliceAvoids(s: string, t: string, start: int, end: int)
    requires !Occurs(s, t)
    ensures !Occurs(PySlice(s, start, end), t)
  {
    var lo := SliceBound(start, |s|);
    var hi := SliceBound(end, |s|);
    if lo < hi {
      SliceAvoids(s, t, lo, hi);
    } else {
      SliceAvoids(s, t, 0, 0);
      assert PySlice(s, start, end) == s[0..0];
    }
  }

  /** A prefix that ends before every occurrence of `t` holds none. */
  lemma PrefixAvoids(s: string, t: string, e: int)
    requires |t| > 0 && 0 <= e <= |s| && forall i :: 0 <= i < e ==> !At(s, t, i)
    ensures !Occurs(s[..e], t)
  {
    forall i | 0 <= i
      ensures !At(s[..e], t, i)
    {
      if i + |t| <= e {
        assert s[..e][i..i + |t|] == s[i..i + |t|];
        assert !At(s, t, i);
      }
    }
  }

  /**
    A needle whose first character is unique in it, appended to text that
    does not contain it, is first found where it was appended.
   */
  lemma FindAppended(x: string, t: string)
    requires |t| > 0 && t[0] !in t[1..] && !Occurs(x, t)
    ensures Find(x + t, t) == Some(|x|)
  {
    var s := x + t;
    assert s[|x|..|x| + |t|] == t;
    forall j | 0 <= j < |x|
      ensures !At(s, t, j)
    {
      if j + |t| <= |x| {
        assert s[j..j + |t|] == x[j..j + |t|];
        assert !At(x, t, j);
      } else if j + |t| <= |s| {
        assert s[|x|] == t[0];
        assert s[j..j + |t|][|x| - j] == t[0];
        assert t[|x| - j] == t[1..][|x| - j - 1] && t[1..][|x| - j - 1] in t[1..];
      }
    }
    FindIsFirst(s, t, |x|);
  }

  /** Deleting a trailing needle of that kind gives back the text before it. */
  lemma ReplaceTrailing(x: string, t: string)
    requires |t| > 0 && t[0] !in t[1..] && !Occurs(x, t)
    ensures Replace(x + t, t, "") == x
  {
    FindAppended(x, t);
    assert (x + t)[..|x|] == x;
    assert (x + t)[|x| + |t|..] == [];
  }

  /**
    When no character of a non-empty `rep` belongs to `pat`, no occurrence
    of `pat` survives `s.replace(pat, rep)`.
   */
  lemma ReplaceRemovesAll(s: string, pat: string, rep: string)
    requires |pat| > 0 && |rep| > 0
    requires forall k :: 0 <= k < |rep| ==> rep[k] !in pat
    ensures !Occurs(Replace(s, pat, rep), pat)
  {
    ReplaceIsJoinOfSplit(s, pat, rep);
    SplitPartsAvoidSep(s, pat);
    JoinAvoids(rep, Split(s, pat), pat);
  }

  /**
    Without a non-empty replacement the pattern can come back: deleting the
    one `234` of `223434` joins `2` and `34` into a new `234`.
   */
  lemma DeletionCanRecreate()
    ensures Replace("223434", "234", "") == "234"
    ensures Occurs(Replace("223434", "234", ""), "234")
  {
    FirstPhoneCode();
    ReplaceStep("223434", "234", "");
    assert "223434"[4..] == "34";
    ShortTextAvoids("34", "234");
    ReplaceAbsent("34", "234", "");
    assert "223434"[..1] + "" + "34" == "234";
    assert At("234", "234", 0);
  }

  /** The first `234` of `223434` starts at index 1. */
  lemma FirstPhoneCode()
    ensures Find("223434", "234") == Some(1)
  {
    var s := "223434";
    assert s[1..4] == "234";
    assert s[0..3][1] == '2';
    FindIsFirst(s, "234", 1);
  }

  /** A text shorter than `t` holds no `t`. */
  lemma ShortTextAvoids(s: string, t: string)
    requires |s| < |t|
    ensures !Occurs(s, t)
  {
  }

  /** Joining `pat`-free pieces with a glue of non-`pat` characters creates no `pat`. */
  lemma {:induction false} JoinAvoids(rep: string, parts: seq<string>, pat: string)
    requires |pat| > 0 && |rep| > 0
    requires forall k :: 0 <= k < |rep| ==> rep[k] !in pat
    requires forall p :: p in parts ==> !Occurs(p, pat)
    ensures !Occurs(Join(rep, parts), pat)
    decreases |parts|
  {
    if |parts| == 1 {
      assert parts[0] in parts;
    } else if |parts| > 1 {
      assert parts[0] in parts;
      assert forall p :: p in parts[1..] ==> p in parts;
      JoinAvoids(rep, parts[1..], pat);
      ConcatAvoids(parts[0], rep, Join(rep, parts[1..]), pat);
    }
  }

  /** Gluing two `pat`-free texts with a separator made of non-`pat` characters creates no `pat`. */
  lemma ConcatAvoids(a: string, rep: string, b: string, pat: string)
    requires |pat| > 0 && |rep| > 0
    requires forall k :: 0 <= k < |rep| ==> rep[k] !in pat
    requires !Occurs(a, pat) && !Occurs(b, pat)
    ensures !Occurs(a + rep + b, pat)
  {
    var r := a + rep + b;
    var ia := |a| + |rep|;
    assert r[..|a|] == a && r[ia..] == b;
    forall j | 0 <= j
      ensures !At(r, pat, j)
    {
      if j + |pat| <= |r| {
        var w := r[j..j + |pat|];
        if j + |pat| <= |a| {
          assert w == r[..|a|][j..j + |pat|];
          assert w == a[j..j + |pat|];
          assert !At(a, pat, j);
        } else if j < ia {
          var m := if j < |a| then |a| else j;
          assert w[m - j] == r[m] == rep[m - |a|];
          assert pat[m - j] in pat;
        } else {
          assert w == r[ia..][j - ia..j - ia + |pat|];
          assert w == b[j - ia..j - ia + |pat|];
          assert !At(b, pat, j - ia);
        }
      }
    }
  }

  /** Independent reference for removing one character: keep every other character, in order. */
  function RemoveChar(s: string, c: char): (r: string)
    ensures |r| <= |s|
  {
    if |s| == 0 then []
    else (if s[0] == c then [] else [s[0]]) + RemoveChar(s[1..], c)
  }

  lemma {:induction false} RemoveCharConcat(a: string, b: string, c: char)
    ensures RemoveChar(a + b, c) == RemoveChar(a, c) + RemoveChar(b, c)
    decreases |a|
  {
    if |a| > 0 {
      assert (a + b)[0] == a[0];
      assert (a + b)[1..] == a[1..] + b;
      RemoveCharConcat(a[1..], b, c);
      var h := if a[0] == c then [] else [a[0]];
      assert RemoveChar(a + b, c) == h + RemoveChar(a[1..] + b, c);
      assert RemoveChar(a, c) == h + RemoveChar(a[1..], c);
      assert h + (RemoveChar(a[1..], c) + RemoveChar(b, c)) == (h + RemoveChar(a[1..], c)) + RemoveChar(b, c);
    } else {
      assert a + b == b;
    }
  }

  /** Removing a character keeps exactly the other characters. */
  lemma {:induction false} RemoveCharMembers(s: string, c: char, x: char)
    ensures x in RemoveChar(s, c) <==> x in s && x != c
    decreases |s|
  {
    if |s| > 0 {
      RemoveCharMembers(s[1..], c, x);
      assert s == [s[0]] + s[1..];
    }
  }

  lemma {:induction false} RemoveCharAbsent(s: string, c: char)
    requires c !in s
    ensures RemoveChar(s, c) == s
    decreases |s|
  {
    if |s| > 0 {
      RemoveCharAbsent(s[1..], c);
      assert s == [s[0]] + s[1..];
    }
  }

  /** Removing the one `c` between two stretches free of it joins them. */
  lemma RemoveCharOnce(a: string, c: char, b: string)
    requires c !in a && c !in b
    ensures RemoveChar(a + [c] + b, c) == a + b
  {
    assert RemoveChar(a + [c], c) == a by {
      RemoveCharConcat(a, [c], c);
      RemoveCharAbsent(a, c);
      assert RemoveChar([c], c) == [];
    }
    RemoveCharConcat(a + [c], b, c);
    RemoveCharAbsent(b, c);
  }

  /** `s.replace(c, "")` for a single character `c` removes every `c` and nothing else. */
  lemma {:induction false} ReplaceCharIsRemove(s: string, c: char)
    ensures Replace(s, [c], "") == RemoveChar(s, c)
    decreases |s|
  {
    match Find(s, [c])
    case None =>
      OccursChar(s, c);
      RemoveCharAbsent(s, c);
    case Some(i) =>
      AtChar(s, c, i);
      forall j | 0 <= j < i
        ensures s[j] != c
      {
        AtChar(s, c, j);
      }
      RemoveCharStep(s, c, i);
      ReplaceCharIsRemove(s[i + 1..], c);
      DeletedAtFirst(s, c);
  }

  /** If the rest after the first `c` is cleaned by both, so is the whole. */
  lemma DeletedAtFirst(s: string, c: char)
    requires Find(s, [c]).Some?
    requires var i := Find(s, [c]).value;
             && RemoveChar(s, c) == s[..i] + RemoveChar(s[i + 1..], c)
             && Replace(s[i + 1..], [c], "") == RemoveChar(s[i + 1..], c)
    ensures Replace(s, [c], "") == RemoveChar(s, c)
  {
    ReplaceStep(s, [c], "");
    assert s[..Find(s, [c]).value] + "" == s[..Find(s, [c]).value];
  }

  /** Removing `c` from a string whose first `c` is at `i`: the text before it, then the rest cleaned. */
  lemma RemoveCharStep(s: string, c: char, i: nat)
    requires i < |s| && s[i] == c && forall j :: 0 <= j < i ==> s[j] != c
    ensures RemoveChar(s, c) == s[..i] + RemoveChar(s[i + 1..], c)
  {
    var rest := s[i + 1..];
    RemoveCharAbsent(s[..i], c);
    assert s == s[..i] + [c] + rest;
    RemoveCharConcat(s[..i] + [c], rest, c);
    RemoveCharConcat(s[..i], [c], c);
    assert RemoveChar([c], c) == [];
  }
}
