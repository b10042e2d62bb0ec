/**
 Token scanners of the ursparse wire format: one unsigned decimal number and
 one line terminator. Both scan a window of bytes and can be called again with
 the next window when the current one ends before the token does.
 */
module Tokens {

  predicate IsDigit(c: char) { '0' <= c <= '9' }

  /** The characters skipped before a number and accepted right after it. */
  predicate IsBlank(c: char) { c == ' ' || c == '\n' }

  function DigitValue(c: char): (d: nat)
    requires IsDigit(c)
    ensures d < 10
  {
    c as int - '0' as int
  }

  predicate AllDigits(s: seq<char>) { forall i | 0 <= i < |s| :: IsDigit(s[i]) }

  predicate AllBlank(s: seq<char>) { forall i | 0 <= i < |s| :: IsBlank(s[i]) }

  predicate AllSpaces(s: seq<char>) { forall i | 0 <= i < |s| :: s[i] == ' ' }

  /** Base-10 fold of a run of digits into an accumulator, most significant digit first. */
  function Fold(acc: nat, ds: seq<char>): nat
    requires AllDigits(ds)
    decreases |ds|
  {
    if |ds| == 0 then acc else Fold(acc * 10 + DigitValue(ds[0]), ds[1..])
  }

  /**
   The outcome of one scanner call: the negative return code, or "done" with the
   bytes consumed and the value read, or "need more" with the bytes consumed and
   the partial value to resume from.
   */
  datatype Scan = Failed(code: int) | Done(consumed: nat, value: nat) | More(consumed: nat, value: nat)

  /** The same outcome, as seen from a window that had `n` more bytes in front. */
  function Shift(r: Scan, n: nat): Scan {
    match r
    case Failed(c) => Failed(c)
    case Done(k, v) => Done(k + n, v)
    case More(k, v) => More(k + n, v)
  }

  // ---------------------------------------------------------------- numbers

  /** Index of the first character at or after `i` that is not blank. */
  function SkipBlanks(w: seq<char>, i: nat): (k: nat)
    requires i <= |w|
    ensures i <= k <= |w|
    ensures forall j | i <= j < k :: IsBlank(w[j])
    ensures k < |w| ==> !IsBlank(w[k])
    decreases |w| - i
  {
    if i < |w| && IsBlank(w[i]) then SkipBlanks(w, i + 1) else i
  }

  /**
   The digit loop of the number scanner, from index `i` with accumulator `acc`:
   it stops at the first blank (done, not consumed), at the first other
   non-digit (error) or at the end of the window (need more).
   */
  function ScanDigits(w: seq<char>, i: nat, acc: nat): (r: Scan)
    requires i <= |w|
    ensures r.Failed? ==> r.code == -1
    ensures r.Failed? ==> exists j | i <= j < |w| :: !IsDigit(w[j]) && !IsBlank(w[j])
    ensures r.More? ==> r.consumed == |w| && AllDigits(w[i..]) && r.value == Fold(acc, w[i..])
    ensures r.Done? ==>
              && i <= r.consumed < |w| && AllDigits(w[i..r.consumed]) && IsBlank(w[r.consumed])
              && r.value == Fold(acc, w[i..r.consumed])
    decreases |w| - i
  {
    if i == |w| then More(|w|, acc)
    else if IsDigit(w[i]) then
      var r := ScanDigits(w, i + 1, acc * 10 + DigitValue(w[i]));
      assert r.More? ==> w[i..][1..] == w[i + 1..];
      assert r.Done? ==> w[i..r.consumed][1..] == w[i + 1..r.consumed];
      r
    else if IsBlank(w[i]) then Done(i, acc)
    else Failed(-1)
  }

  /** A run of digits from `i` up to the end of the window, or up to a blank, determines the scan. */
  lemma {:induction false} ScanDigitsRun(w: seq<char>, i: nat, n: nat, acc: nat)
    requires i <= n <= |w|
    requires AllDigits(w[i..n])
    ensures n == |w| ==> ScanDigits(w, i, acc) == More(|w|, Fold(acc, w[i..n]))
    ensures n < |w| && IsBlank(w[n]) ==> ScanDigits(w, i, acc) == Done(n, Fold(acc, w[i..n]))
    decreases n - i
  {
    if i < n {
      assert w[i..n][0] == w[i];
      assert w[i..n][1..] == w[i + 1..n];
      ScanDigitsRun(w, i + 1, n, acc * 10 + DigitValue(w[i]));
    }
  }

  /**
   The leading `k` bytes of `w` are the skipped whitespace and `w[k..n]` are the
   digits of a number scanned with accumulator `acc`. Whitespace is skipped only
   while the accumulator is zero.
   */
  predicate NumberAt(w: seq<char>, acc: nat, k: nat, n: nat) {
    && k <= n <= |w|
    && (acc != 0 ==> k == 0)
    && AllBlank(w[..k])
    && AllDigits(w[k..n])
  }

  /** `w` holds a complete number ending right before the blank at `n`. */
  predicate DoneShape(w: seq<char>, acc: nat, k: nat, n: nat) {
    && NumberAt(w, acc, k, n)
    && n < |w| && IsBlank(w[n])
    && (acc == 0 ==> k < n)
  }

  /** `w` is non-empty and ends in the middle of a number (or of its leading whitespace). */
  predicate MoreShape(w: seq<char>, acc: nat, k: nat) {
    |w| > 0 && NumberAt(w, acc, k, |w|)
  }

  /**
   Scans one unsigned decimal number. On "done" the delimiter is not consumed;
   on "need more" the whole window is consumed and the value is the partial
   accumulator to pass to the next call.
   */
  function ParseUint(w: seq<char>, acc: nat): (r: Scan)
    ensures |w| == 0 <==> r == Failed(-2)
    ensures r.Failed? ==> r.code == -1 || r.code == -2
    ensures r == Failed(-1) ==> exists j | 0 <= j < |w| :: !IsDigit(w[j]) && !IsBlank(w[j])
    ensures r.Done? ==> r.consumed < |w|
    ensures forall k: nat, n: nat | DoneShape(w, acc, k, n) :: r == Done(n, Fold(acc, w[k..n]))
    ensures forall k: nat | MoreShape(w, acc, k) :: r == More(|w|, Fold(acc, w[k..]))
    ensures r.Done? ==> exists k: nat :: DoneShape(w, acc, k, r.consumed) && r.value == Fold(acc, w[k..r.consumed])
    ensures r.More? ==> exists k: nat :: MoreShape(w, acc, k) && r == More(|w|, Fold(acc, w[k..]))
  {
    if |w| == 0 then Failed(-2)
    else
      var k := if acc == 0 then SkipBlanks(w, 0) else 0;
      ScanShapes(w, acc, k);
      ScanDigits(w, k, acc)
  }

  /** The digit loop started after the skipped whitespace meets the shape predicates. */
  lemma ScanShapes(w: seq<char>, acc: nat, k: nat)
    requires |w| > 0
    requires k == (if acc == 0 then SkipBlanks(w, 0) else 0)
    ensures forall k': nat, n: nat | DoneShape(w, acc, k', n) :: ScanDigits(w, k, acc) == Done(n, Fold(acc, w[k'..n]))
    ensures forall k': nat | MoreShape(w, acc, k') :: ScanDigits(w, k, acc) == More(|w|, Fold(acc, w[k'..]))
    ensures ScanDigits(w, k, acc).Done? ==> DoneShape(w, acc, k, ScanDigits(w, k, acc).consumed)
    ensures ScanDigits(w, k, acc).More? ==> MoreShape(w, acc, k)
  {
    ShapeStart(w, acc, k);
    forall k': nat, n: nat | DoneShape(w, acc, k', n)
      ensures ScanDigits(w, k, acc) == Done(n, Fold(acc, w[k'..n]))
    {
      ScanDigitsRun(w, k, n, acc);
    }
    forall k': nat | MoreShape(w, acc, k')
      ensures ScanDigits(w, k, acc) == More(|w|, Fold(acc, w[k'..]))
    {
      ScanDigitsRun(w, k, |w|, acc);
      assert w[k..|w|] == w[k..];
    }
    ScanShapeOf(w, acc, k);
  }

  lemma ScanShapeOf(w: seq<char>, acc: nat, k: nat)
    requires |w| > 0
    requires k == (if acc == 0 then SkipBlanks(w, 0) else 0)
    ensures ScanDigits(w, k, acc).Done? ==> DoneShape(w, acc, k, ScanDigits(w, k, acc).consumed)
    ensures ScanDigits(w, k, acc).More? ==> MoreShape(w, acc, k)
  {
    assert AllBlank(w[..k]);
  }

  /** Every shape of a window starts where the scanner starts its digit loop. */
  lemma ShapeStart(w: seq<char>, acc: nat, k: nat)
    requires |w| > 0
    requires k == (if acc == 0 then SkipBlanks(w, 0) else 0)
    ensures forall k': nat, n: nat | DoneShape(w, acc, k', n) :: k' == k
    ensures forall k': nat | MoreShape(w, acc, k') :: k' == k
  {
    forall k': nat, n: nat | DoneShape(w, acc, k', n)
      ensures k' == k
    {
      if acc == 0 {
        assert w[k'..n][0] == w[k'];
        assert !IsBlank(w[k']);
        assert forall j | 0 <= j < k' :: IsBlank(w[j]) by {
          forall j | 0 <= j < k' ensures IsBlank(w[j]) {
            assert w[..k'][j] == w[j];
          }
        }
      }
    }
    forall k': nat | MoreShape(w, acc, k')
      ensures k' == k
    {
      if acc == 0 {
        if k' < |w| {
          assert w[k'..][0] == w[k'];
          assert !IsBlank(w[k']);
        }
        assert forall j | 0 <= j < k' :: IsBlank(w[j]) by {
          forall j | 0 <= j < k' ensures IsBlank(w[j]) {
            assert w[..k'][j] == w[j];
          }
        }
      }
    }
  }

  /**
   Resuming a number across windows gives the one-shot result, unless the
   partial value is still zero and the second window opens with whitespace:
   the scanner then skips that whitespace as if no digit had been read.
   */
  lemma {:induction false} ParseUintResume(a: seq<char>, b: seq<char>, acc: nat)
    requires |b| > 0
    requires ParseUint(a, acc).More?
    requires !(ParseUint(a, acc).value == 0 && IsBlank(b[0]))
    ensures ParseUint(a + b, acc) == Shift(ParseUint(b, ParseUint(a, acc).value), |a|)
  {
    var v := ParseUint(a, acc).value;
    var k := if acc == 0 then SkipBlanks(a, 0) else 0;
    assert ParseUint(a, acc) == ScanDigits(a, k, acc);
    if acc == 0 {
      SkipBlanksAppend(a, b, 0);
    }
    ScanDigitsAppend(a, b, k, acc);
    if v == 0 {
      assert SkipBlanks(b, 0) == 0;
    } else {
      assert ParseUint(b, v) == ScanDigits(b, 0, v);
    }
  }

  lemma {:induction false} SkipBlanksAppend(a: seq<char>, b: seq<char>, i: nat)
    requires i <= |a| && |b| > 0
    requires SkipBlanks(a, i) < |a| || !IsBlank(b[0])
    ensures SkipBlanks(a + b, i) == SkipBlanks(a, i)
    decreases |a| - i
  {
    if i < |a| {
      assert (a + b)[i] == a[i];
      if IsBlank(a[i]) { SkipBlanksAppend(a, b, i + 1); }
    } else {
      assert (a + b)[i] == b[0];
    }
  }

  /** The digit loop over `a + b`, after the digits `a[i..]`, continues as the loop over `b`. */
  lemma {:induction false} ScanDigitsAppend(a: seq<char>, b: seq<char>, i: nat, acc: nat)
    requires i <= |a|
    requires AllDigits(a[i..])
    ensures ScanDigits(a + b, i, acc) == Shift(ScanDigits(b, 0, Fold(acc, a[i..])), |a|)
    decreases |a| - i
  {
    if i == |a| {
      ScanDigitsOffset(a, b, 0, acc);
    } else {
      var acc' := acc * 10 + DigitValue(a[i]);
      assert (a + b)[i] == a[i];
      assert ScanDigits(a + b, i, acc) == ScanDigits(a + b, i + 1, acc');
      assert a[i..][1..] == a[i + 1..];
      assert Fold(acc, a[i..]) == Fold(acc', a[i + 1..]);
      ScanDigitsAppend(a, b, i + 1, acc');
    }
  }

  /** Scanning `a + b` from inside `b` is scanning `b`, with indices shifted by `|a|`. */
  lemma {:induction false} ScanDigitsOffset(a: seq<char>, b: seq<char>, j: nat, acc: nat)
    requires j <= |b|
    ensures ScanDigits(a + b, |a| + j, acc) == Shift(ScanDigits(b, j, acc), |a|)
    decreases |b| - j
  {
    if j < |b| {
      assert (a + b)[|a| + j] == b[j];
      if IsDigit(b[j]) {
        ScanDigitsOffset(a, b, j + 1, acc * 10 + DigitValue(b[j]));
      }
    }
  }

  /**
   The resumption exception is real: "0" then " 5 " reads 5, while the same
   bytes in one window read 0.
   */
  lemma ZeroThenBlankRestarts()
    ensures ParseUint("0", 0) == More(1, 0)
    ensures ParseUint(" 5 ", 0) == Done(2, 5)
    ensures ParseUint("0 5 ", 0) == Done(1, 0)
  {
    assert DoneShape(" 5 ", 0, 1, 2);
    assert " 5 "[1..2] == "5";
    assert DoneShape("0 5 ", 0, 0, 1);
    assert "0 5 "[0..1] == "0";
    assert MoreShape("0", 0, 0);
    assert "0"[0..] == "0";
  }

  // ---------------------------------------------------------------- newline

  /** Index of the first character at or after `i` that is not a space. */
  function SkipSpaces(w: seq<char>, i: nat): (k: nat)
    requires i <= |w|
    ensures i <= k <= |w|
    ensures forall j | i <= j < k :: w[j] == ' '
    ensures k < |w| ==> w[k] != ' '
    decreases |w| - i
  {
    if i < |w| && w[i] == ' ' then SkipSpaces(w, i + 1) else i
  }

  /**
   Scans spaces followed by one line feed, which is consumed. Only spaces may
   come before it; a window of spaces alone needs more input.
   */
  function ParseNewline(w: seq<char>): (r: Scan)
    ensures |w| == 0 <==> r == Failed(-2)
    ensures r.Failed? ==> r.code == -1 || r.code == -2
    ensures r.More? <==> |w| > 0 && AllSpaces(w)
    ensures r.More? ==> r == More(|w|, 0)
    ensures forall i | 0 <= i < |w| && AllSpaces(w[..i]) && w[i] == '\n' :: r == Done(i + 1, 0)
    ensures r.Done? ==> 0 < r.consumed <= |w| && AllSpaces(w[..r.consumed - 1]) && w[r.consumed - 1] == '\n'
    ensures r == Failed(-1) <==> exists i | 0 <= i < |w| :: AllSpaces(w[..i]) && w[i] != ' ' && w[i] != '\n'
  {
    if |w| == 0 then Failed(-2)
    else
      var i := SkipSpaces(w, 0);
      assert AllSpaces(w[..i]);
      assert forall j | 0 <= j < |w| && AllSpaces(w[..j]) :: j <= i;
      if i == |w| then
        assert w == w[..i];
        More(|w|, 0)
      else if w[i] == '\n' then
        assert w[..i + 1 - 1] == w[..i];
        Done(i + 1, 0)
      else Failed(-1)
  }

  /** A line terminator split across windows reads as in one window. */
  lemma ParseNewlineResume(a: seq<char>, b: seq<char>)
    requires |b| > 0
    requires ParseNewline(a).More?
    ensures ParseNewline(a + b) == Shift(ParseNewline(b), |a|)
  {
    assert AllSpaces(a);
    SkipSpacesAppend(a, b, 0);
    SkipSpacesOffset(a, b, 0);
    var i := SkipSpaces(b, 0);
    assert SkipSpaces(a + b, 0) == |a| + i;
    if i < |b| {
      assert (a + b)[|a| + i] == b[i];
    }
  }

  lemma {:induction false} SkipSpacesAppend(a: seq<char>, b: seq<char>, i: nat)
    requires i <= |a|
    requires AllSpaces(a)
    ensures SkipSpaces(a + b, i) == SkipSpaces(a + b, |a|)
    decreases |a| - i
  {
    if i < |a| {
      assert (a + b)[i] == a[i];
      SkipSpacesAppend(a, b, i + 1);
    }
  }

  lemma {:induction false} SkipSpacesOffset(a: seq<char>, b: seq<char>, j: nat)
    requires j <= |b|
    ensures SkipSpaces(a + b, |a| + j) == |a| + SkipSpaces(b, j)
    decreases |b| - j
  {
    if j < |b| {
      assert (a + b)[|a| + j] == b[j];
      SkipSpacesOffset(a, b, j + 1);
    }
  }
}
