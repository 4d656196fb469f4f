/**
 * Character classes and string helpers with JavaScript's meaning: the whitespace set
 * shared by `String.prototype.trim` and the regex class `\s`, the line terminators that
 * the regex `.` refuses, the ASCII classes `\w` and `\d`, substring search (`includes`),
 * and the decimal text of numbers.
 */
module Text {
  import opened Wrappers

  /** JavaScript WhiteSpace and LineTerminator code points (what `trim` removes and `\s` matches). */
  predicate IsSpace(c: char) {
    var n := c as int;
    (9 <= n <= 13) || n == 0x20 || n == 0xA0 || n == 0x1680 || (0x2000 <= n <= 0x200A)
    || n == 0x2028 || n == 0x2029 || n == 0x202F || n == 0x205F || n == 0x3000 || n == 0xFEFF
  }

  /** The characters the regex `.` does not match. */
  predicate IsLineTerminator(c: char) {
    var n := c as int;
    n == 0x0A || n == 0x0D || n == 0x2028 || n == 0x2029
  }

  /** The regex class `\d`. */
  predicate IsDigit(c: char) { '0' <= c <= '9' }

  /** The regex class `[a-zA-Z]`. */
  predicate IsAsciiLetter(c: char) { ('a' <= c <= 'z') || ('A' <= c <= 'Z') }

  /** The regex class `\w`. */
  predicate IsWordChar(c: char) { IsAsciiLetter(c) || IsDigit(c) || c == '_' }

  predicate AllSpace(s: string) { forall i :: 0 <= i < |s| ==> IsSpace(s[i]) }

  predicate AllDigits(s: string) { forall i :: 0 <= i < |s| ==> IsDigit(s[i]) }

  /** Text that `.+` or `.*` can cover: no line terminator. */
  predicate SingleLine(s: string) { forall i :: 0 <= i < |s| ==> !IsLineTerminator(s[i]) }

  /** Text that `\w+` matches as a whole. */
  predicate IsWord(s: string) { |s| > 0 && forall i :: 0 <= i < |s| ==> IsWordChar(s[i]) }

  /** Text that `\d+` matches as a whole. */
  predicate IsDigits(s: string) { |s| > 0 && AllDigits(s) }

  /** Text that `trim` leaves unchanged. */
  predicate IsTrimmed(s: string) { s == [] || (!IsSpace(s[0]) && !IsSpace(s[|s| - 1])) }

  lemma LineTerminatorIsSpace(c: char)
    ensures IsLineTerminator(c) ==> IsSpace(c)
  {}

  /** Length of the leading whitespace run. */
  function SpanStart(s: string): (a: nat)
    ensures a <= |s|
    ensures AllSpace(s[..a])
    ensures a < |s| ==> !IsSpace(s[a])
  {
    if s == [] || !IsSpace(s[0]) then 0
    else
      var a := 1 + SpanStart(s[1..]);
      assert s[..a] == [s[0]] + s[1..][..a - 1];
      a
  }

  /** Joining two single-line texts gives a single-line text. */
  lemma {:induction false} JoinSingleLine(a: string, b: string)
    requires SingleLine(a) && SingleLine(b)
    ensures SingleLine(a + b)
  {
    forall i | 0 <= i < |a + b| ensures !IsLineTerminator((a + b)[i]) {
      if i < |a| { assert (a + b)[i] == a[i]; } else { assert (a + b)[i] == b[i - |a|]; }
    }
  }

  /** The leading whitespace run stops at the first non-space character. */
  lemma {:induction false} SpanStartBefore(s: string, i: nat)
    requires i < |s| && !IsSpace(s[i])
    ensures SpanStart(s) <= i
  {
    if s != [] && IsSpace(s[0]) {
      assert s[1..][i - 1] == s[i];
      SpanStartBefore(s[1..], i - 1);
    }
  }

  /** End of `s` once its trailing whitespace run is cut off. */
  function SpanEnd(s: string): (b: nat)
    ensures b <= |s|
    ensures AllSpace(s[b..])
    ensures b > 0 ==> !IsSpace(s[b - 1])
  {
    if s == [] || !IsSpace(s[|s| - 1]) then |s|
    else
      var b := SpanEnd(s[..|s| - 1]);
      assert s[b..] == s[..|s| - 1][b..] + [s[|s| - 1]];
      b
  }

  /** JavaScript `String.prototype.trim`. */
  function Trim(s: string): (r: string)
    ensures |r| <= |s|
    ensures IsTrimmed(r)
    ensures r == [] <==> AllSpace(s)
    ensures SpanStart(s) + |r| <= |s|
    ensures r == s[SpanStart(s)..SpanStart(s) + |r|]
    ensures AllSpace(s[SpanStart(s) + |r|..])
  {
    var a := SpanStart(s);
    var t := s[a..];
    var b := SpanEnd(t);
    TrimParts(s, a, b);
    t[..b]
  }

  lemma {:induction false} TrimParts(s: string, a: nat, b: nat)
    requires a == SpanStart(s) && b == SpanEnd(s[a..])
    ensures a + b <= |s|
    ensures IsTrimmed(s[a..][..b])
    ensures b == 0 <==> AllSpace(s)
    ensures s[a..][..b] == s[a..a + b] && AllSpace(s[a + b..])
  {
    var t := s[a..];
    assert s[a + b..] == t[b..];
    assert t[..b] == s[a..a + b];
    if b == 0 {
      assert t[0..] == t;
      AllSpaceJoin(s[..a], t);
      assert s[..a] + t == s;
    } else {
      assert t[0] == s[a] && !IsSpace(t[0]);
      assert t[..b][0] == t[0] && t[..b][b - 1] == t[b - 1];
    }
  }

  lemma {:induction false} AllSpaceJoin(x: string, y: string)
    requires AllSpace(x) && AllSpace(y)
    ensures AllSpace(x + y)
  {
    forall i | 0 <= i < |x + y| ensures IsSpace((x + y)[i]) {
      if i < |x| { assert (x + y)[i] == x[i]; } else { assert (x + y)[i] == y[i - |x|]; }
    }
  }

  lemma {:induction false} TrimIdempotent(s: string)
    ensures Trim(Trim(s)) == Trim(s)
  {
    var r := Trim(s);
    TrimOfTrimmed(r);
  }

  lemma {:induction false} TrimOfTrimmed(t: string)
    requires IsTrimmed(t)
    ensures Trim(t) == t
  {
    assert SpanStart(t) == 0;
    assert t[0..] == t;
    assert SpanEnd(t) == |t|;
  }

  /** Leading whitespace does not change what `trim` gives. */
  lemma {:induction false} TrimAfterLeadingSpace(s: string)
    ensures Trim(s[SpanStart(s)..]) == Trim(s)
  {
    var a := SpanStart(s);
    var t := s[a..];
    assert SpanStart(t) == 0;
    assert t[0..] == t;
  }

  /** The leading whitespace run of `ws + x` is `ws` when `x` does not start with whitespace. */
  lemma {:induction false} SpanStartOfSpaceThen(ws: string, x: string)
    requires AllSpace(ws)
    requires x == [] || !IsSpace(x[0])
    ensures SpanStart(ws + x) == |ws|
  {
    if ws != [] {
      assert (ws + x)[1..] == ws[1..] + x;
      SpanStartOfSpaceThen(ws[1..], x);
    }
  }

  /** `trim` keeps a contiguous part of its input, so it keeps single-line text single-line. */
  lemma TrimSingleLine(s: string)
    requires SingleLine(s)
    ensures SingleLine(Trim(s))
  {
    var r := Trim(s);
    var a := SpanStart(s);
    forall i | 0 <= i < |r| ensures !IsLineTerminator(r[i]) {
      assert r[i] == s[a + i];
    }
  }

  /** Every part of single-line text is single-line. */
  lemma SliceSingleLine(s: string, a: nat, b: nat)
    requires SingleLine(s) && a <= b <= |s|
    ensures SingleLine(s[a..b])
  {
    forall j | 0 <= j < b - a ensures !IsLineTerminator(s[a..b][j]) {
      assert s[a..b][j] == s[a + j];
    }
  }

  /** JavaScript `s.includes(sub)`. */
  predicate Contains(s: string, sub: string) {
    exists i :: 0 <= i <= |s| - |sub| && OccursAt(s, sub, i)
  }

  predicate OccursAt(s: string, sub: string, i: int) {
    0 <= i <= |s| - |sub| && s[i..i + |sub|] == sub
  }

  /** Length of the leading run of `\w` characters. */
  function WordPrefix(s: string): (k: nat)
    ensures k <= |s|
    ensures forall i :: 0 <= i < k ==> IsWordChar(s[i])
    ensures k < |s| ==> !IsWordChar(s[k])
  {
    if s == [] || !IsWordChar(s[0]) then 0 else 1 + WordPrefix(s[1..])
  }

  /** Length of the leading run of `\d` characters. */
  function DigitPrefix(s: string): (k: nat)
    ensures k <= |s|
    ensures forall i :: 0 <= i < k ==> IsDigit(s[i])
    ensures k < |s| ==> !IsDigit(s[k])
  {
    if s == [] || !IsDigit(s[0]) then 0 else 1 + DigitPrefix(s[1..])
  }

  /** A word is the whole of its own leading word run. */
  lemma {:induction false} WordPrefixOfWordThen(w: string, rest: string)
    requires IsWord(w)
    requires rest != [] && !IsWordChar(rest[0])
    ensures WordPrefix(w + rest) == |w|
  {
    var s := w + rest;
    assert s[|w|] == rest[0];
    assert forall i :: 0 <= i < |w| ==> s[i] == w[i];
  }

  /** Index of the first occurrence of `c`. */
  function IndexOf(s: string, c: char): (r: Option<nat>)
    ensures r.Some? ==> r.value < |s| && s[r.value] == c && c !in s[..r.value]
    ensures r.None? <==> c !in s
  {
    if s == [] then None
    else if s[0] == c then Some(0)
    else
      match IndexOf(s[1..], c)
      case None => None
      case Some(i) =>
        assert s[..i + 1] == [s[0]] + s[1..][..i];
        Some(i + 1)
  }

  /** Index of the last occurrence of `c`. */
  function LastIndexOf(s: string, c: char): (r: Option<nat>)
    ensures r.Some? ==> r.value < |s| && s[r.value] == c && c !in s[r.value + 1..]
    ensures r.None? <==> c !in s
  {
    if s == [] then None
    else if s[|s| - 1] == c then Some(|s| - 1)
    else
      match LastIndexOf(s[..|s| - 1], c)
      case None =>
        assert s == s[..|s| - 1] + [s[|s| - 1]];
        None
      case Some(i) =>
        assert s[i + 1..] == s[..|s| - 1][i + 1..] + [s[|s| - 1]];
        Some(i)
  }

  function DigitChar(d: nat): (c: char)
    requires d < 10
    ensures IsDigit(c)
  {
    ['0', '1', '2', '3', '4', '5', '6', '7', '8', '9'][d]
  }

  /** The decimal text JavaScript gives a non-negative integer (below 10^21). */
  function NatText(n: nat): (r: string)
    ensures IsDigits(r)
    ensures r[0] != '0' || n == 0
    decreases n
  {
    if n < 10 then [DigitChar(n)] else NatText(n / 10) + [DigitChar(n % 10)]
  }

  /** The decimal text of an integer, with a leading `-` when it is negative. */
  function IntText(i: int): string {
    if i < 0 then "-" + NatText(-i) else NatText(i)
  }

  /** The value of a string of decimal digits. */
  function DigitsValue(s: string): nat
    requires AllDigits(s)
  {
    if s == [] then 0 else DigitsValue(s[..|s| - 1]) * 10 + ((s[|s| - 1] as int) - ('0' as int))
  }

  /** Digit text without a superfluous leading zero. */
  predicate IsCanonicalDigits(s: string) { IsDigits(s) && (s[0] != '0' || |s| == 1) }

  lemma {:induction false} DigitsValuePositive(s: string)
    requires IsDigits(s) && s[0] != '0'
    ensures DigitsValue(s) >= 1
  {
    if |s| > 1 {
      var p := s[..|s| - 1];
      assert p[0] == s[0];
      DigitsValuePositive(p);
    }
  }

  /** Printing the value of canonical digit text gives that text back. */
  lemma {:induction false} NatTextOfDigits(s: string)
    requires IsCanonicalDigits(s)
    ensures NatText(DigitsValue(s)) == s
  {
    var n := DigitsValue(s);
    var d := (s[|s| - 1] as int) - ('0' as int);
    if |s| == 1 {
      assert s == [DigitChar(d)];
    } else {
      var p := s[..|s| - 1];
      assert p[0] == s[0];
      DigitsValuePositive(p);
      NatTextOfDigits(p);
      assert n / 10 == DigitsValue(p) && n % 10 == d;
      assert s == p + [DigitChar(d)];
    }
  }
}
