/**
 * The clean-up applied to the LaTeX of the chosen result: drop everything through the last
 * `=` and the whitespace after it (unless nothing would remain), drop every
 * `(assuming ...)` note with the whitespace before it, turn the whole word `constant` into
 * `c` for indefinite integrals, and trim.
 */
module IntegralCleanup {
  import opened Wrappers
  import opened Text

  /**
   * Everything through the last `=` and the whitespace after it is removed (the pattern is
   * greedy, so it reaches the last `=`); an empty remainder keeps the original text.
   */
  function StripThroughLastEquals(s: string): (r: string)
    ensures '=' !in s ==> r == s
    ensures |r| <= |s| && r == s[|s| - |r|..]
    ensures r == [] ==> s == []
  {
    match LastIndexOf(s, '=')
    case None => s
    case Some(i) =>
      var rest := s[i + 1..];
      var cut := rest[SpanStart(rest)..];
      if cut == [] then s else cut
  }

  /** A line `<anything>=<whitespace><r>`, with `r` free of `=` and not blank, is cut down to `r` without its leading whitespace. */
  lemma {:induction false} StripDefinition(p: string, ws: string, r: string)
    requires AllSpace(ws) && '=' !in r && r != [] && !IsSpace(r[0])
    ensures StripThroughLastEquals(p + "=" + ws + r) == r
  {
    var s := p + "=" + ws + r;
    var i := |p|;
    assert s[i] == '=';
    assert s[i + 1..] == ws + r;
    assert '=' !in s[i + 1..] by {
      assert forall ch :: ch in ws + r ==> ch in ws || ch in r;
      assert forall k :: 0 <= k < |ws| ==> IsSpace(ws[k]);
      assert !IsSpace('=');
    }
    LastIndexIs(s, '=', i);
    SpanStartOfSpaceThen(ws, r);
    assert (ws + r)[|ws|..] == r;
  }

  /** The last occurrence found is the one at `i` when none follows it. */
  lemma {:induction false} LastIndexIs(s: string, c: char, i: nat)
    requires i < |s| && s[i] == c && c !in s[i + 1..]
    ensures LastIndexOf(s, c) == Some(i)
  {
    var j := LastIndexOf(s, c).value;
    assert s[j] == c;
  }

  /** When only whitespace follows the last `=`, the text is kept as it is. */
  lemma {:induction false} StripKeepsBlankTail(p: string, ws: string)
    requires AllSpace(ws)
    ensures StripThroughLastEquals(p + "=" + ws) == p + "=" + ws
  {
    var s := p + "=" + ws;
    var i := |p|;
    assert s[i + 1..] == ws;
    assert '=' !in ws by {
      assert forall k :: 0 <= k < |ws| ==> IsSpace(ws[k]);
      assert !IsSpace('=');
    }
    LastIndexIs(s, '=', i);
  }

  /** ASCII letters in lower case; every other character as it is (the `i` flag without `u`). */
  function LowerAscii(c: char): char {
    if 'A' <= c <= 'Z' then (c as int + 32) as char else c
  }

  /** Equal up to the case of ASCII letters. */
  predicate SameIgnoringCase(a: string, b: string) {
    |a| == |b| && forall i :: 0 <= i < |a| ==> LowerAscii(a[i]) == LowerAscii(b[i])
  }

  /**
   * The length of a match of `\s*\(assuming[^)]+\)` at the start of `s`: whitespace, then
   * `(assuming` in any case, then at least one character up to the first `)`, which ends it.
   */
  function AssumingMatch(s: string): (n: Option<nat>)
    ensures n.Some? ==> 0 < n.value <= |s|
  {
    var a := SpanStart(s);
    var body := s[a..];
    if |body| < 9 || !SameIgnoringCase(body[..9], "(assuming") then None
    else
      match IndexOf(body[9..], ')')
      case None => None
      case Some(j) => if j == 0 then None else Some(a + 9 + j + 1)
  }

  /** `result.replace(/\s*\(assuming[^)]+\)/gi, '')`: matches are removed left to right. */
  function RemoveAssumptions(s: string): (r: string)
    ensures |r| <= |s|
    decreases |s|
  {
    if s == [] then []
    else
      match AssumingMatch(s)
      case Some(n) => RemoveAssumptions(s[n..])
      case None => [s[0]] + RemoveAssumptions(s[1..])
  }

  /** Text without `(` is left as it is. */
  lemma {:induction false} RemoveAssumptionsWithoutParen(s: string)
    requires '(' !in s
    ensures RemoveAssumptions(s) == s
    decreases |s|
  {
    if s != [] {
      NoMatchWithoutParen(s);
      assert '(' !in s[1..] by { assert forall k :: 0 <= k < |s| - 1 ==> s[1..][k] == s[k + 1]; }
      RemoveAssumptionsWithoutParen(s[1..]);
    }
  }

  lemma {:induction false} NoMatchWithoutParen(s: string)
    requires '(' !in s
    ensures AssumingMatch(s).None?
  {
    var a := SpanStart(s);
    if a + 9 <= |s| {
      assert s[a..][..9][0] == s[a];
      assert LowerAscii('(') == '(';
    }
  }

  /**
   * A note `<whitespace>(assuming<note>)` at the start is removed together with the
   * whitespace before it, and removal goes on after it.
   */
  lemma {:induction false} RemoveAssumptionNote(ws: string, head: string, note: string, rest: string)
    requires AllSpace(ws) && SameIgnoringCase(head, "(assuming")
    requires note != [] && ')' !in note
    ensures RemoveAssumptions(ws + head + note + ")" + rest) == RemoveAssumptions(rest)
  {
    var s := ws + head + note + ")" + rest;
    var tail := head + note + ")" + rest;
    assert s == ws + tail;
    assert head[0] == '(' by { assert LowerAscii(head[0]) == '('; }
    SpanStartOfSpaceThen(ws, tail);
    assert s[|ws|..] == tail;
    assert tail[..9] == head;
    var after := note + ")" + rest;
    assert tail[9..] == after;
    IndexAfter(note, rest);
    assert s[|ws| + 9 + |note| + 1..] == rest;
  }

  /** The first `)` of `note + ")" + rest` is the one right after `note`. */
  lemma {:induction false} IndexAfter(note: string, rest: string)
    requires ')' !in note
    ensures IndexOf(note + ")" + rest, ')') == Some(|note|)
  {
    var s := note + ")" + rest;
    var j := IndexOf(s, ')').value;
    assert s[|note|] == ')';
  }

  /** No note match starts at any position of `a` when `s` follows it. */
  predicate NoNoteStartsIn(a: string, s: string) {
    forall k :: 0 <= k < |a| ==> AssumingMatch((a + s)[k..]).None?
  }

  /**
   * Text at none of whose positions a note starts passes through unchanged in front of
   * whatever follows it.
   */
  lemma {:induction false} RemoveAssumptionsAfterPlain(a: string, s: string)
    requires NoNoteStartsIn(a, s)
    ensures RemoveAssumptions(a + s) == a + RemoveAssumptions(s)
    decreases |a|
  {
    if a != [] {
      NoNoteStep(a, s);
      KeepFirst(a + s);
      RemoveAssumptionsAfterPlain(a[1..], s);
      ConsJoin(a, RemoveAssumptions(s));
    } else {
      assert a + s == s;
    }
  }

  /** The first position of such a text starts no note, and neither does any of the rest. */
  lemma {:induction false} NoNoteStep(a: string, s: string)
    requires a != [] && NoNoteStartsIn(a, s)
    ensures AssumingMatch(a + s).None?
    ensures (a + s)[0] == a[0] && (a + s)[1..] == a[1..] + s
    ensures NoNoteStartsIn(a[1..], s)
  {
    DropShift(a, s, 0);
    assert AssumingMatch((a + s)[0..]).None?;
    forall k | 0 <= k < |a| - 1
      ensures AssumingMatch((a[1..] + s)[k..]).None?
    {
      DropShift(a, s, k + 1);
      assert AssumingMatch((a + s)[k + 1..]).None?;
    }
  }

  /** Dropping a first character of `a` shifts positions by one. */
  lemma {:induction false} DropShift(a: string, s: string, k: nat)
    requires 0 <= k <= |a| && a != []
    ensures (a + s)[0..] == a + s && (a + s)[0] == a[0] && (a + s)[1..] == a[1..] + s
    ensures 0 < k ==> (a[1..] + s)[k - 1..] == (a + s)[k..]
  {
  }

  lemma {:induction false} ConsJoin(a: string, r: string)
    requires a != []
    ensures [a[0]] + (a[1..] + r) == a + r
  {
    assert a == [a[0]] + a[1..];
  }

  /** Where no match starts, the first character is kept and removal goes on after it. */
  lemma {:induction false} KeepFirst(t: string)
    requires t != [] && AssumingMatch(t).None?
    ensures RemoveAssumptions(t) == [t[0]] + RemoveAssumptions(t[1..])
  {
  }

  /** No note starts inside text without `(` that ends in a non-space character. */
  lemma {:induction false} NoNoteWithoutParen(a: string, s: string)
    requires '(' !in a && (a == [] || !IsSpace(a[|a| - 1]))
    ensures NoNoteStartsIn(a, s)
  {
    forall k | 0 <= k < |a|
      ensures AssumingMatch((a + s)[k..]).None?
    {
      var b := a[k..];
      assert b[|b| - 1] == a[|a| - 1];
      forall i | 0 <= i < |b|
        ensures b[i] != '('
      {
        assert b[i] == a[k + i];
      }
      assert (a + s)[k..] == b + s;
      PlainStartNoMatch(b, s);
    }
  }

  /** No match starts at a text without `(` that ends in a non-space character. */
  lemma {:induction false} PlainStartNoMatch(a: string, s: string)
    requires a != [] && '(' !in a && !IsSpace(a[|a| - 1])
    ensures AssumingMatch(a + s).None?
  {
    var t := a + s;
    assert t[|a| - 1] == a[|a| - 1];
    SpanStartBefore(t, |a| - 1);
    var k := SpanStart(t);
    assert t[k] == a[k];
    if k + 9 <= |t| {
      assert t[k..][..9][0] == t[k];
      assert LowerAscii('(') == '(';
    }
  }

  /** `(assuming`, in any letter case, starts at position `i` of `t`. */
  predicate AssumingAt(t: string, i: int) {
    0 <= i && i + 9 <= |t| && SameIgnoringCase(t[i..i + 9], "(assuming")
  }

  /** `(assuming`, in any letter case, occurs nowhere in `t`. */
  predicate NoAssumingIn(t: string) {
    forall i :: 0 <= i < |t| ==> !AssumingAt(t, i)
  }

  /**
   * No note starts inside a text that holds no `(assuming` and ends in a non-space
   * character, when what follows it is empty or starts with a character outside `\w`.
   */
  lemma {:induction false} NoNoteWithoutAssuming(a: string, s: string)
    requires NoAssumingIn(a) && (a == [] || !IsSpace(a[|a| - 1]))
    requires s == [] || !IsWordChar(s[0])
    ensures NoNoteStartsIn(a, s)
  {
    forall k | 0 <= k < |a|
      ensures AssumingMatch((a + s)[k..]).None?
    {
      NoNoteAt(a, s, k);
    }
  }

  lemma {:induction false} NoNoteAt(a: string, s: string, k: nat)
    requires NoAssumingIn(a) && k < |a| && !IsSpace(a[|a| - 1])
    requires s == [] || !IsWordChar(s[0])
    ensures AssumingMatch((a + s)[k..]).None?
  {
    var t := (a + s)[k..];
    assert t[|a| - 1 - k] == a[|a| - 1];
    SpanStartBefore(t, |a| - 1 - k);
    var m := k + SpanStart(t);
    assert t[SpanStart(t)..] == (a + s)[m..];
    if m + 9 <= |a| {
      WindowInside(a, s, m);
    } else {
      WindowAcross(a, s, m);
    }
  }

  /** A window that lies inside a text free of `(assuming` is no `(assuming`. */
  lemma {:induction false} WindowInside(a: string, s: string, m: nat)
    requires NoAssumingIn(a) && m + 9 <= |a|
    ensures !SameIgnoringCase((a + s)[m..][..9], "(assuming")
  {
    assert (a + s)[m..][..9] == a[m..m + 9];
    assert !AssumingAt(a, m);
  }

  /**
   * A window that starts in the text and runs into a tail starting outside `\w` is no
   * `(assuming`, and neither is a window cut short by the end.
   */
  lemma {:induction false} WindowAcross(a: string, s: string, m: nat)
    requires m < |a| < m + 9
    requires s == [] || !IsWordChar(s[0])
    ensures |(a + s)[m..]| < 9 || !SameIgnoringCase((a + s)[m..][..9], "(assuming")
  {
    var body := (a + s)[m..];
    if |body| >= 9 {
      var q := |a| - m;
      assert body[..9][q] == s[0];
      FoldedOutsideWord(s[0]);
      AssumingLetters(q);
      assert LowerAscii(body[..9][q]) != LowerAscii("(assuming"[q]);
    }
  }

  lemma {:induction false} AssumingLetters(q: int)
    requires 1 <= q < 9
    ensures 'a' <= "(assuming"[q] <= 'z'
  {
    var w := "(assuming";
    assert w[1] == 'a' && w[2] == 's' && w[3] == 's' && w[4] == 'u';
    assert w[5] == 'm' && w[6] == 'i' && w[7] == 'n' && w[8] == 'g';
  }

  /** A character outside `\w` folds to no lower-case ASCII letter. */
  lemma FoldedOutsideWord(c: char)
    requires !IsWordChar(c)
    ensures !('a' <= LowerAscii(c) <= 'z')
  {
  }

  /**
   * The usual shape `<value> (assuming <condition>)<rest>`: when no note starts inside the
   * value, the value is kept, the note and the whitespace before it go, and removal goes on
   * in the rest.
   */
  lemma {:induction false} RemoveNoteAfterValue(a: string, ws: string, head: string, note: string, rest: string)
    requires NoNoteStartsIn(a, ws + head + note + ")" + rest)
    requires AllSpace(ws) && SameIgnoringCase(head, "(assuming")
    requires note != [] && ')' !in note
    ensures RemoveAssumptions(a + ws + head + note + ")" + rest) == a + RemoveAssumptions(rest)
  {
    var tail := ws + head + note + ")" + rest;
    assert a + ws + head + note + ")" + rest == a + tail;
    RemoveAssumptionsAfterPlain(a, tail);
    RemoveAssumptionNote(ws, head, note, rest);
  }

  /**
   * The note Wolfram|Alpha adds to a logarithm,
   * `\log(x) + c (assuming a complex-valued logarithm)`, is removed and the answer before it
   * kept.
   */
  lemma {:induction false} LogarithmNoteRemoved()
    ensures RemoveAssumptions("\\log(x) + c" + " " + "(assuming" + " a complex-valued logarithm" + ")")
         == "\\log(x) + c"
  {
    var a := "\\log(x) + c";
    var note := " a complex-valued logarithm";
    var n := " " + "(assuming" + note + ")" + "";
    LogarithmValue();
    assert n[0] == ' ' && !IsWordChar(' ');
    NoNoteWithoutAssuming(a, n);
    RemoveNoteAfterValue(a, " ", "(assuming", note, "");
    assert a + " " + "(assuming" + note + ")" + "" == a + " " + "(assuming" + note + ")";
    assert a + [] == a;
  }

  /** The answer before the note ends in `c` and holds no `(assuming`. */
  lemma {:induction false} LogarithmValue()
    ensures var a := "\\log(x) + c"; NoAssumingIn(a) && !IsSpace(a[|a| - 1])
  {
    var a := "\\log(x) + c";
    assert a[0] == '\\' && a[1] == 'l' && a[2] == 'o' && a[|a| - 1] == 'c';
    forall i | 0 <= i < |a|
      ensures !AssumingAt(a, i)
    {
      if i + 9 <= |a| {
        assert a[i..i + 9][0] == a[i];
      }
    }
  }

  /** `constant` as a whole word at `p`, in any letter case (`\bconstant\b` with the `i` flag). */
  predicate ConstantAt(s: string, p: int) {
    && 0 <= p && p + 8 <= |s|
    && SameIgnoringCase(s[p..p + 8], "constant")
    && (p == 0 || !IsWordChar(s[p - 1]))
    && (p + 8 == |s| || !IsWordChar(s[p + 8]))
  }

  /** `result.replace(/\bconstant\b/gi, 'c')` from position `p` on. */
  function ReplaceConstantFrom(s: string, p: nat): (r: string)
    requires p <= |s|
    ensures |r| <= |s| - p
    decreases |s| - p
  {
    if p == |s| then []
    else if ConstantAt(s, p) then "c" + ReplaceConstantFrom(s, p + 8)
    else [s[p]] + ReplaceConstantFrom(s, p + 1)
  }

  function ReplaceConstant(s: string): (r: string)
    ensures |r| <= |s|
  {
    ReplaceConstantFrom(s, 0)
  }

  /** Without a whole-word `constant` the text is left as it is. */
  lemma {:induction false} ReplaceConstantUnchanged(s: string, p: nat)
    requires p <= |s|
    requires forall k :: p <= k < |s| ==> !ConstantAt(s, k)
    ensures ReplaceConstantFrom(s, p) == s[p..]
    decreases |s| - p
  {
    if p < |s| {
      ReplaceConstantUnchanged(s, p + 1);
      ReplaceKeeps(s, p);
      assert s[p..] == [s[p]] + s[p + 1..];
    }
  }

  /**
   * A trailing whole-word `constant` after text that holds none becomes `c`:
   * `<a>constant` turns into `<a>c` when `a` ends in a non-word character or is empty.
   */
  lemma {:induction false} ReplaceTrailingConstant(a: string, w: string)
    requires SameIgnoringCase(w, "constant")
    requires a == [] || !IsWordChar(a[|a| - 1])
    requires forall k :: 0 <= k < |a| ==> !ConstantAt(a + w, k)
    ensures ReplaceConstant(a + w) == a + "c"
  {
    var s := a + w;
    assert s[|a|..|a| + 8] == w;
    assert ConstantAt(s, |a|) by {
      if |a| > 0 { assert s[|a| - 1] == a[|a| - 1]; }
    }
    assert s[|a| + 8..] == [];
    ReplaceBeforeMatch(s, |a|, 0);
    assert s[..|a|] == a;
  }

  lemma {:induction false} ReplaceBeforeMatch(s: string, m: nat, p: nat)
    requires p <= m && m + 8 == |s| && ConstantAt(s, m)
    requires forall k :: p <= k < m ==> !ConstantAt(s, k)
    ensures ReplaceConstantFrom(s, p) == s[p..m] + "c"
    decreases m - p
  {
    if p < m {
      ReplaceBeforeMatch(s, m, p + 1);
      assert !ConstantAt(s, p);
      ReplaceKeeps(s, p);
      ConsSlice(s, p, m, "c");
    } else {
      ReplaceAtMatch(s, p);
      assert s[p..m] + "c" == "c";
    }
  }

  lemma {:induction false} ConsSlice(s: string, p: nat, m: nat, tail: string)
    requires p < m <= |s|
    ensures [s[p]] + (s[p + 1..m] + tail) == s[p..m] + tail
  {
    assert s[p..m] == [s[p]] + s[p + 1..m];
  }

  /** Where no whole-word `constant` starts, the character is kept. */
  lemma {:induction false} ReplaceKeeps(s: string, p: nat)
    requires p < |s| && !ConstantAt(s, p)
    ensures ReplaceConstantFrom(s, p) == [s[p]] + ReplaceConstantFrom(s, p + 1)
  {
  }

  /** A whole-word `constant` that ends the text becomes `c`. */
  lemma {:induction false} ReplaceAtMatch(s: string, p: nat)
    requires p + 8 == |s| && ConstantAt(s, p)
    ensures ReplaceConstantFrom(s, p) == "c"
  {
    assert ReplaceConstantFrom(s, p + 8) == [];
  }

  /**
   * The whole clean-up of the converted result: strip through the last `=`, remove the
   * assumption notes, replace `constant` for indefinite integrals only, and trim.
   */
  function CleanResult(converted: string, isDefinite: bool): (r: string)
    ensures IsTrimmed(r)
  {
    var stripped := StripThroughLastEquals(converted);
    var noNotes := RemoveAssumptions(stripped);
    var named := if isDefinite then noNotes else ReplaceConstant(noNotes);
    Trim(named)
  }

  /** The clean-up in its three steps. */
  lemma {:induction false} CleanSteps(converted: string, isDefinite: bool)
    ensures var kept := RemoveAssumptions(StripThroughLastEquals(converted));
      CleanResult(converted, isDefinite) == Trim(if isDefinite then kept else ReplaceConstant(kept))
  {
  }

  /**
   * A typical indefinite answer `<integral> = <body> + constant` cleans up to `<body> + c`
   * when the body is trimmed and holds no `=`, no `(assuming` and no whole-word `constant`.
   */
  lemma {:induction false} CleanIndefiniteAnswer(p: string, ws: string, body: string)
    requires AllSpace(ws) && body != [] && IsTrimmed(body)
    requires '=' !in body && NoAssumingIn(body)
    requires forall k :: 0 <= k < |body| + 3 ==> !ConstantAt(body + " + " + "constant", k)
    ensures CleanResult(p + "=" + ws + body + " + constant", false) == body + " + c"
  {
    var r := (body + " + ") + "constant";
    AnswerParts(p, ws, body);
    AnswerChars(body, "");
    StripDefinition(p, ws, r);
    AnswerKeptWhole(body);
    CleanSteps(p + "=" + ws + r, false);
    IndefiniteTail(body);
  }

  /**
   * For a definite integral the same answer keeps its `constant`: only indefinite results
   * have it renamed.
   */
  lemma {:induction false} CleanDefiniteKeepsConstant(p: string, ws: string, body: string)
    requires AllSpace(ws) && body != [] && IsTrimmed(body)
    requires '=' !in body && NoAssumingIn(body)
    ensures CleanResult(p + "=" + ws + body + " + constant", true) == body + " + constant"
  {
    var r := (body + " + ") + "constant";
    AnswerParts(p, ws, body);
    AnswerChars(body, "");
    StripDefinition(p, ws, r);
    AnswerKeptWhole(body);
    CleanSteps(p + "=" + ws + r, true);
    DefiniteTail(body);
  }

  /**
   * An indefinite answer followed by an assumption note,
   * `<integral> = <body> + constant (assuming<note>)`, also cleans up to `<body> + c`.
   */
  lemma {:induction false} CleanIndefiniteNotedAnswer(p: string, ws: string, body: string, note: string)
    requires AllSpace(ws) && body != [] && IsTrimmed(body)
    requires '=' !in body && NoAssumingIn(body)
    requires forall k :: 0 <= k < |body| + 3 ==> !ConstantAt(body + " + " + "constant", k)
    requires note != [] && ')' !in note && '=' !in note
    ensures CleanResult(p + "=" + ws + body + " + constant (assuming" + note + ")", false) == body + " + c"
  {
    var r := (body + " + ") + "constant";
    var n := " (assuming" + note + ")";
    NotedParts(p, ws, body, note);
    AnswerChars(body, n);
    StripDefinition(p, ws, r + n);
    NoteAfterAnswer(body, note);
    CleanSteps(p + "=" + ws + (r + n), false);
    IndefiniteTail(body);
  }

  /** The definite form of the same noted answer keeps its `constant` and loses the note. */
  lemma {:induction false} CleanDefiniteNotedAnswer(p: string, ws: string, body: string, note: string)
    requires AllSpace(ws) && body != [] && IsTrimmed(body)
    requires '=' !in body && NoAssumingIn(body)
    requires note != [] && ')' !in note && '=' !in note
    ensures CleanResult(p + "=" + ws + body + " + constant (assuming" + note + ")", true) == body + " + constant"
  {
    var r := (body + " + ") + "constant";
    var n := " (assuming" + note + ")";
    NotedParts(p, ws, body, note);
    AnswerChars(body, n);
    StripDefinition(p, ws, r + n);
    NoteAfterAnswer(body, note);
    CleanSteps(p + "=" + ws + (r + n), true);
    DefiniteTail(body);
  }

  lemma {:induction false} AnswerParts(p: string, ws: string, body: string)
    ensures p + "=" + ws + body + " + constant" == p + "=" + ws + ((body + " + ") + "constant")
    ensures (body + " + ") + "constant" == body + " + " + "constant"
    ensures (body + " + ") + "c" == body + " + c"
    ensures (body + " + ") + "constant" == body + " + constant"
  {
  }

  lemma {:induction false} NotedParts(p: string, ws: string, body: string, note: string)
    ensures p + "=" + ws + body + " + constant (assuming" + note + ")"
         == p + "=" + ws + (((body + " + ") + "constant") + (" (assuming" + note + ")"))
  {
  }

  /** The stripped answer starts with the body and holds no `=`. */
  lemma {:induction false} AnswerChars(body: string, n: string)
    requires body != [] && !IsSpace(body[0]) && '=' !in body
    requires '=' !in n
    ensures var r := (body + " + ") + "constant" + n; r != [] && !IsSpace(r[0]) && '=' !in r
  {
    var r := (body + " + ") + "constant" + n;
    assert r[0] == body[0];
    assert forall ch :: ch in r ==> ch in body || ch in " + constant" || ch in n;
  }

  /** No note is found in `<body> + constant`. */
  lemma {:induction false} AnswerKeptWhole(body: string)
    requires body != [] && IsTrimmed(body) && NoAssumingIn(body)
    ensures RemoveAssumptions((body + " + ") + "constant") == (body + " + ") + "constant"
  {
    var tail := " + constant";
    assert (body + " + ") + "constant" == body + tail;
    ConstantTail();
    KeptBeforePlain(body, tail);
  }

  lemma ConstantTail()
    ensures var t := " + constant"; !IsWordChar(t[0]) && '(' !in t && !IsSpace(t[|t| - 1])
  {
  }

  /** Text free of notes followed by a plain tail is left whole. */
  lemma {:induction false} KeptBeforePlain(a: string, t: string)
    requires a != [] && IsTrimmed(a) && NoAssumingIn(a)
    requires t != [] && !IsWordChar(t[0]) && '(' !in t && !IsSpace(t[|t| - 1])
    ensures RemoveAssumptions(a + t) == a + t
  {
    NoNoteWithoutAssuming(a, t);
    RemoveAssumptionsAfterPlain(a, t);
    RemoveAssumptionsWithoutParen(t);
  }

  /** The note after `<body> + constant` is the only thing removed. */
  lemma {:induction false} NoteAfterAnswer(body: string, note: string)
    requires body != [] && IsTrimmed(body) && NoAssumingIn(body)
    requires note != [] && ')' !in note
    ensures RemoveAssumptions(((body + " + ") + "constant") + (" (assuming" + note + ")"))
         == (body + " + ") + "constant"
  {
    var tail := " + constant";
    var n := " (assuming" + note + ")";
    assert ((body + " + ") + "constant") + n == body + (tail + n);
    assert (body + " + ") + "constant" == body + tail;
    assert n == " " + "(assuming" + note + ")" + "";
    ConstantTail();
    assert (tail + n)[0] == tail[0];
    NoteAfterPlain(body, tail, note);
  }

  /** Text free of notes, a plain tail, and a note: only the note goes. */
  lemma {:induction false} NoteAfterPlain(a: string, t: string, note: string)
    requires a != [] && IsTrimmed(a) && NoAssumingIn(a)
    requires t != [] && !IsWordChar(t[0]) && '(' !in t && !IsSpace(t[|t| - 1])
    requires note != [] && ')' !in note
    ensures RemoveAssumptions(a + (t + (" " + "(assuming" + note + ")" + ""))) == a + t
  {
    var n := " " + "(assuming" + note + ")" + "";
    assert (t + n)[0] == t[0];
    NoNoteWithoutAssuming(a, t + n);
    RemoveAssumptionsAfterPlain(a, t + n);
    NoNoteWithoutParen(t, n);
    RemoveAssumptionsAfterPlain(t, n);
    RemoveAssumptionNote(" ", "(assuming", note, "");
    assert t + [] == t;
  }

  /** `constant` ends the answer; an indefinite clean-up renames it and trims. */
  lemma {:induction false} IndefiniteTail(body: string)
    requires body != [] && IsTrimmed(body)
    requires forall k :: 0 <= k < |body| + 3 ==> !ConstantAt(body + " + " + "constant", k)
    ensures Trim(ReplaceConstant((body + " + ") + "constant")) == body + " + c"
  {
    var a := body + " + ";
    assert a[|a| - 1] == ' ' && !IsWordChar(' ');
    ReplaceTrailingConstant(a, "constant");
    AnswerTrimmed(body);
    TrimOfTrimmed(body + " + c");
  }

  /** A definite clean-up leaves `<body> + constant` as it is. */
  lemma {:induction false} DefiniteTail(body: string)
    requires IsTrimmed(body) && body != []
    ensures Trim((body + " + ") + "constant") == body + " + constant"
  {
    var r := (body + " + ") + "constant";
    assert r[0] == body[0] && r[|r| - 1] == 't';
    TrimOfTrimmed(r);
    assert r == body + " + constant";
  }

  lemma {:induction false} AnswerTrimmed(body: string)
    requires IsTrimmed(body) && body != []
    ensures IsTrimmed(body + " + c")
  {
    var c := body + " + c";
    assert c[0] == body[0] && c[|c| - 1] == 'c';
  }
}
