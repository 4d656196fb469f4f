/**
 * The one-line function definitions that the derivative and integral widgets pass along a
 * connection: they emit `f(<variable>) = <body>` and read an incoming value with the
 * pattern `^f\((\w+)\)\s*=\s*(.+)$`, falling back to variable `x` and the whole value.
 */
module FunctionLine {
  import opened Wrappers
  import opened Text

  datatype Definition = Definition(variable: string, body: string)

  /** The line a widget emits for a function of `variable`. */
  function Format(variable: string, body: string): string {
    "f(" + variable + ") = " + body
  }

  /** What lies between `f(v)` and the body in a matched line: whitespace around one `=`. */
  predicate IsEqualsGap(g: string) {
    multiset(g)['='] == 1 && forall i :: 0 <= i < |g| ==> g[i] == '=' || IsSpace(g[i])
  }

  lemma NoEqualsInSpace(g: string)
    requires AllSpace(g)
    ensures multiset(g)['='] == 0
  {
    assert !IsSpace('=');
    assert '=' !in g;
  }

  /** The head `^f\((\w+)\)`: the word, which ends at the first non-word character, and what follows the `)`. */
  function MatchHead(value: string): (r: Option<(string, string)>)
    ensures r.Some? ==> IsWord(r.value.0) && value == "f(" + r.value.0 + ")" + r.value.1
  {
    if |value| < 2 || value[..2] != "f(" then None
    else
      var rest := value[2..];
      var k := WordPrefix(rest);
      if k == 0 || k >= |rest| || rest[k] != ')' then None
      else
        assert value == value[..2] + rest;
        assert rest == rest[..k] + [')'] + rest[k + 1..];
        Some((rest[..k], rest[k + 1..]))
  }

  /** `\s*=`: whitespace, which runs up to the `=`, and what follows the `=`. */
  function MatchEquals(s: string): (r: Option<(string, string)>)
    ensures r.Some? ==> AllSpace(r.value.0) && s == r.value.0 + "=" + r.value.1
  {
    var a := SpanStart(s);
    if a >= |s| || s[a] != '=' then None
    else
      assert s == s[..a] + "=" + s[a + 1..];
      Some((s[..a], s[a + 1..]))
  }

  /**
   * `\s*(.+)$`: the `\s*` takes all the whitespace it can while `.+` still matches a
   * non-empty, single-line rest; when all of `s` is whitespace that leaves the last character.
   */
  function MatchBody(s: string): (r: Option<(string, string)>)
    ensures r.Some? ==> AllSpace(r.value.0) && s == r.value.0 + r.value.1
                        && r.value.1 != [] && SingleLine(r.value.1)
  {
    var b := SpanStart(s);
    if b < |s| then
      if SingleLine(s[b..]) then
        assert s == s[..b] + s[b..];
        Some((s[..b], s[b..]))
      else None
    else if s != [] && !IsLineTerminator(s[|s| - 1]) then
      var n := |s| - 1;
      assert s == s[..n] + s[n..];
      assert AllSpace(s[..n]) by { assert s[..n] == s[..b][..n]; }
      Some((s[..n], s[n..]))
    else None
  }

  /**
   * `value` reads as `f(<v>)`, whitespace around one `=`, then the body `e`: a word, and a
   * non-empty single line.
   */
  predicate IsDefinitionOf(value: string, v: string, e: string) {
    && IsWord(v) && e != [] && SingleLine(e)
    && |v| + 3 + |e| <= |value|
    && value[..|v| + 3] == "f(" + v + ")"
    && value[|value| - |e|..] == e
    && IsEqualsGap(value[|v| + 3..|value| - |e|])
  }

  /** The pattern `^f\((\w+)\)\s*=\s*(.+)$`. */
  function MatchDefinition(value: string): (r: Option<Definition>)
    ensures r.Some? ==> IsDefinitionOf(value, r.value.variable, r.value.body)
  {
    match MatchHead(value)
    case None => None
    case Some((v, afterHead)) =>
      match MatchEquals(afterHead)
      case None => None
      case Some((ws1, tail)) =>
        match MatchBody(tail)
        case None => None
        case Some((ws2, e)) =>
          MatchShape(value, v, ws1, ws2, e);
          Some(Definition(v, e))
  }

  /** The layout of a matched line: `f(`, a word, `)`, whitespace, `=`, whitespace, the body. */
  lemma MatchShape(value: string, v: string, ws1: string, ws2: string, e: string)
    requires value == "f(" + v + ")" + (ws1 + "=" + (ws2 + e))
    requires IsWord(v) && AllSpace(ws1) && AllSpace(ws2)
    requires e != [] && SingleLine(e)
    ensures IsDefinitionOf(value, v, e)
  {
    var g := value[|v| + 3..|value| - |e|];
    assert value == "f(" + v + ")" + ws1 + "=" + ws2 + e;
    assert g == ws1 + ['='] + ws2;
    NoEqualsInSpace(ws1);
    NoEqualsInSpace(ws2);
    assert multiset(g) == multiset(ws1) + multiset{'='} + multiset(ws2);
    forall i | 0 <= i < |g| ensures g[i] == '=' || IsSpace(g[i]) {
      if i < |ws1| { assert g[i] == ws1[i]; }
      else if i > |ws1| { assert g[i] == ws2[i - |ws1| - 1]; }
    }
  }

  /**
   * Every line of the shape `f(<word>)<ws>=<ws><body>` is matched, with that word and body,
   * when the body is a non-empty single line that does not start with whitespace.
   */
  lemma {:induction false} MatchDefinitionComplete(value: string, v: string, ws1: string, ws2: string, e: string)
    requires value == "f(" + v + ")" + ws1 + "=" + ws2 + e
    requires IsWord(v) && AllSpace(ws1) && AllSpace(ws2)
    requires e != [] && !IsSpace(e[0]) && SingleLine(e)
    ensures MatchDefinition(value) == Some(Definition(v, e))
  {
    var afterHead := ws1 + "=" + ws2 + e;
    assert value == "f(" + v + ")" + afterHead;
    MatchHeadComplete(v, afterHead);
    var tail := ws2 + e;
    assert afterHead == ws1 + "=" + tail;
    MatchEqualsComplete(ws1, tail);
    MatchBodyComplete(ws2, e);
  }

  lemma {:induction false} MatchHeadComplete(v: string, rest: string)
    requires IsWord(v)
    ensures MatchHead("f(" + v + ")" + rest) == Some((v, rest))
  {
    var value := "f(" + v + ")" + rest;
    assert value[..2] == "f(";
    assert value[2..] == v + (")" + rest);
    WordPrefixOfWordThen(v, ")" + rest);
    assert value[2..][..|v|] == v;
    assert value[2..][|v| + 1..] == rest;
  }

  lemma {:induction false} MatchEqualsComplete(ws: string, rest: string)
    requires AllSpace(ws)
    ensures MatchEquals(ws + "=" + rest) == Some((ws, rest))
  {
    var s := ws + "=" + rest;
    assert !IsSpace('=');
    assert s == ws + ("=" + rest);
    SpanStartOfSpaceThen(ws, "=" + rest);
    assert s[..|ws|] == ws;
    assert s[|ws| + 1..] == rest;
  }

  lemma {:induction false} MatchBodyComplete(ws: string, e: string)
    requires AllSpace(ws)
    requires e != [] && !IsSpace(e[0]) && SingleLine(e)
    ensures MatchBody(ws + e) == Some((ws, e))
  {
    var s := ws + e;
    SpanStartOfSpaceThen(ws, e);
    assert s[..|ws|] == ws;
    assert s[|ws|..] == e;
  }

  /** What an `inputChange` handler stores: the matched variable and body, else `x` and the whole value. */
  function ParseInput(value: string): (d: Definition)
    ensures IsWord(d.variable)
    ensures d == Definition("x", value) || IsDefinitionOf(value, d.variable, d.body)
  {
    MatchDefinition(value).GetOr(Definition("x", value))
  }

  /** The emitted line has the `f(v) = e` shape that the pattern reads. */
  lemma {:induction false} FormatShape(v: string, e: string)
    requires IsWord(v) && e != [] && SingleLine(e)
    ensures IsDefinitionOf(Format(v, e), v, e)
  {
    var line := Format(v, e);
    assert line[|v| + 3..|line| - |e|] == " = ";
  }

  /**
   * A line a widget emits is read back by the receiving widget as the same variable and
   * body, provided the variable is a word and the body is a non-empty single line that
   * does not start with whitespace.
   */
  lemma {:induction false} FormatRoundTrip(v: string, e: string)
    requires IsWord(v)
    requires e != [] && !IsSpace(e[0]) && SingleLine(e)
    ensures MatchDefinition(Format(v, e)) == Some(Definition(v, e))
    ensures ParseInput(Format(v, e)) == Definition(v, e)
  {
    assert Format(v, e) == "f(" + v + ")" + " " + "=" + " " + e;
    MatchDefinitionComplete(Format(v, e), v, " ", " ", e);
  }
}
