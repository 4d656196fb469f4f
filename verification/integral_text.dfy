/**
 * The integral widget's string helpers: which expressions are worth sending, the removal of
 * the invisible operators the math editor inserts, the reading of a bound from an incoming
 * line, and the query text sent to the integration service.
 */
module IntegralText {
  import opened Wrappers
  import opened Text

  /** Number of occurrences of `c`, as the global match `/c/g` counts them. */
  function Count(s: string, c: char): nat {
    if s == [] then 0 else (if s[0] == c then 1 else 0) + Count(s[1..], c)
  }

  /** The count agrees with the multiset of the text. */
  lemma {:induction false} CountIsMultiplicity(s: string, c: char)
    ensures Count(s, c) == multiset(s)[c]
  {
    if s != [] {
      assert s == [s[0]] + s[1..];
      CountIsMultiplicity(s[1..], c);
    }
  }

  /** The class `[+\-*\/\\^_]`: characters that leave an expression unfinished. */
  predicate IsTrailingOperator(c: char) {
    c == '+' || c == '-' || c == '*' || c == '/' || c == '\\' || c == '^' || c == '_'
  }

  /**
   * `_isValidExpression`: not empty, not only whitespace, as many `{` as `}`, and the trimmed
   * text does not end with an operator, a backslash or an underscore.
   */
  function IsValidExpression(expr: string): (ok: bool)
    ensures ok <==> && !AllSpace(expr)
                    && multiset(expr)['{'] == multiset(expr)['}']
                    && !IsTrailingOperator(Trim(expr)[|Trim(expr)| - 1])
  {
    CountIsMultiplicity(expr, '{');
    CountIsMultiplicity(expr, '}');
    if expr == [] then false
    else if AllSpace(expr) then false
    else if Count(expr, '{') != Count(expr, '}') then false
    else
      var t := Trim(expr);
      !IsTrailingOperator(t[|t| - 1])
  }

  /** Only the numbers of braces matter, not their order: swapping two characters keeps validity. */
  lemma {:induction false} ValidityIgnoresBraceOrder(a: string, b: string, c: string)
    ensures IsValidExpression(a + "{" + b + "}" + c) == IsValidExpression(a + "}" + b + "{" + c)
  {
    var s1 := a + "{" + b + "}" + c;
    var s2 := a + "}" + b + "{" + c;
    assert multiset(s1) == multiset(s2) by {
      assert multiset(s1) == multiset(a) + multiset{'{'} + multiset(b) + multiset{'}'} + multiset(c);
      assert multiset(s2) == multiset(a) + multiset{'}'} + multiset(b) + multiset{'{'} + multiset(c);
    }
    SwapKeepsEnd(a + "{" + b, '}', c);
    SwapKeepsEnd(a + "}" + b, '{', c);
    var last1, last2 := Trim(s1)[|Trim(s1)| - 1], Trim(s2)[|Trim(s2)| - 1];
    assert IsTrailingOperator(last1) == IsTrailingOperator(last2) by {
      if !AllSpace(c) {
        assert last1 == last2;
      }
    }
  }

  /**
   * Text ending in a brace and then `c` is not blank; its trimmed form ends where `c`'s does,
   * or with the brace when `c` is blank.
   */
  lemma {:induction false} SwapKeepsEnd(x: string, brace: char, c: string)
    requires brace == '{' || brace == '}'
    ensures !AllSpace(x + [brace] + c)
    ensures AllSpace(c) ==> Trim(x + [brace] + c)[|Trim(x + [brace] + c)| - 1] == brace
    ensures !AllSpace(c) ==> Trim(x + [brace] + c)[|Trim(x + [brace] + c)| - 1] == Trim(c)[|Trim(c)| - 1]
  {
    var s := x + [brace] + c;
    var t := [brace] + c;
    assert s == x + t;
    SuffixOfJoin(x, t);
    if !AllSpace(c) {
      SuffixOfJoin([brace], c);
      assert t[|t| - |c|..] == c;
      LastNonSpace(t, c);
      LastNonSpace(s, t);
    } else {
      LastBeforeBlank(brace, c);
      LastNonSpace(s, t);
    }
  }

  lemma SuffixOfJoin(x: string, t: string)
    ensures (x + t)[|x + t| - |t|..] == t
  {
  }

  /** A non-space character followed only by whitespace is where trimmed text ends. */
  lemma {:induction false} LastBeforeBlank(ch: char, c: string)
    requires !IsSpace(ch) && AllSpace(c)
    ensures !AllSpace([ch] + c)
    ensures Trim([ch] + c)[|Trim([ch] + c)| - 1] == ch
  {
    var s := [ch] + c;
    assert !IsSpace(s[0]);
    forall k | 1 <= k < |s| ensures IsSpace(s[k]) {
      assert s[k] == c[k - 1];
    }
    var e := TrimEnd(s);
  }

  /** The last character of trimmed text is the last non-space character of a non-blank suffix. */
  lemma {:induction false} LastNonSpace(s: string, c: string)
    requires !AllSpace(c) && |c| <= |s| && s[|s| - |c|..] == c
    ensures !AllSpace(s)
    ensures Trim(s)[|Trim(s)| - 1] == Trim(c)[|Trim(c)| - 1]
  {
    var d := |s| - |c|;
    var ec := TrimEnd(c);
    assert s[d..][ec - 1] == s[d + ec - 1];
    assert s[d..][ec..] == s[d + ec..];
    assert !IsSpace(s[d + ec - 1]);
    var e := TrimEnd(s);
    EndUnique(s, e, d + ec);
  }

  /** Where trimmed non-blank text ends: after its last non-space character. */
  lemma {:induction false} TrimEnd(s: string) returns (e: nat)
    requires !AllSpace(s)
    ensures 0 < e <= |s| && !IsSpace(s[e - 1]) && AllSpace(s[e..])
    ensures Trim(s)[|Trim(s)| - 1] == s[e - 1]
  {
    var r := Trim(s);
    e := SpanStart(s) + |r|;
    assert r[|r| - 1] == s[e - 1];
  }

  /** Only one position ends the non-space part of a text. */
  lemma {:induction false} EndUnique(s: string, e1: nat, e2: nat)
    requires 0 < e1 <= |s| && !IsSpace(s[e1 - 1]) && AllSpace(s[e1..])
    requires 0 < e2 <= |s| && !IsSpace(s[e2 - 1]) && AllSpace(s[e2..])
    ensures e1 == e2
  {
  }

  /** The invisible operators U+2061 to U+2064 the math editor inserts. */
  predicate IsInvisibleOperator(c: char) {
    0x2061 <= c as int <= 0x2064
  }

  predicate NoInvisible(s: string) {
    forall i :: 0 <= i < |s| ==> !IsInvisibleOperator(s[i])
  }

  /** `_sanitizeForWolfram`: drop every invisible operator, keep everything else in order. */
  function Sanitize(s: string): (r: string)
    ensures |r| <= |s|
    ensures NoInvisible(r)
  {
    if s == [] then []
    else
      var rest := Sanitize(s[1..]);
      if IsInvisibleOperator(s[0]) then rest else [s[0]] + rest
  }

  /** Every visible character keeps its number of occurrences. */
  lemma {:induction false} SanitizeKeepsVisible(s: string, c: char)
    requires !IsInvisibleOperator(c)
    ensures multiset(Sanitize(s))[c] == multiset(s)[c]
  {
    if s != [] {
      assert s == [s[0]] + s[1..];
      SanitizeKeepsVisible(s[1..], c);
    }
  }

  /** Sanitizing works character by character: it distributes over concatenation. */
  lemma {:induction false} SanitizeAppend(a: string, b: string)
    ensures Sanitize(a + b) == Sanitize(a) + Sanitize(b)
  {
    if a == [] {
      assert a + b == b;
    } else {
      var ab := a + b;
      assert ab[1..] == a[1..] + b && ab[0] == a[0];
      SanitizeAppend(a[1..], b);
      if IsInvisibleOperator(a[0]) {
        assert Sanitize(ab) == Sanitize(ab[1..]);
        assert Sanitize(a) == Sanitize(a[1..]);
      } else {
        assert Sanitize(ab) == [a[0]] + Sanitize(ab[1..]);
        assert Sanitize(a) == [a[0]] + Sanitize(a[1..]);
        assert [a[0]] + (Sanitize(a[1..]) + Sanitize(b)) == ([a[0]] + Sanitize(a[1..])) + Sanitize(b);
      }
    }
  }

  /** Text without invisible operators is left as it is. */
  lemma {:induction false} SanitizeKeepsClean(s: string)
    requires NoInvisible(s)
    ensures Sanitize(s) == s
  {
    if s != [] {
      SanitizeKeepsClean(s[1..]);
    }
  }

  /** Sanitizing twice is sanitizing once. */
  lemma {:induction false} SanitizeIdempotent(s: string)
    ensures Sanitize(Sanitize(s)) == Sanitize(s)
  {
    SanitizeKeepsClean(Sanitize(s));
  }

  /** Index of the first line terminator, or the length when there is none. */
  function LineEnd(s: string): (n: nat)
    ensures n <= |s| && SingleLine(s[..n])
    ensures n < |s| ==> IsLineTerminator(s[n])
  {
    if s == [] || IsLineTerminator(s[0]) then 0
    else
      var n := 1 + LineEnd(s[1..]);
      assert s[..n] == [s[0]] + s[1..][..n - 1];
      n
  }

  /**
   * A bound from an incoming line, `/=\s*(.*)/` then `trim`: after the first `=`, skip
   * whitespace (line breaks included), take the rest of that line and trim it; no `=` gives
   * the empty bound.
   */
  function BoundText(value: string): (b: string)
    ensures IsTrimmed(b)
    ensures '=' !in value ==> b == []
  {
    match IndexOf(value, '=')
    case None => []
    case Some(i) =>
      var rest := value[i + 1..];
      var tail := rest[SpanStart(rest)..];
      Trim(tail[..LineEnd(tail)])
  }

  /** On a single line, the bound is the trimmed text after the first `=`. */
  lemma {:induction false} BoundOfSingleLine(value: string, i: nat)
    requires SingleLine(value) && i < |value| && value[i] == '=' && '=' !in value[..i]
    ensures BoundText(value) == Trim(value[i + 1..])
  {
    assert IndexOf(value, '=') == Some(i);
    var rest := value[i + 1..];
    var tail := rest[SpanStart(rest)..];
    SliceSingleLine(value, i + 1, |value|);
    assert value[i + 1..|value|] == rest;
    SliceSingleLine(rest, SpanStart(rest), |rest|);
    assert rest[SpanStart(rest)..|rest|] == tail;
    assert LineEnd(tail) == |tail|;
    assert tail[..|tail|] == tail;
    TrimAfterLeadingSpace(rest);
  }

  /**
   * A bound read from a function line `f(<v>) = <e>`, as the function and derivative widgets
   * emit, is the trimmed body.
   */
  lemma {:induction false} BoundOfFunctionLine(v: string, e: string)
    requires IsWord(v) && SingleLine(e)
    ensures BoundText("f(" + v + ") = " + e) == Trim(e)
  {
    var value := "f(" + v + ") = " + e;
    var i := |v| + 4;
    FunctionLineParts(v, e);
    BoundOfSingleLine(value, i);
    SpanStartPlusOne(e);
    TrimAfterLeadingSpace(" " + e);
  }

  lemma {:induction false} FunctionLineParts(v: string, e: string)
    requires IsWord(v) && SingleLine(e)
    ensures var value := "f(" + v + ") = " + e; var i := |v| + 4;
      && i < |value| && value[i] == '=' && '=' !in value[..i]
      && SingleLine(value) && value[i + 1..] == " " + e
  {
    var value := "f(" + v + ") = " + e;
    var i := |v| + 4;
    var head := "f(" + v + ") ";
    assert value == head + ("=" + (" " + e));
    assert value[..i] == head;
    assert forall k :: 0 <= k < |head| ==> head[k] == '=' ==> 1 < k < |v| + 2 && head[k] == v[k - 2];
    assert forall k :: 0 <= k < |v| ==> IsWordChar(v[k]);
    assert SingleLine(head) by {
      assert forall k :: 0 <= k < |head| ==> head[k] in v || head[k] in "f() ";
    }
    JoinSingleLine(head, "= ");
    JoinSingleLine(head + "= ", e);
    assert value == (head + "= ") + e;
  }

  lemma SpanStartPlusOne(e: string)
    ensures (" " + e)[SpanStart(" " + e)..] == e[SpanStart(e)..]
  {
    var s := " " + e;
    assert s[1..] == e;
  }

  /** The query is the definite form exactly when both bounds are non-empty after sanitizing. */
  predicate IsDefinite(lower: string, upper: string): (b: bool)
    ensures b ==> lower != [] && upper != []
    ensures NoInvisible(lower) && NoInvisible(upper) ==> (b <==> lower != [] && upper != [])
  {
    SanitizeOfBound(lower);
    SanitizeOfBound(upper);
    Sanitize(lower) != [] && Sanitize(upper) != []
  }

  lemma SanitizeOfBound(s: string)
    ensures s == [] ==> Sanitize(s) == []
    ensures NoInvisible(s) ==> Sanitize(s) == s
  {
    if NoInvisible(s) { SanitizeKeepsClean(s); }
  }

  /**
   * The query text: `\int_{<lo>}^{<hi>} \left( <e> \right) d<var>` when both bounds are
   * present, else `\int \left( <e> \right) d<var>`; the expression and bounds are sanitized,
   * the variable is not.
   */
  function IntegralQuery(expr: string, v: string, lower: string, upper: string): (q: string)
    ensures var e := Sanitize(expr);
            if IsDefinite(lower, upper)
            then q == "\\int_{" + Sanitize(lower) + "}^{" + Sanitize(upper) + "} \\left( " + e + " \\right) d" + v
            else q == "\\int \\left( " + e + " \\right) d" + v
  {
    var e, lo, hi := Sanitize(expr), Sanitize(lower), Sanitize(upper);
    if lo != [] && hi != [] then
      "\\int_{" + lo + "}^{" + hi + "} \\left( " + e + " \\right) d" + v
    else
      "\\int \\left( " + e + " \\right) d" + v
  }

  /** The query starts with `\int_` exactly for definite integrals. */
  lemma {:induction false} QueryFormChoice(expr: string, v: string, lower: string, upper: string)
    ensures var q := IntegralQuery(expr, v, lower, upper);
            |q| >= 5 && (q[..5] == "\\int_" <==> IsDefinite(lower, upper))
  {
    var q := IntegralQuery(expr, v, lower, upper);
    if IsDefinite(lower, upper) {
      assert q[..5] == "\\int_";
    } else {
      assert q[4] == ' ';
    }
  }

  /** With a clean variable name the query holds no invisible operator at all. */
  lemma {:induction false} QueryIsClean(expr: string, v: string, lower: string, upper: string)
    requires NoInvisible(v)
    ensures NoInvisible(IntegralQuery(expr, v, lower, upper))
  {
    var e, lo, hi := Sanitize(expr), Sanitize(lower), Sanitize(upper);
    if IsDefinite(lower, upper) {
      DefiniteTemplateClean(lo, hi, e, v);
    } else {
      IndefiniteTemplateClean(e, v);
    }
  }

  lemma DefiniteTemplateClean(lo: string, hi: string, e: string, v: string)
    requires NoInvisible(lo) && NoInvisible(hi) && NoInvisible(e) && NoInvisible(v)
    ensures NoInvisible("\\int_{" + lo + "}^{" + hi + "} \\left( " + e + " \\right) d" + v)
  {
    var q := "\\int_{" + lo + "}^{" + hi + "} \\left( " + e + " \\right) d" + v;
    assert forall ch :: ch in q ==> ch in e || ch in lo || ch in hi || ch in v || ch in "\\int_{}^ lef(righd)";
    forall k | 0 <= k < |q| ensures !IsInvisibleOperator(q[k]) {
      assert q[k] in q;
    }
  }

  lemma IndefiniteTemplateClean(e: string, v: string)
    requires NoInvisible(e) && NoInvisible(v)
    ensures NoInvisible("\\int \\left( " + e + " \\right) d" + v)
  {
    var q := "\\int \\left( " + e + " \\right) d" + v;
    assert forall ch :: ch in q ==> ch in e || ch in v || ch in "\\int lef(righd)";
    forall k | 0 <= k < |q| ensures !IsInvisibleOperator(q[k]) {
      assert q[k] in q;
    }
  }
}
