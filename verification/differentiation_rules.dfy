/**
 * What `_differentiate` promises, rule by rule: trimming comes first, the three operator
 * splits use their rightmost split point, the power rule splits at the last `^`, then come
 * the parenthesis strip, the function table and the base cases. Each rule is stated as the
 * exact text it produces, under the condition that the earlier rules did not apply.
 */
module DifferentiationRules {
  import opened Wrappers
  import opened Text
  import opened Differentiation

  /** Leading and trailing whitespace of the input never changes the result. */
  lemma {:induction false} TrimInvariant(s: string, v: string)
    ensures Differentiate(s, v) == Differentiate(Trim(s), v)
  {
    TrimIdempotent(s);
  }

  /** Whenever some index is a split point, there is a rightmost one at or after it. */
  lemma {:induction false} RightmostSplitExists(t: string, j: int, kind: OpKind)
    requires ValidSplit(t, j, kind)
    ensures exists i :: j <= i < |t| && RightmostSplit(t, i, kind)
  {
    LastSplitIsRightmost(t, kind);
    var i := LastSplit(t, kind, |t|).value;
    assert j <= i < |t| && RightmostSplit(t, i, kind);
  }

  /** Sum rule: the rightmost top-level `+`/`-` gives `<d(left)> <op> <d(right)>`. */
  lemma {:induction false} SumRule(t: string, v: string, i: int)
    requires IsTrimmed(t) && RightmostSplit(t, i, Additive)
    ensures Differentiate(t, v)
         == Differentiate(Trim(t[..i]), v) + " " + [t[i]] + " " + Differentiate(Trim(t[i + 1..]), v)
  {
    TrimOfTrimmed(t);
    LastSplitFindsRightmost(t, i, Additive);
  }

  /** Product rule: with no sum split, the rightmost top-level `*` gives `(d(L)) * (R) + (L) * (d(R))`. */
  lemma {:induction false} ProductRule(t: string, v: string, i: int)
    requires IsTrimmed(t) && NoSplit(t, Additive) && RightmostSplit(t, i, Multiplicative)
    ensures var left := Trim(t[..i]); var right := Trim(t[i + 1..]);
            Differentiate(t, v)
            == "(" + Differentiate(left, v) + ") * (" + right + ") + (" + left + ") * (" + Differentiate(right, v) + ")"
  {
    TrimOfTrimmed(t);
    LastSplitIsRightmost(t, Additive);
    LastSplitFindsRightmost(t, i, Multiplicative);
  }

  /**
   * Quotient rule: with no sum or product split, the rightmost top-level `/` gives
   * `((d(L)) * (R) - (L) * (d(R))) / (R)^2`.
   */
  lemma {:induction false} QuotientRule(t: string, v: string, i: int)
    requires IsTrimmed(t) && NoSplit(t, Additive) && NoSplit(t, Multiplicative)
    requires RightmostSplit(t, i, Divisive)
    ensures var left := Trim(t[..i]); var right := Trim(t[i + 1..]);
            Differentiate(t, v)
            == "((" + Differentiate(left, v) + ") * (" + right + ") - (" + left + ") * ("
               + Differentiate(right, v) + ")) / (" + right + ")^2"
  {
    TrimOfTrimmed(t);
    LastSplitIsRightmost(t, Additive);
    LastSplitIsRightmost(t, Multiplicative);
    LastSplitFindsRightmost(t, i, Divisive);
  }

  /** None of the three operator splits applies. */
  predicate NoOperatorSplit(t: string) {
    NoSplit(t, Additive) && NoSplit(t, Multiplicative) && NoSplit(t, Divisive)
  }

  /** Trimmed text without an operator split goes to the power stage. */
  lemma {:induction false} ReachesPower(t: string, v: string)
    requires IsTrimmed(t) && NoOperatorSplit(t)
    ensures Differentiate(t, v) == DiffPower(t, v)
  {
    TrimOfTrimmed(t);
    LastSplitIsRightmost(t, Additive);
    LastSplitIsRightmost(t, Multiplicative);
    LastSplitIsRightmost(t, Divisive);
  }

  /** The last power split point is the one the power pattern uses. */
  lemma {:induction false} PowerSplitFinds(t: string, k: int)
    requires LastPowerSplit(t, k)
    ensures PowerSplit(t) == Some(k)
  {
    var p := PowerSplit(t);
    assert p.Some?;
    if p.value < k {
      assert false;
    }
  }

  /**
   * Power of the variable: when the base is the variable and the exponent is a whole number
   * n that does not mention it, the result is `1` for n = 1, `2<var>` for n = 2 and
   * `<n><var>^{<n-1>}` otherwise.
   */
  lemma {:induction false} PowerOfVariableRule(t: string, v: string, k: int)
    requires IsTrimmed(t) && NoOperatorSplit(t) && LastPowerSplit(t, k)
    requires PowerBase(t, k) == v && IsDigits(PowerExponent(t, k))
    requires !Contains(PowerExponent(t, k), v)
    ensures var n := DigitsValue(PowerExponent(t, k));
            && (n == 1 ==> Differentiate(t, v) == "1")
            && (n == 2 ==> Differentiate(t, v) == "2" + v)
            && (n != 1 && n != 2 ==> Differentiate(t, v) == NatText(n) + v + "^{" + IntText(n - 1) + "}")
  {
    ReachesPower(t, v);
    PowerSplitFinds(t, k);
  }

  /**
   * For an exponent written without a superfluous leading zero and worth at least 3, the
   * coefficient printed is the exponent as written and the new exponent is one less.
   */
  lemma {:induction false} PowerOfVariableEcho(e: string, v: string)
    requires IsCanonicalDigits(e) && DigitsValue(e) >= 3
    ensures PowerOfVariable(DigitsValue(e), v) == e + v + "^{" + NatText(DigitsValue(e) - 1) + "}"
  {
    NatTextOfDigits(e);
  }

  /**
   * General power rule: an exponent that does not mention the variable, in any other case,
   * gives `<e> * (<base>)^{<e> - 1} * (<d(base)>)`.
   */
  lemma {:induction false} GeneralPowerRule(t: string, v: string, k: int)
    requires IsTrimmed(t) && NoOperatorSplit(t) && LastPowerSplit(t, k)
    requires !Contains(PowerExponent(t, k), v)
    requires !(PowerBase(t, k) == v && IsDigits(PowerExponent(t, k)))
    ensures var base := PowerBase(t, k); var e := PowerExponent(t, k);
            Differentiate(t, v) == e + " * (" + base + ")^{" + e + " - 1} * (" + Differentiate(base, v) + ")"
  {
    ReachesPower(t, v);
    PowerSplitFinds(t, k);
  }

  /** The power rule does not apply: there is no power split, or its exponent mentions the variable. */
  ghost predicate NoPowerRule(t: string, v: string) {
    forall k :: LastPowerSplit(t, k) ==> Contains(PowerExponent(t, k), v)
  }

  /** Without an operator split and without the power rule, the grouping stage decides. */
  lemma {:induction false} ReachesGroup(t: string, v: string)
    requires IsTrimmed(t) && NoOperatorSplit(t) && NoPowerRule(t, v)
    ensures Differentiate(t, v) == DiffGroup(t, v)
  {
    ReachesPower(t, v);
    var p := PowerSplit(t);
    if p.Some? {
      assert LastPowerSplit(t, p.value);
    }
  }

  /**
   * Parenthesis strip: text that starts with `(` and ends with `)` is differentiated without
   * those two characters, whether or not they belong together.
   */
  lemma {:induction false} ParenRule(t: string, v: string)
    requires IsTrimmed(t) && NoOperatorSplit(t) && NoPowerRule(t, v)
    requires |t| >= 2 && t[0] == '(' && t[|t| - 1] == ')'
    ensures Differentiate(t, v) == Differentiate(t[1..|t| - 1], v)
  {
    ReachesGroup(t, v);
  }

  /**
   * Chain rule: `name(arg)` with a name from the table gives the table's outer derivative at
   * `arg`, then ` * (<d(arg)>)`.
   */
  lemma {:induction false} ChainRule(t: string, v: string, c: Call)
    requires IsTrimmed(t) && NoOperatorSplit(t) && NoPowerRule(t, v)
    requires IsCallOf(t, c) && ChainFactor(c.name, c.arg).Some?
    ensures Differentiate(t, v) == ChainFactor(c.name, c.arg).value + " * (" + Differentiate(c.arg, v) + ")"
  {
    ReachesGroup(t, v);
    FuncMatchComplete(t, c);
    assert IsWordChar(t[0]) by { assert t[0] == c.name[0]; }
  }

  /** The grouping stage does not apply: no outer parentheses, and no call of a table function. */
  ghost predicate NoGroupRule(t: string) {
    && !(|t| > 0 && t[0] == '(' && t[|t| - 1] == ')')
    && forall c :: IsCallOf(t, c) ==> ChainFactor(c.name, c.arg).None?
  }

  /** Text to which no earlier rule applies reaches the base stage. */
  ghost predicate ReachesBaseStage(t: string, v: string) {
    IsTrimmed(t) && NoOperatorSplit(t) && NoPowerRule(t, v) && NoGroupRule(t)
  }

  lemma {:induction false} ReachesBase(t: string, v: string)
    requires ReachesBaseStage(t, v)
    ensures Differentiate(t, v) == DiffBase(t, v)
  {
    ReachesGroup(t, v);
    var m := FuncMatch(t);
    if m.Some? {
      assert IsCallOf(t, m.value);
    }
  }

  /** The variable itself, once it reaches the base stage, has derivative `1`. */
  lemma {:induction false} VariableRule(v: string)
    requires ReachesBaseStage(v, v)
    ensures Differentiate(v, v) == "1"
  {
    ReachesBase(v, v);
  }

  /** A variable named by a word reaches the base stage, so its derivative is `1`. */
  lemma {:induction false} WordVariableRule(v: string)
    requires IsWord(v)
    ensures ReachesBaseStage(v, v)
    ensures Differentiate(v, v) == "1"
  {
    assert IsTrimmed(v) by { assert IsWordChar(v[0]) && IsWordChar(v[|v| - 1]); }
    forall j | 0 <= j < |v| ensures !IsPowerSplit(v, j) {
      assert IsWordChar(v[j]);
    }
    forall kind: OpKind ensures NoSplit(v, kind) {
      forall j | 0 <= j < |v| ensures !ValidSplit(v, j, kind) {
        assert IsWordChar(v[j]);
      }
    }
    forall i | 0 <= i < |v| ensures v[i] != '(' {
      assert IsWordChar(v[i]);
    }
    assert IsWordChar(v[0]);
    VariableRule(v);
  }

  /** Text at the base stage that does not contain the variable, and is not the variable, gives `0`. */
  lemma {:induction false} ConstantRule(t: string, v: string)
    requires ReachesBaseStage(t, v)
    requires t != v && !Contains(t, v)
    ensures Differentiate(t, v) == "0"
  {
    ReachesBase(t, v);
  }

  /** `<number><spaces><letter>` with the variable as the letter gives the number's text as written. */
  lemma {:induction false} CoefficientRule(t: string, v: string, c: Coefficient)
    requires ReachesBaseStage(t, v)
    requires IsCoefficientOf(t, c) && [c.letter] == v
    ensures Differentiate(t, v) == c.digits
  {
    ReachesBase(t, v);
    CoefficientBase(t, v, c);
  }

  lemma {:induction false} CoefficientBase(t: string, v: string, c: Coefficient)
    requires IsCoefficientOf(t, c) && [c.letter] == v
    ensures DiffBase(t, v) == c.digits
  {
    CoeffMatchComplete(t, c);
    assert t[|t| - 1..|t|] == v;
    assert OccursAt(t, v, |t| - 1);
    assert |t| > 1 && t != v;
  }

  /**
   * The fallback: text at the base stage that contains the variable, is not the variable,
   * and is no coefficient of it gives `\frac{d}{d<var>}(<text>)`.
   */
  lemma {:induction false} FallbackRule(t: string, v: string)
    requires ReachesBaseStage(t, v)
    requires t != v && Contains(t, v)
    requires forall c :: IsCoefficientOf(t, c) ==> [c.letter] != v
    ensures Differentiate(t, v) == "\\frac{d}{d" + v + "}(" + t + ")"
  {
    ReachesBase(t, v);
    var c := CoeffMatch(t);
    if c.Some? {
      assert IsCoefficientOf(t, c.value);
    }
  }

  /** A decimal ends with a digit. */
  lemma {:induction false} DecimalEndsWithDigit(c: string)
    requires IsDecimal(c)
    ensures c != [] && IsDigit(c[|c| - 1])
  {
    var p := DigitPrefix(c);
    if p < |c| {
      var frac := c[p + 1..];
      assert c[|c| - 1] == frac[|frac| - 1];
    }
  }

  /** Every `<number><spaces><letter>` text is matched, with that number and letter. */
  lemma {:induction false} CoeffMatchComplete(t: string, c: Coefficient)
    requires IsCoefficientOf(t, c)
    ensures CoeffMatch(t) == Some(c)
  {
    DecimalEndsWithDigit(c.digits);
    var body := t[..|t| - 1];
    var n := |c.digits|;
    assert body[..n] == c.digits;
    assert body[n..] == t[n..|t| - 1];
    SpanEndOfThenSpace(body, n);
  }

  /** The trailing whitespace run of `s` starts at `n` when `s[n..]` is whitespace after a non-space. */
  lemma {:induction false} SpanEndOfThenSpace(s: string, n: nat)
    requires 0 < n <= |s| && !IsSpace(s[n - 1]) && AllSpace(s[n..])
    ensures SpanEnd(s) == n
    decreases |s|
  {
    if |s| > n {
      var s' := s[..|s| - 1];
      assert s'[n..] == s[n..|s| - 1];
      assert IsSpace(s[|s| - 1]) by { assert s[|s| - 1] == s[n..][|s| - 1 - n]; }
      SpanEndOfThenSpace(s', n);
    }
  }

  /**
   * The derivative of single-line text with respect to a single-line variable name is a
   * single line: every character of a result comes from the input, the variable's name,
   * digits, or the templates' fixed text.
   */
  lemma {:induction false} DifferentiateSingleLine(expr: string, v: string)
    requires SingleLine(expr) && SingleLine(v)
    ensures SingleLine(Differentiate(expr, v))
    decreases |expr|, 3
  {
    var t := Trim(expr);
    TrimSingleLine(expr);
    match LastSplit(t, Additive, |t|)
    case Some(i) =>
      var (left, right) := SplitSides(t, i);
      SidesSingleLine(t, i);
      DifferentiateSingleLine(left, v);
      DifferentiateSingleLine(right, v);
      SumTextSingleLine(Differentiate(left, v), t[i], Differentiate(right, v));
    case None =>
      match LastSplit(t, Multiplicative, |t|)
      case Some(i) =>
        var (left, right) := SplitSides(t, i);
        SidesSingleLine(t, i);
        DifferentiateSingleLine(left, v);
        DifferentiateSingleLine(right, v);
        ProductTextSingleLine(Differentiate(left, v), left, right, Differentiate(right, v));
      case None =>
        match LastSplit(t, Divisive, |t|)
        case Some(i) =>
          var (left, right) := SplitSides(t, i);
          SidesSingleLine(t, i);
          DifferentiateSingleLine(left, v);
          DifferentiateSingleLine(right, v);
          QuotientTextSingleLine(Differentiate(left, v), left, right, Differentiate(right, v));
        case None =>
          DiffPowerSingleLine(t, v);
  }

  lemma {:induction false} SidesSingleLine(t: string, i: nat)
    requires SingleLine(t) && i < |t|
    ensures SingleLine(SplitSides(t, i).0) && SingleLine(SplitSides(t, i).1)
  {
    SliceSingleLine(t, 0, i);
    SliceSingleLine(t, i + 1, |t|);
    assert t[..i] == t[0..i] && t[i + 1..] == t[i + 1..|t|];
    TrimSingleLine(t[..i]);
    TrimSingleLine(t[i + 1..]);
  }

  lemma {:induction false} DiffPowerSingleLine(t: string, v: string)
    requires IsTrimmed(t) && SingleLine(t) && SingleLine(v)
    ensures SingleLine(DiffPower(t, v))
    decreases |t|, 2
  {
    var p := PowerSplit(t);
    if p.Some? && !Contains(PowerExponent(t, p.value), v) {
      var k := p.value;
      var base, e := PowerBase(t, k), PowerExponent(t, k);
      PowerPieces(t, k);
      if base == v && IsDigits(e) {
        PowerOfVariableSingleLine(DigitsValue(e), v);
      } else {
        DifferentiateSingleLine(base, v);
        PowerTextSingleLine(e, base, Differentiate(base, v));
      }
    } else {
      DiffGroupSingleLine(t, v);
    }
  }

  lemma {:induction false} DiffGroupSingleLine(t: string, v: string)
    requires IsTrimmed(t) && SingleLine(t) && SingleLine(v)
    ensures SingleLine(DiffGroup(t, v))
    decreases |t|, 1
  {
    if |t| > 0 && t[0] == '(' && t[|t| - 1] == ')' {
      SliceSingleLine(t, 1, |t| - 1);
      DifferentiateSingleLine(t[1..|t| - 1], v);
    } else {
      var m := FuncMatch(t);
      if m.Some? && ChainFactor(m.value.name, m.value.arg).Some? {
        var u := m.value.arg;
        DifferentiateSingleLine(u, v);
        ChainFactorSingleLine(m.value.name, u);
        ChainTextSingleLine(ChainFactor(m.value.name, u).value, Differentiate(u, v));
      } else {
        DiffBaseSingleLine(t, v);
      }
    }
  }

  lemma {:induction false} DiffBaseSingleLine(t: string, v: string)
    requires SingleLine(t) && SingleLine(v)
    ensures SingleLine(DiffBase(t, v))
  {
    if t != v && Contains(t, v) {
      var c := CoeffMatch(t);
      if c.Some? && [c.value.letter] == v {
        SliceSingleLine(t, 0, |c.value.digits|);
        assert c.value.digits == t[0..|c.value.digits|];
      } else {
        FormalSingleLine(t, v);
      }
    }
  }

  lemma SumTextSingleLine(dl: string, op: char, dr: string)
    requires IsResult(dl) && SingleLine(dl) && SingleLine(dr) && !IsLineTerminator(op)
    ensures SingleLine(SumText(dl, op, dr))
  {
    assert forall ch :: ch in SumText(dl, op, dr) ==> ch in dl || ch in dr || ch == ' ' || ch == op;
  }

  lemma ProductTextSingleLine(dl: string, left: string, right: string, dr: string)
    requires SingleLine(dl) && SingleLine(left) && SingleLine(right) && SingleLine(dr)
    ensures SingleLine(ProductText(dl, left, right, dr))
  {
    var r := ProductText(dl, left, right, dr);
    assert forall ch :: ch in r ==> ch in dl || ch in dr || ch in left || ch in right || ch in "() *+";
  }

  lemma QuotientTextSingleLine(dl: string, left: string, right: string, dr: string)
    requires SingleLine(dl) && SingleLine(left) && SingleLine(right) && SingleLine(dr)
    ensures SingleLine(QuotientText(dl, left, right, dr))
  {
    var r := QuotientText(dl, left, right, dr);
    assert forall ch :: ch in r ==> ch in dl || ch in dr || ch in left || ch in right || ch in "() *-/^2";
  }

  lemma PowerTextSingleLine(e: string, base: string, db: string)
    requires IsResult(e) && SingleLine(e) && SingleLine(base) && SingleLine(db)
    ensures SingleLine(PowerText(e, base, db))
  {
    var r := PowerText(e, base, db);
    assert forall ch :: ch in r ==> ch in e || ch in base || ch in db || ch in " *()^{}-1";
  }

  lemma ChainTextSingleLine(f: string, du: string)
    requires IsResult(f) && SingleLine(f) && SingleLine(du)
    ensures SingleLine(ChainText(f, du))
  {
    assert forall ch :: ch in ChainText(f, du) ==> ch in f || ch in du || ch in " *()";
  }

  lemma ChainFactorSingleLine(name: string, u: string)
    requires SingleLine(u) && ChainFactor(name, u).Some?
    ensures SingleLine(ChainFactor(name, u).value)
  {
    if name == "sin" {
      WrapSingleLine("\\cos(", u, ")");
    } else if name == "cos" {
      WrapSingleLine("-\\sin(", u, ")");
    } else if name == "tan" {
      WrapSingleLine("\\sec^2(", u, ")");
    } else if name == "exp" {
      WrapSingleLine("\\exp(", u, ")");
    } else if name == "ln" || name == "log" {
      WrapSingleLine("\\frac{1}{", u, "}");
    } else {
      WrapSingleLine("\\frac{1}{2\\sqrt{", u, "}}");
    }
  }

  /** Single-line text between two single-line texts stays single-line. */
  lemma {:induction false} WrapSingleLine(p: string, u: string, q: string)
    requires SingleLine(p) && SingleLine(u) && SingleLine(q)
    ensures SingleLine(p + u + q)
  {
    var s := p + u + q;
    forall i | 0 <= i < |s| ensures !IsLineTerminator(s[i]) {
      if i < |p| {
        assert s[i] == p[i];
      } else if i < |p| + |u| {
        assert s[i] == u[i - |p|];
      } else {
        assert s[i] == q[i - |p| - |u|];
      }
    }
  }

  lemma DigitsSingleLine(s: string)
    requires AllDigits(s)
    ensures SingleLine(s)
  {
    assert forall j :: 0 <= j < |s| ==> IsDigit(s[j]);
  }

  lemma PowerOfVariableSingleLine(n: nat, v: string)
    requires SingleLine(v)
    ensures SingleLine(PowerOfVariable(n, v))
  {
    if n != 1 && n != 2 {
      var a, b := NatText(n), IntText(n - 1);
      DigitsSingleLine(a);
      var m: nat := if n == 0 then 1 else n - 1;
      DigitsSingleLine(NatText(m));
      assert forall ch :: ch in b ==> ch == '-' || ch in NatText(m);
      assert forall ch :: ch in PowerOfVariable(n, v) ==> ch in a || ch in v || ch in b || ch in "^{}";
    }
  }

  lemma FormalSingleLine(t: string, v: string)
    requires SingleLine(t) && SingleLine(v)
    ensures SingleLine(Formal(t, v))
  {
    assert forall ch :: ch in Formal(t, v) ==> ch in t || ch in v || ch in "\\frac{d}()";
  }
}
