/**
 * Worked cases of the differentiator, each obtained from the rule lemmas: a whole-number
 * power of the variable, a coefficient, and a function from the table.
 */
module DifferentiationExamples {
  import opened Wrappers
  import opened Text
  import opened Differentiation
  import opened DifferentiationRules

  /** A one-character name occurs in text exactly when that character does. */
  lemma ContainsSingle(s: string, c: char)
    ensures Contains(s, [c]) <==> c in s
  {
    if c in s {
      var i :| 0 <= i < |s| && s[i] == c;
      assert s[i..i + 1] == [c];
      assert OccursAt(s, [c], i);
    }
    if Contains(s, [c]) {
      var i :| 0 <= i <= |s| - 1 && OccursAt(s, [c], i);
      assert s[i] == s[i..i + 1][0];
    }
  }

  /** Text without `+`, `-`, `*` and `/` has no operator split. */
  lemma NoOperatorNoSplit(t: string)
    requires '+' !in t && '-' !in t && '*' !in t && '/' !in t
    ensures NoOperatorSplit(t)
  {
    forall kind: OpKind, j | 0 <= j < |t| ensures !ValidSplit(t, j, kind) {
      assert t[j] in t;
    }
  }

  /** Text without `^` leaves the power rule out. */
  lemma NoCaretNoPower(t: string, v: string)
    requires '^' !in t
    ensures NoPowerRule(t, v)
  {
    forall k | 0 <= k < |t| ensures !LastPowerSplit(t, k) {
      assert t[k] in t;
    }
  }

  /** Text that does not end with `)` is no call. */
  lemma NoCloseNoCall(t: string)
    requires t == [] || t[|t| - 1] != ')'
    ensures forall c :: !IsCallOf(t, c)
  {}

  lemma PowerPiecesOf(t: string, k: nat, base: string, e: string)
    requires k < |t| && t[..k] == base && t[k + 1..] == e && IsTrimmed(base) && IsTrimmed(e)
    ensures PowerBase(t, k) == base && PowerExponent(t, k) == e
  {
    TrimOfTrimmed(base);
    TrimOfTrimmed(e);
  }

  lemma CubeShape()
    ensures NoOperatorSplit("x^3") && LastPowerSplit("x^3", 1)
  {
    NoOperatorNoSplit("x^3");
  }

  lemma CubePieces()
    ensures PowerBase("x^3", 1) == "x" && PowerExponent("x^3", 1) == "3"
  {
    PowerPiecesOf("x^3", 1, "x", "3");
  }

  lemma CubeNumbers()
    ensures !Contains("3", "x") && DigitsValue("3") == 3
    ensures NatText(3) + "x" + "^{" + IntText(2) + "}" == "3x^{2}"
  {
    ContainsSingle("3", 'x');
    assert "3"[..0] == [];
    assert DigitChar(3) == '3' && DigitChar(2) == '2';
  }

  /** `x^3` gives `3x^{2}`. */
  lemma CubeExample()
    ensures Differentiate("x^3", "x") == "3x^{2}"
  {
    CubeShape();
    CubePieces();
    CubeNumbers();
    PowerOfVariableRule("x^3", "x", 1);
  }

  /** `5x` gives `5`. */
  lemma CoefficientExample()
    ensures Differentiate("5x", "x") == "5"
  {
    var t := "5x";
    NoOperatorNoSplit(t);
    NoCaretNoPower(t, "x");
    NoCloseNoCall(t);
    assert IsCoefficientOf(t, Coefficient("5", 'x'));
    CoefficientRule(t, "x", Coefficient("5", 'x'));
  }

  lemma SineChars(v: string)
    requires IsWord(v)
    ensures var t := "sin(" + v + ")";
            '+' !in t && '-' !in t && '*' !in t && '/' !in t && '^' !in t
  {
    forall ch | ch in v ensures IsWordChar(ch) { }
  }

  lemma SineFacts(v: string)
    requires IsWord(v)
    ensures var t := "sin(" + v + ")";
            IsTrimmed(t) && NoOperatorSplit(t) && NoPowerRule(t, v) && IsCallOf(t, Call("sin", v))
  {
    var t := "sin(" + v + ")";
    SineChars(v);
    NoOperatorNoSplit(t);
    NoCaretNoPower(t, v);
  }

  lemma SineText(v: string, f: string)
    requires f == "\\cos(" + v + ")"
    ensures f + " * (" + "1" + ")" == "\\cos(" + v + ") * (1)"
  {}

  /** `sin(<v>)` for a variable named by a word: `\cos(<v>) * (1)`. */
  lemma SineExample(v: string)
    requires IsWord(v)
    ensures Differentiate("sin(" + v + ")", v) == "\\cos(" + v + ") * (1)"
  {
    SineFacts(v);
    ChainRule("sin(" + v + ")", v, Call("sin", v));
    WordVariableRule(v);
    SineText(v, ChainFactor("sin", v).value);
  }
}
