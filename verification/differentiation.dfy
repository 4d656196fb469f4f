/**
 * The derivative widget's symbolic differentiator. It works on the text itself: after
 * trimming, it tries a fixed sequence of rules, and the first that applies decides the
 * result, recursing on shorter pieces of the text. The stages are Differentiate (the three
 * operator splits), DiffPower (the power pattern), DiffGroup (outer parentheses and the
 * function table) and DiffBase (the variable, constants, `<number><letter>`, and the
 * formal `\frac{d}{d<var>}(...)` that stands for "no rule applies").
 */
module Differentiation {
  import opened Wrappers
  import opened Text

  /** The three operator classes, in the order the splits are tried. */
  datatype OpKind = Additive | Multiplicative | Divisive

  predicate IsOperator(kind: OpKind, c: char) {
    match kind
    case Additive => c == '+' || c == '-'
    case Multiplicative => c == '*'
    case Divisive => c == '/'
  }

  /** How a character moves the bracket counter of the right-to-left scans. */
  function Delta(c: char): int {
    if c == ')' || c == '}' then 1 else if c == '(' || c == '{' then -1 else 0
  }

  /** The counter after scanning `s` from its right end: closers minus openers. */
  function Depth(s: string): int {
    if s == [] then 0 else Delta(s[0]) + Depth(s[1..])
  }

  /**
   * Index `i` of `s` is a split point for `kind`: an operator of that kind, outside any
   * bracket counted from the right, not at the start for `+`/`-`, with text left on both
   * sides after trimming (a side trims to nothing exactly when it is all whitespace).
   */
  predicate ValidSplit(s: string, i: int, kind: OpKind) {
    && 0 <= i < |s|
    && IsOperator(kind, s[i])
    && (kind == Additive ==> i > 0)
    && Depth(s[i + 1..]) == 0
    && !AllSpace(s[..i])
    && !AllSpace(s[i + 1..])
  }

  /** No index of `s` is a split point for `kind`. */
  predicate NoSplit(s: string, kind: OpKind) {
    forall j :: 0 <= j < |s| ==> !ValidSplit(s, j, kind)
  }

  /** `i` is the rightmost split point for `kind`. */
  predicate RightmostSplit(s: string, i: int, kind: OpKind) {
    ValidSplit(s, i, kind) && forall j :: i < j < |s| ==> !ValidSplit(s, j, kind)
  }

  /** The rightmost split point for `kind` below `hi`, if any: what the scan returns when started at `hi - 1`. */
  function LastSplit(s: string, kind: OpKind, hi: nat): (r: Option<nat>)
    requires hi <= |s|
    ensures r.Some? ==> r.value < hi && ValidSplit(s, r.value, kind)
                        && forall j :: r.value < j < hi ==> !ValidSplit(s, j, kind)
    ensures r.None? ==> forall j :: 0 <= j < hi ==> !ValidSplit(s, j, kind)
  {
    if hi == 0 then None
    else if ValidSplit(s, hi - 1, kind) then Some(hi - 1)
    else LastSplit(s, kind, hi - 1)
  }

  lemma {:induction false} LastSplitIsRightmost(s: string, kind: OpKind)
    ensures LastSplit(s, kind, |s|).Some? ==> RightmostSplit(s, LastSplit(s, kind, |s|).value, kind)
    ensures LastSplit(s, kind, |s|).None? <==> NoSplit(s, kind)
  {}

  /** The rightmost split point is the one the split uses. */
  lemma {:induction false} LastSplitFindsRightmost(s: string, i: int, kind: OpKind)
    requires RightmostSplit(s, i, kind)
    ensures LastSplit(s, kind, |s|) == Some(i)
  {
    var r := LastSplit(s, kind, |s|);
    assert r.Some?;
    if r.value < i {
      assert false;
    }
  }

  /**
   * The right-to-left operator scan of `_differentiate`: a `depth` counter goes up on `)` and
   * `}` and down on `(` and `{`; an operator of the wanted kind seen at depth 0 is a split
   * when both trimmed sides are non-empty, and otherwise the scan goes on to the left.
   */
  method FindSplit(s: string, kind: OpKind) returns (r: Option<nat>)
    ensures r.Some? ==> RightmostSplit(s, r.value, kind)
    ensures r.None? ==> NoSplit(s, kind)
    ensures r == LastSplit(s, kind, |s|)
  {
    var depth := 0;
    var i := |s|;
    while i > 0
      invariant 0 <= i <= |s|
      invariant depth == Depth(s[i..])
      invariant forall j :: i <= j < |s| ==> !ValidSplit(s, j, kind)
    {
      i := i - 1;
      var c := s[i];
      DepthStep(s, i);
      SplitStep(s, i, kind);
      if c == ')' || c == '}' {
        depth := depth + 1;
      } else if c == '(' || c == '{' {
        depth := depth - 1;
      } else if depth == 0 && IsOperator(kind, c) && (kind != Additive || i > 0) {
        var (left, right) := SplitSides(s, i);
        if left != [] && right != [] {
          LastSplitFindsRightmost(s, i, kind);
          return Some(i);
        }
      }
    }
    LastSplitIsRightmost(s, kind);
    return None;
  }

  /** One step of the scan: the counter before index `i` is the counter after it plus `Delta(s[i])`. */
  lemma {:induction false} DepthStep(s: string, i: nat)
    requires i < |s|
    ensures Depth(s[i..]) == Delta(s[i]) + Depth(s[i + 1..])
  {
    assert s[i..][1..] == s[i + 1..];
  }

  /** Index `i` is a split exactly when the scan's test at `i` succeeds. */
  lemma {:induction false} SplitStep(s: string, i: nat, kind: OpKind)
    requires i < |s|
    ensures ValidSplit(s, i, kind) <==>
      && Depth(s[i + 1..]) == 0 && IsOperator(kind, s[i]) && (kind != Additive || i > 0)
      && SplitSides(s, i).0 != [] && SplitSides(s, i).1 != []
  {
    var left, right := Trim(s[..i]), Trim(s[i + 1..]);
  }

  /** `k` is an index the pattern `^(.+)\^(.+)$` can split at: a `^` with text on both sides of a single line. */
  predicate IsPowerSplit(s: string, k: int) {
    SingleLine(s) && 1 <= k && k + 1 < |s| && s[k] == '^'
  }

  /** `k` is the last index the power pattern can split at. */
  predicate LastPowerSplit(s: string, k: int) {
    IsPowerSplit(s, k) && forall j :: k < j < |s| ==> !IsPowerSplit(s, j)
  }

  /** The greedy `(.+)` before `\^` takes the last `^` that still leaves text after it. */
  function PowerSplit(s: string): (r: Option<nat>)
    ensures r.Some? ==> LastPowerSplit(s, r.value)
    ensures r.None? ==> forall j :: 0 <= j < |s| ==> !IsPowerSplit(s, j)
  {
    if !SingleLine(s) || |s| < 3 then None else LastCaretBelow(s, |s| - 1)
  }

  /** The last power split point below `hi`, scanning leftwards. */
  function LastCaretBelow(s: string, hi: nat): (r: Option<nat>)
    requires SingleLine(s) && hi < |s|
    ensures r.Some? ==> IsPowerSplit(s, r.value) && forall j :: r.value < j < hi ==> !IsPowerSplit(s, j)
    ensures r.None? ==> forall j :: 0 <= j < hi ==> !IsPowerSplit(s, j)
  {
    if hi <= 1 then None
    else if s[hi - 1] == '^' then Some(hi - 1)
    else LastCaretBelow(s, hi - 1)
  }

  /** The base of the power split at `k`. */
  function PowerBase(t: string, k: nat): string
    requires k <= |t|
  {
    Trim(t[..k])
  }

  /** The exponent of the power split at `k`. */
  function PowerExponent(t: string, k: nat): string
    requires k < |t|
  {
    Trim(t[k + 1..])
  }

  /** A name applied to an argument, `name(arg)`. */
  datatype Call = Call(name: string, arg: string)

  /** `t` reads as `name(arg)` with a word as the name and a non-empty single line as the argument. */
  predicate IsCallOf(t: string, c: Call) {
    t == c.name + "(" + c.arg + ")" && IsWord(c.name) && c.arg != [] && SingleLine(c.arg)
  }

  /**
   * The pattern `^(\w+)\((.+)\)$`: the name is the whole leading word, which must be followed
   * by `(`; the argument is everything between it and the final `)`.
   */
  function FuncMatch(t: string): (r: Option<Call>)
    ensures r.Some? ==> IsCallOf(t, r.value)
  {
    var k := WordPrefix(t);
    if 0 < k && k + 2 < |t| && t[k] == '(' && t[|t| - 1] == ')' && SingleLine(t[k + 1..|t| - 1]) then
      assert t == t[..k] + "(" + t[k + 1..|t| - 1] + ")";
      Some(Call(t[..k], t[k + 1..|t| - 1]))
    else None
  }

  /** Every `name(arg)` of that shape is matched, with that name and argument. */
  lemma {:induction false} FuncMatchComplete(t: string, c: Call)
    requires IsCallOf(t, c)
    ensures FuncMatch(t) == Some(c)
  {
    WordPrefixOfWordThen(c.name, "(" + c.arg + ")");
    assert t == c.name + ("(" + c.arg + ")");
    var k := |c.name|;
    assert t[..k] == c.name;
    assert t[k + 1..|t| - 1] == c.arg;
  }

  /** The derivative of the outer function at `u`, from the six-entry table; `None` for any other name. */
  function ChainFactor(name: string, u: string): (f: Option<string>)
    ensures f.Some? <==> name in {"sin", "cos", "tan", "exp", "ln", "log", "sqrt"}
    ensures f.Some? ==> IsResult(f.value)
  {
    if name == "sin" then Some("\\cos(" + u + ")")
    else if name == "cos" then Some("-\\sin(" + u + ")")
    else if name == "tan" then Some("\\sec^2(" + u + ")")
    else if name == "exp" then Some("\\exp(" + u + ")")
    else if name == "ln" || name == "log" then Some("\\frac{1}{" + u + "}")
    else if name == "sqrt" then Some("\\frac{1}{2\\sqrt{" + u + "}}")
    else None
  }

  /** A coefficient followed by a letter, `<number><spaces><letter>`. */
  datatype Coefficient = Coefficient(digits: string, letter: char)

  /** The pattern `\d+(?:\.\d+)?` as a whole. */
  predicate IsDecimal(c: string) {
    var p := DigitPrefix(c);
    p > 0 && (p == |c| || (c[p] == '.' && p + 1 < |c| && AllDigits(c[p + 1..])))
  }

  /** `t` reads as the decimal `c.digits`, whitespace, then the ASCII letter `c.letter`. */
  predicate IsCoefficientOf(t: string, c: Coefficient) {
    && IsDecimal(c.digits) && IsAsciiLetter(c.letter)
    && |c.digits| < |t| && t[..|c.digits|] == c.digits
    && AllSpace(t[|c.digits|..|t| - 1]) && t[|t| - 1] == c.letter
  }

  /**
   * The pattern `^(\d+(?:\.\d+)?)\s*([a-zA-Z])$`: the letter is the last character and the
   * number is what is left before it once the whitespace in between is cut off.
   */
  function CoeffMatch(t: string): (r: Option<Coefficient>)
    ensures r.Some? ==> IsCoefficientOf(t, r.value)
  {
    if |t| < 2 || !IsAsciiLetter(t[|t| - 1]) then None
    else
      var body := t[..|t| - 1];
      var b := SpanEnd(body);
      if IsDecimal(body[..b]) then
        assert t[b..|t| - 1] == body[b..];
        Some(Coefficient(body[..b], t[|t| - 1]))
      else None
  }

  /** `x^n` for a whole-number exponent: `1` for n = 1, `2<var>` for n = 2, else `<n><var>^{<n-1>}`. */
  function PowerOfVariable(n: nat, v: string): string {
    if n == 1 then "1"
    else if n == 2 then "2" + v
    else NatText(n) + v + "^{" + IntText(n - 1) + "}"
  }

  /** The formal derivative returned when no rule applies. */
  function Formal(t: string, v: string): string {
    "\\frac{d}{d" + v + "}(" + t + ")"
  }

  /** A result text: non-empty and not starting with whitespace, as every rule produces. */
  predicate IsResult(d: string) {
    d != [] && !IsSpace(d[0])
  }

  /** The sum rule's text: `<d(left)> <op> <d(right)>`. */
  function SumText(dl: string, op: char, dr: string): (r: string)
    requires IsResult(dl)
    ensures IsResult(r)
  {
    dl + " " + [op] + " " + dr
  }

  /** The product rule's text: `(<d(left)>) * (<right>) + (<left>) * (<d(right)>)`. */
  function ProductText(dl: string, left: string, right: string, dr: string): (r: string)
    ensures IsResult(r)
  {
    "(" + dl + ") * (" + right + ") + (" + left + ") * (" + dr + ")"
  }

  /** The quotient rule's text: `((<d(left)>) * (<right>) - (<left>) * (<d(right)>)) / (<right>)^2`. */
  function QuotientText(dl: string, left: string, right: string, dr: string): (r: string)
    ensures IsResult(r)
  {
    "((" + dl + ") * (" + right + ") - (" + left + ") * (" + dr + ")) / (" + right + ")^2"
  }

  /** The general power rule's text: `<e> * (<base>)^{<e> - 1} * (<d(base)>)`. */
  function PowerText(e: string, base: string, db: string): (r: string)
    requires IsResult(e)
    ensures IsResult(r)
  {
    e + " * (" + base + ")^{" + e + " - 1} * (" + db + ")"
  }

  /** The chain rule's text: `<f'(u)> * (<d(u)>)`. */
  function ChainText(f: string, du: string): (r: string)
    requires IsResult(f)
    ensures IsResult(r)
  {
    f + " * (" + du + ")"
  }

  /**
   * `_differentiate(expr, varName)`: trim, then split at the rightmost top-level `+`/`-`
   * (sum rule), else `*` (product rule), else `/` (quotient rule), else go on to the power
   * stage. Each recursive call is on a trimmed piece strictly shorter than the trimmed input.
   */
  function Differentiate(expr: string, v: string): (d: string)
    ensures IsResult(d)
    decreases |expr|, 3
  {
    var t := Trim(expr);
    match LastSplit(t, Additive, |t|)
    case Some(i) =>
      var (left, right) := SplitSides(t, i);
      SumText(Differentiate(left, v), t[i], Differentiate(right, v))
    case None =>
      match LastSplit(t, Multiplicative, |t|)
      case Some(i) =>
        var (left, right) := SplitSides(t, i);
        ProductText(Differentiate(left, v), left, right, Differentiate(right, v))
      case None =>
        match LastSplit(t, Divisive, |t|)
        case Some(i) =>
          var (left, right) := SplitSides(t, i);
          QuotientText(Differentiate(left, v), left, right, Differentiate(right, v))
        case None =>
          DiffPower(t, v)
  }

  /** The trimmed text on either side of index `i`, each shorter than `t`. */
  function SplitSides(t: string, i: nat): (sides: (string, string))
    requires i < |t|
    ensures |sides.0| < |t| && |sides.1| < |t|
  {
    (Trim(t[..i]), Trim(t[i + 1..]))
  }

  /**
   * The power stage: at the split of `^(.+)\^(.+)$`, an exponent that does not mention the
   * variable gives `PowerOfVariable` when the base is the variable and the exponent a whole
   * number, else the general rule `<e> * (<base>)^{<e> - 1} * (<d(base)>)`; otherwise the
   * text goes on to the grouping stage.
   */
  function DiffPower(t: string, v: string): (d: string)
    requires IsTrimmed(t)
    ensures IsResult(d)
    decreases |t|, 2
  {
    var p := PowerSplit(t);
    if p.Some? && !Contains(PowerExponent(t, p.value), v) then
      var k := p.value;
      var base, e := PowerBase(t, k), PowerExponent(t, k);
      PowerPieces(t, k);
      if base == v && IsDigits(e) then
        PowerOfVariable(DigitsValue(e), v)
      else
        PowerText(e, base, Differentiate(base, v))
    else
      DiffGroup(t, v)
  }

  /** Both sides of a power split of trimmed text are non-empty and single-line. */
  lemma PowerPieces(t: string, k: nat)
    requires IsTrimmed(t) && IsPowerSplit(t, k)
    ensures |PowerBase(t, k)| < |t|
    ensures IsResult(PowerExponent(t, k))
    ensures SingleLine(PowerBase(t, k)) && SingleLine(PowerExponent(t, k))
  {
    TrimSingleLine(t[..k]);
    TrimSingleLine(t[k + 1..]);
    var rest := t[k + 1..];
    assert rest[|rest| - 1] == t[|t| - 1];
  }

  /**
   * The grouping stage: text that starts with `(` and ends with `)` loses those two
   * characters, whether or not they match each other; then `name(arg)` with a name from the
   * table gives `<f'(arg)> * (<d(arg)>)`; anything else goes on to the base stage.
   */
  function DiffGroup(t: string, v: string): (d: string)
    requires IsTrimmed(t)
    ensures IsResult(d)
    decreases |t|, 1
  {
    if |t| > 0 && t[0] == '(' && t[|t| - 1] == ')' then
      Differentiate(t[1..|t| - 1], v)
    else
      var m := FuncMatch(t);
      if m.Some? && ChainFactor(m.value.name, m.value.arg).Some? then
        ChainText(ChainFactor(m.value.name, m.value.arg).value, Differentiate(m.value.arg, v))
      else
        DiffBase(t, v)
  }

  /**
   * The base stage: the variable itself gives `1`; text that does not contain the variable
   * gives `0`; `<number><letter>` with the variable as the letter gives the number's text;
   * anything else gives the formal derivative.
   */
  function DiffBase(t: string, v: string): (d: string)
    ensures IsResult(d)
  {
    if t == v then "1"
    else if !Contains(t, v) then "0"
    else
      var c := CoeffMatch(t);
      if c.Some? && [c.value.letter] == v then c.value.digits else Formal(t, v)
  }
}
