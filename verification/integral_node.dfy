/**
 * The integral widget's state: the integrand, its variable and the two bounds, the placeholders
 * that show them, and whether a computation is scheduled. Input 1 carries a function line,
 * inputs 2 and 0 carry the lower and upper bound as `<name> = <value>` lines.
 */
module IntegralNode {
  import opened Wrappers
  import opened Text
  import opened FunctionLine
  import opened IntegralText
  import opened IntegralCleanup
  import opened IntegralResult

  /**
   * What the widget sends once the integral is known: the bare value for a definite integral
   * (both bounds typed, before sanitising), else the function line of the antiderivative.
   */
  function EmittedIntegral(integral: string, v: string, lower: string, upper: string): (line: string)
    ensures lower != [] && upper != [] ==> line == integral
    ensures lower == [] || upper == [] ==> line == Format(v, integral)
  {
    if lower != [] && upper != [] then integral else Format(v, integral)
  }

  /**
   * An antiderivative sent on reaches the next widget as the same variable and body, when the
   * variable is a word and the result a non-empty trimmed single line.
   */
  lemma {:induction false} EmittedIntegralRoundTrip(integral: string, v: string, lower: string, upper: string)
    requires lower == [] || upper == []
    requires IsWord(v) && integral != [] && IsTrimmed(integral) && SingleLine(integral)
    ensures ParseInput(EmittedIntegral(integral, v, lower, upper)) == Definition(v, integral)
  {
    FormatRoundTrip(v, integral);
  }

  /**
   * A bound typed as nothing but invisible operators counts as present for the value sent on,
   * although the query, built from the sanitized bounds, is indefinite.
   */
  lemma InvisibleBoundSplitsForms()
    ensures !IsDefinite("\U{2062}", "1")
    ensures EmittedIntegral("v", "x", "\U{2062}", "1") == "v"
  {
    assert Sanitize("\U{2062}") == Sanitize([]);
  }

  /** Bounds free of invisible operators make the value sent on agree with the query's form. */
  lemma {:induction false} EmittedAgreesWithQuery(integral: string, v: string, lower: string, upper: string)
    requires NoInvisible(lower) && NoInvisible(upper)
    ensures IsDefinite(lower, upper) ==> EmittedIntegral(integral, v, lower, upper) == integral
    ensures !IsDefinite(lower, upper) ==> EmittedIntegral(integral, v, lower, upper) == Format(v, integral)
  {
  }

  /**
   * `_fetchIntegralFromWolfram`: the engine answers the query; definiteness, decided on the
   * sanitized bounds, picks the pod ids and whether `constant` becomes `c`. `None` is the
   * thrown error.
   */
  function FetchIntegral(expr: string, v: string, lower: string, upper: string,
                         engine: string -> Answer, convert: string -> string): (r: Option<string>)
    ensures r.Some? ==> IsTrimmed(r.value)
    ensures !engine(IntegralQuery(expr, v, lower, upper)).success ==> r.None?
  {
    IntegralFromAnswer(engine(IntegralQuery(expr, v, lower, upper)), IsDefinite(lower, upper), convert)
  }

  /**
   * The result is read as definite exactly when the query sent was the definite one: the
   * choice of pods and of clean-up follows the query's own form.
   */
  lemma {:induction false} FetchFollowsQuery(expr: string, v: string, lower: string, upper: string,
                                             engine: string -> Answer, convert: string -> string)
    ensures var q := IntegralQuery(expr, v, lower, upper);
            FetchIntegral(expr, v, lower, upper, engine, convert)
              == IntegralFromAnswer(engine(q), q[..5] == "\\int_", convert)
  {
    QueryFormChoice(expr, v, lower, upper);
  }

  /**
   * A result comes from the pod first in priority among the ids for the query's form, its
   * first subpod's MathML converted and cleaned up; no result means the engine failed or no
   * pod answers for any of those ids.
   */
  lemma {:induction false} FetchChoosesFirst(expr: string, v: string, lower: string, upper: string,
                                             engine: string -> Answer, convert: string -> string)
    ensures var d, answer := IsDefinite(lower, upper), engine(IntegralQuery(expr, v, lower, upper));
            var r := FetchIntegral(expr, v, lower, upper, engine, convert);
            && (r.Some? ==>
                  exists i, j :: FirstInPriority(PodIds(d), answer.pods, i, j)
                    && r.value == CleanResult(convert(answer.pods[j].subpods[0].mathml), d))
            && (r.None? ==>
                  || !answer.success
                  || forall i, j :: 0 <= i < |PodIds(d)| && 0 <= j < |answer.pods| ==> !Takes(answer.pods[j], PodIds(d)[i]))
  {
    var d, answer := IsDefinite(lower, upper), engine(IntegralQuery(expr, v, lower, upper));
    SelectPodIsFirst(PodIds(d), answer.pods);
  }

  class IntegralNodeUI {
    var inputExpr: string
    var inputVar: string
    var inputLower: string
    var inputUpper: string
    /** The text of the `var`, `expr`, `lower` and `upper` placeholders. */
    var promptVar: string
    var promptExpr: string
    var promptLower: string
    var promptUpper: string
    /** A computation has been scheduled (after the debounce delay) and not yet run. */
    var scheduled: bool

    /** A new widget: no integrand, variable `x`, no bounds, nothing scheduled. */
    constructor ()
      ensures inputExpr == "" && inputVar == "x" && inputLower == "" && inputUpper == ""
      ensures promptVar == "x" && promptExpr == "" && promptLower == "" && promptUpper == ""
      ensures !scheduled
    {
      inputExpr := "";
      inputVar := "x";
      inputLower := "";
      inputUpper := "";
      promptVar := "x";
      promptExpr := "";
      promptLower := "";
      promptUpper := "";
      scheduled := false;
    }

    /**
     * `inputChange`: input 1 is read as `f(<var>) = <body>` or else as a body in `x`; input 2
     * sets the lower bound and input 0 the upper bound, each the trimmed text after the first
     * `=` (empty without one). Any index schedules a computation.
     */
    method InputChange(index: int, value: string)
      modifies this
      ensures index == 1 ==> inputVar == ParseInput(value).variable && inputExpr == ParseInput(value).body
      ensures index != 1 ==> inputVar == old(inputVar) && inputExpr == old(inputExpr)
      ensures index == 2 ==> inputLower == BoundText(value)
      ensures index != 2 ==> inputLower == old(inputLower)
      ensures index == 0 ==> inputUpper == BoundText(value)
      ensures index != 0 ==> inputUpper == old(inputUpper)
      ensures index == 1 ==> promptVar == inputVar && promptExpr == inputExpr
      ensures index != 1 ==> promptVar == old(promptVar) && promptExpr == old(promptExpr)
      ensures index == 2 ==> promptLower == inputLower
      ensures index != 2 ==> promptLower == old(promptLower)
      ensures index == 0 ==> promptUpper == inputUpper
      ensures index != 0 ==> promptUpper == old(promptUpper)
      ensures scheduled
    {
      var v, x, lo, hi := inputVar, inputExpr, inputLower, inputUpper;
      if index == 1 {
        var parsed := ParseInput(value);
        v, x := parsed.variable, parsed.body;
      } else if index == 2 {
        lo := BoundText(value);
      } else if index == 0 {
        hi := BoundText(value);
      }
      inputVar, inputExpr, inputLower, inputUpper := v, x, lo, hi;
      promptVar, promptExpr, promptLower, promptUpper :=
        if index == 1 then v else promptVar,
        if index == 1 then x else promptExpr,
        if index == 2 then lo else promptLower,
        if index == 0 then hi else promptUpper;
      scheduled := true;
    }

    /**
     * The `input` listener: the user edited the placeholders, which now hold the typed texts,
     * and these become the inputs; an empty variable placeholder means `x`. A computation is
     * scheduled.
     */
    method OnInput(typedVar: string, typedExpr: string, typedLower: string, typedUpper: string)
      modifies this
      ensures inputVar == (if typedVar == [] then "x" else typedVar)
      ensures inputExpr == typedExpr && inputLower == typedLower && inputUpper == typedUpper
      ensures promptVar == typedVar && promptExpr == typedExpr
      ensures promptLower == typedLower && promptUpper == typedUpper
      ensures scheduled
    {
      promptVar, promptExpr, promptLower, promptUpper := typedVar, typedExpr, typedLower, typedUpper;
      inputVar := if typedVar == [] then "x" else typedVar;
      inputExpr := typedExpr;
      inputLower := typedLower;
      inputUpper := typedUpper;
      scheduled := true;
    }

    /** The query text for the current inputs. */
    function Query(): (q: string)
      reads this
      ensures |q| >= 5 && (q[..5] == "\\int_" <==> IsDefinite(inputLower, inputUpper))
    {
      QueryFormChoice(inputExpr, inputVar, inputLower, inputUpper);
      IntegralQuery(inputExpr, inputVar, inputLower, inputUpper)
    }
  }

  /**
   * A function line on input 1 followed by bound lines on inputs 2 and 0 leaves the widget
   * asking for the definite integral of the line's body between the two bound values.
   */
  method DefiniteSession(v: string, e: string, lo: string, hi: string) returns (q: string)
    requires IsWord(v) && e != [] && !IsSpace(e[0]) && SingleLine(e)
    requires SingleLine(lo) && SingleLine(hi)
    requires NoInvisible(Trim(lo)) && NoInvisible(Trim(hi)) && Trim(lo) != [] && Trim(hi) != []
    ensures q == IntegralQuery(e, v, Trim(lo), Trim(hi))
    ensures q[..5] == "\\int_"
  {
    var node := new IntegralNodeUI();
    node.InputChange(1, Format(v, e));
    FormatRoundTrip(v, e);
    node.InputChange(2, "f(" + v + ") = " + lo);
    BoundOfFunctionLine(v, lo);
    node.InputChange(0, "f(" + v + ") = " + hi);
    BoundOfFunctionLine(v, hi);
    SanitizeKeepsClean(Trim(lo));
    SanitizeKeepsClean(Trim(hi));
    q := node.Query();
  }
}
