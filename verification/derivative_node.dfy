/**
 * The derivative widget's state: the expression and variable it differentiates, the three
 * placeholders it shows (variable, expression, result), and the values it has sent on its
 * output connection. It takes a new expression from an incoming `f(<var>) = <body>` line or
 * from the user's edits, and after each change shows the derivative and emits
 * `f(<var>) = <derivative>`, or the empty string when there is no expression.
 */
module DerivativeNode {
  import opened Text
  import opened FunctionLine
  import opened Differentiation
  import opened DifferentiationRules

  /** The text shown in the result placeholder: empty without an expression, else the derivative. */
  function ResultText(expr: string, v: string): (r: string)
    ensures r == [] <==> expr == []
  {
    if expr == [] then [] else Differentiate(expr, v)
  }

  /** The value sent on the output after a computation. */
  function EmittedLine(expr: string, v: string): (line: string)
    ensures line == [] <==> expr == []
  {
    if expr == [] then [] else Format(v, Differentiate(expr, v))
  }

  lemma NonEmptyResult(expr: string, v: string)
    requires expr != []
    ensures ResultText(expr, v) == Differentiate(expr, v)
    ensures EmittedLine(expr, v) == Format(v, Differentiate(expr, v))
  {
  }

  /**
   * A widget that receives the emitted line reads back the same variable and the derivative
   * as its expression, when the variable is a word and the expression a non-empty single line.
   */
  lemma {:induction false} EmittedRoundTrip(expr: string, v: string)
    requires IsWord(v) && expr != [] && SingleLine(expr)
    ensures ParseInput(EmittedLine(expr, v)) == Definition(v, Differentiate(expr, v))
  {
    assert SingleLine(v) by { assert forall i :: 0 <= i < |v| ==> IsWordChar(v[i]); }
    DifferentiateSingleLine(expr, v);
    FormatRoundTrip(v, Differentiate(expr, v));
  }

  class DerivativeNodeUI {
    /** The expression to differentiate. */
    var inputExpr: string
    /** The name of the variable. */
    var inputVar: string
    /** The text of the `var`, `expr` and `result` placeholders. */
    var promptVar: string
    var promptExpr: string
    var promptResult: string
    /** Whether an output connection exists. */
    const connected: bool
    /** The values sent on the output connection, oldest first. */
    var sent: seq<string>

    /** A new widget: no expression, variable `x`, empty placeholders except `x` for the variable. */
    constructor (connected: bool)
      ensures inputExpr == "" && inputVar == "x"
      ensures promptVar == "x" && promptExpr == "" && promptResult == ""
      ensures this.connected == connected && sent == []
    {
      inputExpr := "";
      inputVar := "x";
      promptVar := "x";
      promptExpr := "";
      promptResult := "";
      this.connected := connected;
      sent := [];
    }

    /**
     * `_computeDerivative`: show the derivative of the current expression (nothing when it
     * is empty) and, when connected, send `f(<var>) = <derivative>` (the empty string when
     * the expression is empty).
     */
    method ComputeDerivative()
      modifies this
      ensures promptResult == ResultText(inputExpr, inputVar)
      ensures sent == old(sent) + (if connected then [EmittedLine(inputExpr, inputVar)] else [])
      ensures inputExpr == old(inputExpr) && inputVar == old(inputVar)
      ensures promptVar == old(promptVar) && promptExpr == old(promptExpr)
    {
      var expr := inputExpr;
      var v := inputVar;
      if expr == [] {
        promptResult := "";
        if connected {
          sent := sent + [""];
        }
        return;
      }
      var derivative := Differentiate(expr, v);
      NonEmptyResult(expr, v);
      promptResult := derivative;
      if connected {
        sent := sent + [Format(v, derivative)];
      }
    }

    /**
     * `inputChange`: a value on input 0 is read as `f(<var>) = <body>`, or else as a body
     * in `x`; the variable and expression are shown and the derivative recomputed. Values
     * on other inputs are ignored.
     */
    method InputChange(index: int, value: string)
      modifies this
      ensures index == 0 ==>
        && inputVar == ParseInput(value).variable && inputExpr == ParseInput(value).body
        && promptVar == inputVar && promptExpr == inputExpr
        && promptResult == ResultText(inputExpr, inputVar)
        && sent == old(sent) + (if connected then [EmittedLine(inputExpr, inputVar)] else [])
      ensures index != 0 ==> unchanged(this)
    {
      if index == 0 {
        var parsed := ParseInput(value);
        inputVar := parsed.variable;
        inputExpr := parsed.body;
        promptVar := inputVar;
        promptExpr := inputExpr;
        ComputeDerivative();
      }
    }

    /**
     * The `input` listener: the user edited the placeholders; an empty variable placeholder
     * means `x`. The derivative is recomputed.
     */
    method OnInput(typedVar: string, typedExpr: string)
      modifies this
      ensures promptVar == typedVar && promptExpr == typedExpr
      ensures inputVar == (if typedVar == [] then "x" else typedVar) && inputExpr == typedExpr
      ensures promptResult == ResultText(inputExpr, inputVar)
      ensures sent == old(sent) + (if connected then [EmittedLine(inputExpr, inputVar)] else [])
    {
      promptVar := typedVar;
      promptExpr := typedExpr;
      inputVar := if typedVar == [] then "x" else typedVar;
      inputExpr := typedExpr;
      ComputeDerivative();
    }
  }
}
