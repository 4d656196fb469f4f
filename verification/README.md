# Derivative and integral widgets: a Dafny model

This project models the string logic inside two widgets of a math notebook. The derivative
widget holds a small symbolic differentiator. The integral widget prepares a query for a
computation engine and reads the integral back out of the engine's answer.

- **Differentiator** (`Differentiation`, `DifferentiationRules`, `DifferentiationExamples`):
  `_differentiate(expr, var)` trims its input and then tries its rules in a fixed order.
  The order is: the rightmost top-level `+`/`-`, then `*`, then `/`; the power rule at the
  last `^`; one outer pair of parentheses; the chain rule for seven function names; the
  variable itself, variable-free text, and `<number><letter>`; and finally the formal
  derivative `\frac{d}{d<var>}(<expr>)`. The right-to-left operator scan is a loop method
  (`FindSplit`) proved equal to a recursive specification (`LastSplit`). The dispatcher is
  four mutually recursive stages (`Differentiate`, `DiffPower`, `DiffGroup`, `DiffBase`),
  which terminate because every recursive call gets a shorter string. Each rule is stated as
  a lemma giving the exact output text.
- **Function lines** (`FunctionLine`): the `f(<var>) = <body>` text that widgets exchange, the
  pattern `^f\((\w+)\)\s*=\s*(.+)$` that reads it back, and the round trip between the two.
- **Derivative widget** (`DerivativeNode`): a class holding the expression, the variable,
  the placeholder texts and the values sent on the output.
- **Integral text helpers** (`IntegralText`): the validity filter, the removal of the
  invisible operators U+2061–U+2064, the bound inputs (the trimmed text after the first
  `=`), and the definite or indefinite query template.
- **Integral result** (`IntegralCleanup`, `IntegralResult`): the clean-up of the converted
  answer, and the nested search over pod ids and pods, proved equal to a specification of
  "first by id priority, then by pod order".
- **Integral widget** (`IntegralNode`): a class holding the integrand, variable, bounds and
  placeholders, updated by `inputChange` and by the user's edits.

Strings are `seq<char>`. JavaScript's `\s` and `trim` whitespace set, `\w` and `\d` are
written out in `Text`; the word boundary `\b` is written out in `IntegralCleanup.ConstantAt`. The `.` of a regular expression does not match a line terminator, and
the model keeps that rule. The `i` flag folds only ASCII letters for these patterns, and
`LowerAscii` models exactly that.

Some details of the differentiator that are easy to get wrong:

- The power rule splits at the last `^` with text on both sides, as the greedy pattern
  `^(.+)\^(.+)$` does (dist/DerivativeNode.js:164).
- The fallback is `\frac{d}{d<var>}(<expr>)` (dist/DerivativeNode.js:232).
- The chain-rule factors use the LaTeX names `\cos`, `\sin`, `\sec^2` and `\exp`
  (dist/DerivativeNode.js:198-212).
- `_differentiate` has no recursion-depth limit. The model proves that it terminates.

The integral widget decides between the definite and the indefinite integral twice. The
query, the pod ids and the clean-up use the bounds after the invisible operators are removed
(`FetchIntegral`). The value sent on uses the bounds as typed (`EmittedIntegral`). The two
agree unless a bound consists only of invisible operators (`InvisibleBoundSplitsForms`,
`EmittedAgreesWithQuery`).

## Model

| member | source | states |
|---|---|---|
| Text.Trim | dist/DerivativeNode.js:107 | The result has no whitespace at either end, is a contiguous part of the input, and is empty exactly when the input is all whitespace; what was cut after it is whitespace |
| Text.TrimIdempotent | dist/DerivativeNode.js:107 | Trimming twice gives the same text as trimming once |
| Text.TrimSingleLine | dist/DerivativeNode.js:107 | Trimming keeps text without line terminators free of them |
| Text.IndexOf | dist/IntegralNode.js:121 | The first occurrence: the character is there and not before it; none exactly when it is absent |
| Text.LastIndexOf | dist/IntegralNode.js:313 | The last occurrence: the character is there and not after it; none exactly when it is absent |
| Text.NatTextOfDigits | dist/DerivativeNode.js:171-175 | A digit string without leading zeros prints back as itself |
| Differentiation.LastSplit | dist/DerivativeNode.js:110-161 | The split found is a valid top-level operator of the kind with non-blank sides, and no valid one lies to its right; none means no valid split exists |
| Differentiation.LastSplitIsRightmost | dist/DerivativeNode.js:110-161 | The scan's split is the rightmost valid split, and it finds none exactly when none exists |
| Differentiation.LastSplitFindsRightmost | dist/DerivativeNode.js:110-161 | Whenever a rightmost valid split exists, the scan returns it |
| Differentiation.FindSplit | dist/DerivativeNode.js:110-125 | The right-to-left loop with its bracket counter returns the rightmost valid split, or none when there is none |
| Differentiation.PowerSplit | dist/DerivativeNode.js:164 | The greedy power pattern splits at the last `^` with text on both sides, on a single line; no split means no such `^` |
| Differentiation.FuncMatch | dist/DerivativeNode.js:192 | A match is a word name, `(`, a non-empty single-line argument and the final `)` |
| Differentiation.FuncMatchComplete | dist/DerivativeNode.js:192 | Every text of the shape `name(arg)` is matched with that name and argument |
| Differentiation.ChainFactor | dist/DerivativeNode.js:198-212 | A factor exists exactly for sin, cos, tan, exp, ln, log and sqrt |
| Differentiation.CoeffMatch | dist/DerivativeNode.js:226 | A match is a decimal, whitespace, and the final ASCII letter of the text |
| Differentiation.Differentiate | dist/DerivativeNode.js:106-233 | Every result is non-empty and does not start with whitespace; recursion ends since each call gets a shorter text |
| Differentiation.DiffPower | dist/DerivativeNode.js:164-184 | The power stage gives a non-empty result that does not start with whitespace; its outputs are stated by PowerOfVariableRule, GeneralPowerRule and ReachesGroup |
| Differentiation.DiffGroup | dist/DerivativeNode.js:186-213 | The parenthesis and function stage gives a non-empty result not starting with whitespace; its outputs are stated by ParenRule, ChainRule and ReachesBase |
| Differentiation.DiffBase | dist/DerivativeNode.js:215-232 | The base stage gives a non-empty result not starting with whitespace; its outputs are stated by VariableRule, ConstantRule, CoefficientRule and FallbackRule |
| Differentiation.SplitSides | dist/DerivativeNode.js:116-118 | Both trimmed sides of a split are shorter than the text, so the recursion terminates |
| DifferentiationRules.TrimInvariant | dist/DerivativeNode.js:107 | Differentiating a text equals differentiating its trimmed form |
| DifferentiationRules.SumRule | dist/DerivativeNode.js:110-125 | At the rightmost top-level `+`/`-` the result is `d(left) op d(right)` |
| DifferentiationRules.ProductRule | dist/DerivativeNode.js:128-143 | Without a sum split, the rightmost top-level `*` gives `(d(L)) * (R) + (L) * (d(R))` |
| DifferentiationRules.QuotientRule | dist/DerivativeNode.js:146-161 | Without sum or product splits, the rightmost top-level `/` gives `((d(L)) * (R) - (L) * (d(R))) / (R)^2` |
| DifferentiationRules.ReachesPower | dist/DerivativeNode.js:109-163 | Text without any operator split is handled by the power stage |
| DifferentiationRules.PowerSplitFinds | dist/DerivativeNode.js:164 | The last possible `^` is the one the power pattern uses |
| DifferentiationRules.PowerOfVariableRule | dist/DerivativeNode.js:170-176 | `v^n` with a variable-free whole number n gives `1` for n = 1, `2v` for n = 2, else `<n>v^{<n-1>}` |
| DifferentiationRules.PowerOfVariableEcho | dist/DerivativeNode.js:175 | For n of at least 3 written without leading zeros, the exponent text itself leads the result |
| DifferentiationRules.GeneralPowerRule | dist/DerivativeNode.js:180-183 | Any other variable-free exponent e gives `e * (base)^{e - 1} * (d(base))` |
| DifferentiationRules.ReachesGroup | dist/DerivativeNode.js:164-185 | When the exponent mentions the variable, the text goes on to the parenthesis and function rules |
| DifferentiationRules.ParenRule | dist/DerivativeNode.js:187-189 | A text starting with `(` and ending with `)` is differentiated without them, matched or not |
| DifferentiationRules.ChainRule | dist/DerivativeNode.js:192-213 | `name(u)` for a known name gives the name's factor times `(d(u))` |
| DifferentiationRules.ReachesBase | dist/DerivativeNode.js:192-214 | An unknown function name falls through to the base cases |
| DifferentiationRules.VariableRule | dist/DerivativeNode.js:216-218 | Once the variable's own text reaches the base cases, whatever its name, it differentiates to `1` |
| DifferentiationRules.WordVariableRule | dist/DerivativeNode.js:216-218 | A variable named by a word reaches the base cases and differentiates to `1` |
| DifferentiationRules.ConstantRule | dist/DerivativeNode.js:221-223 | Once the text reaches the base cases, text other than the variable that does not contain it differentiates to `0` |
| DifferentiationRules.CoefficientRule | dist/DerivativeNode.js:226-229 | `<number><spaces><var>` differentiates to the number's text |
| DifferentiationRules.FallbackRule | dist/DerivativeNode.js:232 | Anything else gives `\frac{d}{d<var>}(<expr>)` |
| DifferentiationRules.CoeffMatchComplete | dist/DerivativeNode.js:226 | Every `<number><spaces><letter>` text is matched with that number and letter |
| DifferentiationRules.DifferentiateSingleLine | dist/DerivativeNode.js:106-233 | Single-line input and variable give a single-line derivative |
| DifferentiationExamples.CubeExample | dist/DerivativeNode.js:164-176 | `x^3` differentiates to `3x^{2}` |
| DifferentiationExamples.CoefficientExample | dist/DerivativeNode.js:226-229 | `5x` differentiates to `5` |
| DifferentiationExamples.SineExample | dist/DerivativeNode.js:192-200 | `sin(v)` differentiates to `\cos(v) * (1)` |
| FunctionLine.MatchDefinition | dist/DerivativeNode.js:60 | A match gives a word variable and a non-empty single-line body, and the text has the `f(v) = e` shape |
| FunctionLine.MatchDefinitionComplete | dist/DerivativeNode.js:60 | Every `f(v)<ws>=<ws>e` text with a word v and a non-empty single-line e that does not start with whitespace is matched to exactly v and e |
| FunctionLine.FormatShape | dist/DerivativeNode.js:100 | For a word variable and a non-empty single-line body, the emitted `f(v) = e` line has the shape the pattern reads |
| FunctionLine.ParseInput | dist/DerivativeNode.js:60-67 | The variable is a word; the result is either `x` with the whole text as body, or a genuine `f(v)<ws>=<ws>e` reading of the text |
| FunctionLine.FormatRoundTrip | dist/DerivativeNode.js:60-67 | Reading back `f(v) = e` gives v and e, for a word v and a non-empty single-line e that does not start with whitespace |
| DerivativeNode.ResultText | dist/DerivativeNode.js:85-97 | The result shown is empty exactly when the expression is empty |
| DerivativeNode.EmittedLine | dist/DerivativeNode.js:85-101 | The value sent is empty exactly when the expression is empty |
| DerivativeNode.EmittedRoundTrip | dist/DerivativeNode.js:60-67 | A widget reading the emitted line gets the same variable and the derivative as its expression |
| DerivativeNode.DerivativeNodeUI.constructor | dist/DerivativeNode.js:24-38 | A new widget has no expression, variable `x`, and has sent nothing |
| DerivativeNode.DerivativeNodeUI.ComputeDerivative | dist/DerivativeNode.js:81-103 | Shows the derivative (empty without an expression) and sends one line when connected; the inputs stay as they were |
| DerivativeNode.DerivativeNodeUI.InputChange | dist/DerivativeNode.js:58-74 | On input 0 the parsed variable and body become the inputs and prompts and the derivative is recomputed; other inputs change nothing |
| DerivativeNode.DerivativeNodeUI.OnInput | dist/DerivativeNode.js:47-51 | The edited texts become the inputs, an empty variable meaning `x`, and the derivative is recomputed |
| IntegralText.IsValidExpression | dist/IntegralNode.js:149-161 | Valid exactly when not blank, with as many `{` as `}`, and the trimmed text not ending in `+ - * / \ ^ _` |
| IntegralText.CountIsMultiplicity | dist/IntegralNode.js:154-155 | The brace counts are the multiplicities of the braces in the text |
| IntegralText.ValidityIgnoresBraceOrder | dist/IntegralNode.js:154-156 | Swapping a `{` with a later `}` does not change validity, for any text around and between them: only counts matter |
| IntegralText.Sanitize | dist/IntegralNode.js:257-262 | The result is no longer than the input and holds no U+2061–U+2064 |
| IntegralText.SanitizeKeepsVisible | dist/IntegralNode.js:261 | Every other character keeps its number of occurrences |
| IntegralText.SanitizeAppend | dist/IntegralNode.js:261 | Sanitising works character by character, so the order of the kept characters is preserved |
| IntegralText.SanitizeKeepsClean | dist/IntegralNode.js:261 | Text without the invisible operators is left as it is |
| IntegralText.SanitizeIdempotent | dist/IntegralNode.js:261 | Sanitising twice is sanitising once |
| IntegralText.BoundText | dist/IntegralNode.js:119-130 | A bound is trimmed, and empty when the input has no `=` |
| IntegralText.BoundOfSingleLine | dist/IntegralNode.js:121-122 | On a single line the bound is the trimmed text after the first `=` |
| IntegralText.BoundOfFunctionLine | dist/IntegralNode.js:121-122 | A bound given as `f(v) = e` is the trimmed e |
| IntegralText.IsDefinite | dist/IntegralNode.js:266-270 | A definite integral needs both bounds typed; for bounds without invisible operators it is definite exactly when both are non-empty |
| IntegralText.IntegralQuery | dist/IntegralNode.js:264-273 | The definite template with the sanitised bounds when both are non-empty after sanitising, else the indefinite template; QueryFormChoice states which form callers can tell apart |
| IntegralText.QueryFormChoice | dist/IntegralNode.js:270-273 | The query starts with `\int_` exactly when the integral is definite |
| IntegralText.QueryIsClean | dist/IntegralNode.js:264-273 | The query holds no invisible operator when the variable holds none |
| IntegralCleanup.StripThroughLastEquals | dist/IntegralNode.js:313 | Text without `=` is kept; the result is a non-empty suffix of a non-empty input |
| IntegralCleanup.StripDefinition | dist/IntegralNode.js:313 | `<anything>=<ws><r>`, with r free of `=` and not starting with whitespace, becomes r |
| IntegralCleanup.StripKeepsBlankTail | dist/IntegralNode.js:313 | When only whitespace follows the last `=`, the original text is kept |
| IntegralCleanup.AssumingMatch | dist/IntegralNode.js:315 | A match has a positive length within the text |
| IntegralCleanup.RemoveAssumptions | dist/IntegralNode.js:315 | Removing notes never lengthens the text |
| IntegralCleanup.RemoveAssumptionsWithoutParen | dist/IntegralNode.js:315 | Text without `(` is left as it is |
| IntegralCleanup.RemoveAssumptionNote | dist/IntegralNode.js:315 | A leading `<ws>(assuming<note>)`, in any letter case, is removed with its whitespace |
| IntegralCleanup.RemoveAssumptionsAfterPlain | dist/IntegralNode.js:315 | Text `a` at none of whose positions a note match starts (`NoNoteStartsIn(a, s)`) is kept in front of the cleaned `s` |
| IntegralCleanup.NoNoteWithoutParen | dist/IntegralNode.js:315 | No note starts inside text without `(` that ends in a non-space character |
| IntegralCleanup.NoNoteWithoutAssuming | dist/IntegralNode.js:315 | No note starts inside text that holds no `(assuming` in any letter case and ends in a non-space character, when what follows is empty or starts outside `\w` |
| IntegralCleanup.RemoveNoteAfterValue | dist/IntegralNode.js:315 | `<value><ws>(assuming<note>)<rest>`, with a non-empty note free of `)` and no note starting inside the value, becomes the value followed by the cleaned rest |
| IntegralCleanup.LogarithmNoteRemoved | dist/IntegralNode.js:315 | `\log(x) + c (assuming a complex-valued logarithm)` becomes `\log(x) + c` |
| IntegralCleanup.ReplaceConstant | dist/IntegralNode.js:317-319 | Replacing never lengthens the text; ReplaceConstantUnchanged and ReplaceTrailingConstant say what it changes |
| IntegralCleanup.ReplaceConstantFrom | dist/IntegralNode.js:318 | Replacing never lengthens the text |
| IntegralCleanup.ReplaceConstantUnchanged | dist/IntegralNode.js:318 | Without a whole-word `constant` the text is left as it is |
| IntegralCleanup.ReplaceTrailingConstant | dist/IntegralNode.js:318 | After text that is empty or ends outside `\w` and holds no whole-word `constant`, a trailing `constant`, in any letter case, becomes `c` |
| IntegralCleanup.CleanResult | dist/IntegralNode.js:313-321 | The cleaned result is trimmed; the four lemmas below state the indefinite and definite forms, with and without a note |
| IntegralCleanup.CleanIndefiniteAnswer | dist/IntegralNode.js:313-321 | For a non-empty trimmed body with no `=`, no `(assuming` in any case and no whole-word `constant`, `<integral>=<ws><body> + constant` cleans up to `<body> + c` |
| IntegralCleanup.CleanDefiniteKeepsConstant | dist/IntegralNode.js:313-320 | For a definite integral and a non-empty trimmed body with no `=` and no `(assuming`, `<integral>=<ws><body> + constant` cleans up to `<body> + constant` |
| IntegralCleanup.CleanIndefiniteNotedAnswer | dist/IntegralNode.js:313-321 | With the same body conditions as CleanIndefiniteAnswer and a non-empty note free of `)` and `=`, `<integral>=<ws><body> + constant (assuming<note>)` cleans up to `<body> + c` |
| IntegralCleanup.CleanDefiniteNotedAnswer | dist/IntegralNode.js:313-320 | With the body conditions of CleanDefiniteKeepsConstant and such a note, the definite clean-up of `<integral>=<ws><body> + constant (assuming<note>)` is `<body> + constant` |
| IntegralResult.PodIds | dist/IntegralNode.js:299-301 | Three ids for a definite integral and five for an indefinite one, `Result` among them |
| IntegralResult.FirstTaking | dist/IntegralNode.js:305-308 | The first pod whose id or title is the target and whose first subpod holds MathML; none exactly when no pod qualifies |
| IntegralResult.SelectPod | dist/IntegralNode.js:304-325 | A chosen pod answers for one of the ids |
| IntegralResult.SelectPodIsFirst | dist/IntegralNode.js:304-325 | The chosen pod is first by id priority and then by pod order; nothing is chosen exactly when no pod answers for any id |
| IntegralResult.FirstInPriorityUnique | dist/IntegralNode.js:304-325 | At most one (id, pod) pair comes first in that order |
| IntegralResult.PriorityWins | dist/IntegralNode.js:304-308 | A pod answering for the first id wins, at or before its own position |
| IntegralResult.SearchPods | dist/IntegralNode.js:304-325 | The nested loop with early return finds exactly the specified pod |
| IntegralResult.IntegralFromAnswer | dist/IntegralNode.js:293-341 | A failed query gives the error; a result is trimmed |
| IntegralResult.ExtractIntegral | dist/IntegralNode.js:293-341 | The answer yields the chosen pod's MathML, converted and cleaned up, or the error when nothing is chosen |
| IntegralNode.EmittedIntegral | dist/IntegralNode.js:224-226 | The bare value when both bounds were typed, else `f(<var>) = <integral>`; EmittedIntegralRoundTrip and EmittedAgreesWithQuery state what a reader gets |
| IntegralNode.InvisibleBoundSplitsForms | dist/IntegralNode.js:224-226 | A lower bound made only of an invisible operator makes the query indefinite while the bare value is sent on |
| IntegralNode.EmittedAgreesWithQuery | dist/IntegralNode.js:224-226 | With bounds free of invisible operators, the bare value is sent exactly when the query was definite |
| IntegralNode.FetchIntegral | dist/IntegralNode.js:264-341 | The engine's answer to the query read with definiteness from the sanitised bounds: a result is trimmed, and a failed answer gives the error |
| IntegralNode.FetchFollowsQuery | dist/IntegralNode.js:267-318 | The pod ids and the clean-up are the definite ones exactly when the query sent was the definite one |
| IntegralNode.FetchChoosesFirst | dist/IntegralNode.js:293-341 | A result is the cleaned MathML of the pod first in priority among the form's ids; no result means failure or no answering pod |
| IntegralNode.EmittedIntegralRoundTrip | dist/IntegralNode.js:224-226 | An emitted antiderivative reads back as the same variable and body |
| IntegralNode.IntegralNodeUI.constructor | dist/IntegralNode.js:56-72 | A new widget has no integrand, variable `x`, and no bounds |
| IntegralNode.IntegralNodeUI.InputChange | dist/IntegralNode.js:103-134 | Input 1 sets the parsed variable and body, input 2 the lower bound, input 0 the upper bound; every other field stays; a computation is scheduled |
| IntegralNode.IntegralNodeUI.OnInput | dist/IntegralNode.js:86-92 | The placeholders hold the edited texts and these become the inputs, an empty variable meaning `x`; a computation is scheduled |
| IntegralNode.IntegralNodeUI.Query | dist/IntegralNode.js:264-273 | The widget's query is definite exactly when both its bounds are non-empty after sanitising |
| IntegralNode.DefiniteSession | dist/IntegralNode.js:103-131 | A function line on input 1 and bound lines on inputs 2 and 0 produce the definite query between the two bound values |

## Left out

- The custom-element lifecycle, shadow DOM, styles, focus handling and MathLive calls. The
  model keeps the placeholder texts as fields and only the strings that go in and out.
- Reading the API key file, `fetch`, `JSON.parse` and the URL encoding of the query. These
  are file and network I/O. The engine is the uninterpreted parameter `engine` of
  `FetchIntegral`, from the query text to the parsed answer; `ExtractIntegral` takes that
  `Answer` directly.
- `mathml2latex.convert` is a foreign library. It is the uninterpreted parameter `convert`.
- The debounce timer, the `_isComputing` flag, request cancellation and the skip logic for
  repeated or failed queries. This is asynchronous control flow. `IntegralNodeUI` records only
  that a computation is scheduled.
- The integral widget's result placeholder and error output (`?`). These depend on the
  asynchronous request and are not modelled. The value sent after success is
  `EmittedIntegral`.
- Differentiation.DiffPower: `parseFloat` and the arithmetic `n - 1` on JavaScript numbers
  are modelled only for exponents that are whole decimal numbers (digits only). Other
  exponent text, such as `2.5` or `3abc`, counts as not a number and takes the general power
  rule. Exponents are exact integers: above 2^53 `parseFloat` and `n - 1` round on JavaScript
  numbers, so for the exponent `9007199254740993` the code prints
  `9007199254740992x^{9007199254740991}` while `PowerOfVariableRule` gives
  `9007199254740993x^{9007199254740992}`. Number formatting at 10^21 and above is not modelled.
- IntegralCleanup.CleanIndefiniteAnswer: as a closed form it covers a body with no `=` and no
  `(assuming`, followed by at most one trailing note (CleanIndefiniteNotedAnswer). Other
  shapes follow from `CleanResult`'s definition with the note and `constant` lemmas, but
  they are not stated as closed forms.
- IntegralCleanup.CleanDefiniteKeepsConstant: the same shapes as CleanIndefiniteAnswer, with
  the noted form in CleanDefiniteNotedAnswer.
- Characters are Dafny `char`s, not UTF-16 code units. The two agree for the text these
  widgets handle.
- The plugin registration table, the text widget and the function widget are not part of
  this model. The function widget's `f(v) = e` line is the `FunctionLine.Format` text.
