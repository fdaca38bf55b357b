# Scientific calculator: rewrite chain, factorial and keypad

This project models the logic at the core of a React scientific calculator.
It has three parts.

- `CalculatorEngine.evaluateExpression` (src/utils/calculator.ts) does not
  parse anything. It rewrites the expression text with a fixed chain of
  global replacements and hands the result to `eval`:
  - the constants `π` and `e` become digits;
  - `sin(`, `log(`, … become `Math.` calls;
  - `^` becomes `**`;
  - in degree mode a second pass adds a `)` after each converted
    trigonometric call.

  The model is the function `CalculatorEngine.Rewrite(expr, isRadians)`,
  which produces the string given to `eval`. It is built on a model of
  JavaScript's `replace` with a global literal pattern (`JsString`). Matches
  are leftmost and non-overlapping, and inserted text is never scanned
  again.
- `CalculatorEngine.factorial` is a guarded loop. Its model,
  `Factorial.Factorial`, is a method with that loop, proved against the
  mathematical factorial.
- The keypad (src/components/Calculator.tsx) keeps one state record. Every
  handler is a `setState(prev => …)` updater, so each becomes a function
  from the old `Keypad.State` to the new one. `Keypad.Step` and `Keypad.Run`
  apply key presses in order.

JavaScript numbers are the datatype `JsNumber.Number`: a finite value, `NaN`
or an infinity, with exact arithmetic.

`CalculatorEngine.CorrectedRewrite` is the chain as evidently meant, used for
the findings below and by the keypad's corrected build:
- the first pattern is the π that the π key types;
- the `sin(`, `cos(` and `tan(` patterns carry the lookbehind `(?<!a)` of
  ECMAScript 2018 regular expressions, so the `sin(` of `asin(` is left for
  the inverse rule (`JsString.ReplaceAllUnlessAfter`).

The code has no parser: it rewrites the text and calls `eval`, and its
`factorial` returns `NaN` for a bad argument.

Modules, one file each:
- `JsString` (`js_string.dfy`)
- `JsNumber` (`js_number.dfy`)
- `Factorial` (`factorial.dfy`)
- `CalculatorEngine` (`calculator_engine.dfy`)
- `Shadowing` (`shadowing.dfy`): what the chain does to `asin(x)`, `acos(x)` and `atan(x)`
- `CorrectedInverse` (`corrected_inverse.dfy`): what the corrected chain does to them
- `Keypad` (`keypad.dfy`)

## Model

| member | source | states |
|---|---|---|
| JsString.ReplaceAll | src/utils/calculator.ts:24-37 | definition of `.replace(/p/g, r)` for a literal pattern; properties in the `JsString` lemmas below |
| JsString.ReplaceAllUnlessAfter | src/utils/calculator.ts:27-29 | definition of the global replace with the lookbehind `(?<!c)` used by the corrected forward rules; properties in the `UnlessAfter` lemmas below |
| JsNumber.IsNegative | src/utils/calculator.ts:58 | definition of `n < 0`, false for `NaN`; used by `Factorial.Factorial` |
| JsNumber.IsInteger | src/utils/calculator.ts:58 | definition of `Number.isInteger`; used by `Factorial.Factorial` |
| JsNumber.Add | src/components/Calculator.tsx:109-110 | definition of `+` on numbers without rounding; property in `JsNumber.AddSubRoundTrip` |
| JsNumber.Sub | src/components/Calculator.tsx:111-112 | definition of `-` as adding the negation; property in `JsNumber.AddSubRoundTrip` |
| Factorial.FactorialOf | src/utils/calculator.ts:57-65 | definition of the value `factorial` returns; `Factorial.Factorial` is proved to compute it |
| CalculatorEngine.Substitute | src/utils/calculator.ts:24-37 | definition of the chain of substitutions; properties in the `Constants`, `Forward`, `Inverse`, `Named`, `Power` and `Functions` lemmas below |
| CalculatorEngine.CloseMatch | src/utils/calculator.ts:42-47 | definition of a match of `(HEAD[^)]+)\)` at the front of the text; properties in the `DoubleClose` lemmas below |
| CalculatorEngine.DoubleClose | src/utils/calculator.ts:42-47 | definition of one degree-mode replace `$1))`; properties in `DoubleCloseInserts`, `DoubleCloseAtMatch`, `DoubleCloseAbsent` |
| CalculatorEngine.CloseAll | src/utils/calculator.ts:41-47 | definition of the six degree-mode replaces in order; properties in `CloseAllInserts`, `CloseAllAbsent` |
| CalculatorEngine.CloseDegrees | src/utils/calculator.ts:40-48 | definition of the degree-mode pass; properties in `CloseDegreesIdentity`, `CloseDegreesChars`, `DegreePassOnlyClosesParens` |
| CalculatorEngine.Rewrite | src/utils/calculator.ts:24-48 | definition of the text handed to `eval`; properties in `RewritePlainIdentity`, `RewriteChars`, `RewriteHasNoCaret`, `RewriteHasNoE`, `PiSurvivesRewrite` and `Shadowing.InverseShadowed` |
| CalculatorEngine.CorrectedRewrite | src/utils/calculator.ts:24-48 | definition of the chain as evidently meant; properties in `CorrectedRewriteRemovesPi` and `CorrectedInverse.CorrectedInverseCalls` |
| Keypad.Step | src/components/Calculator.tsx:21-128 | definition of one key press as the handler it calls; property in `Keypad.StepKeeps` |
| Keypad.Run | src/components/Calculator.tsx:21-128 | definition of a sequence of key presses; properties in `RunAppend`, `RunAngleParity`, `RunKeepsMemory`, `RunExtendsExpression`, `RunKeepsLastResultNumeric` |
| JsString.ReplaceAllIsSplitJoin | src/utils/calculator.ts:24-37 | a global literal replace equals splitting at the leftmost non-overlapping occurrences and joining with the replacement |
| JsString.JoinSplitRoundTrip | src/utils/calculator.ts:24-37 | splitting at a pattern and joining with it gives back the original text |
| JsString.ReplaceAllBySelf | src/utils/calculator.ts:24-37 | replacing a pattern by itself changes nothing |
| JsString.NoOccurrenceIdentity | src/utils/calculator.ts:24-37 | a pattern that does not occur leaves the text unchanged |
| JsString.ReplaceAllChars | src/utils/calculator.ts:24-37 | every character of the result comes from the input or from the replacement |
| JsString.ReplaceAllKeepsChar | src/utils/calculator.ts:24-37 | a character that is not in the pattern is never removed |
| JsString.ReplaceAllRemovesChar | src/utils/calculator.ts:26 | replacing a one-character pattern by text without that character removes all of it |
| JsString.ReplaceAllSkip | src/utils/calculator.ts:24-37 | a prefix without the pattern's first character is copied unchanged |
| JsString.ReplaceAllHit | src/utils/calculator.ts:24-37 | a match at the front is replaced, and scanning resumes after it, not inside the inserted text |
| JsString.ReplaceAllMiss | src/utils/calculator.ts:24-37 | with no match at the front, the first character is copied |
| JsString.UnlessAfterWithoutGuard | src/utils/calculator.ts:27-29 | a replace whose pattern carries the lookbehind `(?<!c)` equals the plain global replace on text without `c` |
| JsString.UnlessAfterChars | src/utils/calculator.ts:27-29 | every character of a guarded replace's result comes from the input or from the replacement |
| JsString.UnlessAfterAbsent | src/utils/calculator.ts:27-29 | a guarded pattern with a character the text lacks leaves the text unchanged |
| JsString.UnlessAfterRefused | src/utils/calculator.ts:27-29 | an occurrence right after `c` is not replaced, and scanning goes on inside it |
| JsNumber.OrZero | src/components/Calculator.tsx:80 | the fallback to 0 for a falsy number turns `NaN` and 0 into 0, leaves every other number as it is, and is never `NaN` |
| JsNumber.AddSubRoundTrip | src/components/Calculator.tsx:109-112 | adding a finite value and then subtracting it gives back any number |
| Factorial.Factorial | src/utils/calculator.ts:57-65 | the result is `NaN` exactly for a negative or non-integer argument, 1 for 0 and 1, and otherwise n! = 2·3·…·n |
| Factorial.FactIsProduct | src/utils/calculator.ts:60-64 | the recurrence n! = n·(n−1)! agrees with the product 2·3·…·n that the loop forms |
| CalculatorEngine.FirstClose | src/utils/calculator.ts:42-47 | finds the first `)` at or after a position, or the end: the extent of the `[^)]+` part of a degree-mode match |
| CalculatorEngine.StepIdentity | src/utils/calculator.ts:24-37 | a rule whose pattern starts with a character absent from the text leaves it unchanged |
| CalculatorEngine.StepAvoids | src/utils/calculator.ts:24-37 | a rule adds no character that is absent from its replacement |
| CalculatorEngine.StepKeeps | src/utils/calculator.ts:24-37 | a rule keeps every character that is not in its pattern |
| CalculatorEngine.ConstantsIdentity | src/utils/calculator.ts:25-26 | plain arithmetic goes through the constant rules unchanged |
| CalculatorEngine.ConstantsRemoveE | src/utils/calculator.ts:26 | no `e` is left after the constant rules |
| CalculatorEngine.ConstantsKeepPi | src/utils/calculator.ts:25 | the constant rules keep the π that the π key types |
| CalculatorEngine.ForwardIdentity | src/utils/calculator.ts:27-29 | plain arithmetic goes through the `sin(`, `cos(`, `tan(` rules unchanged |
| CalculatorEngine.ForwardAvoids | src/utils/calculator.ts:27-29 | these rules add no character that is outside their replacement texts |
| CalculatorEngine.ForwardKeeps | src/utils/calculator.ts:27-29 | these rules keep every character that is not in a function name |
| CalculatorEngine.InverseIdentity | src/utils/calculator.ts:30-32 | plain arithmetic goes through the `asin(`, `acos(`, `atan(` rules unchanged |
| CalculatorEngine.InverseAvoids | src/utils/calculator.ts:30-32 | these rules add no character that is outside their replacement texts |
| CalculatorEngine.InverseKeeps | src/utils/calculator.ts:30-32 | these rules keep every character that is not in a function name |
| CalculatorEngine.NamedIdentity | src/utils/calculator.ts:33-36 | plain arithmetic goes through the `log(`, `ln(`, `sqrt(`, `abs(` rules unchanged |
| CalculatorEngine.NamedAvoids | src/utils/calculator.ts:33-36 | these rules add no character that is outside their replacement texts |
| CalculatorEngine.NamedKeeps | src/utils/calculator.ts:33-36 | these rules keep every character that is not in a function name |
| CalculatorEngine.PowerIdentity | src/utils/calculator.ts:37 | plain arithmetic goes through the power rule unchanged |
| CalculatorEngine.PowerAvoids | src/utils/calculator.ts:37 | the power rule adds no character other than `*` |
| CalculatorEngine.FunctionsIdentity | src/utils/calculator.ts:27-37 | plain arithmetic goes through all the function rules unchanged |
| CalculatorEngine.FunctionsAvoid | src/utils/calculator.ts:27-37 | the function rules add no character that is outside their replacement texts |
| CalculatorEngine.FunctionsKeep | src/utils/calculator.ts:27-37 | the function rules keep every character that is not in a function name |
| CalculatorEngine.InsertsCloseTrans | src/utils/calculator.ts:41-47 | inserting `)` twice is inserting `)` |
| CalculatorEngine.InsertsCloseChars | src/utils/calculator.ts:41-47 | inserting `)` changes no other character's presence |
| CalculatorEngine.DoubleCloseInserts | src/utils/calculator.ts:42-47 | one degree-mode replacement only inserts `)` characters into the text |
| CalculatorEngine.DoubleCloseAtMatch | src/utils/calculator.ts:42-47 | a head, a non-empty argument without `)`, and `)` get exactly one extra `)`, and scanning resumes after the match |
| CalculatorEngine.DoubleCloseAbsent | src/utils/calculator.ts:42-47 | a degree-mode replacement whose head cannot occur leaves the text unchanged |
| CalculatorEngine.CloseAllInserts | src/utils/calculator.ts:41-47 | the six degree-mode replacements together only insert `)` |
| CalculatorEngine.CloseAllAbsent | src/utils/calculator.ts:41-47 | text without a character that all six heads contain passes the degree-mode pass unchanged |
| CalculatorEngine.RewritePlainIdentity | src/utils/calculator.ts:24-48 | digits, `.`, `+ - * / ( )` reach `eval` unchanged in both angle modes |
| CalculatorEngine.CloseDegreesIdentity | src/utils/calculator.ts:40-48 | plain arithmetic passes the degree-mode pass unchanged |
| CalculatorEngine.DegreePassOnlyClosesParens | src/utils/calculator.ts:40-48 | radians mode skips the degree pass; in degree mode the pass only inserts `)` into the substituted text |
| CalculatorEngine.CloseDegreesChars | src/utils/calculator.ts:40-48 | apart from `)`, the degree pass keeps exactly the characters it is given |
| CalculatorEngine.RewriteChars | src/utils/calculator.ts:24-48 | apart from `)`, the text sent to `eval` has the characters that the substitutions left |
| CalculatorEngine.RewriteHasNoCaret | src/utils/calculator.ts:37 | no `^` reaches `eval` |
| CalculatorEngine.RewriteHasNoE | src/utils/calculator.ts:26-47 | no `e` reaches `eval`, because no later replacement text and no added `)` contains one |
| CalculatorEngine.PiSurvivesRewrite | src/utils/calculator.ts:25 | as written, a π (U+03C0) in the expression reaches `eval` |
| CalculatorEngine.CorrectedRewriteRemovesPi | src/utils/calculator.ts:25 | with the pattern written as π, no π reaches `eval` |
| CalculatorEngine.CorrectedConstantsRemovePi | src/utils/calculator.ts:25-26 | with the pattern written as π, no π is left after the constant rules |
| CalculatorEngine.GuardedStepAvoids | src/utils/calculator.ts:27-29 | a guarded forward rule adds no character that neither its input nor its replacement has |
| CalculatorEngine.CorrectedForwardAvoids | src/utils/calculator.ts:27-29 | the guarded forward stage adds no character foreign to the function names and the `Math.` pieces |
| CalculatorEngine.CorrectedFunctionsAvoid | src/utils/calculator.ts:27-37 | the corrected function rules add no such character either |
| Shadowing.ShadowedFixed | src/utils/calculator.ts:28-37 | a rule whose pattern is clear of the name `f` (the forward rules after `f`, the `asin(`, `acos(`, `atan(` rules, the named functions and `^`) finds nothing in what `asin(x)`, `acos(x)` or `atan(x)` has become |
| Shadowing.RawHit | src/utils/calculator.ts:27-29 | the rule for `sin(`, `cos(` or `tan(` strips `asin(x)`, `acos(x)` or `atan(x)` down to `a`, that rule's replacement and `x)` |
| Shadowing.RawFixed | src/utils/calculator.ts:27-28 | a forward rule for another name (`sin(` before `cos(` and `tan(`, `cos(` before `tan(`) leaves `acos(x)` and `atan(x)` alone |
| Shadowing.RawForward | src/utils/calculator.ts:27-29 | of the three forward rules, exactly the one for the name inside the inverse call acts on it |
| Shadowing.RawSubstitute | src/utils/calculator.ts:24-37 | `asin(x)`, `acos(x)` and `atan(x)` leave the whole chain as `a` followed by the `sin(`, `cos(` or `tan(` replacement, so the `asin(`, `acos(` and `atan(` rules never fire on them |
| Shadowing.CloseOwnHead | src/utils/calculator.ts:42-44 | in degree mode the head of the name's own forward rule matches once and adds one `)` |
| Shadowing.OtherHeadFixed | src/utils/calculator.ts:42-47 | every other degree-mode head, the three inverse heads included, finds no match in that text |
| Shadowing.ShadowedCloseDegrees | src/utils/calculator.ts:41-48 | the whole degree pass turns the shadowed text into `a(Math.f(Math.PI/180*x))` |
| Shadowing.InverseShadowed | src/utils/calculator.ts:27-48 | `asin(x)`, `acos(x)` and `atan(x)` reach `eval` as `aMath.sin(x)`, `aMath.cos(x)`, `aMath.tan(x)` in radians and as `a(Math.sin(Math.PI/180*x))` and its like in degrees |
| CorrectedInverse.GuardedOwn | src/utils/calculator.ts:27-29 | with the lookbehind, the rule for `sin(`, `cos(` or `tan(` leaves the `f(` after the `a` of `asin(x)`, `acos(x)` or `atan(x)` alone |
| CorrectedInverse.RawCorrectedForward | src/utils/calculator.ts:27-29 | the guarded forward stage leaves `asin(x)`, `acos(x)` and `atan(x)` unchanged |
| CorrectedInverse.InverseHit | src/utils/calculator.ts:30-32 | the key's own inverse rule then replaces its pattern |
| CorrectedInverse.EnteredFixed | src/utils/calculator.ts:31-37 | no later inverse, named-function or `^` rule finds its pattern in that replacement |
| CorrectedInverse.RawInverse | src/utils/calculator.ts:30-32 | of the three inverse rules exactly the key's own one fires |
| CorrectedInverse.CorrectedSubstitute | src/utils/calculator.ts:24-37 | the corrected chain turns `asin(x)`, `acos(x)` and `atan(x)` into the inverse rule's replacement followed by `x)` |
| CorrectedInverse.ConvertedOwnHead | src/utils/calculator.ts:45-47 | in degree mode the key's own inverse head matches once and adds one `)` |
| CorrectedInverse.ConvertedOtherHead | src/utils/calculator.ts:42-47 | every other degree-mode head finds no match in that text |
| CorrectedInverse.EnteredCloseDegrees | src/utils/calculator.ts:41-48 | the whole degree pass turns it into `(180/Math.PI*Math.asin(x))` and its like |
| CorrectedInverse.CorrectedInverseCalls | src/utils/calculator.ts:27-48 | corrected, `asin(x)`, `acos(x)` and `atan(x)` reach `eval` as `Math.asin(x)` and its like in radians and as `(180/Math.PI*Math.asin(x))` and its like in degrees |
| Keypad.HandleNumber | src/components/Calculator.tsx:21-28 | a digit replaces an error, a lone 0 or the last result, and otherwise is appended; the error flag ends up clear; nothing else changes |
| Keypad.CorrectedHandleNumber | src/components/Calculator.tsx:21-28 | corrected: a digit replaces an error, a lone 0 or a result shown right after `=`, and otherwise is appended whatever the last result is |
| Keypad.DigitAfterResultRestarts | src/components/Calculator.tsx:23 | as written, after `=` shows 5, the keys +, 5, 3 leave 5+3 pending |
| Keypad.CorrectedDigitAfterResult | src/components/Calculator.tsx:21-28 | corrected, the same keys leave 5+53 pending |
| Keypad.HandleOperator | src/components/Calculator.tsx:30-40 | in both branches the expression becomes expression + display + operator; the display becomes 0 and the error flag is cleared; memory, angle mode and last result are unchanged |
| Keypad.FactorialKey | src/components/Calculator.tsx:57-60 | x! shows the factorial of the parsed display, or the text of `NaN` for a bad argument, and sets the error flag exactly when the parsed value is negative or not an integer |
| Keypad.HandleFunction | src/components/Calculator.tsx:42-67 | a function key appends its text to the expression (constants themselves; x², x³, 10^x, 1/x their forms; others `f(display)`); the display then shows the constant or 0 |
| Keypad.CorrectedHandleFunction | src/components/Calculator.tsx:42-67 | corrected: a constant is only shown, and other keys append their text and leave an empty display |
| Keypad.HandleEquals | src/components/Calculator.tsx:71-84 | the display becomes the evaluation of the rewritten expression + display; the expression is emptied; the error flag reports "Error"; the last result is the parsed display or 0, never `NaN` |
| Keypad.HandleClear | src/components/Calculator.tsx:86-88 | C resets the display to 0 and clears the error flag; the expression, memory, angle mode and last result are kept |
| Keypad.HandleAllClear | src/components/Calculator.tsx:90-98 | AC is the initial state with the memory and angle mode kept |
| Keypad.CurrentValue | src/components/Calculator.tsx:102 | the display's value for the memory keys is never `NaN` |
| Keypad.HandleMemory | src/components/Calculator.tsx:100-117 | MC sets only the memory to 0, MR sets only the display to the memory's text, M+ and M- add and subtract the display's value, and any other action changes nothing |
| Keypad.HandleDecimal | src/components/Calculator.tsx:119-124 | the display ends up with a point: unchanged if it had one, otherwise with a point appended; nothing else changes |
| Keypad.ToggleAngleMode | src/components/Calculator.tsx:126-128 | only the angle mode changes, and it flips |
| Keypad.DecimalIdempotent | src/components/Calculator.tsx:119-124 | pressing the point twice is pressing it once |
| Keypad.ToggleTwice | src/components/Calculator.tsx:126-128 | toggling the angle mode twice gives back the state |
| Keypad.ClearIdempotent | src/components/Calculator.tsx:86-98 | C and AC are idempotent, and C after AC is AC |
| Keypad.MemoryAddThenSubtract | src/components/Calculator.tsx:100-117 | M+ then M- gives back the state when the display does not parse to an infinity |
| Keypad.MemoryClearThenRecall | src/components/Calculator.tsx:105-108 | after MC, MR shows zero |
| Keypad.EqualsAgain | src/components/Calculator.tsx:71-84 | a second `=` evaluates the result shown, in the same angle mode |
| Keypad.OperatorAfterEquals | src/components/Calculator.tsx:30-84 | an operator after `=` makes the expression the result followed by the operator |
| Keypad.RunAppend | src/components/Calculator.tsx:21-128 | pressing two sequences of keys is pressing their concatenation |
| Keypad.StepKeeps | src/components/Calculator.tsx:21-128 | one key press keeps the angle mode unless it is RAD/DEG, the memory unless it is MC/M+/M-, the expression as a prefix unless it is `=` or AC, and a last result that is not `NaN` |
| Keypad.RunAngleParity | src/components/Calculator.tsx:126-128 | after any keys, the angle mode is flipped exactly when RAD/DEG was pressed an odd number of times |
| Keypad.RunKeepsMemory | src/components/Calculator.tsx:100-117 | keys other than MC, M+ and M- never change the memory |
| Keypad.RunExtendsExpression | src/components/Calculator.tsx:30-67 | between `=` and AC presses, the expression only grows at its end |
| Keypad.RunKeepsLastResultNumeric | src/components/Calculator.tsx:80 | the last result is never `NaN` after any keys |
| Keypad.FunctionKeyEchoes | src/components/Calculator.tsx:46-67 | as written, the pending text after a function key ends in the key's text followed by 0, or by the constant again |
| Keypad.SquareOfFivePendsPowerTwenty | src/components/Calculator.tsx:51-67 | after 5 and x², `=` would evaluate 5^20 |
| Keypad.PiPendsTwice | src/components/Calculator.tsx:46-48 | after π, `=` would evaluate ππ |
| Keypad.PiKeyReachesEval | src/utils/calculator.ts:25 | as written, π then `=` hands `eval` text that still holds π; corrected, it does not |
| Keypad.CorrectedFunctionKeyEntersOnce | src/components/Calculator.tsx:42-67 | corrected, a function key's text enters the pending text exactly once |
| Keypad.CorrectedSquareOfFive | src/components/Calculator.tsx:51-67 | corrected, after 5 and x², `=` would evaluate 5^2 |
| Keypad.CorrectedPiPendsOnce | src/components/Calculator.tsx:46-48 | corrected, after π, `=` would evaluate π alone |

## Left out

- `eval`, the `try`/`catch` around it and `formatNumber` (src/utils/calculator.ts:4-19, 50-53) run generated JavaScript and format IEEE doubles. They are the abstract `Keypad.Env.evaluate`, applied to what `Rewrite` produces.
- `parseFloat` and `Number.prototype.toString` are the abstract `Keypad.Env.parseFloat` and `Keypad.Env.toString`. The `x!` key applies `Factorial.FactorialOf`, the function that the `Factorial` method is proved to compute.
- Floating point: numbers are exact reals, so the rounding of memory arithmetic and `factorial` overflowing to `Infinity` are not modelled.
- Factorial.Factorial: the loop is over exact reals and unbounded integers. From 171 on the source's `result` becomes `Infinity`, which the model does not reach. For an integer n of 2^53 or more, `i++` stops changing the double `i`, so the source's loop never ends; the model's counter keeps growing and the method terminates.
- Keypad.MemoryAddThenSubtract: holds for exact arithmetic only; with doubles, M+ followed by M- can round.
- Shadowing.InverseShadowed: stated for an argument made of plain arithmetic without `)`, as the keypad builds it. In degree mode an inverse rule can fire on text the keypad does not produce, such as `asincos(` (where the `cos(` replacement creates `asin(`), so "never fires" is not claimed for arbitrary text.
- CalculatorEngine.DegreePassOnlyClosesParens: states that the degree pass only inserts `)` (and `DoubleCloseAtMatch` that a single match gets one). It does not count the insertions of a pass with several matches.
- The JSX rendering (src/components/Calculator.tsx:130-254), src/components/Button.tsx, src/components/Display.tsx, src/App.tsx and the theme context are presentation. They are not part of this model.
- Keypad.CorrectedHandleNumber: whether the key before was `=` is a parameter, because the source's state has no field for it; the corrected digit key is therefore not part of `Keypad.Step`.
- React scheduling (`useCallback`, batching of `setState`): each handler is one atomic transition.

## Findings

| source | as written | input that shows it | evidently intended | confidence | as-written member | corrected member |
|---|---|---|---|---|---|---|
| src/utils/calculator.ts:25 | the pattern is `Ï€` (U+00CF U+20AC, π garbled by a wrong encoding), while the π key types U+03C0 | π then `=` | every π becomes the digits of `Math.PI` | not executed | CalculatorEngine.PiSurvivesRewrite | CalculatorEngine.CorrectedRewriteRemovesPi |
| src/components/Calculator.tsx:67 | a function key leaves "0" on the display, and `=` or the next operator appends it to the expression | 5, x², `=` evaluates 5^20 | 5, x², `=` evaluates 5^2 | not executed | Keypad.SquareOfFivePendsPowerTwenty | Keypad.CorrectedSquareOfFive |
| src/components/Calculator.tsx:46-48 | π and e are appended to the expression and also shown, so `=` or the next operator appends them again | π, `=` evaluates ππ | π, `=` evaluates π | not executed | Keypad.PiPendsTwice | Keypad.CorrectedPiPendsOnce |
| src/utils/calculator.ts:27-32 | the `sin(`, `cos(` and `tan(` rules run first and match inside `asin(`, `acos(` and `atan(`, so the inverse rules never fire | `evaluateExpression("asin(0.5)")` hands `aMath.sin(0.5)` to `eval` | the inverse keys call `Math.asin`, `Math.acos` and `Math.atan` | not executed | Shadowing.InverseShadowed | CorrectedInverse.CorrectedInverseCalls |
| src/components/Calculator.tsx:23 | a digit replaces the display whenever it reads as the last result, not only right after `=` | 5 on the display after `=`, then +, 5, 3 leaves 5+3 pending | the same keys leave 5+53 pending | not executed | Keypad.DigitAfterResultRestarts | Keypad.CorrectedDigitAfterResult |
