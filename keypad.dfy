/** The keypad of the calculator component: its state record and the
    handler each key calls. Every handler maps the previous state to the
    next one, as the `setState(prev => ...)` callbacks do, so the handlers
    are functions on a `State` value and a sequence of key presses is a
    fold over them. */
module Keypad {
  import opened JsNumber
  import opened Factorial
  import opened CalculatorEngine

  /** The component's state record. */
  datatype State = State(
    display: string,
    expression: string,
    memory: Number,
    isRadians: bool,
    lastResult: Number,
    hasError: bool)

  /** What the keypad leans on and this model leaves abstract:
      `Number.prototype.toString`, `parseFloat`, and `eval` of the
      rewritten text followed by `formatNumber`, which yields `"Error"`
      when `eval` throws. */
  datatype Env = Env(
    toString: Number -> string,
    parseFloat: string -> Number,
    evaluate: string -> string)

  /** Which function-key handler the keypad uses and how `=` rewrites the
      expression before `eval`. */
  datatype Build = Build(correctedKeys: bool, translate: (string, bool) -> string)

  /** The keypad as written. */
  const AsWritten: Build := Build(false, Rewrite)

  /** The keypad with the function keys and the π pattern corrected (see
      `CorrectedHandleFunction` and `CorrectedRewrite`). */
  const Corrected: Build := Build(true, CorrectedRewrite)

  /** The state the component starts in. */
  const Initial: State := State("0", "", Zero, true, Zero, false)

  /** The text that the expression receives from the next operator or `=`:
      the expression so far followed by the display. */
  function Pending(s: State): string
  {
    s.expression + s.display
  }

  /** The display shows something that the next digit replaces: an error, a
      lone zero, or the last result. */
  predicate StartsAfresh(env: Env, s: State)
  {
    s.hasError || s.display == "0" || s.display == env.toString(s.lastResult)
  }

  /** A digit key. */
  function HandleNumber(env: Env, s: State, num: string): (r: State)
    ensures r == s.(display := r.display, hasError := r.hasError)
    ensures !r.hasError
    ensures StartsAfresh(env, s) ==> r.display == num
    ensures !StartsAfresh(env, s) ==> r.display == s.display + num
  {
    if s.hasError || s.display == "0" || s.display == env.toString(s.lastResult) then
      s.(display := num, hasError := false)
    else
      s.(display := s.display + num)
  }

  /** A digit key, corrected so that only a digit right after `=`
      (`afterEquals`) replaces the result; a number the user has started is
      always extended, whatever the last result was. */
  function CorrectedHandleNumber(s: State, num: string, afterEquals: bool): (r: State)
    ensures r == s.(display := r.display, hasError := r.hasError)
    ensures !r.hasError
    ensures s.hasError || s.display == "0" || afterEquals ==> r.display == num
    ensures !s.hasError && s.display != "0" && !afterEquals ==> r.display == s.display + num
  {
    if s.hasError || s.display == "0" || afterEquals then
      s.(display := num, hasError := false)
    else
      s.(display := s.display + num)
  }

  /** An operator key, `(` and `)` included: whether or not an expression
      has been started, the expression becomes the pending text followed by
      the operator. */
  function HandleOperator(s: State, op: string): (r: State)
    ensures r == s.(expression := Pending(s) + op, display := "0", hasError := false)
  {
    var newExpression := if s.expression != "" then s.expression + s.display + op else s.display + op;
    s.(expression := newExpression, display := "0", hasError := false)
  }

  /** The keys π and e stand for a constant. */
  predicate IsConstant(func: string)
  {
    func == [Pi] || func == "e"
  }

  /** The text a function key (other than x!) is meant to contribute to the
      expression, given the display `d`. */
  function KeyText(func: string, d: string): string
  {
    if IsConstant(func) then func
    else if func == "x\U{B2}" then d + "^2"
    else if func == "x\U{B3}" then d + "^3"
    else if func == "10^x" then "10^" + d
    else if func == "1/x" then "1/(" + d + ")"
    else func + "(" + d + ")"
  }

  /** What a function key (other than x!) leaves on the display. */
  function Echo(func: string): string
  {
    if IsConstant(func) then func else "0"
  }

  /** x!: the factorial of the parsed display; the error flag is set
      exactly when the display does not parse to a non-negative integer. */
  function FactorialKey(env: Env, s: State): (r: State)
    ensures r == s.(display := r.display, hasError := r.hasError)
    ensures r.hasError <==> IsNegative(env.parseFloat(s.display)) || !IsInteger(env.parseFloat(s.display))
    ensures r.hasError ==> r.display == env.toString(NaN)
    ensures !r.hasError ==>
      r.display == env.toString(Finite(Fact(env.parseFloat(s.display).value.Floor) as real))
  {
    var result := FactorialOf(env.parseFloat(s.display));
    s.(display := env.toString(result), hasError := result.NaN?)
  }

  /** A function key, as written: a constant is appended to the expression
      and also shown; any other key but x! appends its text and leaves "0"
      on the display. */
  function HandleFunction(env: Env, s: State, func: string): (r: State)
    ensures func == "x!" ==> r == FactorialKey(env, s)
    ensures func != "x!" ==>
      r == s.(expression := s.expression + KeyText(func, s.display), display := Echo(func))
  {
    if func == [Pi] || func == "e" then
      s.(expression := s.expression + func, display := func)
    else if func == "x!" then
      FactorialKey(env, s)
    else
      var newExpression :=
        if func == "x\U{B2}" then s.expression + s.display + "^2"
        else if func == "x\U{B3}" then s.expression + s.display + "^3"
        else if func == "10^x" then s.expression + "10^" + s.display
        else if func == "1/x" then s.expression + "1/(" + s.display + ")"
        else s.expression + func + "(" + s.display + ")";
      AppendKeyText(s.expression, s.display, func);
      s.(expression := newExpression, display := "0")
  }

  lemma AppendKeyText(e: string, d: string, func: string)
    ensures func == "x\U{B2}" ==> e + d + "^2" == e + KeyText(func, d)
    ensures func == "x\U{B3}" ==> e + d + "^3" == e + KeyText(func, d)
    ensures func == "10^x" ==> e + "10^" + d == e + KeyText(func, d)
    ensures func == "1/x" ==> e + "1/(" + d + ")" == e + KeyText(func, d)
    ensures !IsConstant(func) && func != "x\U{B2}" && func != "x\U{B3}" && func != "10^x" && func != "1/x" ==>
      e + func + "(" + d + ")" == e + KeyText(func, d)
  {
  }

  /** A function key, corrected so that its text enters the expression
      exactly once: a constant is only shown, and any other key but x!
      leaves an empty display behind. */
  function CorrectedHandleFunction(env: Env, s: State, func: string): (r: State)
    ensures func == "x!" ==> r == FactorialKey(env, s)
    ensures func != "x!" && IsConstant(func) ==> r == s.(display := func)
    ensures func != "x!" && !IsConstant(func) ==>
      r == s.(expression := s.expression + KeyText(func, s.display), display := "")
  {
    if IsConstant(func) then s.(display := func)
    else if func == "x!" then FactorialKey(env, s)
    else s.(expression := s.expression + KeyText(func, s.display), display := "")
  }

  /** `=`: the pending text is rewritten and evaluated; the expression is
      cleared, the error flag reports an `"Error"` result, and the last
      result is the parsed display or 0, never `NaN`. */
  function HandleEquals(env: Env, b: Build, s: State): (r: State)
    ensures r.display == env.evaluate(b.translate(Pending(s), s.isRadians))
    ensures r.expression == ""
    ensures r.hasError <==> r.display == "Error"
    ensures r.lastResult == OrZero(env.parseFloat(r.display)) && !r.lastResult.NaN?
    ensures r.memory == s.memory && r.isRadians == s.isRadians
  {
    var fullExpression := s.expression + s.display;
    var result := env.evaluate(b.translate(fullExpression, s.isRadians));
    s.(display := result, expression := "", lastResult := OrZero(env.parseFloat(result)), hasError := result == "Error")
  }

  /** C: the display is reset, the expression is kept. */
  function HandleClear(s: State): (r: State)
    ensures r.expression == s.expression && r.memory == s.memory
    ensures r.isRadians == s.isRadians && r.lastResult == s.lastResult
    ensures r.display == "0" && !r.hasError
  {
    s.(display := "0", hasError := false)
  }

  /** AC: everything but the memory and the angle mode goes back to the
      initial state. */
  function HandleAllClear(s: State): (r: State)
    ensures r == Initial.(memory := s.memory, isRadians := s.isRadians)
  {
    s.(display := "0", expression := "", lastResult := Zero, hasError := false)
  }

  /** The display as a number for the memory keys: unparsable text counts
      as 0. */
  function CurrentValue(env: Env, s: State): (v: Number)
    ensures !v.NaN?
  {
    OrZero(env.parseFloat(s.display))
  }

  /** The memory keys MC, MR, M+ and M-; any other action changes
      nothing. */
  function HandleMemory(env: Env, s: State, action: string): (r: State)
    ensures action == "MC" ==> r == s.(memory := Zero)
    ensures action == "MR" ==> r == s.(display := env.toString(s.memory))
    ensures action == "M+" ==> r == s.(memory := Add(s.memory, CurrentValue(env, s)))
    ensures action == "M-" ==> r == s.(memory := Sub(s.memory, CurrentValue(env, s)))
    ensures action !in {"MC", "MR", "M+", "M-"} ==> r == s
  {
    var currentValue := CurrentValue(env, s);
    if action == "MC" then s.(memory := Zero)
    else if action == "MR" then s.(display := env.toString(s.memory))
    else if action == "M+" then s.(memory := Add(s.memory, currentValue))
    else if action == "M-" then s.(memory := Sub(s.memory, currentValue))
    else s
  }

  /** The decimal point key: a point is appended unless the display already
      has one. */
  function HandleDecimal(s: State): (r: State)
    ensures r == s.(display := r.display)
    ensures '.' in r.display
    ensures '.' in s.display ==> r == s
    ensures '.' !in s.display ==> r.display == s.display + "."
  {
    if '.' in s.display then s else s.(display := s.display + ".")
  }

  /** RAD/DEG: only the angle mode flips. */
  function ToggleAngleMode(s: State): (r: State)
    ensures r == s.(isRadians := r.isRadians)
    ensures r.isRadians != s.isRadians
  {
    s.(isRadians := !s.isRadians)
  }

  /** A key press, as the buttons of the component deliver it. */
  datatype Key =
    | NumberKey(num: string)
    | OperatorKey(op: string)
    | FunctionKey(func: string)
    | EqualsKey
    | ClearKey
    | AllClearKey
    | MemoryKey(action: string)
    | DecimalKey
    | AngleKey

  function Step(env: Env, b: Build, s: State, k: Key): State
  {
    match k
    case NumberKey(num) => HandleNumber(env, s, num)
    case OperatorKey(op) => HandleOperator(s, op)
    case FunctionKey(func) =>
      if b.correctedKeys then CorrectedHandleFunction(env, s, func) else HandleFunction(env, s, func)
    case EqualsKey => HandleEquals(env, b, s)
    case ClearKey => HandleClear(s)
    case AllClearKey => HandleAllClear(s)
    case MemoryKey(action) => HandleMemory(env, s, action)
    case DecimalKey => HandleDecimal(s)
    case AngleKey => ToggleAngleMode(s)
  }

  /** The state after the keys are pressed in order. */
  function Run(env: Env, b: Build, s: State, keys: seq<Key>): State
    decreases |keys|
  {
    if keys == [] then s else Run(env, b, Step(env, b, s, keys[0]), keys[1..])
  }

  // ---------------------------------------------------------------------
  // Single keys

  /** A second decimal point changes nothing. */
  lemma DecimalIdempotent(s: State)
    ensures HandleDecimal(HandleDecimal(s)) == HandleDecimal(s)
  {
  }

  /** Switching the angle mode twice gives back the state. */
  lemma ToggleTwice(s: State)
    ensures ToggleAngleMode(ToggleAngleMode(s)) == s
  {
  }

  /** C and AC are idempotent, and C after AC is AC. */
  lemma ClearIdempotent(s: State)
    ensures HandleClear(HandleClear(s)) == HandleClear(s)
    ensures HandleAllClear(HandleAllClear(s)) == HandleAllClear(s)
    ensures HandleClear(HandleAllClear(s)) == HandleAllClear(s)
  {
  }

  /** M+ followed by M- of the same display gives back the memory, whatever
      it held, provided the display does not parse to an infinity (with
      exact arithmetic; the doubles of the source may round). */
  lemma MemoryAddThenSubtract(env: Env, s: State)
    requires !env.parseFloat(s.display).Infinity?
    ensures HandleMemory(env, HandleMemory(env, s, "M+"), "M-") == s
  {
    var t := HandleMemory(env, s, "M+");
    assert CurrentValue(env, t) == CurrentValue(env, s);
    AddSubRoundTrip(s.memory, CurrentValue(env, s));
  }

  /** After MC, MR shows zero. */
  lemma MemoryClearThenRecall(env: Env, s: State)
    ensures HandleMemory(env, HandleMemory(env, s, "MC"), "MR") == s.(memory := Zero, display := env.toString(Zero))
  {
  }

  /** Pressing `=` again evaluates the result shown, in the same mode. */
  lemma EqualsAgain(env: Env, b: Build, s: State)
    ensures var t := HandleEquals(env, b, s);
      HandleEquals(env, b, t).display == env.evaluate(b.translate(t.display, s.isRadians))
  {
    var t := HandleEquals(env, b, s);
    assert Pending(t) == t.display;
  }

  /** An operator after `=` continues from the result. */
  lemma OperatorAfterEquals(env: Env, b: Build, s: State, op: string)
    ensures HandleOperator(HandleEquals(env, b, s), op).expression == HandleEquals(env, b, s).display + op
  {
    assert Pending(HandleEquals(env, b, s)) == HandleEquals(env, b, s).display;
  }

  // ---------------------------------------------------------------------
  // Sequences of keys

  /** Pressing `a` and then `b` is pressing `a + b`. */
  lemma {:induction false} RunAppend(env: Env, b: Build, s: State, xs: seq<Key>, ys: seq<Key>)
    ensures Run(env, b, s, xs + ys) == Run(env, b, Run(env, b, s, xs), ys)
    decreases |xs|
  {
    if xs == [] {
      assert xs + ys == ys;
    } else {
      assert (xs + ys)[0] == xs[0];
      assert (xs + ys)[1..] == xs[1..] + ys;
      RunAppend(env, b, Step(env, b, s, xs[0]), xs[1..], ys);
    }
  }

  /** What one key press keeps: the angle mode unless it is RAD/DEG, the
      memory unless the key writes it, the expression as a prefix unless
      the key restarts it, and a last result that is not `NaN`. */
  lemma StepKeeps(env: Env, b: Build, s: State, k: Key)
    ensures Step(env, b, s, k).isRadians == (s.isRadians != k.AngleKey?)
    ensures !WritesMemory(k) ==> Step(env, b, s, k).memory == s.memory
    ensures !Restarts(k) ==> s.expression <= Step(env, b, s, k).expression
    ensures !s.lastResult.NaN? ==> !Step(env, b, s, k).lastResult.NaN?
  {
    match k
    case FunctionKey(func) =>
      if b.correctedKeys {
        var r := CorrectedHandleFunction(env, s, func);
        assert func != "x!" ==> r.expression == s.expression + KeyText(func, s.display) || r.expression == s.expression;
      } else {
        var r := HandleFunction(env, s, func);
        assert func != "x!" ==> r.expression == s.expression + KeyText(func, s.display);
      }
    case MemoryKey(action) =>
    case _ =>
  }

  /** The number of RAD/DEG presses. */
  function Toggles(keys: seq<Key>): nat
    decreases |keys|
  {
    if keys == [] then 0 else (if keys[0].AngleKey? then 1 else 0) + Toggles(keys[1..])
  }

  /** Only RAD/DEG changes the angle mode: after any keys it is flipped
      exactly when that key was pressed an odd number of times. */
  lemma {:induction false} RunAngleParity(env: Env, b: Build, s: State, keys: seq<Key>)
    ensures Run(env, b, s, keys).isRadians == (s.isRadians != (Toggles(keys) % 2 == 1))
    decreases |keys|
  {
    if keys != [] {
      var t := Step(env, b, s, keys[0]);
      StepKeeps(env, b, s, keys[0]);
      RunAngleParity(env, b, t, keys[1..]);
    }
  }

  /** MC, M+ and M- are the keys that write the memory. */
  predicate WritesMemory(k: Key)
  {
    k.MemoryKey? && k.action in {"MC", "M+", "M-"}
  }

  /** Keys that do not write the memory leave it as it is. */
  lemma {:induction false} RunKeepsMemory(env: Env, b: Build, s: State, keys: seq<Key>)
    requires forall i :: 0 <= i < |keys| ==> !WritesMemory(keys[i])
    ensures Run(env, b, s, keys).memory == s.memory
    decreases |keys|
  {
    if keys != [] {
      var t := Step(env, b, s, keys[0]);
      StepKeeps(env, b, s, keys[0]);
      RunKeepsMemory(env, b, t, keys[1..]);
    }
  }

  /** `=` and AC are the keys that empty the expression. */
  predicate Restarts(k: Key)
  {
    k.EqualsKey? || k.AllClearKey?
  }

  /** Between restarts the expression only grows at its end: what has been
      entered stays a prefix. */
  lemma {:induction false} RunExtendsExpression(env: Env, b: Build, s: State, keys: seq<Key>)
    requires forall i :: 0 <= i < |keys| ==> !Restarts(keys[i])
    ensures s.expression <= Run(env, b, s, keys).expression
    decreases |keys|
  {
    if keys != [] {
      var t := Step(env, b, s, keys[0]);
      StepKeeps(env, b, s, keys[0]);
      RunExtendsExpression(env, b, t, keys[1..]);
    }
  }

  /** The last result is never `NaN`: it starts at 0 and every `=` stores
      the parsed result or 0. */
  lemma {:induction false} RunKeepsLastResultNumeric(env: Env, b: Build, s: State, keys: seq<Key>)
    requires !s.lastResult.NaN?
    ensures !Run(env, b, s, keys).lastResult.NaN?
    decreases |keys|
  {
    if keys != [] {
      StepKeeps(env, b, s, keys[0]);
      RunKeepsLastResultNumeric(env, b, Step(env, b, s, keys[0]), keys[1..]);
    }
  }

  // ---------------------------------------------------------------------
  // Function keys: as written and corrected

  /** As written, what a function key shows is appended a second time by
      the next operator or `=`: the pending text ends in the key's text
      followed by "0" (or by the constant again). */
  lemma FunctionKeyEchoes(env: Env, s: State, func: string)
    requires func != "x!"
    ensures Pending(HandleFunction(env, s, func)) == s.expression + KeyText(func, s.display) + Echo(func)
  {
  }

  /** After 5 and x², the text that `=` evaluates is 5^20, not 5^2. */
  lemma SquareOfFivePendsPowerTwenty(env: Env)
    ensures Pending(Run(env, AsWritten, Initial, [NumberKey("5"), FunctionKey("x\U{B2}")])) == "5^20"
  {
    var s1 := Step(env, AsWritten, Initial, NumberKey("5"));
    NumberOnInitial(env, "5");
    FunctionKeyEchoes(env, s1, "x\U{B2}");
    SquareKey("5");
    RunTwo(env, AsWritten, Initial, NumberKey("5"), FunctionKey("x\U{B2}"));
  }

  /** After π, the text that `=` evaluates is ππ. */
  lemma PiPendsTwice(env: Env)
    ensures Pending(Run(env, AsWritten, Initial, [FunctionKey([Pi])])) == [Pi, Pi]
  {
    FunctionKeyEchoes(env, Initial, [Pi]);
    PiKey("0");
    RunOne(env, AsWritten, Initial, FunctionKey([Pi]));
  }

  /** So π, = hands `eval` text that still holds π, while the corrected
      keypad hands it the digits of `Math.PI` instead. */
  lemma PiKeyReachesEval(env: Env, isRadians: bool)
    ensures Pi in AsWritten.translate(Pending(Run(env, AsWritten, Initial, [FunctionKey([Pi])])), isRadians)
    ensures Pi !in Corrected.translate(Pending(Run(env, Corrected, Initial, [FunctionKey([Pi])])), isRadians)
  {
    PiPendsTwice(env);
    PiSurvivesRewrite([Pi, Pi], isRadians);
    CorrectedPiPendsOnce(env);
    CorrectedRewriteRemovesPi([Pi], isRadians);
  }

  /** As written, after `=` shows 5 the keys +, 5, 3 leave 5+3 pending,
      not 5+53: the 5 typed after the operator reads as the last result,
      so the 3 replaces it. */
  lemma DigitAfterResultRestarts(env: Env, s: State)
    requires env.evaluate(Rewrite(Pending(s), s.isRadians)) == "5"
    requires env.parseFloat("5") == Finite(5.0) && env.toString(Finite(5.0)) == "5"
    ensures Pending(Run(env, AsWritten, s, [EqualsKey, OperatorKey("+"), NumberKey("5"), NumberKey("3")])) == "5+3"
  {
    var keys := [EqualsKey, OperatorKey("+"), NumberKey("5"), NumberKey("3")];
    var s1 := Step(env, AsWritten, s, EqualsKey);
    assert s1.display == "5" && s1.expression == "" && s1.lastResult == Finite(5.0);
    var s2 := Step(env, AsWritten, s1, OperatorKey("+"));
    assert s2.expression == "5+" && s2.display == "0";
    var s3 := Step(env, AsWritten, s2, NumberKey("5"));
    assert s3.display == "5" && s3.lastResult == Finite(5.0);
    var s4 := Step(env, AsWritten, s3, NumberKey("3"));
    assert s4.expression == "5+" && s4.display == "3";
    assert keys[1..] == [OperatorKey("+"), NumberKey("5"), NumberKey("3")];
    RunTwo(env, AsWritten, s2, NumberKey("5"), NumberKey("3"));
    assert Run(env, AsWritten, s1, keys[1..]) == Run(env, AsWritten, s2, [NumberKey("5"), NumberKey("3")]);
  }

  /** Corrected, the same keys leave 5+53 pending. */
  lemma CorrectedDigitAfterResult(env: Env, s: State)
    requires env.evaluate(CorrectedRewrite(Pending(s), s.isRadians)) == "5"
    ensures
      var o := HandleOperator(HandleEquals(env, Corrected, s), "+");
      Pending(CorrectedHandleNumber(CorrectedHandleNumber(o, "5", false), "3", false)) == "5+53"
  {
    var o := HandleOperator(HandleEquals(env, Corrected, s), "+");
    assert o.expression == "5+" && o.display == "0" && !o.hasError;
    var d := CorrectedHandleNumber(o, "5", false);
    assert d.display == "5" && !d.hasError;
  }

  lemma NumberOnInitial(env: Env, num: string)
    ensures HandleNumber(env, Initial, num) == Initial.(display := num)
  {
  }

  lemma SquareKey(d: string)
    ensures KeyText("x\U{B2}", d) == d + "^2" && Echo("x\U{B2}") == "0"
  {
    assert !IsConstant("x\U{B2}");
  }

  lemma PiKey(d: string)
    ensures KeyText([Pi], d) == [Pi] && Echo([Pi]) == [Pi]
  {
  }

  /** Corrected, the key's text enters the pending text exactly once. */
  lemma CorrectedFunctionKeyEntersOnce(env: Env, s: State, func: string)
    requires func != "x!"
    ensures Pending(CorrectedHandleFunction(env, s, func)) == s.expression + KeyText(func, s.display)
  {
  }

  /** Corrected, after 5 and x² the text that `=` evaluates is 5^2. */
  lemma CorrectedSquareOfFive(env: Env)
    ensures Pending(Run(env, Corrected, Initial, [NumberKey("5"), FunctionKey("x\U{B2}")])) == "5^2"
  {
    var s1 := Step(env, Corrected, Initial, NumberKey("5"));
    NumberOnInitial(env, "5");
    CorrectedFunctionKeyEntersOnce(env, s1, "x\U{B2}");
    SquareKey("5");
    RunTwo(env, Corrected, Initial, NumberKey("5"), FunctionKey("x\U{B2}"));
  }

  /** Corrected, after π the text that `=` evaluates is π alone. */
  lemma CorrectedPiPendsOnce(env: Env)
    ensures Pending(Run(env, Corrected, Initial, [FunctionKey([Pi])])) == [Pi]
  {
    CorrectedFunctionKeyEntersOnce(env, Initial, [Pi]);
    PiKey("0");
    RunOne(env, Corrected, Initial, FunctionKey([Pi]));
  }

  lemma RunOne(env: Env, b: Build, s: State, k: Key)
    ensures Run(env, b, s, [k]) == Step(env, b, s, k)
  {
    assert [k][1..] == [];
  }

  lemma RunTwo(env: Env, b: Build, s: State, k1: Key, k2: Key)
    ensures Run(env, b, s, [k1, k2]) == Step(env, b, Step(env, b, s, k1), k2)
  {
    assert [k1, k2][1..] == [k2];
    assert [k2][1..] == [];
    assert Run(env, b, s, [k1, k2]) == Run(env, b, Step(env, b, s, k1), [k2]);
    assert Run(env, b, Step(env, b, s, k1), [k2]) == Run(env, b, Step(env, b, Step(env, b, s, k1), k2), []);
  }
}
