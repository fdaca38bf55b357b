/** With the forward trigonometric rules kept off the inverse names
    (`CalculatorEngine.CorrectedRewrite`), `asin(x)`, `acos(x)` and
    `atan(x)` reach `eval` as calls of `Math.asin`, `Math.acos` and
    `Math.atan`, converted to degrees in degree mode. */
module CorrectedInverse {
  import opened JsString
  import opened CalculatorEngine
  import opened Shadowing

  // ---------------------------------------------------------------------
  // The guarded forward rules leave `a…(x)` alone

  /** A character that neither the name nor plain arithmetic has. */
  lemma RawLacks(f: string, x: string, c: char)
    requires Plain(x) && c !in f && c != 'a' && c !in PlainChars
    ensures c !in Raw(f, x)
  {
  }

  /** A guarded rule whose pattern has a character the text lacks. */
  lemma GuardedAbsent(f: string, x: string, rule: Rule, k: nat)
    requires Plain(x) && k < |rule.pattern|
    requires rule.pattern[k] !in f && rule.pattern[k] != 'a' && rule.pattern[k] !in PlainChars
    ensures GuardedStep(Raw(f, x), rule) == Raw(f, x)
  {
    RawLacks(f, x, rule.pattern[k]);
    UnlessAfterAbsent(Raw(f, x), rule.pattern, rule.replacement, 'a', false, k);
  }

  /** The same for an unguarded rule. */
  lemma StepAbsent(f: string, x: string, rule: Rule, k: nat)
    requires Plain(x) && k < |rule.pattern|
    requires rule.pattern[k] !in f && rule.pattern[k] != 'a' && rule.pattern[k] !in PlainChars
    ensures Step(Raw(f, x), rule) == Raw(f, x)
  {
    RawLacks(f, x, rule.pattern[k]);
    ReplaceAllAbsent(Raw(f, x), rule.pattern, rule.replacement, k);
  }

  /** The only occurrence follows the `a` and is refused. */
  lemma GuardedRefuses(pat: string, tail: string, rep: string)
    requires pat != [] && pat[0] != 'a' && pat[0] !in pat[1..] + tail
    ensures ReplaceAllUnlessAfter("a" + (pat + tail), pat, rep, 'a', false) == "a" + (pat + tail)
  {
    UnlessAfterRefused(pat, tail, rep, 'a');
    UnlessAfterAbsent(pat[1..] + tail, pat, rep, 'a', false, 0);
    assert [pat[0]] + (pat[1..] + tail) == pat + tail;
    assert ['a'] == "a";
  }

  /** The rule for `f(` refuses the `f(` that follows the `a`. */
  lemma GuardedOwn(f: string, x: string, isRadians: bool)
    requires Plain(x) && f != [] && f[0] != 'a' && f[0] != '(' && f[0] !in PlainChars && f[0] !in f[1..]
    ensures GuardedStep(Raw(f, x), Forward(f, isRadians)) == Raw(f, x)
  {
    var pat, rep := f + "(", Forward(f, isRadians).replacement;
    var tail := x + ")";
    assert pat[0] == f[0] && pat[1..] == f[1..] + "(";
    assert pat[0] !in pat[1..] + tail;
    GuardedRefuses(pat, tail, rep);
    assert Raw(f, x) == "a" + (pat + tail);
  }

  lemma RawCorrectedForward(f: string, x: string, isRadians: bool)
    requires Trig(f) && Plain(x)
    ensures CorrectedForward(Raw(f, x), isRadians) == Raw(f, x)
  {
    if f == "sin" {
      GuardedSin(x, isRadians);
    } else if f == "cos" {
      GuardedCos(x, isRadians);
    } else {
      GuardedTan(x, isRadians);
    }
  }

  lemma GuardedSin(x: string, isRadians: bool)
    requires Plain(x)
    ensures CorrectedForward(Raw("sin", x), isRadians) == Raw("sin", x)
  {
    GuardedOwn("sin", x, isRadians);
    GuardedAbsent("sin", x, Forward("cos", isRadians), 0);
    GuardedAbsent("sin", x, Forward("tan", isRadians), 0);
    GuardedChain(Raw("sin", x), isRadians);
  }

  lemma GuardedCos(x: string, isRadians: bool)
    requires Plain(x)
    ensures CorrectedForward(Raw("cos", x), isRadians) == Raw("cos", x)
  {
    GuardedAbsent("cos", x, Forward("sin", isRadians), 1);
    GuardedOwn("cos", x, isRadians);
    GuardedAbsent("cos", x, Forward("tan", isRadians), 0);
    GuardedChain(Raw("cos", x), isRadians);
  }

  lemma GuardedTan(x: string, isRadians: bool)
    requires Plain(x)
    ensures CorrectedForward(Raw("tan", x), isRadians) == Raw("tan", x)
  {
    GuardedAbsent("tan", x, Forward("sin", isRadians), 0);
    GuardedAbsent("tan", x, Forward("cos", isRadians), 0);
    GuardedOwn("tan", x, isRadians);
    GuardedChain(Raw("tan", x), isRadians);
  }

  lemma GuardedChain(s: string, isRadians: bool)
    requires GuardedStep(s, Forward("sin", isRadians)) == s
    requires GuardedStep(s, Forward("cos", isRadians)) == s
    requires GuardedStep(s, Forward("tan", isRadians)) == s
    ensures CorrectedForward(s, isRadians) == s
  {
  }

  lemma RawCorrectedConstants(f: string, x: string)
    requires Trig(f) && Plain(x)
    ensures CorrectedConstants(Raw(f, x)) == Raw(f, x)
  {
    var s := Raw(f, x);
    assert Pi !in s && 'e' !in s;
    StepIdentity(s, CorrectedPiRule);
    StepIdentity(s, ERule);
  }

  // ---------------------------------------------------------------------
  // The inverse rule now finds its pattern

  /** What the inverse rule makes of `a…(x)`: its replacement, then `x)`. */
  function Entered(f: string, x: string, isRadians: bool): string
  {
    Inverse("a" + f, isRadians).replacement + x + ")"
  }

  lemma EnteredPieces(f: string, x: string, isRadians: bool)
    ensures isRadians ==> Entered(f, x, isRadians) == "Math." + ("a" + ((f + "(") + (x + ")")))
    ensures !isRadians ==>
      Entered(f, x, isRadians) == "(" + ("180/" + ("Math." + ("PI*" + ("Math." + ("a" + ((f + "(") + (x + ")")))))))
  {
  }

  /** What a pattern must not look like for a match never to start inside
      the entered text: clear of `f`, and no `a` followed by `f`'s first
      character. */
  predicate InverseClear(pat: string, f: string)
  {
    f != [] && Clear(pat, f) && (pat[0] == 'a' ==> |pat| >= 2 && pat[1] != f[0])
  }

  lemma EnteredFixed(f: string, x: string, isRadians: bool, rule: Rule)
    requires Trig(f) && Plain(x) && InverseClear(rule.pattern, f)
    ensures Step(Entered(f, x, isRadians), rule) == Entered(f, x, isRadians)
  {
    var pat, rep := rule.pattern, rule.replacement;
    var tail := x + ")";
    var name := "a" + ((f + "(") + tail);
    assert pat[0] !in tail;
    ReplaceAllAbsent(tail, pat, rep, 0);
    PassName(f, tail, pat, rep);
    assert ((f + "(") + tail)[0] == f[0];
    PassChar('a', (f + "(") + tail, pat, rep);
    assert ['a'] == "a";
    PassMath(name, pat, rep);
    EnteredPieces(f, x, isRadians);
    if !isRadians {
      PassAbsent("PI*", "Math." + name, pat, rep);
      PassMath("PI*" + ("Math." + name), pat, rep);
      PassAbsent("180/", "Math." + ("PI*" + ("Math." + name)), pat, rep);
      PassAbsent("(", "180/" + ("Math." + ("PI*" + ("Math." + name))), pat, rep);
    }
  }

  /** A whole-text match is replaced once. */
  lemma HitWhole(pat: string, tail: string, rep: string)
    requires pat != [] && pat[0] !in tail
    ensures ReplaceAll(pat + tail, pat, rep) == rep + tail
  {
    ReplaceAllHit(tail, pat, rep);
    ReplaceAllAbsent(tail, pat, rep, 0);
  }

  lemma InverseHit(f: string, x: string, isRadians: bool)
    requires Plain(x)
    ensures Step(Raw(f, x), Inverse("a" + f, isRadians)) == Entered(f, x, isRadians)
  {
    var pat, rep := "a" + f + "(", Inverse("a" + f, isRadians).replacement;
    var tail := x + ")";
    assert pat[0] == 'a' && pat[0] !in tail;
    HitWhole(pat, tail, rep);
    assert Raw(f, x) == pat + tail;
    assert Entered(f, x, isRadians) == rep + tail;
  }

  lemma InverseChain(s: string, isRadians: bool, asin: string, acos: string, atan: string)
    requires Step(s, Inverse("asin", isRadians)) == asin
    requires Step(asin, Inverse("acos", isRadians)) == acos
    requires Step(acos, Inverse("atan", isRadians)) == atan
    ensures ReplaceInverse(s, isRadians) == atan
  {
  }

  /** Of the three inverse rules exactly the one for the key fires. */
  lemma RawInverse(f: string, x: string, isRadians: bool)
    requires Trig(f) && Plain(x)
    ensures ReplaceInverse(Raw(f, x), isRadians) == Entered(f, x, isRadians)
  {
    if f == "sin" {
      RawInverseSin(x, isRadians);
    } else if f == "cos" {
      RawInverseCos(x, isRadians);
    } else {
      RawInverseTan(x, isRadians);
    }
  }

  /** The inverse rules after the one that fired find nothing in its
      replacement. */
  lemma ClearLaterInverse(isRadians: bool)
    ensures InverseClear(Inverse("acos", isRadians).pattern, "sin")
    ensures InverseClear(Inverse("atan", isRadians).pattern, "sin")
    ensures InverseClear(Inverse("atan", isRadians).pattern, "cos")
  {
  }

  lemma RawInverseSin(x: string, isRadians: bool)
    requires Plain(x)
    ensures ReplaceInverse(Raw("sin", x), isRadians) == Entered("sin", x, isRadians)
  {
    var entered := Entered("sin", x, isRadians);
    InverseHit("sin", x, isRadians);
    assert "a" + "sin" == "asin";
    ClearLaterInverse(isRadians);
    EnteredFixed("sin", x, isRadians, Inverse("acos", isRadians));
    EnteredFixed("sin", x, isRadians, Inverse("atan", isRadians));
    InverseChain(Raw("sin", x), isRadians, entered, entered, entered);
  }

  lemma RawInverseCos(x: string, isRadians: bool)
    requires Plain(x)
    ensures ReplaceInverse(Raw("cos", x), isRadians) == Entered("cos", x, isRadians)
  {
    var raw, entered := Raw("cos", x), Entered("cos", x, isRadians);
    StepAbsent("cos", x, Inverse("asin", isRadians), 2);
    InverseHit("cos", x, isRadians);
    assert "a" + "cos" == "acos";
    ClearLaterInverse(isRadians);
    EnteredFixed("cos", x, isRadians, Inverse("atan", isRadians));
    InverseChain(raw, isRadians, raw, entered, entered);
  }

  lemma RawInverseTan(x: string, isRadians: bool)
    requires Plain(x)
    ensures ReplaceInverse(Raw("tan", x), isRadians) == Entered("tan", x, isRadians)
  {
    var raw := Raw("tan", x);
    StepAbsent("tan", x, Inverse("asin", isRadians), 1);
    StepAbsent("tan", x, Inverse("acos", isRadians), 1);
    InverseHit("tan", x, isRadians);
    assert "a" + "tan" == "atan";
    InverseChain(raw, isRadians, raw, raw, Entered("tan", x, isRadians));
  }

  lemma EnteredNamed(f: string, x: string, isRadians: bool)
    requires Trig(f) && Plain(x)
    ensures ReplaceNamed(Entered(f, x, isRadians)) == Entered(f, x, isRadians)
    ensures ReplacePower(Entered(f, x, isRadians)) == Entered(f, x, isRadians)
  {
    ClearNamedShort(f);
    ClearNamedLong(f);
    assert InverseClear(MathCall("abs", "abs").pattern, f);
    assert InverseClear(PowerRule.pattern, f);
    EnteredFixed(f, x, isRadians, MathCall("log", "log10"));
    EnteredFixed(f, x, isRadians, MathCall("ln", "log"));
    EnteredFixed(f, x, isRadians, MathCall("sqrt", "sqrt"));
    EnteredFixed(f, x, isRadians, MathCall("abs", "abs"));
    EnteredFixed(f, x, isRadians, PowerRule);
  }

  /** The corrected chain turns `asin(x)`, `acos(x)` and `atan(x)` into the
      replacement of the inverse rule, followed by `x)`. */
  lemma CorrectedSubstitute(f: string, x: string, isRadians: bool)
    requires Trig(f) && Plain(x)
    ensures CorrectedFunctions(CorrectedConstants(Raw(f, x)), isRadians) == Entered(f, x, isRadians)
  {
    RawCorrectedConstants(f, x);
    RawCorrectedForward(f, x, isRadians);
    RawInverse(f, x, isRadians);
    EnteredNamed(f, x, isRadians);
  }

  // ---------------------------------------------------------------------
  // The degree-mode pass over the entered text

  /** The entered degree-mode text with its closing `tail`: `)` before the
      pass, `))` after the head of the key's own inverse rule has matched. */
  function Converted(f: string, x: string, tail: string): string
  {
    "(" + InverseHead("a" + f) + x + tail
  }

  lemma ConvertedAtMath(f: string, x: string, tail: string)
    ensures Converted(f, x, tail)
         == "(180/" + (("Math." + "PI*") + (("Math." + ("a" + (f + "("))) + (x + tail)))
  {
  }

  lemma ConvertedAtOne(f: string, x: string, tail: string)
    ensures Converted(f, x, tail) == "(" + ("1" + (("80/Math.PI*Math.a" + f + "(") + (x + tail)))
  {
  }

  /** A forward head finds nothing: each `Math.` is followed by `P` or `a`. */
  lemma ConvertedForwardHead(f: string, g: string, x: string, tail: string)
    requires Trig(f) && Trig(g) && Plain(x) && Plain(tail)
    ensures DoubleClose(Converted(f, x, tail), ForwardHead(g)) == Converted(f, x, tail)
  {
    var head := ForwardHead(g);
    var call := "a" + (f + "(");
    var rest := ("Math." + call) + (x + tail);
    assert head[0] == 'M' && head[5] == g[0] && |head| > 5;
    assert 'M' !in x + tail && 'M' !in call;
    DoubleCloseAbsent(x + tail, head, 0);
    CloseFixedMath(call, x + tail, head);
    CloseFixedMath("PI*", rest, head);
    CloseAbsent("(180/", ("Math." + "PI*") + rest, head);
    ConvertedAtMath(f, x, tail);
  }

  /** The inverse head of another name differs right after `Math.a`. */
  lemma ConvertedOtherInverseHead(f: string, g: string, x: string, tail: string)
    requires Trig(f) && Trig(g) && f != g && Plain(x) && Plain(tail)
    ensures DoubleClose(Converted(f, x, tail), InverseHead("a" + g)) == Converted(f, x, tail)
  {
    var head := InverseHead("a" + g);
    var mid := "80/Math.PI*Math.a" + f + "(";
    var rest := mid + (x + tail);
    assert head[0] == '1' && head[4] == 'M';
    assert 'M' !in x + tail && '1' !in mid;
    DoubleCloseAbsent(x + tail, head, 4);
    CloseAbsent(mid, x + tail, head);
    assert !(head <= ['1'] + rest) by {
      if |head| <= |['1'] + rest| {
        assert (['1'] + rest)[18] == f[0] && head[18] == g[0];
      }
    }
    CloseMiss('1', rest, head);
    assert ['1'] == "1";
    CloseAbsent("(", "1" + rest, head);
    ConvertedAtOne(f, x, tail);
  }

  /** The key's own inverse head matches once and adds one `)`. */
  lemma ConvertedOwnHead(f: string, x: string)
    requires x != [] && ')' !in x
    ensures DoubleClose(Converted(f, x, ")"), InverseHead("a" + f)) == Converted(f, x, "))")
  {
    var head := InverseHead("a" + f);
    assert head[0] == '1';
    DoubleCloseAtMatch(head, x, []);
    assert DoubleClose([], head) == [];
    assert head + x + ")" + [] == head + x + ")";
    CloseAbsent("(", head + x + ")", head);
    assert Converted(f, x, ")") == "(" + (head + x + ")");
    assert Converted(f, x, "))") == "(" + (head + x + "))");
  }

  /** Every degree-mode head but the key's own inverse head leaves the
      text alone. */
  lemma ConvertedOtherHead(f: string, x: string, tail: string, i: nat)
    requires Trig(f) && Plain(x) && Plain(tail) && i < |DegreeHeads| && i != 3 + HeadIndex(f)
    ensures DegreeHeads[i] != []
    ensures DoubleClose(Converted(f, x, tail), DegreeHeads[i]) == Converted(f, x, tail)
  {
    DegreeHeadsFacts();
    var g := if i % 3 == 0 then "sin" else if i % 3 == 1 then "cos" else "tan";
    if i < 3 {
      assert DegreeHeads[i] == ForwardHead(g);
      ConvertedForwardHead(f, g, x, tail);
    } else {
      assert DegreeHeads[i] == InverseHead("a" + g) && g != f;
      ConvertedOtherInverseHead(f, g, x, tail);
    }
  }

  lemma EnteredCloseDegrees(f: string, x: string)
    requires Trig(f) && Plain(x) && x != [] && ')' !in x
    ensures CloseDegrees(Entered(f, x, false)) == Converted(f, x, "))")
  {
    DegreeHeadsFacts();
    var k := 3 + HeadIndex(f);
    var s, d := Converted(f, x, ")"), Converted(f, x, "))");
    assert Entered(f, x, false) == s;
    assert DegreeHeads[k] == InverseHead("a" + f);
    ConvertedOwnHead(f, x);
    forall i | 0 <= i < |DegreeHeads| && i != k
      ensures DoubleClose(s, DegreeHeads[i]) == s && DoubleClose(d, DegreeHeads[i]) == d
    {
      ConvertedOtherHead(f, x, ")", i);
      ConvertedOtherHead(f, x, "))", i);
    }
    CloseAllOne(DegreeHeads, k, s, d);
  }

  // ---------------------------------------------------------------------
  // The result

  /** Corrected, `asin(x)`, `acos(x)` and `atan(x)` reach `eval` as
      `Math.asin(x)` and its like in radians, and as
      `(180/Math.PI*Math.asin(x))` and its like in degrees. */
  lemma CorrectedInverseCalls(f: string, x: string, isRadians: bool)
    requires Trig(f) && Plain(x) && x != [] && ')' !in x
    ensures isRadians ==> CorrectedRewrite("a" + f + "(" + x + ")", isRadians) == Call("a" + f) + x + ")"
    ensures !isRadians ==>
      CorrectedRewrite("a" + f + "(" + x + ")", isRadians) == "(" + RadToDeg + Call("a" + f) + x + "))"
  {
    CorrectedSubstitute(f, x, isRadians);
    CorrectedText(f, x);
    if isRadians {
      CorrectedRewriteRadians(Raw(f, x), Entered(f, x, true));
    } else {
      EnteredCloseDegrees(f, x);
      CorrectedRewriteDegrees(Raw(f, x), Entered(f, x, false), Converted(f, x, "))"));
    }
  }

  lemma CorrectedText(f: string, x: string)
    ensures Raw(f, x) == "a" + f + "(" + x + ")"
    ensures Entered(f, x, true) == Call("a" + f) + x + ")"
    ensures Converted(f, x, "))") == "(" + RadToDeg + Call("a" + f) + x + "))"
  {
  }

  lemma CorrectedRewriteRadians(expr: string, t: string)
    requires CorrectedFunctions(CorrectedConstants(expr), true) == t
    ensures CorrectedRewrite(expr, true) == t
  {
  }

  lemma CorrectedRewriteDegrees(expr: string, t: string, d: string)
    requires CorrectedFunctions(CorrectedConstants(expr), false) == t && CloseDegrees(t) == d
    ensures CorrectedRewrite(expr, false) == d
  {
  }
}
