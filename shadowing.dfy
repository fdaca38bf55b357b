/** The inverse trigonometric rules of the replacement chain never see
    their pattern in a keypad expression: `sin(`, `cos(` and `tan(` are
    replaced first, and the `asin(` of `asin(x)` has already lost its
    `sin(` by then; likewise `acos(` and `atan(`. */
module Shadowing {
  import opened JsString
  import opened CalculatorEngine

  /** The names whose inverse the keypad writes as `a` followed by them. */
  predicate Trig(f: string)
  {
    f == "sin" || f == "cos" || f == "tan"
  }

  // ---------------------------------------------------------------------
  // Prefixes a replacement copies unchanged

  /** No match of `pat` starts inside `u`, so `u` is copied unchanged. */
  predicate Passes(u: string, v: string, pat: string, rep: string)
    requires pat != []
  {
    ReplaceAll(u + v, pat, rep) == u + ReplaceAll(v, pat, rep)
  }

  lemma PassAbsent(u: string, v: string, pat: string, rep: string)
    requires pat != [] && pat[0] !in u
    ensures Passes(u, v, pat, rep)
  {
    ReplaceAllSkip(u, v, pat, rep);
  }

  lemma PassJoin(a: string, b: string, v: string, pat: string, rep: string)
    requires pat != [] && Passes(a, b + v, pat, rep) && Passes(b, v, pat, rep)
    ensures Passes(a + b, v, pat, rep)
  {
    assert (a + b) + v == a + (b + v);
  }

  /** One character no match starts at: it is not the pattern's first
      character, or the character after it is not the pattern's second. */
  lemma PassChar(c: char, v: string, pat: string, rep: string)
    requires pat != [] && (pat[0] != c || (|pat| >= 2 && v != [] && pat[1] != v[0]))
    ensures Passes([c], v, pat, rep)
  {
    if pat[0] != c {
      PassAbsent([c], v, pat, rep);
    } else {
      assert !(pat <= [c] + v) by {
        if |pat| <= |[c] + v| {
          assert ([c] + v)[1] == v[0];
        }
      }
      ReplaceAllMiss(c, v, pat, rep);
    }
  }

  /** What a pattern must not look like for a match never to start inside
      the `a`, the `Math.` pieces or the degree factor of the text an
      inverse key's `a…(x)` is turned into. */
  predicate MathClear(pat: string)
  {
    && pat != []
    && pat[0] !in PlainChars
    && pat[0] != 'M' && pat[0] != 'h' && pat[0] != 'P' && pat[0] != 'I'
    && (pat[0] == 'a' ==> |pat| >= 3 && pat[1] != 'M' && pat[1] != '(' && (pat[1] != 't' || pat[2] != 'h'))
    && (pat[0] == 't' ==> |pat| >= 2 && pat[1] != 'h')
  }

  /** What a pattern must not look like for a match never to start inside
      the name `f(`. */
  predicate NameClear(pat: string, f: string)
    requires pat != []
  {
    if f == "sin" then
      pat[0] != 'i' && pat[0] != 'n' && (pat[0] == 's' ==> |pat| >= 2 && pat[1] != 'i')
    else if f == "cos" then
      && pat[0] != 'o'
      && (pat[0] == 'c' ==> |pat| >= 2 && pat[1] != 'o')
      && (pat[0] == 's' ==> |pat| >= 2 && pat[1] != '(')
    else
      && pat[0] != 'n'
      && (pat[0] == 't' ==> |pat| >= 2 && pat[1] != 'a')
      && (pat[0] == 'a' ==> |pat| >= 2 && pat[1] != 'n')
  }

  predicate Clear(pat: string, f: string)
  {
    MathClear(pat) && NameClear(pat, f)
  }

  lemma PassMath(v: string, pat: string, rep: string)
    requires MathClear(pat)
    ensures Passes("Math.", v, pat, rep)
  {
    if pat[0] == 'a' {
      assert !(pat <= ['a'] + ("th." + v)) by {
        if |pat| <= |['a'] + ("th." + v)| {
          assert (['a'] + ("th." + v))[1] == 't' && (['a'] + ("th." + v))[2] == 'h';
        }
      }
      PassAbsent("M", "ath." + v, pat, rep);
      ReplaceAllMiss('a', "th." + v, pat, rep);
      PassAbsent("th.", v, pat, rep);
      PassJoin(['a'], "th.", v, pat, rep);
      assert ['a'] + "th." == "ath.";
      PassJoin("M", "ath.", v, pat, rep);
      assert "M" + "ath." == "Math.";
    } else if pat[0] == 't' {
      PassAbsent("Ma", "th." + v, pat, rep);
      PassChar('t', "h." + v, pat, rep);
      PassAbsent("h.", v, pat, rep);
      PassJoin(['t'], "h.", v, pat, rep);
      assert ['t'] + "h." == "th.";
      PassJoin("Ma", "th.", v, pat, rep);
      assert "Ma" + "th." == "Math.";
    } else {
      PassAbsent("Math.", v, pat, rep);
    }
  }

  /** The name `f(`, one character at a time. */
  lemma PassName(f: string, v: string, pat: string, rep: string)
    requires Trig(f) && pat != [] && pat[0] !in PlainChars && NameClear(pat, f)
    ensures Passes(f + "(", v, pat, rep)
  {
    var a, b, c := f[0], f[1], f[2];
    assert f + "(" == [a] + ([b] + ([c] + "("));
    assert pat[0] != c || (|pat| >= 2 && pat[1] != '(');
    assert pat[0] != b || (|pat| >= 2 && pat[1] != c);
    assert pat[0] != a || (|pat| >= 2 && pat[1] != b);
    PassAbsent("(", v, pat, rep);
    PassChar(c, "(" + v, pat, rep);
    PassJoin([c], "(", v, pat, rep);
    PassChar(b, ([c] + "(") + v, pat, rep);
    PassJoin([b], [c] + "(", v, pat, rep);
    PassChar(a, ([b] + ([c] + "(")) + v, pat, rep);
    PassJoin([a], [b] + ([c] + "("), v, pat, rep);
  }

  /** The leading `a`, followed by `M` (radians) or `(` (degrees). */
  lemma PassA(v: string, pat: string, rep: string)
    requires MathClear(pat) && v != [] && (v[0] == 'M' || v[0] == '(')
    ensures Passes("a", v, pat, rep)
  {
    PassChar('a', v, pat, rep);
    assert ['a'] == "a";
  }

  // ---------------------------------------------------------------------
  // The text an inverse key's `a…(x)` becomes

  /** What the keypad enters for an inverse key and a display `x`:
      `asin(x)`, `acos(x)` or `atan(x)`. */
  function Raw(f: string, x: string): string
  {
    "a" + f + "(" + x + ")"
  }

  /** That text after the `f(` rule: `a`, the `f(` replacement, `x)`. */
  function Shadowed(f: string, x: string, isRadians: bool): string
  {
    "a" + Forward(f, isRadians).replacement + x + ")"
  }

  lemma ShadowedPieces(f: string, x: string, isRadians: bool)
    ensures isRadians ==> Shadowed(f, x, isRadians) == "a" + ("Math." + ((f + "(") + (x + ")")))
    ensures !isRadians ==>
      Shadowed(f, x, isRadians) == "a" + ("(" + ("Math." + ((f + "(") + ("Math." + ("PI/180*" + (x + ")"))))))
  {
  }

  /** No pattern clear of `f` occurs in the shadowed text. */
  lemma ShadowedFixed(f: string, x: string, isRadians: bool, rule: Rule)
    requires Trig(f) && Plain(x) && Clear(rule.pattern, f)
    ensures Step(Shadowed(f, x, isRadians), rule) == Shadowed(f, x, isRadians)
  {
    var pat, rep := rule.pattern, rule.replacement;
    var tail := x + ")";
    assert pat[0] !in tail;
    ReplaceAllAbsent(tail, pat, rep, 0);
    ShadowedPieces(f, x, isRadians);
    if isRadians {
      PassName(f, tail, pat, rep);
      PassMath((f + "(") + tail, pat, rep);
      PassA("Math." + ((f + "(") + tail), pat, rep);
    } else {
      var factor := "PI/180*" + tail;
      PassAbsent("PI/180*", tail, pat, rep);
      PassMath(factor, pat, rep);
      PassName(f, "Math." + factor, pat, rep);
      PassMath((f + "(") + ("Math." + factor), pat, rep);
      PassAbsent("(", "Math." + ((f + "(") + ("Math." + factor)), pat, rep);
      PassA("(" + ("Math." + ((f + "(") + ("Math." + factor))), pat, rep);
    }
  }

  /** A forward rule for another name finds nothing in the raw text. */
  lemma RawFixed(f: string, x: string, rule: Rule)
    requires Trig(f) && Plain(x)
    requires rule.pattern != [] && rule.pattern[0] !in PlainChars && rule.pattern[0] != 'a'
    requires NameClear(rule.pattern, f)
    ensures Step(Raw(f, x), rule) == Raw(f, x)
  {
    var pat, rep := rule.pattern, rule.replacement;
    var tail := x + ")";
    assert pat[0] !in tail;
    ReplaceAllAbsent(tail, pat, rep, 0);
    PassName(f, tail, pat, rep);
    PassAbsent("a", (f + "(") + tail, pat, rep);
    assert Raw(f, x) == "a" + ((f + "(") + tail);
  }

  /** A pattern right after a leading `a`, followed by text without its
      first character, is replaced once. */
  lemma HitAfterA(pat: string, tail: string, rep: string)
    requires pat != [] && pat[0] != 'a' && pat[0] !in tail
    ensures ReplaceAll("a" + (pat + tail), pat, rep) == "a" + (rep + tail)
  {
    PassAbsent("a", pat + tail, pat, rep);
    ReplaceAllHit(tail, pat, rep);
    ReplaceAllAbsent(tail, pat, rep, 0);
  }

  /** The `f(` rule strips the raw text of its `f(`. */
  lemma RawHit(f: string, x: string, isRadians: bool)
    requires f != [] && f[0] != 'a' && f[0] !in PlainChars && Plain(x)
    ensures Step(Raw(f, x), Forward(f, isRadians)) == Shadowed(f, x, isRadians)
  {
    var rule := Forward(f, isRadians);
    RawHitRule(f, x, rule.pattern, rule.replacement);
  }

  lemma RawHitRule(f: string, x: string, pat: string, rep: string)
    requires pat == f + "(" && f != [] && f[0] != 'a' && f[0] !in PlainChars && Plain(x)
    ensures ReplaceAll(Raw(f, x), pat, rep) == "a" + rep + x + ")"
  {
    var tail := x + ")";
    assert pat[0] == f[0];
    HitAfterA(pat, tail, rep);
    assert Raw(f, x) == "a" + (pat + tail);
    assert "a" + rep + x + ")" == "a" + (rep + tail);
  }

  // ---------------------------------------------------------------------
  // The raw text through the chain, stage by stage

  lemma ClearForward(f: string, isRadians: bool)
    requires Trig(f)
    ensures f != "sin" ==> NameClear(Forward("sin", isRadians).pattern, f)
    ensures f == "tan" ==> NameClear(Forward("cos", isRadians).pattern, f)
    ensures f == "sin" ==> Clear(Forward("cos", isRadians).pattern, f)
    ensures f != "tan" ==> Clear(Forward("tan", isRadians).pattern, f)
  {
  }

  lemma ClearInverse(f: string, isRadians: bool)
    requires Trig(f)
    ensures Clear(Inverse("asin", isRadians).pattern, f)
    ensures Clear(Inverse("acos", isRadians).pattern, f)
    ensures Clear(Inverse("atan", isRadians).pattern, f)
  {
  }

  lemma ClearNamedShort(f: string)
    requires Trig(f)
    ensures Clear(MathCall("log", "log10").pattern, f) && Clear(MathCall("ln", "log").pattern, f)
  {
  }

  lemma ClearNamedLong(f: string)
    requires Trig(f)
    ensures Clear(MathCall("sqrt", "sqrt").pattern, f) && Clear(MathCall("abs", "abs").pattern, f)
  {
  }

  lemma RawConstants(f: string, x: string)
    requires Trig(f) && Plain(x)
    ensures ReplaceConstants(Raw(f, x)) == Raw(f, x)
  {
    var s := Raw(f, x);
    assert PiPattern[0] !in s && 'e' !in s;
    StepIdentity(s, PiRule);
    StepIdentity(s, ERule);
  }

  /** The forward rules: the one for `f` fires, the others find nothing. */
  lemma RawForward(f: string, x: string, isRadians: bool)
    requires Trig(f) && Plain(x)
    ensures ReplaceForward(Raw(f, x), isRadians) == Shadowed(f, x, isRadians)
  {
    if f == "sin" {
      RawForwardSin(x, isRadians);
    } else if f == "cos" {
      RawForwardCos(x, isRadians);
    } else {
      RawForwardTan(x, isRadians);
    }
  }

  lemma RawForwardSin(x: string, isRadians: bool)
    requires Plain(x)
    ensures ReplaceForward(Raw("sin", x), isRadians) == Shadowed("sin", x, isRadians)
  {
    var raw, shadowed := Raw("sin", x), Shadowed("sin", x, isRadians);
    ClearForward("sin", isRadians);
    RawHit("sin", x, isRadians);
    ShadowedFixed("sin", x, isRadians, Forward("cos", isRadians));
    ShadowedFixed("sin", x, isRadians, Forward("tan", isRadians));
    ForwardChain(raw, isRadians, shadowed, shadowed, shadowed);
  }

  lemma RawForwardCos(x: string, isRadians: bool)
    requires Plain(x)
    ensures ReplaceForward(Raw("cos", x), isRadians) == Shadowed("cos", x, isRadians)
  {
    var raw, shadowed := Raw("cos", x), Shadowed("cos", x, isRadians);
    ClearForward("cos", isRadians);
    RawFixed("cos", x, Forward("sin", isRadians));
    RawHit("cos", x, isRadians);
    ShadowedFixed("cos", x, isRadians, Forward("tan", isRadians));
    ForwardChain(raw, isRadians, raw, shadowed, shadowed);
  }

  lemma RawForwardTan(x: string, isRadians: bool)
    requires Plain(x)
    ensures ReplaceForward(Raw("tan", x), isRadians) == Shadowed("tan", x, isRadians)
  {
    var raw, shadowed := Raw("tan", x), Shadowed("tan", x, isRadians);
    ClearForward("tan", isRadians);
    RawFixed("tan", x, Forward("sin", isRadians));
    RawFixed("tan", x, Forward("cos", isRadians));
    RawHit("tan", x, isRadians);
    ForwardChain(raw, isRadians, raw, raw, shadowed);
  }

  /** The three forward stages, given what each one makes of its input. */
  lemma ForwardChain(s: string, isRadians: bool, sin: string, cos: string, tan: string)
    requires Step(s, Forward("sin", isRadians)) == sin
    requires Step(sin, Forward("cos", isRadians)) == cos
    requires Step(cos, Forward("tan", isRadians)) == tan
    ensures ReplaceForward(s, isRadians) == tan
  {
  }

  lemma ShadowedInverse(f: string, x: string, isRadians: bool)
    requires Trig(f) && Plain(x)
    ensures ReplaceInverse(Shadowed(f, x, isRadians), isRadians) == Shadowed(f, x, isRadians)
  {
    ClearInverse(f, isRadians);
    ShadowedFixed(f, x, isRadians, Inverse("asin", isRadians));
    ShadowedFixed(f, x, isRadians, Inverse("acos", isRadians));
    ShadowedFixed(f, x, isRadians, Inverse("atan", isRadians));
  }

  lemma ShadowedNamed(f: string, x: string, isRadians: bool)
    requires Trig(f) && Plain(x)
    ensures ReplaceNamed(Shadowed(f, x, isRadians)) == Shadowed(f, x, isRadians)
  {
    ClearNamedShort(f);
    ClearNamedLong(f);
    ShadowedFixed(f, x, isRadians, MathCall("log", "log10"));
    ShadowedFixed(f, x, isRadians, MathCall("ln", "log"));
    ShadowedFixed(f, x, isRadians, MathCall("sqrt", "sqrt"));
    ShadowedFixed(f, x, isRadians, MathCall("abs", "abs"));
  }

  lemma ShadowedPower(f: string, x: string, isRadians: bool)
    requires Trig(f) && Plain(x)
    ensures ReplacePower(Shadowed(f, x, isRadians)) == Shadowed(f, x, isRadians)
  {
    assert Clear(PowerRule.pattern, f);
    ShadowedFixed(f, x, isRadians, PowerRule);
  }

  /** The whole chain turns `asin(x)`, `acos(x)` and `atan(x)` into `a`
      followed by the replacement of `sin(`, `cos(` or `tan(`: the
      `asin(`, `acos(` and `atan(` rules find nothing. */
  lemma RawSubstitute(f: string, x: string, isRadians: bool)
    requires Trig(f) && Plain(x)
    ensures Substitute(Raw(f, x), isRadians) == Shadowed(f, x, isRadians)
  {
    RawConstants(f, x);
    RawForward(f, x, isRadians);
    ShadowedInverse(f, x, isRadians);
    ShadowedNamed(f, x, isRadians);
    ShadowedPower(f, x, isRadians);
  }

  // ---------------------------------------------------------------------
  // The degree-mode pass over the shadowed text

  /** No match of `(head[^)]+)\)` starts inside `u`. */
  predicate ClosePasses(u: string, v: string, head: string)
    requires head != []
  {
    DoubleClose(u + v, head) == u + DoubleClose(v, head)
  }

  lemma {:induction false} CloseAbsent(u: string, v: string, head: string)
    requires head != [] && head[0] !in u
    ensures ClosePasses(u, v, head)
    decreases |u|
  {
    if u == [] {
      assert u + v == v;
    } else {
      assert (u + v)[0] == u[0];
      assert (u + v)[1..] == u[1..] + v;
      CloseAbsent(u[1..], v, head);
    }
  }

  lemma CloseMiss(c: char, v: string, head: string)
    requires head != [] && !(head <= [c] + v)
    ensures ClosePasses([c], v, head)
  {
    assert ([c] + v)[1..] == v;
  }

  lemma CloseJoin(a: string, b: string, v: string, head: string)
    requires head != [] && ClosePasses(a, b + v, head) && ClosePasses(b, v, head)
    ensures ClosePasses(a + b, v, head)
  {
    assert (a + b) + v == a + (b + v);
  }

  /** A `Math.` followed by text lacking `M`, against a head that starts
      with `Math.` and then differs. */
  lemma ClosePassMath(y: string, v: string, head: string)
    requires |head| > 5 && head[0] == 'M' && y != [] && head[5] != y[0] && 'M' !in y
    ensures ClosePasses("Math." + y, v, head)
  {
    var s := "Math." + y + v;
    assert !(head <= s) by {
      if |head| <= |s| {
        assert s[5] == y[0];
      }
    }
    assert "Math." + y + v == ['M'] + ("ath." + y + v);
    CloseMiss('M', "ath." + y + v, head);
    CloseAbsent("ath." + y, v, head);
    assert "ath." + y + v == ("ath." + y) + v;
    CloseJoin(['M'], "ath." + y, v, head);
    assert ['M'] + ("ath." + y) == "Math." + y;
  }

  /** A `Math.` piece in front of text the pass leaves alone. */
  lemma CloseFixedMath(y: string, v: string, head: string)
    requires |head| > 5 && head[0] == 'M' && y != [] && head[5] != y[0] && 'M' !in y
    requires DoubleClose(v, head) == v
    ensures DoubleClose(("Math." + y) + v, head) == ("Math." + y) + v
  {
    ClosePassMath(y, v, head);
  }

  /** The shadowed degree-mode text with its closing `tail`: `)` before
      the pass, `))` after the head of `f` has matched. */
  function Degree(f: string, x: string, tail: string): string
  {
    "a(" + ForwardHead(f) + x + tail
  }

  /** The same text cut at each `Math.`, and cut at the `1` of `180`. */
  lemma DegreeAtMath(f: string, x: string, tail: string)
    ensures Degree(f, x, tail) == "a(" + (("Math." + (f + "(")) + (("Math." + "PI/180*") + (x + tail)))
  {
  }

  lemma DegreeAtOne(f: string, x: string, tail: string)
    ensures Degree(f, x, tail) == ("a(" + Call(f) + "Math.PI/") + ("1" + ("80*" + (x + tail)))
  {
  }

  /** The head of `f` matches once and gains its text one more `)`. */
  lemma CloseOwnHead(f: string, x: string)
    requires x != [] && ')' !in x
    ensures DoubleClose(Degree(f, x, ")"), ForwardHead(f)) == Degree(f, x, "))")
  {
    var head := ForwardHead(f);
    assert head[0] == 'M';
    DoubleCloseAtMatch(head, x, []);
    assert DoubleClose([], head) == [];
    assert head + x + ")" + [] == head + x + ")";
    CloseAbsent("a(", head + x + ")", head);
    assert Degree(f, x, ")") == "a(" + (head + x + ")");
    assert Degree(f, x, "))") == "a(" + (head + x + "))");
  }

  lemma CloseForwardTail(g: string, x: string, tail: string)
    requires Trig(g) && Plain(x) && Plain(tail)
    ensures DoubleClose(("Math." + "PI/180*") + (x + tail), ForwardHead(g))
         == ("Math." + "PI/180*") + (x + tail)
  {
    var head := ForwardHead(g);
    assert head[0] == 'M' && head[5] == g[0] && |head| > 5;
    assert 'M' !in x + tail;
    DoubleCloseAbsent(x + tail, head, 0);
    CloseFixedMath("PI/180*", x + tail, head);
  }

  /** The head of another forward name finds nothing. */
  lemma CloseOtherHead(f: string, g: string, x: string, tail: string)
    requires Trig(f) && Trig(g) && f != g && Plain(x) && Plain(tail)
    ensures DoubleClose(Degree(f, x, tail), ForwardHead(g)) == Degree(f, x, tail)
  {
    var head := ForwardHead(g);
    var rest := ("Math." + "PI/180*") + (x + tail);
    CloseForwardTail(g, x, tail);
    assert head[0] == 'M' && head[5] == g[0] != f[0] && |head| > 5;
    CloseFixedMath(f + "(", rest, head);
    CloseAbsent("a(", ("Math." + (f + "(")) + rest, head);
    DegreeAtMath(f, x, tail);
  }

  lemma CloseInverseTail(g: string, x: string, tail: string)
    requires Plain(x) && Plain(tail)
    ensures DoubleClose("80*" + (x + tail), InverseHead(g)) == "80*" + (x + tail)
  {
    var head := InverseHead(g);
    assert head[0] == '1' && head[4] == 'M';
    assert 'M' !in x + tail;
    DoubleCloseAbsent(x + tail, head, 4);
    CloseAbsent("80*", x + tail, head);
  }

  /** The head of an inverse name finds nothing: `180*` is not `180/`. */
  lemma CloseInverseHead(f: string, g: string, x: string, tail: string)
    requires '1' !in f && Plain(x) && Plain(tail)
    ensures DoubleClose(Degree(f, x, tail), InverseHead(g)) == Degree(f, x, tail)
  {
    var head := InverseHead(g);
    var rest := "80*" + (x + tail);
    var front := "a(" + Call(f) + "Math.PI/";
    CloseInverseTail(g, x, tail);
    CloseInverseOne(g, rest);
    assert '1' !in front;
    assert head[0] == '1';
    CloseAbsent(front, "1" + rest, head);
    DegreeAtOne(f, x, tail);
  }

  /** The `1` of `180*`, where the head has `180/`. */
  lemma CloseInverseOne(g: string, rest: string)
    requires |rest| >= 3 && rest[2] == '*'
    ensures DoubleClose("1" + rest, InverseHead(g)) == "1" + DoubleClose(rest, InverseHead(g))
  {
    var head := InverseHead(g);
    assert head[0] == '1' && head[3] == '/';
    assert !(head <= ['1'] + rest) by {
      if |head| <= |['1'] + rest| {
        assert (['1'] + rest)[3] == '*';
      }
    }
    CloseMiss('1', rest, head);
    assert ['1'] == "1";
  }

  /** Heads that all leave `s` as it is. */
  lemma {:induction false} CloseAllFixed(heads: seq<string>, s: string)
    requires forall i :: 0 <= i < |heads| ==> heads[i] != [] && DoubleClose(s, heads[i]) == s
    ensures CloseAll(heads, s) == s
    decreases |heads|
  {
    if heads != [] {
      CloseAllFixed(heads[1..], s);
    }
  }

  /** Heads of which only the `k`-th changes `s`, into `d`, and none after
      it changes `d`. */
  lemma {:induction false} CloseAllOne(heads: seq<string>, k: nat, s: string, d: string)
    requires k < |heads| && forall i :: 0 <= i < |heads| ==> heads[i] != []
    requires forall i :: 0 <= i < k ==> DoubleClose(s, heads[i]) == s
    requires DoubleClose(s, heads[k]) == d
    requires forall i :: k < i < |heads| ==> DoubleClose(d, heads[i]) == d
    ensures CloseAll(heads, s) == d
    decreases k
  {
    var rest := heads[1..];
    assert CloseAll(heads, s) == CloseAll(rest, DoubleClose(s, heads[0]));
    if k == 0 {
      forall i | 0 <= i < |rest|
        ensures rest[i] != [] && DoubleClose(d, rest[i]) == d
      {
        assert rest[i] == heads[i + 1];
      }
      CloseAllFixed(rest, d);
    } else {
      forall i | 0 <= i < k - 1
        ensures DoubleClose(s, rest[i]) == s
      {
        assert rest[i] == heads[i + 1];
      }
      forall i | k - 1 < i < |rest|
        ensures DoubleClose(d, rest[i]) == d
      {
        assert rest[i] == heads[i + 1];
      }
      assert rest[k - 1] == heads[k];
      CloseAllOne(rest, k - 1, s, d);
    }
  }

  /** The position of the head of `f` among the degree-mode heads. */
  function HeadIndex(f: string): (k: nat)
    requires Trig(f)
    ensures k < 3 && DegreeHeads[k] == ForwardHead(f)
  {
    if f == "sin" then 0 else if f == "cos" then 1 else 2
  }

  /** Every degree-mode head but the one of `f` leaves the text alone. */
  lemma OtherHeadFixed(f: string, x: string, tail: string, i: nat)
    requires Trig(f) && Plain(x) && Plain(tail) && i < |DegreeHeads| && i != HeadIndex(f)
    ensures DegreeHeads[i] != []
    ensures DoubleClose(Degree(f, x, tail), DegreeHeads[i]) == Degree(f, x, tail)
  {
    DegreeHeadsFacts();
    if i < 3 {
      var g := if i == 0 then "sin" else if i == 1 then "cos" else "tan";
      assert DegreeHeads[i] == ForwardHead(g) && g != f;
      CloseOtherHead(f, g, x, tail);
    } else {
      var g := if i == 3 then "asin" else if i == 4 then "acos" else "atan";
      assert DegreeHeads[i] == InverseHead(g);
      CloseInverseHead(f, g, x, tail);
    }
  }

  lemma ShadowedCloseDegrees(f: string, x: string)
    requires Trig(f) && Plain(x) && x != [] && ')' !in x
    ensures CloseDegrees(Shadowed(f, x, false)) == Degree(f, x, "))")
  {
    DegreeHeadsFacts();
    var k := HeadIndex(f);
    var s, d := Degree(f, x, ")"), Degree(f, x, "))");
    assert Shadowed(f, x, false) == s;
    CloseOwnHead(f, x);
    forall i | 0 <= i < |DegreeHeads| && i != k
      ensures DoubleClose(s, DegreeHeads[i]) == s && DoubleClose(d, DegreeHeads[i]) == d
    {
      OtherHeadFixed(f, x, ")", i);
      OtherHeadFixed(f, x, "))", i);
    }
    CloseAllOne(DegreeHeads, k, s, d);
  }

  // ---------------------------------------------------------------------
  // The result

  /** `asin(x)`, `acos(x)` and `atan(x)`, for a number `x` from the
      display, reach `eval` as `a` followed by a call of `Math.sin`,
      `Math.cos` or `Math.tan`: in radians `aMath.sin(x)`, in degrees
      `a(Math.sin(Math.PI/180*x))`. */
  lemma InverseShadowed(f: string, x: string, isRadians: bool)
    requires Trig(f) && Plain(x) && x != [] && ')' !in x
    ensures isRadians ==> Rewrite("a" + f + "(" + x + ")", isRadians) == "a" + Call(f) + x + ")"
    ensures !isRadians ==>
      Rewrite("a" + f + "(" + x + ")", isRadians) == "a(" + Call(f) + DegToRad + x + "))"
  {
    RawSubstitute(f, x, isRadians);
    RawText(f, x);
    if isRadians {
      RewriteRadians(Raw(f, x), Shadowed(f, x, true));
    } else {
      ShadowedCloseDegrees(f, x);
      RewriteDegrees(Raw(f, x), Shadowed(f, x, false), Degree(f, x, "))"));
    }
  }

  lemma RawText(f: string, x: string)
    ensures Raw(f, x) == "a" + f + "(" + x + ")"
    ensures Shadowed(f, x, true) == "a" + Call(f) + x + ")"
    ensures Degree(f, x, "))") == "a(" + Call(f) + DegToRad + x + "))"
  {
  }

  lemma RewriteRadians(expr: string, t: string)
    requires Substitute(expr, true) == t
    ensures Rewrite(expr, true) == t
  {
  }

  lemma RewriteDegrees(expr: string, t: string, d: string)
    requires Substitute(expr, false) == t && CloseDegrees(t) == d
    ensures Rewrite(expr, false) == d
  {
  }
}
