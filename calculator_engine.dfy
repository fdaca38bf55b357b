/** The text rewriting at the start of `CalculatorEngine.evaluateExpression`:
    a fixed chain of global replacements that turns the keypad's expression
    into JavaScript source text, followed in degree mode by a pass that
    closes the parenthesis each degree conversion opens. The model stops at
    the string handed to `eval`. */
module CalculatorEngine {
  import opened JsString

  /** `Math.PI.toString()` and `Math.E.toString()`. */
  const MathPi: string := "3.141592653589793"
  const MathE: string := "2.718281828459045"

  /** The first pattern exactly as the source file spells it: the two
      characters U+00CF and U+20AC, which is what the UTF-8 bytes of π read
      as in the Windows-1252 code page. */
  const PiPattern: string := "\U{CF}\U{20AC}"

  /** π (U+03C0), the text the π key appends to the expression. */
  const Pi: char := '\U{3C0}'

  /** One `.replace(/pattern/g, replacement)` of the chain. */
  datatype Rule = Rule(pattern: string, replacement: string)

  function Step(s: string, rule: Rule): string
    requires rule.pattern != []
  {
    ReplaceAll(s, rule.pattern, rule.replacement)
  }

  /** The pieces the replacement texts are made of: a call of a `Math`
      function, and the factors converting degrees to radians and back. */
  function Call(f: string): string
  {
    "Math." + f + "("
  }

  const DegToRad: string := "Math.PI/180*"
  const RadToDeg: string := "180/Math.PI*"

  /** What a degree-mode replacement inserts after its `(`; it is also the
      literal head of the matching degree-pass pattern. */
  function ForwardHead(f: string): string
  {
    Call(f) + DegToRad
  }

  function InverseHead(f: string): string
  {
    RadToDeg + Call(f)
  }

  const PiRule: Rule := Rule(PiPattern, MathPi)
  const ERule: Rule := Rule("e", MathE)

  /** `sin(`, `cos(`, `tan(`: in degree mode the argument is converted to
      radians. */
  function Forward(f: string, isRadians: bool): Rule
  {
    Rule(f + "(", if isRadians then Call(f) else "(" + ForwardHead(f))
  }

  /** `asin(`, `acos(`, `atan(`: in degree mode the result is converted to
      degrees. */
  function Inverse(f: string, isRadians: bool): Rule
  {
    Rule(f + "(", if isRadians then Call(f) else "(" + InverseHead(f))
  }

  /** `f(` becomes a call of `Math.g`. */
  function MathCall(f: string, g: string): Rule
  {
    Rule(f + "(", Call(g))
  }

  const PowerRule: Rule := Rule("^", "**")

  /** The chain in the source's order, in five stages. */
  function ReplaceConstants(s: string): string
  {
    Step(Step(s, PiRule), ERule)
  }

  function ReplaceForward(s: string, isRadians: bool): string
  {
    var sin := Step(s, Forward("sin", isRadians));
    var cos := Step(sin, Forward("cos", isRadians));
    Step(cos, Forward("tan", isRadians))
  }

  function ReplaceInverse(s: string, isRadians: bool): string
  {
    var asin := Step(s, Inverse("asin", isRadians));
    var acos := Step(asin, Inverse("acos", isRadians));
    Step(acos, Inverse("atan", isRadians))
  }

  function ReplaceNamed(s: string): string
  {
    var log := Step(s, MathCall("log", "log10"));
    var ln := Step(log, MathCall("ln", "log"));
    var sqrt := Step(ln, MathCall("sqrt", "sqrt"));
    Step(sqrt, MathCall("abs", "abs"))
  }

  function ReplacePower(s: string): string
  {
    Step(s, PowerRule)
  }

  /** Everything after the constants. */
  function ReplaceFunctions(s: string, isRadians: bool): string
  {
    ReplacePower(ReplaceNamed(ReplaceInverse(ReplaceForward(s, isRadians), isRadians)))
  }

  /** The whole chain. */
  function Substitute(expr: string, isRadians: bool): string
  {
    ReplaceFunctions(ReplaceConstants(expr), isRadians)
  }

  /** The literal heads of the six degree-mode patterns
      `(head[^)]+)\)`. */
  const DegreeHeads: seq<string> :=
    [ ForwardHead("sin"), ForwardHead("cos"), ForwardHead("tan"),
      InverseHead("asin"), InverseHead("acos"), InverseHead("atan") ]

  /** The index of the first `)` at or after `from`, or `|s|` if none. */
  function FirstClose(s: string, from: nat): (k: nat)
    requires from <= |s|
    ensures from <= k <= |s|
    ensures k < |s| ==> s[k] == ')'
    ensures forall j :: from <= j < k ==> s[j] != ')'
    decreases |s| - from
  {
    if from == |s| || s[from] == ')' then from else FirstClose(s, from + 1)
  }

  /** `s` starts with a match of `(head[^)]+)\)`: the head, then at least
      one character other than `)`, then `)`. The greedy `[^)]+` runs to
      the first `)`, and backing off cannot help, so the match exists
      exactly when that first `)` comes after at least one other character. */
  predicate CloseMatch(s: string, head: string)
  {
    head <= s && |head| < FirstClose(s, |head|) < |s|
  }

  /** `s.replace(/(head[^)]+)\)/g, '$1))')`: every match keeps its text and
      gains one more `)`. */
  function DoubleClose(s: string, head: string): string
    requires head != []
    decreases |s|
  {
    if s == [] then []
    else if CloseMatch(s, head) then
      var k := FirstClose(s, |head|);
      s[..k + 1] + ")" + DoubleClose(s[k + 1..], head)
    else [s[0]] + DoubleClose(s[1..], head)
  }

  /** The degree-mode replacements, applied in order. */
  function CloseAll(heads: seq<string>, s: string): string
    requires forall i :: 0 <= i < |heads| ==> heads[i] != []
    decreases |heads|
  {
    if heads == [] then s else CloseAll(heads[1..], DoubleClose(s, heads[0]))
  }

  /** The degree-mode pass. */
  function CloseDegrees(s: string): string
  {
    DegreeHeadsFacts();
    CloseAll(DegreeHeads, s)
  }

  /** The string `evaluateExpression` hands to `eval`. */
  function Rewrite(expr: string, isRadians: bool): string
  {
    var t := Substitute(expr, isRadians);
    if isRadians then t else CloseDegrees(t)
  }

  lemma DegreeHeadsFacts()
    ensures forall i :: 0 <= i < |DegreeHeads| ==> DegreeHeads[i] != [] && 'M' in DegreeHeads[i]
  {
  }

  // ---------------------------------------------------------------------
  // One replacement

  /** A pattern whose first character `s` lacks leaves `s` as it is. */
  lemma StepIdentity(s: string, rule: Rule)
    requires rule.pattern != [] && rule.pattern[0] !in s
    ensures Step(s, rule) == s
  {
    ReplaceAllAbsent(s, rule.pattern, rule.replacement, 0);
  }

  lemma StepAvoids(s: string, rule: Rule, c: char)
    requires rule.pattern != [] && c !in s && c !in rule.replacement
    ensures c !in Step(s, rule)
  {
    ReplaceAllChars(s, rule.pattern, rule.replacement);
  }

  lemma StepKeeps(s: string, rule: Rule, c: char)
    requires rule.pattern != [] && c in s && c !in rule.pattern
    ensures c in Step(s, rule)
  {
    ReplaceAllKeepsChar(s, rule.pattern, rule.replacement, c);
  }

  // ---------------------------------------------------------------------
  // The characters of the patterns and replacement texts

  /** The characters of plain arithmetic: digits, the point, the four
      operators and parentheses. */
  const PlainChars: set<char> :=
    {'0', '1', '2', '3', '4', '5', '6', '7', '8', '9', '.', '+', '-', '*', '/', '(', ')'}

  predicate Plain(s: string)
  {
    forall c :: c in s ==> c in PlainChars
  }

  /** The characters of the function names. */
  const NameChars: set<char> := {'a', 'b', 'c', 'g', 'i', 'l', 'n', 'o', 'q', 'r', 's', 't', '0', '1'}

  /** `c` occurs in none of the fixed pieces the replacement texts are built
      from. */
  predicate OutsidePieces(c: char)
  {
    c !in Call("") && c !in DegToRad && c !in RadToDeg
  }

  lemma NamePattern(f: string, c: char)
    requires c != '(' && c !in f
    ensures c !in f + "("
  {
  }

  lemma NameReplacements(f: string, g: string, isRadians: bool, c: char)
    requires OutsidePieces(c) && c !in f && c !in g
    ensures c !in Forward(f, isRadians).replacement
    ensures c !in Inverse(f, isRadians).replacement
    ensures c !in MathCall(f, g).replacement
  {
    assert c !in Call(f) by {
      assert Call(f) == "Math." + f + "(" && Call("") == "Math." + "(";
    }
  }

  lemma OutsideFactsE()
    ensures OutsidePieces('e') && 'e' !in NameChars
  {
  }

  lemma OutsideFactsPi()
    ensures OutsidePieces(Pi) && Pi !in NameChars
  {
  }

  lemma NamesFacts(c: char)
    requires c !in NameChars
    ensures c !in "sin" && c !in "cos" && c !in "tan"
    ensures c !in "asin" && c !in "acos" && c !in "atan"
    ensures c !in "log" && c !in "log10" && c !in "ln" && c !in "sqrt" && c !in "abs"
  {
  }

  // ---------------------------------------------------------------------
  // The stages, one at a time

  lemma ConstantsIdentity(s: string)
    requires Plain(s)
    ensures ReplaceConstants(s) == s
  {
    assert PiPattern[0] !in s && 'e' !in s;
    StepIdentity(s, PiRule);
    StepIdentity(s, ERule);
  }

  /** Every `e` is replaced by the digits of `Math.E`. */
  lemma ConstantsRemoveE(s: string)
    ensures 'e' !in ReplaceConstants(s)
  {
    ReplaceAllRemovesChar(Step(s, PiRule), 'e', MathE);
  }

  lemma ConstantsKeepPi(s: string)
    requires Pi in s
    ensures Pi in ReplaceConstants(s)
  {
    StepKeeps(s, PiRule, Pi);
    StepKeeps(Step(s, PiRule), ERule, Pi);
  }

  lemma ForwardIdentity(s: string, isRadians: bool)
    requires Plain(s)
    ensures ReplaceForward(s, isRadians) == s
  {
    assert 's' !in s && 'c' !in s && 't' !in s;
    StepIdentity(s, Forward("sin", isRadians));
    StepIdentity(s, Forward("cos", isRadians));
    StepIdentity(s, Forward("tan", isRadians));
  }

  lemma ForwardAvoids(s: string, isRadians: bool, c: char)
    requires c !in s && OutsidePieces(c) && c !in NameChars
    ensures c !in ReplaceForward(s, isRadians)
  {
    NamesFacts(c);
    NameReplacements("sin", "sin", isRadians, c);
    NameReplacements("cos", "cos", isRadians, c);
    NameReplacements("tan", "tan", isRadians, c);
    var sin := Step(s, Forward("sin", isRadians));
    var cos := Step(sin, Forward("cos", isRadians));
    StepAvoids(s, Forward("sin", isRadians), c);
    StepAvoids(sin, Forward("cos", isRadians), c);
    StepAvoids(cos, Forward("tan", isRadians), c);
  }

  lemma ForwardKeeps(s: string, isRadians: bool, c: char)
    requires c in s && c != '(' && c !in NameChars
    ensures c in ReplaceForward(s, isRadians)
  {
    NamesFacts(c);
    NamePattern("sin", c);
    NamePattern("cos", c);
    NamePattern("tan", c);
    var sin := Step(s, Forward("sin", isRadians));
    var cos := Step(sin, Forward("cos", isRadians));
    StepKeeps(s, Forward("sin", isRadians), c);
    StepKeeps(sin, Forward("cos", isRadians), c);
    StepKeeps(cos, Forward("tan", isRadians), c);
  }

  lemma InverseIdentity(s: string, isRadians: bool)
    requires Plain(s)
    ensures ReplaceInverse(s, isRadians) == s
  {
    assert 'a' !in s;
    StepIdentity(s, Inverse("asin", isRadians));
    StepIdentity(s, Inverse("acos", isRadians));
    StepIdentity(s, Inverse("atan", isRadians));
  }

  lemma InverseAvoids(s: string, isRadians: bool, c: char)
    requires c !in s && OutsidePieces(c) && c !in NameChars
    ensures c !in ReplaceInverse(s, isRadians)
  {
    NamesFacts(c);
    NameReplacements("asin", "asin", isRadians, c);
    NameReplacements("acos", "acos", isRadians, c);
    NameReplacements("atan", "atan", isRadians, c);
    var asin := Step(s, Inverse("asin", isRadians));
    var acos := Step(asin, Inverse("acos", isRadians));
    StepAvoids(s, Inverse("asin", isRadians), c);
    StepAvoids(asin, Inverse("acos", isRadians), c);
    StepAvoids(acos, Inverse("atan", isRadians), c);
  }

  lemma InverseKeeps(s: string, isRadians: bool, c: char)
    requires c in s && c != '(' && c !in NameChars
    ensures c in ReplaceInverse(s, isRadians)
  {
    NamesFacts(c);
    NamePattern("asin", c);
    NamePattern("acos", c);
    NamePattern("atan", c);
    var asin := Step(s, Inverse("asin", isRadians));
    var acos := Step(asin, Inverse("acos", isRadians));
    StepKeeps(s, Inverse("asin", isRadians), c);
    StepKeeps(asin, Inverse("acos", isRadians), c);
    StepKeeps(acos, Inverse("atan", isRadians), c);
  }

  lemma NamedIdentity(s: string)
    requires Plain(s)
    ensures ReplaceNamed(s) == s
  {
    assert 'l' !in s && 's' !in s && 'a' !in s;
    StepIdentity(s, MathCall("log", "log10"));
    StepIdentity(s, MathCall("ln", "log"));
    StepIdentity(s, MathCall("sqrt", "sqrt"));
    StepIdentity(s, MathCall("abs", "abs"));
  }

  lemma NamedAvoids(s: string, c: char)
    requires c !in s && OutsidePieces(c) && c !in NameChars
    ensures c !in ReplaceNamed(s)
  {
    NamesFacts(c);
    NameReplacements("log", "log10", true, c);
    NameReplacements("ln", "log", true, c);
    NameReplacements("sqrt", "sqrt", true, c);
    NameReplacements("abs", "abs", true, c);
    var log := Step(s, MathCall("log", "log10"));
    var ln := Step(log, MathCall("ln", "log"));
    var sqrt := Step(ln, MathCall("sqrt", "sqrt"));
    StepAvoids(s, MathCall("log", "log10"), c);
    StepAvoids(log, MathCall("ln", "log"), c);
    StepAvoids(ln, MathCall("sqrt", "sqrt"), c);
    StepAvoids(sqrt, MathCall("abs", "abs"), c);
  }

  lemma NamedKeeps(s: string, c: char)
    requires c in s && c != '(' && c !in NameChars
    ensures c in ReplaceNamed(s)
  {
    NamesFacts(c);
    NamePattern("log", c);
    NamePattern("ln", c);
    NamePattern("sqrt", c);
    NamePattern("abs", c);
    var log := Step(s, MathCall("log", "log10"));
    var ln := Step(log, MathCall("ln", "log"));
    var sqrt := Step(ln, MathCall("sqrt", "sqrt"));
    StepKeeps(s, MathCall("log", "log10"), c);
    StepKeeps(log, MathCall("ln", "log"), c);
    StepKeeps(ln, MathCall("sqrt", "sqrt"), c);
    StepKeeps(sqrt, MathCall("abs", "abs"), c);
  }

  lemma PowerIdentity(s: string)
    requires Plain(s)
    ensures ReplacePower(s) == s
  {
    assert '^' !in s;
    StepIdentity(s, PowerRule);
  }

  lemma PowerAvoids(s: string, c: char)
    requires c !in s && c != '*'
    ensures c !in ReplacePower(s)
  {
    StepAvoids(s, PowerRule, c);
  }

  // ---------------------------------------------------------------------
  // The stages together

  lemma FunctionsIdentity(s: string, isRadians: bool)
    requires Plain(s)
    ensures ReplaceFunctions(s, isRadians) == s
  {
    ForwardIdentity(s, isRadians);
    InverseIdentity(s, isRadians);
    NamedIdentity(s);
    PowerIdentity(s);
  }

  lemma FunctionsAvoid(s: string, isRadians: bool, c: char)
    requires c !in s && OutsidePieces(c) && c !in NameChars
    ensures c !in ReplaceFunctions(s, isRadians)
  {
    var forward := ReplaceForward(s, isRadians);
    var inverse := ReplaceInverse(forward, isRadians);
    ForwardAvoids(s, isRadians, c);
    InverseAvoids(forward, isRadians, c);
    NamedAvoids(inverse, c);
    assert '*' in DegToRad;
    PowerAvoids(ReplaceNamed(inverse), c);
  }

  lemma FunctionsKeep(s: string, isRadians: bool, c: char)
    requires c in s && c != '(' && c != '^' && c !in NameChars
    ensures c in ReplaceFunctions(s, isRadians)
  {
    var forward := ReplaceForward(s, isRadians);
    var inverse := ReplaceInverse(forward, isRadians);
    ForwardKeeps(s, isRadians, c);
    InverseKeeps(forward, isRadians, c);
    NamedKeeps(inverse, c);
    StepKeeps(ReplaceNamed(inverse), PowerRule, c);
  }

  // ---------------------------------------------------------------------
  // The degree-mode pass only inserts `)`

  /** `r` is `s` with zero or more `)` inserted. */
  predicate InsertsClose(r: string, s: string)
    decreases |r|
  {
    if r == [] then s == []
    else
      || (s != [] && r[0] == s[0] && InsertsClose(r[1..], s[1..]))
      || (r[0] == ')' && InsertsClose(r[1..], s))
  }

  lemma {:induction false} InsertsCloseRefl(s: string)
    ensures InsertsClose(s, s)
    decreases |s|
  {
    if s != [] {
      InsertsCloseRefl(s[1..]);
    }
  }

  lemma {:induction false} InsertsCloseTrans(a: string, b: string, c: string)
    requires InsertsClose(a, b) && InsertsClose(b, c)
    ensures InsertsClose(a, c)
    decreases |a|
  {
    if a == [] {
      assert b == [];
    } else {
      if b != [] && a[0] == b[0] && InsertsClose(a[1..], b[1..]) {
        if c != [] && b[0] == c[0] && InsertsClose(b[1..], c[1..]) {
          InsertsCloseTrans(a[1..], b[1..], c[1..]);
        } else {
          InsertsCloseTrans(a[1..], b[1..], c);
        }
      } else {
        InsertsCloseTrans(a[1..], b, c);
      }
    }
  }

  lemma {:induction false} InsertsClosePrefix(u: string, r: string, s: string)
    requires InsertsClose(r, s)
    ensures InsertsClose(u + r, u + s)
    decreases |u|
  {
    if u == [] {
      assert u + r == r && u + s == s;
    } else {
      assert (u + r)[0] == u[0] == (u + s)[0];
      assert (u + r)[1..] == u[1..] + r;
      assert (u + s)[1..] == u[1..] + s;
      InsertsClosePrefix(u[1..], r, s);
    }
  }

  /** Inserting `)` neither adds nor removes any other character. */
  lemma {:induction false} InsertsCloseChars(r: string, s: string, c: char)
    requires InsertsClose(r, s) && c != ')'
    ensures c in r <==> c in s
    decreases |r|
  {
    if r != [] {
      if s != [] && r[0] == s[0] && InsertsClose(r[1..], s[1..]) {
        InsertsCloseChars(r[1..], s[1..], c);
        assert r == [r[0]] + r[1..] && s == [s[0]] + s[1..];
      } else {
        InsertsCloseChars(r[1..], s, c);
        assert r == [r[0]] + r[1..];
      }
    }
  }

  /** One `)` inserted after a common prefix. */
  lemma InsertsCloseAfter(p: string, r: string, s: string)
    requires InsertsClose(r, s)
    ensures InsertsClose(p + ")" + r, p + s)
  {
    assert (")" + r)[1..] == r;
    InsertsClosePrefix(p, ")" + r, s);
    assert p + ")" + r == p + (")" + r);
  }

  /** Each degree-mode replacement only inserts `)`. */
  lemma {:induction false} DoubleCloseInserts(s: string, head: string)
    requires head != []
    ensures InsertsClose(DoubleClose(s, head), s)
    decreases |s|
  {
    if s == [] {
    } else if CloseMatch(s, head) {
      var k := FirstClose(s, |head|);
      var rest := s[k + 1..];
      DoubleCloseInserts(rest, head);
      var p := s[..k + 1];
      assert s == p + rest;
      InsertsCloseAfter(p, DoubleClose(rest, head), rest);
    } else {
      DoubleCloseInserts(s[1..], head);
      var r := DoubleClose(s, head);
      assert r == [s[0]] + DoubleClose(s[1..], head);
      assert r[0] == s[0] && r[1..] == DoubleClose(s[1..], head);
    }
  }

  /** A match gets exactly one `)` more, and scanning resumes after it. */
  lemma DoubleCloseAtMatch(head: string, x: string, rest: string)
    requires head != [] && x != [] && ')' !in x
    ensures DoubleClose(head + x + ")" + rest, head)
         == head + x + "))" + DoubleClose(rest, head)
  {
    var s := head + x + ")" + rest;
    assert head <= s;
    FirstCloseAfter(s, head, x, rest);
  }

  lemma FirstCloseAfter(s: string, head: string, x: string, rest: string)
    requires ')' !in x && s == head + x + ")" + rest
    ensures FirstClose(s, |head|) == |head| + |x|
  {
    assert s[|head| + |x|] == ')';
    assert forall j :: |head| <= j < |head| + |x| ==> s[j] == x[j - |head|];
  }

  /** A pattern head with a character that `s` lacks leaves `s` as it is. */
  lemma {:induction false} DoubleCloseAbsent(s: string, head: string, k: nat)
    requires k < |head| && head[k] !in s
    ensures DoubleClose(s, head) == s
    decreases |s|
  {
    if s != [] {
      assert !(head <= s) by {
        if k < |s| {
          assert s[k] in s;
        }
      }
      assert head[k] !in s[1..] by {
        assert forall c :: c in s[1..] ==> c in s;
      }
      DoubleCloseAbsent(s[1..], head, k);
    }
  }

  lemma {:induction false} CloseAllInserts(heads: seq<string>, s: string)
    requires forall i :: 0 <= i < |heads| ==> heads[i] != []
    ensures InsertsClose(CloseAll(heads, s), s)
    decreases |heads|
  {
    if heads == [] {
      InsertsCloseRefl(s);
    } else {
      var t := DoubleClose(s, heads[0]);
      DoubleCloseInserts(s, heads[0]);
      CloseAllInserts(heads[1..], t);
      InsertsCloseTrans(CloseAll(heads, s), t, s);
    }
  }

  /** Heads that all contain a character `s` lacks change nothing. */
  lemma {:induction false} CloseAllAbsent(heads: seq<string>, s: string, c: char)
    requires forall i :: 0 <= i < |heads| ==> heads[i] != [] && c in heads[i]
    requires c !in s
    ensures CloseAll(heads, s) == s
    decreases |heads|
  {
    if heads != [] {
      var k :| 0 <= k < |heads[0]| && heads[0][k] == c;
      DoubleCloseAbsent(s, heads[0], k);
      CloseAllAbsent(heads[1..], s, c);
    }
  }

  // ---------------------------------------------------------------------
  // Properties of the rewrite

  /** Plain arithmetic passes through unchanged in both angle modes: no
      pattern of the chain starts with a plain character, and every
      degree-mode head contains `M`. */
  lemma RewritePlainIdentity(expr: string, isRadians: bool)
    requires Plain(expr)
    ensures Rewrite(expr, isRadians) == expr
  {
    ConstantsIdentity(expr);
    FunctionsIdentity(expr, isRadians);
    if !isRadians {
      CloseDegreesIdentity(expr);
    }
  }

  lemma CloseDegreesIdentity(s: string)
    requires Plain(s)
    ensures CloseDegrees(s) == s
  {
    DegreeHeadsFacts();
    assert 'M' !in s;
    CloseAllAbsent(DegreeHeads, s, 'M');
  }

  /** Radians mode hands the substituted text to `eval` as it is; the
      degree-mode pass leaves every character of it in place and only
      inserts `)`. */
  lemma DegreePassOnlyClosesParens(expr: string)
    ensures Rewrite(expr, true) == Substitute(expr, true)
    ensures InsertsClose(Rewrite(expr, false), Substitute(expr, false))
  {
    DegreeHeadsFacts();
    CloseAllInserts(DegreeHeads, Substitute(expr, false));
  }

  /** Apart from `)`, the degree-mode pass keeps exactly the characters it
      is given. */
  lemma CloseDegreesChars(s: string, c: char)
    requires c != ')'
    ensures c in CloseDegrees(s) <==> c in s
  {
    DegreeHeadsFacts();
    CloseAllInserts(DegreeHeads, s);
    InsertsCloseChars(CloseAll(DegreeHeads, s), s, c);
  }

  /** Apart from `)`, the output has the characters the substitutions left. */
  lemma RewriteChars(expr: string, isRadians: bool, c: char)
    requires c != ')'
    ensures c in Rewrite(expr, isRadians) <==> c in Substitute(expr, isRadians)
  {
    if !isRadians {
      CloseDegreesChars(Substitute(expr, false), c);
    }
  }

  /** Every `^` is turned into `**`: none is left. */
  lemma RewriteHasNoCaret(expr: string, isRadians: bool)
    ensures '^' !in Rewrite(expr, isRadians)
  {
    var s := ReplaceNamed(ReplaceInverse(ReplaceForward(ReplaceConstants(expr), isRadians), isRadians));
    ReplaceAllRemovesChar(s, '^', "**");
    RewriteChars(expr, isRadians, '^');
  }

  /** Every `e` is replaced by the digits of `Math.E`, and no later
      replacement text contains `e`: none is left. */
  lemma RewriteHasNoE(expr: string, isRadians: bool)
    ensures 'e' !in Rewrite(expr, isRadians)
  {
    ConstantsRemoveE(expr);
    OutsideFactsE();
    FunctionsAvoid(ReplaceConstants(expr), isRadians, 'e');
    RewriteChars(expr, isRadians, 'e');
  }

  /** The π that the π key appends is not what the first pattern matches,
      and no other pattern contains it: it reaches `eval` untouched. */
  lemma PiSurvivesRewrite(expr: string, isRadians: bool)
    requires Pi in expr
    ensures Pi in Rewrite(expr, isRadians)
  {
    ConstantsKeepPi(expr);
    OutsideFactsPi();
    FunctionsKeep(ReplaceConstants(expr), isRadians, Pi);
    RewriteChars(expr, isRadians, Pi);
  }

  /** The chain with the first pattern written as π, as evidently meant. */
  const CorrectedPiRule: Rule := Rule([Pi], MathPi)

  function CorrectedConstants(s: string): string
  {
    Step(Step(s, CorrectedPiRule), ERule)
  }

  /** A forward rule with the lookbehind `(?<!a)`, as in `/(?<!a)sin\(/g`:
      the `sin(` of `asin(` is left for the inverse rule. */
  function GuardedStep(s: string, rule: Rule): string
    requires rule.pattern != []
  {
    ReplaceAllUnlessAfter(s, rule.pattern, rule.replacement, 'a', false)
  }

  function CorrectedForward(s: string, isRadians: bool): string
  {
    var sin := GuardedStep(s, Forward("sin", isRadians));
    var cos := GuardedStep(sin, Forward("cos", isRadians));
    GuardedStep(cos, Forward("tan", isRadians))
  }

  function CorrectedFunctions(s: string, isRadians: bool): string
  {
    ReplacePower(ReplaceNamed(ReplaceInverse(CorrectedForward(s, isRadians), isRadians)))
  }

  /** The chain as evidently meant: π written as π, and the forward
      trigonometric rules kept off the inverse names. */
  function CorrectedRewrite(expr: string, isRadians: bool): string
  {
    var t := CorrectedFunctions(CorrectedConstants(expr), isRadians);
    if isRadians then t else CloseDegrees(t)
  }

  lemma GuardedStepAvoids(s: string, rule: Rule, c: char)
    requires rule.pattern != [] && c !in s && c !in rule.replacement
    ensures c !in GuardedStep(s, rule)
  {
    UnlessAfterChars(s, rule.pattern, rule.replacement, 'a', false);
  }

  lemma CorrectedForwardAvoids(s: string, isRadians: bool, c: char)
    requires c !in s && OutsidePieces(c) && c !in NameChars
    ensures c !in CorrectedForward(s, isRadians)
  {
    NamesFacts(c);
    NameReplacements("sin", "sin", isRadians, c);
    NameReplacements("cos", "cos", isRadians, c);
    NameReplacements("tan", "tan", isRadians, c);
    var sin := GuardedStep(s, Forward("sin", isRadians));
    var cos := GuardedStep(sin, Forward("cos", isRadians));
    GuardedStepAvoids(s, Forward("sin", isRadians), c);
    GuardedStepAvoids(sin, Forward("cos", isRadians), c);
    GuardedStepAvoids(cos, Forward("tan", isRadians), c);
  }

  lemma CorrectedFunctionsAvoid(s: string, isRadians: bool, c: char)
    requires c !in s && OutsidePieces(c) && c !in NameChars
    ensures c !in CorrectedFunctions(s, isRadians)
  {
    var forward := CorrectedForward(s, isRadians);
    var inverse := ReplaceInverse(forward, isRadians);
    CorrectedForwardAvoids(s, isRadians, c);
    InverseAvoids(forward, isRadians, c);
    NamedAvoids(inverse, c);
    assert '*' in DegToRad;
    PowerAvoids(ReplaceNamed(inverse), c);
  }

  /** With the corrected pattern, every π becomes the digits of `Math.PI`
      and none reaches `eval`. */
  lemma CorrectedRewriteRemovesPi(expr: string, isRadians: bool)
    ensures Pi !in CorrectedRewrite(expr, isRadians)
  {
    CorrectedConstantsRemovePi(expr);
    OutsideFactsPi();
    CorrectedFunctionsAvoid(CorrectedConstants(expr), isRadians, Pi);
    if !isRadians {
      CloseDegreesChars(CorrectedFunctions(CorrectedConstants(expr), false), Pi);
    }
  }

  lemma CorrectedConstantsRemovePi(s: string)
    ensures Pi !in CorrectedConstants(s)
  {
    ReplaceAllRemovesChar(s, Pi, MathPi);
    StepAvoids(Step(s, CorrectedPiRule), ERule, Pi);
  }
}
