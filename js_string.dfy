/** JavaScript's `String.prototype.replace` called with a global regular
    expression that matches one literal string (`/sin\(/g`, `/\^/g`, ...):
    matches are found leftmost first, they do not overlap, and the inserted
    text is never scanned again. */
module JsString {

  /** `s.replace(/pat/g, rep)` for a literal, non-empty `pat`. */
  function ReplaceAll(s: string, pat: string, rep: string): string
    requires pat != []
    decreases |s|
  {
    if s == [] then []
    else if pat <= s then rep + ReplaceAll(s[|pat|..], pat, rep)
    else [s[0]] + ReplaceAll(s[1..], pat, rep)
  }

  /** `s.split(pat)`: the pieces of `s` between the leftmost non-overlapping
      occurrences of `pat`; there is always at least one piece. */
  function Split(s: string, pat: string): (parts: seq<string>)
    requires pat != []
    ensures |parts| >= 1
    decreases |s|
  {
    if s == [] then [[]]
    else if pat <= s then [[]] + Split(s[|pat|..], pat)
    else
      var tail := Split(s[1..], pat);
      [[s[0]] + tail[0]] + tail[1..]
  }

  /** `parts.join(sep)`. */
  function Join(parts: seq<string>, sep: string): string
    requires |parts| >= 1
    decreases |parts|
  {
    if |parts| == 1 then parts[0] else parts[0] + sep + Join(parts[1..], sep)
  }

  /** `pat` occurs somewhere in `s`. */
  predicate Occurs(s: string, pat: string)
  {
    exists i :: 0 <= i <= |s| && pat <= s[i..]
  }

  /** Replacing every occurrence is splitting at the occurrences and joining
      the pieces with the replacement (the familiar JavaScript identity
      `s.replace(/p/g, r) === s.split(p).join(r)`). */
  lemma {:induction false} ReplaceAllIsSplitJoin(s: string, pat: string, rep: string)
    requires pat != []
    ensures ReplaceAll(s, pat, rep) == Join(Split(s, pat), rep)
    decreases |s|
  {
    if s == [] {
    } else if pat <= s {
      var rest := Split(s[|pat|..], pat);
      ReplaceAllIsSplitJoin(s[|pat|..], pat, rep);
      assert ([[]] + rest)[1..] == rest;
      assert Join([[]] + rest, rep) == [] + rep + Join(rest, rep);
    } else {
      ReplaceAllIsSplitJoin(s[1..], pat, rep);
      var tail := Split(s[1..], pat);
      JoinConsFirst(s[0], tail, rep);
    }
  }

  lemma {:induction false} JoinConsFirst(c: char, parts: seq<string>, sep: string)
    requires |parts| >= 1
    ensures Join([[c] + parts[0]] + parts[1..], sep) == [c] + Join(parts, sep)
  {
    var q := [[c] + parts[0]] + parts[1..];
    if |parts| > 1 {
      assert q[1..] == parts[1..];
    }
  }

  /** Splitting at `pat` and joining with `pat` gives back the original
      string: the split loses nothing. */
  lemma {:induction false} JoinSplitRoundTrip(s: string, pat: string)
    requires pat != []
    ensures Join(Split(s, pat), pat) == s
    decreases |s|
  {
    if s == [] {
    } else if pat <= s {
      var rest := Split(s[|pat|..], pat);
      JoinSplitRoundTrip(s[|pat|..], pat);
      assert ([[]] + rest)[1..] == rest;
      assert Join([[]] + rest, pat) == [] + pat + Join(rest, pat);
      assert s == pat + s[|pat|..];
    } else {
      JoinSplitRoundTrip(s[1..], pat);
      JoinConsFirst(s[0], Split(s[1..], pat), pat);
      assert s == [s[0]] + s[1..];
    }
  }

  /** The function always replaces `pat` by `rep`, so replacing `pat` by
      itself changes nothing. */
  lemma ReplaceAllBySelf(s: string, pat: string)
    requires pat != []
    ensures ReplaceAll(s, pat, pat) == s
  {
    ReplaceAllIsSplitJoin(s, pat, pat);
    JoinSplitRoundTrip(s, pat);
  }

  /** When `pat` does not occur in `s`, nothing is replaced. */
  lemma {:induction false} NoOccurrenceIdentity(s: string, pat: string, rep: string)
    requires pat != []
    requires !Occurs(s, pat)
    ensures ReplaceAll(s, pat, rep) == s
    decreases |s|
  {
    if s != [] {
      assert s[0..] == s;
      assert !(pat <= s);
      assert !Occurs(s[1..], pat) by {
        forall i | 0 <= i <= |s[1..]| ensures !(pat <= s[1..][i..]) {
          assert s[1..][i..] == s[i + 1..];
        }
      }
      NoOccurrenceIdentity(s[1..], pat, rep);
    }
  }

  /** A pattern with a character that `s` lacks cannot occur in `s`. */
  lemma AbsentCharNoOccurrence(s: string, pat: string, k: nat)
    requires k < |pat| && pat[k] !in s
    ensures !Occurs(s, pat)
  {
    forall i | 0 <= i <= |s| ensures !(pat <= s[i..]) {
      if i + k < |s| {
        assert s[i + k] in s;
      }
    }
  }

  /** Every character of the result comes from `s` or from `rep`. */
  lemma {:induction false} ReplaceAllChars(s: string, pat: string, rep: string)
    requires pat != []
    ensures forall c :: c in ReplaceAll(s, pat, rep) ==> c in s || c in rep
    decreases |s|
  {
    if s == [] {
    } else if pat <= s {
      ReplaceAllChars(s[|pat|..], pat, rep);
    } else {
      ReplaceAllChars(s[1..], pat, rep);
    }
  }

  /** A character that `pat` does not contain is never removed. */
  lemma {:induction false} ReplaceAllKeepsChar(s: string, pat: string, rep: string, c: char)
    requires pat != []
    requires c in s && c !in pat
    ensures c in ReplaceAll(s, pat, rep)
    decreases |s|
  {
    if pat <= s {
      assert s == pat + s[|pat|..];
      ReplaceAllKeepsChar(s[|pat|..], pat, rep, c);
    } else if s[0] != c {
      assert s == [s[0]] + s[1..];
      ReplaceAllKeepsChar(s[1..], pat, rep, c);
    }
  }

  /** Replacing a one-character pattern by text without that character
      removes the character altogether. */
  lemma {:induction false} ReplaceAllRemovesChar(s: string, c: char, rep: string)
    requires c !in rep
    ensures c !in ReplaceAll(s, [c], rep)
    decreases |s|
  {
    if s != [] {
      ReplaceAllRemovesChar(s[1..], c, rep);
    }
  }

  /** A pattern with a character that `s` lacks leaves `s` as it is. */
  lemma ReplaceAllAbsent(s: string, pat: string, rep: string, k: nat)
    requires k < |pat| && pat[k] !in s
    ensures ReplaceAll(s, pat, rep) == s
  {
    AbsentCharNoOccurrence(s, pat, k);
    NoOccurrenceIdentity(s, pat, rep);
  }

  /** No match can start inside a prefix that lacks the pattern's first
      character, so the prefix is copied unchanged. */
  lemma {:induction false} ReplaceAllSkip(u: string, v: string, pat: string, rep: string)
    requires pat != [] && pat[0] !in u
    ensures ReplaceAll(u + v, pat, rep) == u + ReplaceAll(v, pat, rep)
    decreases |u|
  {
    if u == [] {
      assert u + v == v;
    } else {
      assert (u + v)[0] == u[0];
      assert (u + v)[1..] == u[1..] + v;
      ReplaceAllSkip(u[1..], v, pat, rep);
    }
  }

  /** A match at the front is replaced and scanning resumes after it. */
  lemma ReplaceAllHit(v: string, pat: string, rep: string)
    requires pat != []
    ensures ReplaceAll(pat + v, pat, rep) == rep + ReplaceAll(v, pat, rep)
  {
    assert (pat + v)[|pat|..] == v;
  }

  /** No match at the front: the first character is copied. */
  lemma ReplaceAllMiss(c: char, v: string, pat: string, rep: string)
    requires pat != [] && !(pat <= [c] + v)
    ensures ReplaceAll([c] + v, pat, rep) == [c] + ReplaceAll(v, pat, rep)
  {
    assert ([c] + v)[1..] == v;
  }

  // ---------------------------------------------------------------------
  // A global replace with a lookbehind

  /** `s.replace(/(?<!c)pat/g, rep)`: like `ReplaceAll`, except that an
      occurrence right after a `c` of the text being scanned is not a match.
      `after` says whether the character before `s` is `c`. */
  function ReplaceAllUnlessAfter(s: string, pat: string, rep: string, c: char, after: bool): string
    requires pat != []
    decreases |s|
  {
    if s == [] then []
    else if pat <= s && !after then
      rep + ReplaceAllUnlessAfter(s[|pat|..], pat, rep, c, pat[|pat| - 1] == c)
    else [s[0]] + ReplaceAllUnlessAfter(s[1..], pat, rep, c, s[0] == c)
  }

  /** Without any `c` in the text the lookbehind never refuses a match, and
      the guarded replace is the plain one. */
  lemma {:induction false} UnlessAfterWithoutGuard(s: string, pat: string, rep: string, c: char)
    requires pat != [] && c !in s
    ensures ReplaceAllUnlessAfter(s, pat, rep, c, false) == ReplaceAll(s, pat, rep)
    decreases |s|
  {
    if s != [] {
      if pat <= s {
        assert pat[|pat| - 1] == s[|pat| - 1];
        assert forall d :: d in s[|pat|..] ==> d in s;
        UnlessAfterWithoutGuard(s[|pat|..], pat, rep, c);
      } else {
        assert forall d :: d in s[1..] ==> d in s;
        UnlessAfterWithoutGuard(s[1..], pat, rep, c);
      }
    }
  }

  /** Every character of the result comes from `s` or from `rep`. */
  lemma {:induction false} UnlessAfterChars(s: string, pat: string, rep: string, c: char, after: bool)
    requires pat != []
    ensures forall d :: d in ReplaceAllUnlessAfter(s, pat, rep, c, after) ==> d in s || d in rep
    decreases |s|
  {
    if s != [] {
      if pat <= s && !after {
        UnlessAfterChars(s[|pat|..], pat, rep, c, pat[|pat| - 1] == c);
        assert forall d :: d in s[|pat|..] ==> d in s;
      } else {
        UnlessAfterChars(s[1..], pat, rep, c, s[0] == c);
        assert forall d :: d in s[1..] ==> d in s;
      }
    }
  }

  /** A pattern with a character that `s` lacks leaves `s` as it is. */
  lemma {:induction false} UnlessAfterAbsent(s: string, pat: string, rep: string, c: char, after: bool, k: nat)
    requires k < |pat| && pat[k] !in s
    ensures ReplaceAllUnlessAfter(s, pat, rep, c, after) == s
    decreases |s|
  {
    if s != [] {
      assert !(pat <= s) by {
        if k < |s| {
          assert s[k] in s;
        }
      }
      assert pat[k] !in s[1..] by {
        assert forall d :: d in s[1..] ==> d in s;
      }
      UnlessAfterAbsent(s[1..], pat, rep, c, s[0] == c, k);
      assert s == [s[0]] + s[1..];
    }
  }

  /** An occurrence right after a `c` is refused, and the rest of it is
      scanned again. */
  lemma UnlessAfterRefused(pat: string, v: string, rep: string, c: char)
    requires pat != [] && pat[0] != c
    ensures ReplaceAllUnlessAfter([c] + (pat + v), pat, rep, c, false)
         == [c] + ([pat[0]] + ReplaceAllUnlessAfter(pat[1..] + v, pat, rep, c, false))
  {
    var s := [c] + (pat + v);
    assert !(pat <= s) by {
      assert s[0] == c;
    }
    assert s[1..] == pat + v;
    assert (pat + v)[0] == pat[0];
    assert (pat + v)[1..] == pat[1..] + v;
  }
}
