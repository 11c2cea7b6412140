/**
 * The few JavaScript string operations the plugin relies on, with their
 * ECMAScript meaning: `indexOf`, `includes` (Obsidian's `contains`),
 * `replace` with a string pattern (first occurrence only, the replacement
 * text expanded by the standard's GetSubstitution), `replace(/\s+/g, x)`
 * and `Array.prototype.join`.
 */
module JsString {
  import opened Optional
  import opened Chars

  /** `p` occurs in `s` starting at index `i`. */
  predicate OccursAt(s: string, p: string, i: int) {
    0 <= i && i + |p| <= |s| && s[i..i + |p|] == p
  }

  /** `p` occurs somewhere in `s`. */
  ghost predicate Occurs(s: string, p: string) {
    exists i :: OccursAt(s, p, i)
  }

  /** `i` is the leftmost occurrence of `p` in `s`. */
  ghost predicate FirstOccurrence(s: string, p: string, i: int) {
    OccursAt(s, p, i) && forall j :: 0 <= j < i ==> !OccursAt(s, p, j)
  }

  /** The leftmost occurrence of `p` in `s` at or after `k`. */
  function IndexOfFrom(s: string, p: string, k: nat): (r: Option<nat>)
    requires k <= |s|
    ensures r.Some? ==> k <= r.value && OccursAt(s, p, r.value)
    ensures r.Some? ==> forall j :: k <= j < r.value ==> !OccursAt(s, p, j)
    ensures r.None? ==> forall j :: k <= j ==> !OccursAt(s, p, j)
    decreases |s| - k
  {
    if k + |p| > |s| then None
    else if s[k..k + |p|] == p then Some(k)
    else IndexOfFrom(s, p, k + 1)
  }

  /** `s.indexOf(p)`, with `None` for JavaScript's -1. */
  function IndexOf(s: string, p: string): (r: Option<nat>)
    ensures r.Some? ==> FirstOccurrence(s, p, r.value)
    ensures r.None? <==> !Occurs(s, p)
  {
    IndexOfFrom(s, p, 0)
  }

  /** `s.includes(p)`, which Obsidian exposes as `String.prototype.contains`. */
  function Includes(s: string, p: string): (r: bool)
    ensures r <==> Occurs(s, p)
  {
    IndexOf(s, p).Some?
  }

  /**
   * GetSubstitution of the ECMAScript standard for a pattern without capture
   * groups: `$$` gives `$`, `$&` the matched text, `` $` `` the text before the
   * match, `$'` the text after it; any other `$` (including `$1` and `$<`,
   * which refer to captures that do not exist) is kept literally.
   */
  function Substitute(replacement: string, matched: string, before: string, after: string): (r: string)
    ensures '$' !in replacement ==> r == replacement
    decreases |replacement|
  {
    if |replacement| == 0 then ""
    else if replacement[0] == '$' && |replacement| >= 2 then
      var rest := replacement[2..];
      if replacement[1] == '$' then "$" + Substitute(rest, matched, before, after)
      else if replacement[1] == '&' then matched + Substitute(rest, matched, before, after)
      else if replacement[1] == '`' then before + Substitute(rest, matched, before, after)
      else if replacement[1] == '\'' then after + Substitute(rest, matched, before, after)
      else "$" + Substitute(replacement[1..], matched, before, after)
    else [replacement[0]] + Substitute(replacement[1..], matched, before, after)
  }

  /**
   * `s.replace(pattern, replacement)` with a string pattern: only the leftmost
   * occurrence is replaced (see `ReplaceFirst`), and a pattern that does not
   * occur leaves the text as it is.
   */
  function Replace(s: string, pattern: string, replacement: string): (r: string)
    ensures !Occurs(s, pattern) ==> r == s
  {
    match IndexOf(s, pattern)
    case None => s
    case Some(i) =>
      var before, after := s[..i], s[i + |pattern|..];
      before + Substitute(replacement, pattern, before, after) + after
  }

  /**
   * Only the leftmost occurrence is replaced: the text before it and after it
   * is kept, and the replacement is expanded with the match's context.
   */
  lemma ReplaceFirst(s: string, pattern: string, replacement: string, i: int)
    requires FirstOccurrence(s, pattern, i)
    ensures Replace(s, pattern, replacement) ==
      s[..i] + Substitute(replacement, pattern, s[..i], s[i + |pattern|..]) + s[i + |pattern|..]
  {
    IndexOfIsFirst(s, pattern, i);
  }

  /** A string has at most one leftmost occurrence of a pattern. */
  lemma FirstOccurrenceUnique(s: string, p: string, i: int)
    requires FirstOccurrence(s, p, i)
    ensures forall j :: FirstOccurrence(s, p, j) ==> j == i
  {
  }

  /** A string that lacks the first character of `p` cannot contain `p`. */
  lemma AbsentLead(s: string, p: string)
    requires |p| > 0 && p[0] !in s
    ensures !Occurs(s, p)
  {
    forall i
      ensures !OccursAt(s, p, i)
    {
      if 0 <= i && i + |p| <= |s| {
        assert s[i..i + |p|][0] == s[i];
      }
    }
  }

  /** In `a + p + b`, when `a` lacks `p`'s first character, the leftmost `p` starts right after `a`. */
  lemma FirstAfterPrefix(a: string, p: string, b: string)
    requires |p| > 0 && p[0] !in a
    ensures FirstOccurrence(a + p + b, p, |a|)
  {
    var s := a + p + b;
    assert s[|a|..|a| + |p|] == p;
    forall j | 0 <= j < |a|
      ensures !OccursAt(s, p, j)
    {
      assert s[j] == a[j];
    }
  }

  /**
   * Replacing in `a + p + b` when `a` lacks `p`'s first character and the
   * replacement has no `$`: exactly that `p` becomes the replacement text.
   */
  lemma ReplaceAfterPrefix(a: string, p: string, b: string, rep: string)
    requires |p| > 0 && p[0] !in a
    requires '$' !in rep
    ensures Replace(a + p + b, p, rep) == a + rep + b
  {
    ReplaceBetween(a, p, b, rep);
  }

  /** In `a + p + b`, when `a` lacks `p`'s first character, the replacement goes between `a` and `b`. */
  lemma ReplaceBetween(a: string, p: string, b: string, rep: string)
    requires |p| > 0 && p[0] !in a
    ensures Replace(a + p + b, p, rep) == a + Substitute(rep, p, a, b) + b
  {
    var s := a + p + b;
    FirstAfterPrefix(a, p, b);
    ReplaceFirst(s, p, rep, |a|);
    assert s[..|a|] == a;
    assert s[|a| + |p|..] == b;
  }

  /**
   * The special replacement texts: `$&` writes back the matched text (so a
   * version named `$&` leaves the `{{version}}` placeholder in the URI),
   * `$$` writes a single `$`, and `` $` `` the text before the match.
   */
  lemma SpecialReplacements(a: string, p: string, b: string)
    requires |p| > 0 && p[0] !in a
    ensures Replace(a + p + b, p, "$&") == a + p + b
    ensures Replace(a + p + b, p, "$$") == a + "$" + b
    ensures Replace(a + p + b, p, "$`") == a + a + b
    ensures Replace(a + p + b, p, "$'") == a + b + b
  {
    ReplaceBetween(a, p, b, "$&");
    ReplaceBetween(a, p, b, "$$");
    ReplaceBetween(a, p, b, "$`");
    ReplaceBetween(a, p, b, "$'");
    SubstituteSpecials(p, a, b);
  }

  /** The four special texts on their own, expanded against a match and its context. */
  lemma SubstituteSpecials(matched: string, before: string, after: string)
    ensures Substitute("$&", matched, before, after) == matched
    ensures Substitute("$$", matched, before, after) == "$"
    ensures Substitute("$`", matched, before, after) == before
    ensures Substitute("$'", matched, before, after) == after
  {
    assert "$&"[2..] == "" && "$$"[2..] == "" && "$`"[2..] == "" && "$'"[2..] == "";
    assert "$'"[1] == '\'';
    assert "$&"[0] == '$' && "$&"[1] == '&';
    assert "$$"[1] == '$';
    assert "$`"[1] == '`';
  }

  /** `indexOf` finds exactly the leftmost occurrence. */
  lemma IndexOfIsFirst(s: string, p: string, i: int)
    requires FirstOccurrence(s, p, i)
    ensures IndexOf(s, p) == Some(i)
  {
    FirstOccurrenceUnique(s, p, i);
  }

  /** A string with no occurrence of `p` is left as it is. */
  lemma ReplaceAbsent(s: string, p: string, rep: string)
    requires |p| > 0 && p[0] !in s
    ensures Replace(s, p, rep) == s
  {
    AbsentLead(s, p);
  }

  /** Replacing two `{`-led placeholders in turn, when nothing before them holds a `{` or a `$`. */
  lemma ReplaceTwo(a: string, p1: string, b: string, p2: string, c: string, r1: string, r2: string)
    requires |p1| > 0 && |p2| > 0 && p1[0] == '{' && p2[0] == '{'
    requires '{' !in a && '{' !in b && '{' !in r1 && '$' !in r1 && '$' !in r2
    ensures Replace(Replace(a + p1 + b + p2 + c, p1, r1), p2, r2) == a + r1 + b + r2 + c
  {
    assert a + p1 + b + p2 + c == a + p1 + (b + p2 + c);
    ReplaceAfterPrefix(a, p1, b + p2 + c, r1);
    assert a + r1 + (b + p2 + c) == (a + r1 + b) + p2 + c;
    ReplaceAfterPrefix(a + r1 + b, p2, c, r2);
  }

  /** Replacing four `{`-led placeholders in turn, when nothing before them holds a `{` or a `$`. */
  lemma ReplaceFour(a: string, p1: string, b: string, p2: string, c: string, p3: string, d: string, p4: string, e: string,
                    r1: string, r2: string, r3: string, r4: string)
    requires |p1| > 0 && |p2| > 0 && |p3| > 0 && |p4| > 0
    requires p1[0] == '{' && p2[0] == '{' && p3[0] == '{' && p4[0] == '{'
    requires '{' !in a && '{' !in b && '{' !in c && '{' !in d
    requires '{' !in r1 && '{' !in r2 && '{' !in r3
    requires '$' !in r1 && '$' !in r2 && '$' !in r3 && '$' !in r4
    ensures Replace(Replace(Replace(Replace(a + p1 + b + p2 + c + p3 + d + p4 + e, p1, r1), p2, r2), p3, r3), p4, r4) ==
            a + r1 + b + r2 + c + r3 + d + r4 + e
  {
    AppendTail(a + p1 + b + p2, c, p3, d, p4, e);
    ReplaceTwo(a, p1, b, p2, c + p3 + d + p4 + e, r1, r2);
    AppendTail(a + r1 + b + r2, c, p3, d, p4, e);
    ReplaceTwo(a + r1 + b + r2 + c, p3, d, p4, e, r3, r4);
  }

  /** The first two placeholders filled: the rest of the template regrouped behind them. */
  lemma AppendTail(x: string, c: string, p3: string, d: string, p4: string, e: string)
    ensures x + (c + p3 + d + p4 + e) == x + c + p3 + d + p4 + e
  {
  }

  /**
   * The scanning state of `s.replace(/\s+/g, rep)`: `inRun` says whether the
   * character just before `s` was white space already replaced by `rep`.
   */
  function ReplaceRunsFrom(s: string, rep: string, inRun: bool): (r: string)
  {
    if |s| == 0 then ""
    else if IsSpace(s[0]) then (if inRun then "" else rep) + ReplaceRunsFrom(s[1..], rep, true)
    else [s[0]] + ReplaceRunsFrom(s[1..], rep, false)
  }

  /**
   * `s.replace(/\s+/g, rep)`: every maximal run of white space becomes one
   * copy of `rep` (which holds no `$`, so no substitution patterns apply).
   */
  function ReplaceSpaceRuns(s: string, rep: string): (r: string)
    ensures NoneOf(rep, IsSpace) ==> NoneOf(r, IsSpace)
    ensures NoneOf(s, IsSpace) ==> r == s
    ensures forall k :: 0 <= k < |r| ==> r[k] in s || r[k] in rep
  {
    SpaceRunsFacts(s, rep, false);
    ReplaceRunsFrom(s, rep, false)
  }

  lemma {:induction false} SpaceRunsFacts(s: string, rep: string, inRun: bool)
    ensures NoneOf(rep, IsSpace) ==> NoneOf(ReplaceRunsFrom(s, rep, inRun), IsSpace)
    ensures NoneOf(s, IsSpace) ==> ReplaceRunsFrom(s, rep, inRun) == s
    ensures forall k :: 0 <= k < |ReplaceRunsFrom(s, rep, inRun)| ==>
      ReplaceRunsFrom(s, rep, inRun)[k] in s || ReplaceRunsFrom(s, rep, inRun)[k] in rep
    decreases |s|
  {
    if |s| > 0 {
      SpaceRunsFacts(s[1..], rep, IsSpace(s[0]));
      if IsSpace(s[0]) {
        assert ReplaceRunsFrom(s, rep, inRun) == (if inRun then "" else rep) + ReplaceRunsFrom(s[1..], rep, true);
      } else {
        assert ReplaceRunsFrom(s, rep, inRun) == [s[0]] + ReplaceRunsFrom(s[1..], rep, false);
        assert NoneOf(s, IsSpace) ==> NoneOf(s[1..], IsSpace);
      }
    }
  }

  /** A run of white space followed by a non-space character (or the end) collapses to one `rep`. */
  lemma {:induction false} RunCollapses(run: string, t: string, rep: string, inRun: bool)
    requires All(run, IsSpace)
    requires |t| == 0 || !IsSpace(t[0])
    ensures ReplaceRunsFrom(run + t, rep, inRun) ==
      (if |run| == 0 || inRun then "" else rep) + ReplaceRunsFrom(t, rep, false)
    decreases |run|
  {
    if |run| > 0 {
      assert (run + t)[1..] == run[1..] + t;
      RunCollapses(run[1..], t, rep, true);
    } else {
      assert run + t == t;
      if |t| > 0 {
        assert ReplaceRunsFrom(t, rep, inRun) == [t[0]] + ReplaceRunsFrom(t[1..], rep, false);
      }
    }
  }

  /** Non-space text is copied through unchanged. */
  lemma {:induction false} WordKept(w: string, t: string, rep: string, inRun: bool)
    requires NoneOf(w, IsSpace)
    ensures ReplaceRunsFrom(w + t, rep, inRun) == w + ReplaceRunsFrom(t, rep, if |w| == 0 then inRun else false)
    decreases |w|
  {
    if |w| > 0 {
      assert (w + t)[1..] == w[1..] + t;
      WordKept(w[1..], t, rep, false);
    } else {
      assert w + t == t;
    }
  }

  /**
   * The defining property of `replace(/\s+/g, rep)`: for a word, then a
   * non-empty maximal white-space run, then the rest, the result is the word,
   * one `rep`, and the replacement applied to the rest.
   */
  lemma ReplaceSpaceRunsSplit(w: string, run: string, t: string, rep: string)
    requires NoneOf(w, IsSpace)
    requires |run| > 0 && All(run, IsSpace)
    requires |t| == 0 || !IsSpace(t[0])
    ensures ReplaceSpaceRuns(w + run + t, rep) == w + rep + ReplaceSpaceRuns(t, rep)
  {
    assert w + run + t == w + (run + t);
    WordKept(w, run + t, rep, false);
    RunCollapses(run, t, rep, false);
  }

  /** `xs.join(sep)`: the elements in order with `sep` between neighbours. */
  function Join(xs: seq<string>, sep: string): (r: string)
    ensures |xs| == 0 ==> r == ""
    ensures |xs| > 0 ==> xs[0] <= r
    decreases |xs|
  {
    if |xs| == 0 then ""
    else if |xs| == 1 then xs[0]
    else xs[0] + sep + Join(xs[1..], sep)
  }

  /** Joining two non-empty lists puts one separator between their joins. */
  lemma {:induction false} JoinConcat(xs: seq<string>, ys: seq<string>, sep: string)
    requires |xs| > 0 && |ys| > 0
    ensures Join(xs + ys, sep) == Join(xs, sep) + sep + Join(ys, sep)
    decreases |xs|
  {
    if |xs| == 1 {
      assert (xs + ys)[1..] == ys;
    } else {
      assert (xs + ys)[1..] == xs[1..] + ys;
      JoinConcat(xs[1..], ys, sep);
    }
  }

  /** The last element of a joined list follows the join of the others and one separator. */
  lemma JoinSnoc(xs: seq<string>, sep: string)
    requires |xs| >= 2
    ensures Join(xs, sep) == Join(xs[..|xs| - 1], sep) + sep + xs[|xs| - 1]
  {
    assert xs == xs[..|xs| - 1] + [xs[|xs| - 1]];
    JoinConcat(xs[..|xs| - 1], [xs[|xs| - 1]], sep);
  }
}
