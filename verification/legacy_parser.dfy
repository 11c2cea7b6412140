/**
 * The legacy reference parser of the plugin (main.ts, `verseToLink`): the
 * anchored pattern
 *
 *     ^((\d+)\s+)?(\w+)\s?((\d+([:.]\d+)?(-\d+([:.]\d+)?)?(,\s*)?)+)\s*(\w+)?
 *
 * followed by a global scan of its range group with
 *
 *     \d+([:.]\d+)?(-\d+([:.]\d+)?)?
 *
 * Nothing after the range group can fail (`\s*` and `(\w+)?` match the empty
 * string), so the first successful backtracking path is the first choice of
 * the leading part `((\d+)\s+)?(\w+)\s?` after which a digit follows. The
 * matcher below reproduces that choice deterministically: the numeral branch
 * can only succeed with the longest digit run and the longest white-space
 * run, and `\w+` gives back characters until `\s?` and a digit fit.
 */
module LegacyParser {
  import opened Optional
  import opened Chars

  /** What `verseToLink` returns: the book, the raw range texts and the version. */
  datatype VerseRef = VerseRef(book: string, ranges: seq<string>, version: string)

  // ---------------------------------------------------------------------
  // The language of one range: \d+([:.]\d+)?(-\d+([:.]\d+)?)?
  // ---------------------------------------------------------------------

  /** `t` is chapter digits, a `:` or `.` at `k`, and verse digits. */
  ghost predicate PointSplit(t: string, k: int) {
    0 < k < |t| && IsDigits(t[..k]) && IsVerseSep(t[k]) && IsDigits(t[k + 1..])
  }

  /** `\d+([:.]\d+)?` as a whole string. */
  ghost predicate IsPoint(t: string) {
    IsDigits(t) || exists k :: PointSplit(t, k)
  }

  /** `t` is a point, a `-` at `k`, and another point. */
  ghost predicate RangeSplit(t: string, k: int) {
    0 < k < |t| && IsPoint(t[..k]) && t[k] == '-' && IsPoint(t[k + 1..])
  }

  /** `\d+([:.]\d+)?(-\d+([:.]\d+)?)?` as a whole string. */
  ghost predicate IsRangeToken(t: string) {
    IsPoint(t) || exists k :: RangeSplit(t, k)
  }

  /** A character after which a range token cannot be extended. */
  predicate Ends(c: char) {
    !IsDigit(c) && !IsVerseSep(c) && c != '-'
  }

  /** Where a greedy `\d+([:.]\d+)?` that starts at `i` stops: the longest point there. */
  function PointEnd(s: string, i: nat): (e: nat)
    requires i < |s| && IsDigit(s[i])
    ensures i < e <= |s|
    ensures IsPoint(s[i..e])
    ensures e == |s| || !IsDigit(s[e])
    ensures forall j {:trigger IsPoint(s[i..j])} :: i < j <= |s| && IsPoint(s[i..j]) ==> j <= e
  {
    var a := RunEnd(s, i, IsDigit);
    if a + 1 < |s| && IsVerseSep(s[a]) && IsDigit(s[a + 1]) then
      var e := RunEnd(s, a + 1, IsDigit);
      assert PointSplit(s[i..e], a - i) by {
        assert s[i..e][..a - i] == s[i..a];
        assert s[i..e][a - i + 1..] == s[a + 1..e];
      }
      assert forall j {:trigger IsPoint(s[i..j])} :: i < j <= |s| && IsPoint(s[i..j]) ==> j <= e by {
        forall j | i < j <= |s| && IsPoint(s[i..j]) ensures j <= e {
          PointPrefixBound(s, i, a, j);
          if a < j {
            RunBound(s, a + 1, j, e, IsDigit);
          }
        }
      }
      e
    else
      assert forall j {:trigger IsPoint(s[i..j])} :: i < j <= |s| && IsPoint(s[i..j]) ==> j <= a by {
        forall j | i < j <= |s| && IsPoint(s[i..j]) ensures j <= a {
          PointPrefixBound(s, i, a, j);
        }
      }
      a
  }

  /**
   * A point token from `i` either stays inside the digit run `s[i..a]` or
   * goes on through the separator at `a` into the digits after it.
   */
  lemma PointPrefixBound(s: string, i: nat, a: nat, j: nat)
    requires i < j <= |s| && i <= a <= |s|
    requires All(s[i..a], IsDigit) && (a == |s| || !IsDigit(s[a]))
    requires IsPoint(s[i..j])
    ensures j <= a || (a + 1 < j && IsVerseSep(s[a]) && IsDigit(s[a + 1]) && All(s[a + 1..j], IsDigit))
  {
    if IsDigits(s[i..j]) {
      RunBound(s, i, j, a, IsDigit);
    } else {
      var k :| PointSplit(s[i..j], k);
      PointSplitParts(s, i, j, k);
      RunBound(s, i, i + k, a, IsDigit);
      RunBound(s, i, a, i + k, IsDigit);
    }
  }

  /** A run of `P` from `i` cannot reach past the point where the longest such run stops. */
  lemma RunBound(s: string, i: nat, j: nat, e: nat, P: char -> bool)
    requires i <= j <= |s| && i <= e <= |s|
    requires All(s[i..j], P) && (e == |s| || !P(s[e]))
    ensures j <= e
  {
    forall t | i <= t < j
      ensures P(s[t])
    {
      assert s[t] == s[i..j][t - i];
    }
  }

  /** A point starts with a digit. */
  lemma PointStartsWithDigit(t: string)
    requires IsPoint(t)
    ensures |t| > 0 && IsDigit(t[0])
  {
    if !IsDigits(t) {
      var k :| PointSplit(t, k);
      assert t[..k][0] == t[0];
    }
  }

  /** A range token starts with a digit. */
  lemma TokenStartsWithDigit(t: string)
    requires IsRangeToken(t)
    ensures |t| > 0 && IsDigit(t[0])
  {
    if IsPoint(t) {
      PointStartsWithDigit(t);
    } else {
      var k :| RangeSplit(t, k);
      PointStartsWithDigit(t[..k]);
      assert t[..k][0] == t[0];
    }
  }

  /** Where a greedy `\d+([:.]\d+)?(-\d+([:.]\d+)?)?` that starts at `i` stops: the longest range token there. */
  function RangeEnd(s: string, i: nat): (e: nat)
    requires i < |s| && IsDigit(s[i])
    ensures i < e <= |s|
    ensures IsRangeToken(s[i..e])
    ensures e == |s| || !IsDigit(s[e])
    ensures forall j {:trigger IsRangeToken(s[i..j])} :: i < j <= |s| && IsRangeToken(s[i..j]) ==> j <= e
  {
    var m := PointEnd(s, i);
    if m + 1 < |s| && s[m] == '-' && IsDigit(s[m + 1]) then
      var e := PointEnd(s, m + 1);
      RangeEndTwo(s, i, m, e);
      e
    else
      RangeEndOne(s, i, m);
      m
  }

  /** `RangeEnd` when a `-` and a digit follow the longest point: the range runs to the end of the second point. */
  lemma RangeEndTwo(s: string, i: nat, m: nat, e: nat)
    requires i < |s| && IsDigit(s[i]) && m == PointEnd(s, i)
    requires m + 1 < |s| && s[m] == '-' && IsDigit(s[m + 1]) && e == PointEnd(s, m + 1)
    ensures IsRangeToken(s[i..e])
    ensures forall j {:trigger IsRangeToken(s[i..j])} :: i < j <= |s| && IsRangeToken(s[i..j]) ==> j <= e
  {
    assert RangeSplit(s[i..e], m - i) by {
      assert s[i..e][..m - i] == s[i..m];
      assert s[i..e][m - i + 1..] == s[m + 1..e];
    }
    forall j | i < j <= |s| && IsRangeToken(s[i..j]) ensures j <= e {
      RangePrefixBound(s, i, m, j);
    }
  }

  /** `RangeEnd` when no `-` and digit follow the longest point: the range is that point. */
  lemma RangeEndOne(s: string, i: nat, m: nat)
    requires i < |s| && IsDigit(s[i]) && m == PointEnd(s, i)
    requires !(m + 1 < |s| && s[m] == '-' && IsDigit(s[m + 1]))
    ensures forall j {:trigger IsRangeToken(s[i..j])} :: i < j <= |s| && IsRangeToken(s[i..j]) ==> j <= m
  {
    forall j | i < j <= |s| && IsRangeToken(s[i..j]) ensures j <= m {
      RangePrefixBound(s, i, m, j);
    }
  }

  /**
   * A range token from `i` either is no longer than the longest point there,
   * or goes on through a `-` right after that point into a second point.
   */
  lemma RangePrefixBound(s: string, i: nat, m: nat, j: nat)
    requires i < j <= |s| && IsDigit(s[i]) && m == PointEnd(s, i)
    requires IsRangeToken(s[i..j])
    ensures j <= m || (m + 1 < j && s[m] == '-' && IsDigit(s[m + 1]) && IsPoint(s[m + 1..j]))
  {
    if IsPoint(s[i..j]) {
      assert j <= m;
    } else {
      var k :| RangeSplit(s[i..j], k);
      RangePrefixAt(s, i, m, j, k);
    }
  }

  /** The two-point case of `RangePrefixBound`, with the hyphen at `i + k`. */
  lemma RangePrefixAt(s: string, i: nat, m: nat, j: nat, k: int)
    requires i < j <= |s| && IsDigit(s[i]) && m == PointEnd(s, i)
    requires RangeSplit(s[i..j], k)
    ensures m == i + k && m + 1 < j && s[m] == '-' && IsDigit(s[m + 1]) && IsPoint(s[m + 1..j])
  {
    RangeSplitParts(s, i, j, k);
    assert i + k <= m;
    PointHasNoHyphen(s[i..m]);
    SliceLacks(s, i, m, '-');
    PointStartsWithDigit(s[i + k + 1..j]);
    assert s[i + k + 1..j][0] == s[i + k + 1];
  }

  /** A character missing from a slice is missing at each of its positions. */
  lemma SliceLacks(s: string, i: nat, m: nat, c: char)
    requires i <= m <= |s| && c !in s[i..m]
    ensures forall t :: i <= t < m ==> s[t] != c
  {
    forall t | i <= t < m
      ensures s[t] != c
    {
      assert s[t] == s[i..m][t - i];
    }
  }

  // ---------------------------------------------------------------------
  // rawRanges.match(verseRange): the global scan of the range group
  // ---------------------------------------------------------------------

  /**
   * The matches of the global range pattern, left to right: at a digit the
   * greedy match is taken and the scan resumes after it, any other
   * character is skipped. A string without matches gives no ranges (the
   * source's `|| []`).
   */
  function ScanRanges(g: string): (ranges: seq<string>)
    ensures forall k :: 0 <= k < |ranges| ==> IsRangeToken(ranges[k])
    ensures |g| > 0 && IsDigit(g[0]) ==> |ranges| > 0
    decreases |g|
  {
    if |g| == 0 then []
    else if IsDigit(g[0]) then
      var e := RangeEnd(g, 0);
      [g[..e]] + ScanRanges(g[e..])
    else
      ScanRanges(g[1..])
  }

  /** The text between and around the matches of `ScanRanges`. */
  ghost function ScanGaps(g: string): (gaps: seq<string>)
    ensures |gaps| > 0
    decreases |g|
  {
    if |g| == 0 then [""]
    else if IsDigit(g[0]) then [""] + ScanGaps(g[RangeEnd(g, 0)..])
    else
      var rest := ScanGaps(g[1..]);
      [[g[0]] + rest[0]] + rest[1..]
  }

  /** `gaps[0] + ranges[0] + gaps[1] + ... + ranges[n-1] + gaps[n]`. */
  function Weave(gaps: seq<string>, ranges: seq<string>): (g: string)
    requires |gaps| == |ranges| + 1
    decreases |ranges|
  {
    if |ranges| == 0 then gaps[0]
    else gaps[0] + ranges[0] + Weave(gaps[1..], ranges[1..])
  }

  /**
   * The matches are the whole story of the range group: the group is the
   * matches in input order, separated by text that holds no digit.
   */
  lemma ScanTiles(g: string)
    ensures |ScanGaps(g)| == |ScanRanges(g)| + 1
    ensures g == Weave(ScanGaps(g), ScanRanges(g))
    ensures forall k :: 0 <= k < |ScanGaps(g)| ==> NoneOf(ScanGaps(g)[k], IsDigit)
  {
    ScanWeaves(g);
    ScanGapsDigitFree(g);
  }

  lemma {:induction false} ScanWeaves(g: string)
    ensures |ScanGaps(g)| == |ScanRanges(g)| + 1
    ensures g == Weave(ScanGaps(g), ScanRanges(g))
    decreases |g|
  {
    if |g| == 0 {
    } else if IsDigit(g[0]) {
      var e := RangeEnd(g, 0);
      ScanWeaves(g[e..]);
      var gaps, ranges := ScanGaps(g[e..]), ScanRanges(g[e..]);
      assert ScanGaps(g) == [""] + gaps;
      assert ScanRanges(g) == [g[..e]] + ranges;
      assert ([""] + gaps)[1..] == gaps;
      assert ([g[..e]] + ranges)[1..] == ranges;
      assert g == "" + g[..e] + g[e..];
    } else {
      ScanWeaves(g[1..]);
      var gaps, ranges := ScanGaps(g[1..]), ScanRanges(g[1..]);
      var gaps' := [[g[0]] + gaps[0]] + gaps[1..];
      assert ScanGaps(g) == gaps';
      assert ScanRanges(g) == ranges;
      assert gaps'[1..] == gaps[1..];
      if |ranges| == 0 {
        assert g == [g[0]] + g[1..];
      } else {
        assert g[1..] == gaps[0] + ranges[0] + Weave(gaps[1..], ranges[1..]);
        assert g == [g[0]] + gaps[0] + ranges[0] + Weave(gaps[1..], ranges[1..]);
      }
    }
  }

  lemma {:induction false} ScanGapsDigitFree(g: string)
    ensures forall k :: 0 <= k < |ScanGaps(g)| ==> NoneOf(ScanGaps(g)[k], IsDigit)
    decreases |g|
  {
    if |g| == 0 {
    } else if IsDigit(g[0]) {
      var e := RangeEnd(g, 0);
      ScanGapsDigitFree(g[e..]);
      assert ScanGaps(g) == [""] + ScanGaps(g[e..]);
    } else {
      ScanGapsDigitFree(g[1..]);
      var gaps := ScanGaps(g[1..]);
      var gaps' := [[g[0]] + gaps[0]] + gaps[1..];
      assert ScanGaps(g) == gaps';
      assert NoneOf(gaps'[0], IsDigit);
      forall k | 1 <= k < |gaps'|
        ensures NoneOf(gaps'[k], IsDigit)
      {
        assert gaps'[k] == gaps[k];
      }
    }
  }

  /** A greedy run of `P` stops exactly at the first character outside `P`. */
  lemma {:induction false} RunEndAt(s: string, i: nat, j: nat, P: char -> bool)
    requires i <= j <= |s|
    requires All(s[i..j], P)
    requires j == |s| || !P(s[j])
    ensures RunEnd(s, i, P) == j
    decreases j - i
  {
    if i < j {
      assert s[i..j][0] == s[i];
      assert s[i + 1..j] == s[i..j][1..];
      RunEndAt(s, i + 1, j, P);
    }
  }

  /** A point token that cannot be continued is matched whole. */
  lemma PointGreedy(s: string, i: nat, j: nat)
    requires i < j <= |s|
    requires IsPoint(s[i..j])
    requires j == |s| || Ends(s[j]) || s[j] == '-'
    ensures IsDigit(s[i])
    ensures PointEnd(s, i) == j
  {
    if IsDigits(s[i..j]) {
      assert s[i..j][0] == s[i];
      RunEndAt(s, i, j, IsDigit);
    } else {
      var k :| PointSplit(s[i..j], k);
      PointSplitParts(s, i, j, k);
      PointGreedyAt(s, i, j, k);
    }
  }

  /** The chapter-and-verse case of `PointGreedy`, with the separator at `i + k`. */
  lemma PointGreedyAt(s: string, i: nat, j: nat, k: nat)
    requires 0 < k && i + k + 1 < j <= |s|
    requires IsDigits(s[i..i + k]) && IsVerseSep(s[i + k]) && IsDigits(s[i + k + 1..j])
    requires IsDigit(s[i]) && IsDigit(s[i + k + 1])
    requires j == |s| || Ends(s[j]) || s[j] == '-'
    ensures PointEnd(s, i) == j
  {
    RunEndAt(s, i, i + k, IsDigit);
    RunEndAt(s, i + k + 1, j, IsDigit);
  }

  /** The two digit runs and the separator of a split point, read in `s` itself. */
  lemma PointSplitParts(s: string, i: nat, j: nat, k: int)
    requires i < j <= |s|
    requires PointSplit(s[i..j], k)
    ensures 0 < k && i + k + 1 < j
    ensures IsDigits(s[i..i + k]) && IsVerseSep(s[i + k]) && IsDigits(s[i + k + 1..j])
    ensures IsDigit(s[i]) && IsDigit(s[i + k + 1])
  {
    var t := s[i..j];
    assert t[..k] == s[i..i + k];
    assert t[k + 1..] == s[i + k + 1..j];
    assert t[k] == s[i + k];
    assert s[i..i + k][0] == s[i];
    assert s[i + k + 1..j][0] == s[i + k + 1];
  }

  /** A point holds no `-`. */
  lemma PointHasNoHyphen(t: string)
    requires IsPoint(t)
    ensures '-' !in t
  {
    if !IsDigits(t) {
      var k :| PointSplit(t, k);
      assert t == t[..k] + [t[k]] + t[k + 1..];
    }
  }

  /** A range token that cannot be continued is matched whole. */
  lemma RangeGreedy(s: string, i: nat, j: nat)
    requires i < j <= |s|
    requires IsRangeToken(s[i..j])
    requires j == |s| || Ends(s[j])
    ensures IsDigit(s[i])
    ensures RangeEnd(s, i) == j
  {
    if IsPoint(s[i..j]) {
      PointGreedy(s, i, j);
    } else {
      var k :| RangeSplit(s[i..j], k);
      RangeSplitParts(s, i, j, k);
      RangeGreedyAt(s, i, j, k);
    }
  }

  /** The two-point case of `RangeGreedy`, with the hyphen at `i + k`. */
  lemma RangeGreedyAt(s: string, i: nat, j: nat, k: nat)
    requires 0 < k && i + k + 1 < j <= |s|
    requires IsPoint(s[i..i + k]) && s[i + k] == '-' && IsPoint(s[i + k + 1..j])
    requires j == |s| || Ends(s[j])
    ensures IsDigit(s[i])
    ensures RangeEnd(s, i) == j
  {
    PointGreedy(s, i, i + k);
    PointGreedy(s, i + k + 1, j);
    assert PointEnd(s, i) == i + k && PointEnd(s, i + k + 1) == j;
  }

  /** The two points and the hyphen of a split range token, read in `s` itself. */
  lemma RangeSplitParts(s: string, i: nat, j: nat, k: int)
    requires i < j <= |s|
    requires RangeSplit(s[i..j], k)
    ensures 0 < k && i + k + 1 < j
    ensures IsPoint(s[i..i + k]) && s[i + k] == '-' && IsPoint(s[i + k + 1..j])
  {
    var t := s[i..j];
    assert t[..k] == s[i..i + k];
    assert t[k + 1..] == s[i + k + 1..j];
    assert t[k] == s[i + k];
  }

  /** Text without digits yields no match and is skipped by the scan. */
  lemma {:induction false} ScanSkips(sep: string, rest: string)
    requires NoneOf(sep, IsDigit)
    ensures ScanRanges(sep + rest) == ScanRanges(rest)
    decreases |sep|
  {
    if |sep| > 0 {
      assert (sep + rest)[0] == sep[0];
      assert (sep + rest)[1..] == sep[1..] + rest;
      ScanSkips(sep[1..], rest);
    } else {
      assert sep + rest == rest;
    }
  }

  /**
   * A range token followed by a separator that cannot continue it (or by
   * nothing at all) is found as one match, and the scan goes on after it.
   */
  lemma ScanToken(t: string, sep: string, rest: string)
    requires IsRangeToken(t) && |t| > 0
    requires NoneOf(sep, IsDigit)
    requires (|sep| > 0 && Ends(sep[0])) || (|sep| == 0 && |rest| == 0)
    ensures ScanRanges(t + sep + rest) == [t] + ScanRanges(rest)
  {
    TokenFirst(t, sep, rest);
    ScanSkips(sep, rest);
  }

  /** The greedy match at the start of `t + sep + rest` is exactly `t`. */
  lemma TokenFirst(t: string, sep: string, rest: string)
    requires IsRangeToken(t) && |t| > 0
    requires (|sep| > 0 && Ends(sep[0])) || (|sep| == 0 && |rest| == 0)
    ensures IsDigit((t + sep + rest)[0])
    ensures RangeEnd(t + sep + rest, 0) == |t|
    ensures (t + sep + rest)[..|t|] == t && (t + sep + rest)[|t|..] == sep + rest
  {
    var g := t + sep + rest;
    assert g[0..|t|] == t;
    assert |t| < |g| ==> Ends(g[|t|]) by {
      if |t| < |g| {
        assert g[|t|] == sep[0];
      }
    }
    RangeGreedy(g, 0, |t|);
  }

  /**
   * `tokens[0] + seps[0] + tokens[1] + seps[1] + ...`: how a range group is
   * written, each range followed by its separator.
   */
  function Units(tokens: seq<string>, seps: seq<string>): (g: string)
    requires |seps| == |tokens|
    decreases |tokens|
  {
    if |tokens| == 0 then "" else tokens[0] + seps[0] + Units(tokens[1..], seps[1..])
  }

  /**
   * The scan returns exactly the ranges a group was written with, in order,
   * whenever every separator is digit-free and starts with a character that
   * cannot continue a range (only the last one may be empty).
   */
  lemma {:induction false} ScanUnits(tokens: seq<string>, seps: seq<string>)
    requires |seps| == |tokens|
    requires forall k :: 0 <= k < |tokens| ==> IsRangeToken(tokens[k]) && |tokens[k]| > 0
    requires forall k :: 0 <= k < |seps| ==> NoneOf(seps[k], IsDigit)
    requires forall k :: 0 <= k < |seps| ==> (|seps[k]| > 0 && Ends(seps[k][0])) || (|seps[k]| == 0 && k == |seps| - 1)
    ensures ScanRanges(Units(tokens, seps)) == tokens
    decreases |tokens|
  {
    if |tokens| > 0 {
      var rest := Units(tokens[1..], seps[1..]);
      ScanUnits(tokens[1..], seps[1..]);
      if |seps[0]| == 0 {
        assert |tokens| == 1;
        assert rest == "";
      }
      ScanToken(tokens[0], seps[0], rest);
      assert Units(tokens, seps) == tokens[0] + seps[0] + rest;
      assert tokens == [tokens[0]] + tokens[1..];
    }
  }

  // ---------------------------------------------------------------------
  // verseParse: the leading part ((\d+)\s+)?(\w+)\s? and the range group
  // ---------------------------------------------------------------------

  /**
   * From `q`, `s` holds a word token ending at `k`, at most one white-space
   * character, and a digit at `p`, where the range group starts.
   */
  ghost predicate WordSplit(s: string, q: int, k: int, p: int) {
    0 <= q < k <= p < |s| && IsWord(s[q..k]) &&
    (p == k || (p == k + 1 && IsSpace(s[k]))) && IsDigit(s[p])
  }

  /**
   * `((\d+)\s+)?(\w+)\s?` matches `s[..p]` with the numeral `s[..n]` (none
   * when `n == 0`), the word `s[q..k]`, and a digit follows at `p`.
   */
  ghost predicate HeadSplit(s: string, n: int, q: int, k: int, p: int) {
    ((n == 0 && q == 0) || (0 < n < q <= |s| && IsDigits(s[..n]) && All(s[n..q], IsSpace))) &&
    WordSplit(s, q, k, p)
  }

  /** The selection starts the way the pattern requires. */
  ghost predicate HasHead(s: string) {
    exists n, q, k, p :: HeadSplit(s, n, q, k, p)
  }

  /** Where the word token ends and where the range group begins. */
  datatype WordCut = WordCut(wordEnd: nat, rangeStart: nat)

  /** The last digit of `s[lo..hi]`. */
  function LastDigit(s: string, lo: nat, hi: nat): (r: Option<nat>)
    requires lo <= hi <= |s|
    ensures r.Some? ==> lo <= r.value < hi && IsDigit(s[r.value])
    ensures r.Some? ==> forall j :: r.value < j < hi ==> !IsDigit(s[j])
    ensures r.None? ==> forall j :: lo <= j < hi ==> !IsDigit(s[j])
    decreases hi - lo
  {
    if lo == hi then None
    else if IsDigit(s[hi - 1]) then Some(hi - 1)
    else LastDigit(s, lo, hi - 1)
  }

  /**
   * `(\w+)\s?` from `q`, followed by a digit, with the backtracking of the
   * pattern: the whole word token and one white-space character are tried
   * first; failing that, `\w+` gives back characters until the next one is a
   * digit. The longest word that admits a digit afterwards is chosen, and
   * `None` means that no choice does.
   */
  function TryWord(s: string, q: nat): (r: Option<WordCut>)
    requires q <= |s|
    ensures r.Some? ==> WordSplit(s, q, r.value.wordEnd, r.value.rangeStart)
    ensures r.Some? ==> forall k, p :: WordSplit(s, q, k, p) ==> k <= r.value.wordEnd
    ensures r.None? ==> forall k, p :: !WordSplit(s, q, k, p)
  {
    var l := RunEnd(s, q, IsWordChar);
    if l == q then
      assert forall k, p :: !WordSplit(s, q, k, p);
      None
    else if l + 1 < |s| && IsSpace(s[l]) && IsDigit(s[l + 1]) then
      assert forall k, p :: WordSplit(s, q, k, p) ==> k <= l by {
        forall k, p | WordSplit(s, q, k, p) ensures k <= l {
          RunBound(s, q, k, l, IsWordChar);
        }
      }
      Some(WordCut(l, l + 1))
    else
      match LastDigit(s, q + 1, l)
      case Some(j) =>
        assert IsWord(s[q..j]) by {
          forall i | 0 <= i < j - q ensures IsWordChar(s[q..j][i]) {
            assert s[q..j][i] == s[q..l][i];
          }
        }
        assert forall k, p :: WordSplit(s, q, k, p) ==> k <= j by {
          forall k, p | WordSplit(s, q, k, p) ensures k <= j {
            RunBound(s, q, k, l, IsWordChar);
            InsideRunNeedsDigit(s, q, k, p, l);
          }
        }
        Some(WordCut(j, j))
      case None =>
        assert forall k, p :: !WordSplit(s, q, k, p) by {
          forall k, p | WordSplit(s, q, k, p) ensures false {
            RunBound(s, q, k, l, IsWordChar);
            InsideRunNeedsDigit(s, q, k, p, l);
          }
        }
        None
  }

  /**
   * A split whose word stops inside the word run is followed by a character
   * of the run, which can only be the digit that starts the range group.
   */
  lemma InsideRunNeedsDigit(s: string, q: nat, k: int, p: int, l: nat)
    requires WordSplit(s, q, k, p) && k <= l
    requires q <= l <= |s| && All(s[q..l], IsWordChar) && (l == |s| || !IsWordChar(s[l]))
    requires !(l + 1 < |s| && IsSpace(s[l]) && IsDigit(s[l + 1]))
    ensures q + 1 <= k < l && p == k && IsDigit(s[k])
  {
    ClassesNest(s[k]);
    if k < l {
      assert s[q..l][k - q] == s[k];
    }
  }

  /** Where the leading part of the pattern ends. */
  datatype Head = Head(numeralEnd: nat, wordStart: nat, wordEnd: nat, rangeStart: nat)

  /**
   * `((\d+)\s+)?(\w+)\s?` with its backtracking: the numeral branch first,
   * which can only succeed with the whole leading digit run and the whole
   * white-space run after it; otherwise the word from the start.
   */
  function MatchHead(s: string): (r: Option<Head>)
    ensures r.Some? ==> HeadSplit(s, r.value.numeralEnd, r.value.wordStart, r.value.wordEnd, r.value.rangeStart)
    ensures r.None? <==> !HasHead(s)
    ensures r.Some? ==> forall k, p :: HeadSplit(s, r.value.numeralEnd, r.value.wordStart, k, p) ==> k <= r.value.wordEnd
    ensures r.Some? && r.value.numeralEnd == 0 ==> forall n, q, k, p :: HeadSplit(s, n, q, k, p) ==> n == 0
  {
    var d := RunEnd(s, 0, IsDigit);
    var w := RunEnd(s, d, IsSpace);
    var numbered := if 0 < d < w then TryWord(s, w) else None;
    assert forall n, q, k, p :: HeadSplit(s, n, q, k, p) && n > 0 ==> n == d && q == w by {
      forall n, q, k, p | HeadSplit(s, n, q, k, p) && n > 0 ensures n == d && q == w {
        NumeralIsMaximal(s, n, q, k, p, d, w);
      }
    }
    if numbered.Some? then
      assert HeadSplit(s, d, w, numbered.value.wordEnd, numbered.value.rangeStart) by {
        assert s[..d] == s[0..d];
      }
      Some(Head(d, w, numbered.value.wordEnd, numbered.value.rangeStart))
    else
      match TryWord(s, 0)
      case Some(c) =>
        assert HeadSplit(s, 0, 0, c.wordEnd, c.rangeStart);
        Some(Head(0, 0, c.wordEnd, c.rangeStart))
      case None =>
        assert !HasHead(s);
        None
  }

  /** A numeral that the rest of the pattern accepts is the whole digit run and the whole space run. */
  lemma NumeralIsMaximal(s: string, n: int, q: int, k: int, p: int, d: nat, w: nat)
    requires HeadSplit(s, n, q, k, p) && n > 0
    requires d == RunEnd(s, 0, IsDigit) && w == RunEnd(s, d, IsSpace)
    ensures n == d && q == w
  {
    assert s[n..q][0] == s[n];
    ClassesNest(s[n]);
    RunEndAt(s, 0, n, IsDigit);
    assert s[q..k][0] == s[q];
    ClassesNest(s[q]);
    RunEndAt(s, n, q, IsSpace);
  }

  /**
   * `((\d+([:.]\d+)?(-\d+([:.]\d+)?)?(,\s*)?)+)` from a digit at `p`: each
   * greedy range may take one comma and the white space after it, and the
   * group goes on while a digit follows.
   */
  function GroupEnd(s: string, p: nat): (e: nat)
    requires p < |s| && IsDigit(s[p])
    ensures p < e <= |s|
    ensures e == |s| || !IsDigit(s[e])
    decreases |s| - p
  {
    var b := UnitEnd(s, p);
    if b < |s| && IsDigit(s[b]) then GroupEnd(s, b) else b
  }

  /** `\d+([:.]\d+)?(-\d+([:.]\d+)?)?(,\s*)?` from a digit at `p`: one greedy range and its optional comma. */
  function UnitEnd(s: string, p: nat): (b: nat)
    requires p < |s| && IsDigit(s[p])
    ensures p < b <= |s|
  {
    var a := RangeEnd(s, p);
    if a < |s| && s[a] == ',' then RunEnd(s, a + 1, IsSpace) else a
  }

  /** `\s*(\w+)?` after the range group: the version word, if any. */
  function TrailingWord(s: string, e: nat): (r: Option<string>)
    requires e <= |s|
    ensures r.Some? ==> IsWord(r.value)
  {
    var f := RunEnd(s, e, IsSpace);
    var v := RunEnd(s, f, IsWordChar);
    if f < v then Some(s[f..v]) else None
  }

  /** The book as `verseToLink` builds it: the numeral and one space, if any, then the word. */
  ghost predicate IsBookText(book: string) {
    IsWord(book) || exists n :: NumberedBook(book, n)
  }

  ghost predicate NumberedBook(book: string, n: int) {
    0 < n < |book| - 1 && IsDigits(book[..n]) && book[n] == ' ' && IsWord(book[n + 1..])
  }

  /**
   * `verseToLink`: an unmatched selection gives an empty book, no ranges and
   * the default version; a matched one gives the book, the ranges scanned
   * from the range group (at least one) and the trailing word, or the
   * default version when there is none.
   */
  function VerseToLink(selection: string, defaultVersion: string): (r: VerseRef)
    ensures !HasHead(selection) ==> r == VerseRef("", [], defaultVersion)
    ensures HasHead(selection) ==> |r.ranges| > 0 && IsBookText(r.book)
    ensures forall k :: 0 <= k < |r.ranges| ==> IsRangeToken(r.ranges[k])
    ensures r.version == defaultVersion || IsWord(r.version)
  {
    match MatchHead(selection)
    case None => VerseRef("", [], defaultVersion)
    case Some(h) =>
      var word := selection[h.wordStart..h.wordEnd];
      var book := if h.numeralEnd > 0 then selection[..h.numeralEnd] + " " + word else word;
      assert h.numeralEnd > 0 ==> NumberedBook(book, h.numeralEnd) by {
        if h.numeralEnd > 0 {
          assert book[..h.numeralEnd] == selection[..h.numeralEnd];
          assert book[h.numeralEnd + 1..] == word;
        }
      }
      var e := GroupEnd(selection, h.rangeStart);
      var group := selection[h.rangeStart..e];
      assert group[0] == selection[h.rangeStart];
      VerseRef(book, ScanRanges(group), TrailingWord(selection, e).GetOr(defaultVersion))
  }

  // ---------------------------------------------------------------------
  // What verseToLink reads from a selection written out in parts
  // ---------------------------------------------------------------------

  /** `((\d+)\s+)?`: no numeral at all, or a digit run and a white-space run. */
  ghost predicate NumeralPart(numeral: string, gap: string) {
    (numeral == "" && gap == "") || (IsDigits(numeral) && |gap| > 0 && All(gap, IsSpace))
  }

  /** `,\s*`: a comma and the white space after it. */
  ghost predicate CommaSep(x: string) {
    |x| > 0 && x[0] == ',' && All(x[1..], IsSpace)
  }

  /**
   * The separators of a range group: every range but the last is followed by
   * `,\s*`, and the last one by `,\s*` or by nothing.
   */
  ghost predicate GroupSeps(seps: seq<string>) {
    |seps| > 0 &&
    (forall k :: 0 <= k < |seps| - 1 ==> CommaSep(seps[k])) &&
    (seps[|seps| - 1] == "" || CommaSep(seps[|seps| - 1]))
  }

  /**
   * What follows a range group cannot extend it: after a last range without
   * a comma comes nothing or a character that neither continues a range nor
   * is a comma; after a trailing `,\s*` comes nothing or a character that is
   * neither white space nor a digit.
   */
  ghost predicate GroupStops(lastSep: string, post: string) {
    if lastSep == "" then |post| == 0 || (Ends(post[0]) && post[0] != ',')
    else |post| == 0 || (!IsDigit(post[0]) && !IsSpace(post[0]))
  }

  /**
   * `verseToLink` reads a selection written as an optional numeral with white
   * space, a book word, one white-space character, a range group and an
   * optional version word: the book is the word (after the numeral and ONE
   * space, whatever white space the selection had), the ranges are the
   * group's ranges in order, and the version is the word, or the default
   * version when there is none.
   */
  lemma VerseToLinkReads(numeral: string, gap: string, word: string, c: char, tokens: seq<string>, seps: seq<string>,
                         ws: string, v: string, rest: string, defaultVersion: string)
    requires NumeralPart(numeral, gap)
    requires IsWord(word) && (numeral == "" ==> !IsDigit(word[0]))
    requires IsSpace(c)
    requires |seps| == |tokens| && GroupSeps(seps)
    requires forall k :: 0 <= k < |tokens| ==> IsRangeToken(tokens[k])
    requires GroupStops(seps[|seps| - 1], ws + v + rest)
    requires All(ws, IsSpace) && (v == "" || IsWord(v))
    requires |rest| > 0 ==> !IsWordChar(rest[0]) && (v == "" ==> !IsSpace(rest[0]))
    ensures var s := numeral + gap + word + [c] + Units(tokens, seps) + ws + v + rest;
      HasHead(s) &&
      VerseToLink(s, defaultVersion) ==
        VerseRef(if numeral == "" then word else numeral + " " + word, tokens, if v == "" then defaultVersion else v)
  {
    var g := Units(tokens, seps);
    var pre := numeral + gap + word + [c] + g;
    var s := pre + ws + v + rest;
    SelectionLayout(numeral, gap, word, c, g, ws, v, rest);
    TrailingWordReads(pre, ws, v, rest);
    VerseToLinkAt(s, numeral, gap, word, c, tokens, seps, ws + v + rest, |pre|, if v == "" then None else Some(v), defaultVersion);
  }

  /**
   * `verseToLink` on a selection that holds, in place, a numeral part, a
   * word, one white-space character, a range group that the text after it
   * cannot extend, and then the given version.
   */
  lemma VerseToLinkAt(s: string, numeral: string, gap: string, word: string, c: char, tokens: seq<string>,
                      seps: seq<string>, post: string, e: nat, version: Option<string>, defaultVersion: string)
    requires NumeralPart(numeral, gap)
    requires IsWord(word) && (numeral == "" ==> !IsDigit(word[0]))
    requires IsSpace(c)
    requires |seps| == |tokens| && GroupSeps(seps)
    requires forall k :: 0 <= k < |tokens| ==> IsRangeToken(tokens[k])
    requires GroupStops(seps[|seps| - 1], post)
    requires e == |numeral| + |gap| + |word| + 1 + |Units(tokens, seps)| && e <= |s|
    requires var n, q := |numeral|, |numeral| + |gap|;
      var k := q + |word|;
      s[..n] == numeral && s[n..q] == gap && s[q..k] == word && s[k] == c &&
      s[k + 1..e] == Units(tokens, seps) && s[e..] == post
    requires TrailingWord(s, e) == version
    ensures HasHead(s)
    ensures VerseToLink(s, defaultVersion) ==
      VerseRef(if numeral == "" then word else numeral + " " + word, tokens, version.GetOr(defaultVersion))
  {
    var g := Units(tokens, seps);
    var k := |numeral| + |gap| + |word|;
    var h := Head(|numeral|, |numeral| + |gap|, k, k + 1);
    UnitsStartWithDigit(tokens, seps);
    HeadAt(s, numeral, gap, word, c, g, h);
    GroupEndAt(s, h.rangeStart, e, tokens, seps);
    assert ScanRanges(s[h.rangeStart..e]) == tokens by {
      GroupScans(tokens, seps);
    }
    VerseToLinkPieces(s, h, e, numeral, word, tokens, version, defaultVersion);
  }

  /** `verseToLink` on a matched selection, from what the head, the group and the version match. */
  lemma VerseToLinkPieces(s: string, h: Head, e: nat, numeral: string, word: string, tokens: seq<string>,
                          version: Option<string>, defaultVersion: string)
    requires MatchHead(s) == Some(h)
    requires h.rangeStart < |s| && IsDigit(s[h.rangeStart]) && GroupEnd(s, h.rangeStart) == e
    requires s[..h.numeralEnd] == numeral && s[h.wordStart..h.wordEnd] == word
    requires ScanRanges(s[h.rangeStart..e]) == tokens && TrailingWord(s, e) == version
    ensures HasHead(s)
    ensures VerseToLink(s, defaultVersion) ==
      VerseRef(if h.numeralEnd == 0 then word else numeral + " " + word, tokens, version.GetOr(defaultVersion))
  {
  }

  /** Where the numeral, the white space, the word, its space, the range group and the rest sit in the selection. */
  lemma SelectionLayout(numeral: string, gap: string, word: string, c: char, g: string, ws: string, v: string, rest: string)
    requires |word| > 0
    ensures var s := numeral + gap + word + [c] + g + ws + v + rest;
      var n, q := |numeral|, |numeral| + |gap|;
      var k := q + |word|;
      |numeral + gap + word + [c] + g| == k + 1 + |g| && k + 1 + |g| <= |s| &&
      s[..n] == numeral && s[n..q] == gap && s[q..k] == word && s[k] == c &&
      s[k + 1..k + 1 + |g|] == g && s[k + 1 + |g|..] == ws + v + rest
  {
    var head := numeral + gap + word + [c];
    var s := numeral + gap + word + [c] + g + ws + v + rest;
    assert s == head + (g + (ws + v + rest));
    assert s[..|head|] == head;
    assert s[|head|..] == g + (ws + v + rest);
    assert head[..|numeral|] == numeral;
    assert head[|numeral|..|numeral| + |gap|] == gap;
    assert head[|numeral| + |gap|..|numeral| + |gap| + |word|] == word;
  }

  /** The head of a selection that starts with a numeral part, a word, one white-space character and a range group. */
  lemma HeadAt(s: string, numeral: string, gap: string, word: string, c: char, g: string, h: Head)
    requires NumeralPart(numeral, gap)
    requires IsWord(word) && (numeral == "" ==> !IsDigit(word[0]))
    requires IsSpace(c) && |g| > 0 && IsDigit(g[0])
    requires h == Head(|numeral|, |numeral| + |gap|, |numeral| + |gap| + |word|, |numeral| + |gap| + |word| + 1)
    requires h.rangeStart + |g| <= |s|
    requires s[..h.numeralEnd] == numeral && s[h.numeralEnd..h.wordStart] == gap && s[h.wordStart..h.wordEnd] == word
    requires s[h.wordEnd] == c && s[h.rangeStart..h.rangeStart + |g|] == g
    ensures MatchHead(s) == Some(h)
  {
    assert s[h.rangeStart] == g[0];
    assert s[h.wordStart] == word[0];
    HeadReads(s, h.numeralEnd, h.wordStart, h.wordEnd);
  }

  /**
   * The leading part of the pattern on a numeral part, a word, one
   * white-space character and then a digit: the numeral branch is taken
   * exactly when there is a numeral, and the word is matched whole.
   */
  lemma HeadReads(s: string, n: nat, q: nat, k: nat)
    requires n <= q < k && k + 1 < |s|
    requires (n == 0 && q == 0) || (0 < n < q && IsDigits(s[..n]) && All(s[n..q], IsSpace))
    requires IsWord(s[q..k]) && (n == 0 ==> !IsDigit(s[q]))
    requires IsSpace(s[k]) && IsDigit(s[k + 1])
    ensures MatchHead(s) == Some(Head(n, q, k, k + 1))
  {
    WordReads(s, q, k);
    assert s[q..k][0] == s[q];
    ClassesNest(s[q]);
    if n == 0 {
      RunEndAt(s, 0, 0, IsDigit);
    } else {
      assert s[n..q][0] == s[n];
      ClassesNest(s[n]);
      assert s[0..n] == s[..n];
      RunEndAt(s, 0, n, IsDigit);
      RunEndAt(s, n, q, IsSpace);
    }
  }

  /** `(\w+)\s?` on a word, one white-space character and a digit takes the whole word and the space. */
  lemma WordReads(s: string, q: nat, k: nat)
    requires q < k && k + 1 < |s|
    requires IsWord(s[q..k]) && IsSpace(s[k]) && IsDigit(s[k + 1])
    ensures TryWord(s, q) == Some(WordCut(k, k + 1))
  {
    ClassesNest(s[k]);
    RunEndAt(s, q, k, IsWordChar);
  }

  /** A group written with `GroupSeps` separators scans back to its ranges. */
  lemma GroupScans(tokens: seq<string>, seps: seq<string>)
    requires |seps| == |tokens| && GroupSeps(seps)
    requires forall k :: 0 <= k < |tokens| ==> IsRangeToken(tokens[k])
    ensures ScanRanges(Units(tokens, seps)) == tokens
  {
    forall k | 0 <= k < |tokens|
      ensures IsRangeToken(tokens[k]) && |tokens[k]| > 0
    {
      TokenStartsWithDigit(tokens[k]);
    }
    forall k | 0 <= k < |seps|
      ensures NoneOf(seps[k], IsDigit)
      ensures (|seps[k]| > 0 && Ends(seps[k][0])) || (|seps[k]| == 0 && k == |seps| - 1)
    {
      CommaSepDigitFree(seps[k]);
    }
    ScanUnits(tokens, seps);
  }

  /** `,\s*` holds no digit. */
  lemma CommaSepDigitFree(x: string)
    requires x == "" || CommaSep(x)
    ensures NoneOf(x, IsDigit)
  {
    forall k | 0 <= k < |x|
      ensures !IsDigit(x[k])
    {
      if k > 0 {
        assert x[k] == x[1..][k - 1];
        ClassesNest(x[k]);
      }
    }
  }

  /**
   * `((\d+([:.]\d+)?(-\d+([:.]\d+)?)?(,\s*)?)+)` on a group written with
   * `GroupSeps` separators at `p` and followed by text that cannot extend it
   * ends exactly at the end of the group.
   */
  lemma {:induction false} GroupEndAt(s: string, p: nat, e: nat, tokens: seq<string>, seps: seq<string>)
    requires |seps| == |tokens| && GroupSeps(seps)
    requires forall k :: 0 <= k < |tokens| ==> IsRangeToken(tokens[k])
    requires e == p + |Units(tokens, seps)| && e <= |s| && s[p..e] == Units(tokens, seps)
    requires GroupStops(seps[|seps| - 1], s[e..])
    ensures p < |s| && IsDigit(s[p])
    ensures GroupEnd(s, p) == e
    decreases |tokens|
  {
    var a, b := UnitsSlices(s, p, e, tokens, seps);
    TokenStartsWithDigit(tokens[0]);
    if |tokens| > 1 {
      assert CommaSep(seps[0]);
      CommaAt(s, a, b, seps[0]);
      NextDigitAt(s, b, e, tokens[1..], seps[1..]);
      NextUnitAt(s, p, a, b);
      assert seps[1..][|seps[1..]| - 1] == seps[|seps| - 1];
      GroupEndAt(s, b, e, tokens[1..], seps[1..]);
    } else {
      StopsAt(s, a, b, seps[0], s[b..]);
      LastUnitAt(s, p, a, b);
    }
  }

  /** The first range and separator of a group read in place at `p`, and the rest of the group after them. */
  lemma UnitsSlices(s: string, p: nat, e: nat, tokens: seq<string>, seps: seq<string>) returns (a: nat, b: nat)
    requires |seps| == |tokens| > 0
    requires e == p + |Units(tokens, seps)| && e <= |s| && s[p..e] == Units(tokens, seps)
    ensures a == p + |tokens[0]| && b == a + |seps[0]|
    ensures e == b + |Units(tokens[1..], seps[1..])|
    ensures s[p..a] == tokens[0] && s[a..b] == seps[0] && s[b..e] == Units(tokens[1..], seps[1..])
  {
    a, b := p + |tokens[0]|, p + |tokens[0]| + |seps[0]|;
    var u := Units(tokens[1..], seps[1..]);
    var g := Units(tokens, seps);
    assert g == tokens[0] + seps[0] + u;
    SubSlice(s, p, e, 0, |tokens[0]|);
    SubSlice(s, p, e, |tokens[0]|, |tokens[0]| + |seps[0]|);
    SubSlice(s, p, e, |tokens[0]| + |seps[0]|, |g|);
    assert g[..|tokens[0]|] == tokens[0];
    assert g[|tokens[0]|..|tokens[0]| + |seps[0]|] == seps[0];
    assert g[|tokens[0]| + |seps[0]|..|g|] == u;
  }

  /** A slice of a slice is a slice. */
  lemma SubSlice(s: string, p: nat, e: nat, i: nat, j: nat)
    requires p <= e <= |s| && i <= j <= e - p
    ensures s[p + i..p + j] == s[p..e][i..j]
  {
    forall k | 0 <= k < j - i
      ensures s[p + i..p + j][k] == s[p..e][i..j][k]
    {
      assert s[p..e][i..j][k] == s[p..e][i + k];
    }
  }

  /** A group starts with the first digit of its first range. */
  lemma UnitsStartWithDigit(tokens: seq<string>, seps: seq<string>)
    requires |seps| == |tokens| > 0 && IsRangeToken(tokens[0])
    ensures |Units(tokens, seps)| > 0 && IsDigit(Units(tokens, seps)[0])
  {
    TokenStartsWithDigit(tokens[0]);
    assert Units(tokens, seps)[0] == tokens[0][0];
  }

  /** A group that is not yet over starts with a digit. */
  lemma NextDigitAt(s: string, b: nat, e: nat, tokens: seq<string>, seps: seq<string>)
    requires |seps| == |tokens| > 0
    requires forall k :: 0 <= k < |tokens| ==> IsRangeToken(tokens[k])
    requires e == b + |Units(tokens, seps)| && e <= |s| && s[b..e] == Units(tokens, seps)
    ensures b < |s| && IsDigit(s[b])
  {
    TokenStartsWithDigit(tokens[0]);
    var u := Units(tokens, seps);
    assert u[0] == tokens[0][0];
    assert s[b] == s[b..e][0];
  }

  /** The separator `s[a..b]` and the text after it, read in place. */
  lemma StopsAt(s: string, a: nat, b: nat, x: string, post: string)
    requires a <= b && |s| == b + |post| && s[a..b] == x && (|post| > 0 ==> s[b] == post[0])
    requires (x == "" || CommaSep(x)) && GroupStops(x, post)
    ensures (b == a && (a == |s| || (Ends(s[a]) && s[a] != ','))) ||
            (a < b && s[a] == ',' && All(s[a + 1..b], IsSpace) && (b == |s| || (!IsDigit(s[b]) && !IsSpace(s[b]))))
  {
    if x != "" {
      CommaAt(s, a, b, x);
    }
  }

  /** A range at `p` followed by `,\s*` up to a digit at `b`: the group runs on from `b`. */
  lemma NextUnitAt(s: string, p: nat, a: nat, b: nat)
    requires p < a < b < |s|
    requires IsRangeToken(s[p..a]) && s[a] == ',' && All(s[a + 1..b], IsSpace) && IsDigit(s[b])
    ensures IsDigit(s[p]) && IsDigit(s[b])
    ensures GroupEnd(s, p) == GroupEnd(s, b)
  {
    ClassesNest(s[b]);
    UnitStep(s, p, a, b);
  }

  /** The last range at `p` and its separator up to `b`, after which the group cannot go on. */
  lemma LastUnitAt(s: string, p: nat, a: nat, b: nat)
    requires p < a <= b <= |s|
    requires IsRangeToken(s[p..a])
    requires (b == a && (a == |s| || (Ends(s[a]) && s[a] != ','))) ||
             (a < b && s[a] == ',' && All(s[a + 1..b], IsSpace) && (b == |s| || (!IsDigit(s[b]) && !IsSpace(s[b]))))
    ensures IsDigit(s[p])
    ensures GroupEnd(s, p) == b
  {
    UnitStep(s, p, a, b);
  }

  /** A `,\s*` separator read in place. */
  lemma CommaAt(s: string, a: nat, b: nat, x: string)
    requires a <= b <= |s| && s[a..b] == x && CommaSep(x)
    ensures a < b && s[a] == ',' && All(s[a + 1..b], IsSpace)
  {
    assert s[a + 1..b] == x[1..];
  }

  /**
   * One range and its separator at `p`: the range `s[p..a]` is matched
   * whole, a comma takes the white space up to `b`, and the group goes on
   * exactly when a digit follows.
   */
  lemma UnitStep(s: string, p: nat, a: nat, b: nat)
    requires p < a <= b <= |s|
    requires IsRangeToken(s[p..a]) && (a == |s| || Ends(s[a]))
    requires (b == a && (a == |s| || s[a] != ',')) ||
             (a < b && s[a] == ',' && All(s[a + 1..b], IsSpace) && (b == |s| || !IsSpace(s[b])))
    ensures IsDigit(s[p])
    ensures UnitEnd(s, p) == b
  {
    RangeGreedy(s, p, a);
    if a < b {
      RunEndAt(s, a + 1, b, IsSpace);
    }
  }

  /**
   * `\s*(\w+)?` from `|pre|`: the white space is skipped and the version is
   * the word after it, or none when no word follows.
   */
  lemma TrailingWordReads(pre: string, ws: string, v: string, rest: string)
    requires All(ws, IsSpace) && (v == "" || IsWord(v))
    requires |rest| > 0 ==> !IsWordChar(rest[0]) && (v == "" ==> !IsSpace(rest[0]))
    ensures TrailingWord(pre + ws + v + rest, |pre|) == if v == "" then None else Some(v)
  {
    var s := pre + ws + v + rest;
    var e, f := |pre|, |pre| + |ws|;
    TrailLayout(pre, ws, v, rest);
    if |v| > 0 {
      ClassesNest(v[0]);
    }
    RunEndAt(s, e, f, IsSpace);
    RunEndAt(s, f, f + |v|, IsWordChar);
  }

  /** Where the white space, the word and the rest sit after `pre`. */
  lemma TrailLayout(pre: string, ws: string, v: string, rest: string)
    ensures var s := pre + ws + v + rest;
      var f := |pre| + |ws|;
      s[|pre|..f] == ws && s[f..f + |v|] == v &&
      (|v| > 0 ==> s[f] == v[0]) && (|v| == 0 && |rest| > 0 ==> s[f] == rest[0]) &&
      (|rest| > 0 ==> s[f + |v|] == rest[0])
  {
  }
}
