/**
 * Character classes of ECMAScript regular expressions, as the link-to-verse
 * plugin's patterns use them. None of its patterns carries the `u` flag, so the
 * `i` flag does not widen `\w`: `\w` and `\d` are ASCII, while `\s` is the
 * Unicode white-space set the ECMAScript standard fixes for every pattern.
 */
module Chars {

  /** `\d`: an ASCII decimal digit. */
  predicate IsDigit(c: char) {
    '0' <= c <= '9'
  }

  /** `\w`: `[A-Za-z0-9_]`. */
  predicate IsWordChar(c: char) {
    ('a' <= c <= 'z') || ('A' <= c <= 'Z') || IsDigit(c) || c == '_'
  }

  /**
   * `\s`: the WhiteSpace and LineTerminator code points of ECMAScript
   * (tab, line feed, vertical tab, form feed, carriage return, space,
   * no-break space, ogham space mark, the en quad .. hair space block,
   * line and paragraph separators, narrow no-break space, medium
   * mathematical space, ideographic space and the byte order mark).
   */
  predicate IsSpace(c: char) {
    var n := c as int;
    (9 <= n <= 13) || n == 0x20 || n == 0xA0 || n == 0x1680 ||
    (0x2000 <= n <= 0x200A) || n == 0x2028 || n == 0x2029 ||
    n == 0x202F || n == 0x205F || n == 0x3000 || n == 0xFEFF
  }

  /** `[:\.]`: the chapter/verse separators the legacy pattern accepts. */
  predicate IsVerseSep(c: char) {
    c == ':' || c == '.'
  }

  /** Every character of `s` belongs to the class `P`. */
  predicate All(s: string, P: char -> bool) {
    forall k :: 0 <= k < |s| ==> P(s[k])
  }

  /** No character of `s` belongs to the class `P`. */
  predicate NoneOf(s: string, P: char -> bool) {
    forall k :: 0 <= k < |s| ==> !P(s[k])
  }

  /** `\d+` as a whole string: a non-empty run of digits. */
  predicate IsDigits(s: string) {
    |s| > 0 && All(s, IsDigit)
  }

  /** `\w+` as a whole string: a non-empty run of word characters. */
  predicate IsWord(s: string) {
    |s| > 0 && All(s, IsWordChar)
  }

  /**
   * The end of the longest run of `P`-characters that starts at `i`:
   * the position a greedy `P+` or `P*` stops at.
   */
  function RunEnd(s: string, i: nat, P: char -> bool): (e: nat)
    requires i <= |s|
    ensures i <= e <= |s|
    ensures All(s[i..e], P)
    ensures e == |s| || !P(s[e])
    decreases |s| - i
  {
    if i < |s| && P(s[i]) then RunEnd(s, i + 1, P) else i
  }

  /** A digit is a word character and never white space, so the classes nest as the patterns assume. */
  lemma ClassesNest(c: char)
    ensures IsDigit(c) ==> IsWordChar(c)
    ensures IsWordChar(c) ==> !IsSpace(c)
    ensures IsVerseSep(c) ==> !IsWordChar(c) && !IsSpace(c)
  {
  }
}
