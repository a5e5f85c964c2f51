/**
  Character classes and case folding behind the regular expressions of
  christmas_year_count.py, restricted to ASCII: a word character is an ASCII
  letter, an ASCII digit or `_`, and case-insensitive comparison folds only
  `A`..`Z` onto `a`..`z`.
*/
module AsciiText {

  predicate IsDigit(c: char) {
    '0' <= c <= '9'
  }

  predicate IsAsciiLetter(c: char) {
    'a' <= c <= 'z' || 'A' <= c <= 'Z'
  }

  /** The characters `\w` matches. */
  predicate IsWordChar(c: char) {
    IsAsciiLetter(c) || IsDigit(c) || c == '_'
  }

  /** `\b` at position `i` of `s`: exactly one of the characters on either side
      of the position is a word character (outside `s` counts as non-word). */
  predicate AtWordBoundary(s: string, i: int)
    requires 0 <= i <= |s|
  {
    (i > 0 && IsWordChar(s[i - 1])) != (i < |s| && IsWordChar(s[i]))
  }

  function ToLower(c: char): char {
    if 'A' <= c <= 'Z' then (c as int + 32) as char else c
  }

  /** Two strings agree under `re.I`, ASCII only. */
  predicate EqualsIgnoreCase(a: string, b: string) {
    |a| == |b| && forall k :: 0 <= k < |a| ==> ToLower(a[k]) == ToLower(b[k])
  }

  /** `w` occurs case-insensitively in `s` starting at `i`. */
  predicate OccursAt(s: string, w: string, i: int) {
    0 <= i && i + |w| <= |s| && EqualsIgnoreCase(s[i..i + |w|], w)
  }

  /** `w` occurs case-insensitively somewhere in `s` (a substring search). */
  predicate ContainsIgnoreCase(s: string, w: string) {
    exists i :: 0 <= i <= |s| && OccursAt(s, w, i)
  }

  /** `\bw\b` matches at `i` under `re.I`: `w` occurs there with a word
      boundary on each side. */
  predicate WholeWordAt(s: string, w: string, i: int) {
    OccursAt(s, w, i) && AtWordBoundary(s, i) && AtWordBoundary(s, i + |w|)
  }
}
