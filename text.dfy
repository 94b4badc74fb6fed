/**
 * Character-level helpers shared by the filename parser, the extension
 * filter and the term filter. Python's `str.lower`, `\d` and `str.isalpha`
 * are Unicode-aware; this model restricts all three to ASCII.
 */
module Text {

  /** `str.lower` on one character, restricted to ASCII. */
  function Lower(c: char): char
  {
    if 'A' <= c <= 'Z' then (c as int - 'A' as int + 'a' as int) as char else c
  }

  /** `str.lower` on a whole string: one character at a time, length kept. */
  function LowerStr(s: string): string
  {
    seq(|s|, k requires 0 <= k < |s| => Lower(s[k]))
  }

  /** What `\d` matches (ASCII digits). */
  predicate IsDigit(c: char)
  {
    '0' <= c <= '9'
  }

  /** What `str.isalpha` accepts (ASCII letters). */
  predicate IsLetter(c: char)
  {
    'a' <= c <= 'z' || 'A' <= c <= 'Z'
  }

  /** `any(c.isalpha() for c in s)`. */
  predicate HasLetter(s: string)
  {
    exists k :: 0 <= k < |s| && IsLetter(s[k])
  }

  /** Number of occurrences of `c` in `s`. */
  function Count(s: string, c: char): nat
  {
    if s == [] then 0 else (if s[0] == c then 1 else 0) + Count(s[1..], c)
  }
}
