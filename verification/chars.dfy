/**
 * Character classes shared by the regular expression and by `String#to_i`.
 * Ruby's `\s` (on ASCII text) and the C-level `ISSPACE` used by `to_i`
 * are the same six characters.
 */
module Chars {

  /** Space, tab, newline, vertical tab, form feed, carriage return. */
  predicate IsSpace(c: char) {
    c == ' ' || c == '\t' || c == '\n' || c == '\U{B}' || c == '\U{C}' || c == '\r'
  }

  predicate IsDigit(c: char) {
    '0' <= c <= '9'
  }

  /** Every character of s[i..j] is whitespace. */
  predicate AllSpace(s: string, i: int, j: int)
    requires 0 <= i <= j <= |s|
  {
    forall k :: i <= k < j ==> IsSpace(s[k])
  }

  predicate AllDigits(s: string) {
    forall k :: 0 <= k < |s| ==> IsDigit(s[k])
  }
}
