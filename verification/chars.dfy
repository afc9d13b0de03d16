/**
 * Character classes of Python's `re` module, restricted to ASCII:
 * `\d` is a decimal digit, `\w` a letter, digit or underscore, and `\s`
 * one of the ten ASCII characters `str.isspace` accepts: space, tab, newline,
 * carriage return, vertical tab, form feed and the separators U+001C-U+001F.
 */
module Chars {

  predicate IsDigit(c: char) {
    '0' <= c <= '9'
  }

  predicate IsWordChar(c: char) {
    IsDigit(c) || ('a' <= c <= 'z') || ('A' <= c <= 'Z') || c == '_'
  }

  /** Tab, newline, vertical tab, form feed, carriage return; the separators U+001C-U+001F, space. */
  predicate IsSpace(c: char) {
    ('\t' <= c <= '\r') || ('\U{001C}' <= c <= ' ')
  }

  /** True when every character of `s` is a decimal digit. */
  predicate AllDigits(s: string) {
    forall j :: 0 <= j < |s| ==> IsDigit(s[j])
  }

  /** True when no character of `s` is `c`. */
  predicate Lacks(s: string, c: char) {
    forall j :: 0 <= j < |s| ==> s[j] != c
  }
}
