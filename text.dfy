/** Character classes shared by the validators, the OCR recovery and the
    response unwrapping. Python's `\d`, `\s` and `\w` are Unicode-aware; here
    they are their members below U+0080 (plus the Hebrew letters for `\w`). */
module Text {

  /** `\d`: an ASCII decimal digit. */
  predicate IsDigit(c: char) {
    '0' <= c <= '9'
  }

  function DigitValue(c: char): (v: nat)
    requires IsDigit(c)
    ensures v <= 9
  {
    c as int - '0' as int
  }

  predicate AllDigits(s: string) {
    forall i :: 0 <= i < |s| ==> IsDigit(s[i])
  }

  /** `\s` and `str.strip`: space, tab, line feed, vertical tab, form feed,
      carriage return and the four separators U+001C to U+001F. */
  predicate IsSpace(c: char) {
    c == ' ' || c == '\t' || c == '\n' || c == '\r' || c == '\U{000B}' || c == '\U{000C}'
    || ('\U{001C}' <= c <= '\U{001F}')
  }

  /** `\w`: letters, digits and underscore (ASCII and the Hebrew alphabet). */
  predicate IsWordChar(c: char) {
    IsDigit(c) || ('a' <= c <= 'z') || ('A' <= c <= 'Z') || c == '_' || ('א' <= c <= 'ת')
  }

  predicate StartsWith(s: string, prefix: string) {
    |prefix| <= |s| && s[..|prefix|] == prefix
  }

  /** `prefix` occurs in `s` at position `i`. */
  predicate OccursAt(s: string, i: nat, prefix: string) {
    i + |prefix| <= |s| && s[i..i + |prefix|] == prefix
  }
}
