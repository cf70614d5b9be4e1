/** Character classes used by the lexer and by the parser combinators.
    Each class is defined once, by code point, exactly as the Java library
    call or regular-expression class it stands for. */
module Chars {

  /** `[0-9]` */
  predicate IsDigit(c: char)
  {
    '0' <= c <= '9'
  }

  /** `[a-zA-Z]` */
  predicate IsAsciiLetter(c: char)
  {
    ('a' <= c <= 'z') || ('A' <= c <= 'Z')
  }

  /** `[_a-zA-Z]`: the first character of an identifier. */
  predicate IsIdentStart(c: char)
  {
    c == '_' || IsAsciiLetter(c)
  }

  /** `[_a-zA-Z0-9]`: every later character of an identifier. */
  predicate IsIdentPart(c: char)
  {
    IsIdentStart(c) || IsDigit(c)
  }

  /** `Character.isWhitespace`: the Unicode space, line and paragraph
      separators other than the three no-break spaces, plus the ASCII
      controls TAB, LF, VT, FF, CR and the four information separators
      U+001C..U+001F. */
  predicate IsJavaWhitespace(c: char)
  {
    var n := c as int;
    (9 <= n <= 13) || (28 <= n <= 32)
    || n == 0x1680 || (0x2000 <= n <= 0x2006) || (0x2008 <= n <= 0x200A)
    || n == 0x2028 || n == 0x2029 || n == 0x205F || n == 0x3000
  }

  /** The regular-expression class `\s` without UNICODE_CHARACTER_CLASS:
      `[ \t\n\x0B\f\r]`. Narrower than `Character.isWhitespace`. */
  predicate IsRegexSpace(c: char)
  {
    c == ' ' || (9 <= c as int <= 13)
  }

  /** The characters the regular-expression `.` does not match by default. */
  predicate IsLineTerminator(c: char)
  {
    c == '\n' || c == '\r' || c as int == 0x85 || c as int == 0x2028 || c as int == 0x2029
  }

  /** `Character.toLowerCase` restricted to the letters enum names use. */
  function LowerChar(c: char): (r: char)
    ensures 'A' <= c <= 'Z' ==> r as int == c as int + 32
    ensures !('A' <= c <= 'Z') ==> r == c
  {
    if 'A' <= c <= 'Z' then (c as int + 32) as char else c
  }

  /** `String.toLowerCase(Locale.ROOT)` on ASCII text. */
  function Lower(s: string): (r: string)
    ensures |r| == |s|
    ensures forall i :: 0 <= i < |s| ==> r[i] == LowerChar(s[i])
  {
    if s == [] then [] else [LowerChar(s[0])] + Lower(s[1..])
  }

  /** `s` begins with `prefix`. */
  predicate StartsWith(s: seq<char>, prefix: seq<char>)
  {
    |prefix| <= |s| && s[..|prefix|] == prefix
  }
}
