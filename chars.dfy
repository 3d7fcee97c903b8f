/**
 * Character classes the Python regular-expression engine and `str` methods rely on:
 * whitespace (`str.isspace`), word characters (`\w`) and lower-casing (`re.IGNORECASE`,
 * `str.lower`).  Whitespace is Python's exact list.  Word characters are written out for
 * ASCII, Latin-1, Latin Extended-A/B, Latin Extended Additional, basic Greek and Cyrillic, CJK,
 * kana and Hangul.  Lower-casing covers ASCII, Latin-1, Latin Extended-A, the two Vietnamese
 * letters of Latin Extended-B (Ơ, Ư), Latin Extended Additional, and basic Greek and Cyrillic.
 */
module Chars {

  /** Python's `str.isspace()` for one character. */
  predicate IsSpace(c: char) {
    var n := c as int;
    (0x09 <= n <= 0x0D) || (0x1C <= n <= 0x20) || n == 0x85 || n == 0xA0 || n == 0x1680
    || (0x2000 <= n <= 0x200A) || n == 0x2028 || n == 0x2029 || n == 0x202F || n == 0x205F
    || n == 0x3000
  }

  predicate IsAsciiLetter(c: char) { 'A' <= c <= 'Z' || 'a' <= c <= 'z' }

  predicate IsAsciiDigit(c: char) { '0' <= c <= '9' }

  /** Membership in Python's Unicode `\w` class. */
  predicate IsWordChar(c: char) {
    var n := c as int;
    IsAsciiLetter(c) || IsAsciiDigit(c) || c == '_'
    || n == 0xAA || n == 0xB2 || n == 0xB3 || n == 0xB5 || n == 0xB9 || n == 0xBA
    || (0xBC <= n <= 0xBE)
    || (0xC0 <= n <= 0x24F && n != 0xD7 && n != 0xF7)
    || (0x391 <= n <= 0x3A9 && n != 0x3A2) || (0x3B1 <= n <= 0x3C9)
    || (0x400 <= n <= 0x481) || (0x48A <= n <= 0x52F)
    || (0x1E00 <= n <= 0x1EFF)
    || (0x3041 <= n <= 0x3096) || (0x30A1 <= n <= 0x30FA)
    || (0x4E00 <= n <= 0x9FFF) || (0xAC00 <= n <= 0xD7A3)
  }

  /** The lower-case form the regular-expression engine compares under `re.IGNORECASE`. */
  function Lower(c: char): char {
    var n := c as int;
    if 'A' <= c <= 'Z' then (n + 32) as char
    else if 0xC0 <= n <= 0xDE && n != 0xD7 then (n + 32) as char
    else if n == 0x130 then 'i'
    else if n == 0x178 then 0xFF as char
    else if (0x100 <= n <= 0x137 || 0x14A <= n <= 0x177 || 0x1E00 <= n <= 0x1E95 || 0x1EA0 <= n <= 0x1EFF)
            && n % 2 == 0 then (n + 1) as char
    else if (0x139 <= n <= 0x148 || 0x179 <= n <= 0x17E) && n % 2 == 1 then (n + 1) as char
    else if n == 0x1A0 || n == 0x1AF then (n + 1) as char
    else if 0x391 <= n <= 0x3A9 && n != 0x3A2 then (n + 32) as char
    else if 0x410 <= n <= 0x42F then (n + 32) as char
    else if 0x400 <= n <= 0x40F then (n + 80) as char
    else c
  }

  /** Lower-casing never changes whether a character is a word character. */
  lemma LowerKeepsWordChar(c: char)
    ensures IsWordChar(Lower(c)) == IsWordChar(c)
  {
  }
}
