/** JavaScript strings: sequences of UTF-16 code units, surrogates included. */
module Texts {
  type Unit = c: int | 0 <= c < 0x10000
  type Text = seq<Unit>

  const TAB: Unit := 0x09
  const LF: Unit := 0x0A
  const CR: Unit := 0x0D
  const SPACE: Unit := 0x20
  const QUOTE: Unit := 0x22
  const PLUS: Unit := 0x2B
  const COMMA: Unit := 0x2C
  const MINUS: Unit := 0x2D
  const DOT: Unit := 0x2E
  const SLASH: Unit := 0x2F
  const ZERO: Unit := 0x30
  const NINE: Unit := 0x39
  const COLON: Unit := 0x3A
  const UPPER_E: Unit := 0x45
  const LBRACKET: Unit := 0x5B
  const BACKSLASH: Unit := 0x5C
  const RBRACKET: Unit := 0x5D
  const LOWER_A: Unit := 0x61
  const LOWER_B: Unit := 0x62
  const LOWER_E: Unit := 0x65
  const LOWER_F: Unit := 0x66
  const LOWER_L: Unit := 0x6C
  const LOWER_N: Unit := 0x6E
  const LOWER_R: Unit := 0x72
  const LOWER_S: Unit := 0x73
  const LOWER_T: Unit := 0x74
  const LOWER_U: Unit := 0x75
  const LBRACE: Unit := 0x7B
  const RBRACE: Unit := 0x7D

  const TRUE_TEXT: Text := [LOWER_T, LOWER_R, LOWER_U, LOWER_E]
  const FALSE_TEXT: Text := [LOWER_F, LOWER_A, LOWER_L, LOWER_S, LOWER_E]
  const NULL_TEXT: Text := [LOWER_N, LOWER_U, LOWER_L, LOWER_L]

  /** The four whitespace characters of RFC 8259, section 2. */
  predicate IsJsonSpace(c: Unit) {
    c == SPACE || c == TAB || c == LF || c == CR
  }

  predicate IsDigit(c: Unit) {
    ZERO <= c <= NINE
  }

  predicate IsHexDigit(c: Unit) {
    IsDigit(c) || 0x41 <= c <= 0x46 || 0x61 <= c <= 0x66
  }

  function HexDigit(c: Unit): (d: int)
    requires IsHexDigit(c)
    ensures 0 <= d < 16
  {
    if c <= NINE then c - ZERO else if c <= 0x46 then c - 0x41 + 10 else c - 0x61 + 10
  }

  predicate StartsWith(s: Text, word: Text) {
    word <= s
  }

  /** The characters of the text after the first; the end of the text stays the end. */
  function Tail(s: Text): (r: Text)
    ensures s != [] ==> |r| < |s|
  {
    if s == [] then [] else s[1..]
  }
}
