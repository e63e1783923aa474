/** JSON texts by RFC 8259, character by character and apart from the code: how a value is spelled. */
module JsonTexts {
  import opened Texts
  import opened JsonValues

  // ----- Strings: section 7

  /** A hexadecimal digit in either case. */
  ghost predicate IsHex(c: Unit, d: int) {
    || (0x30 <= c <= 0x39 && d == c - 0x30)
    || (0x41 <= c <= 0x46 && d == c - 0x41 + 10)
    || (0x61 <= c <= 0x66 && d == c - 0x61 + 10)
  }

  /** The two-character escapes: the character after the backslash, and what it stands for. */
  ghost predicate IsShortEscape(letter: Unit, c: Unit) {
    || (letter == 0x22 && c == 0x22)
    || (letter == 0x5C && c == 0x5C)
    || (letter == 0x2F && c == 0x2F)
    || (letter == 0x62 && c == 0x08)
    || (letter == 0x66 && c == 0x0C)
    || (letter == 0x6E && c == 0x0A)
    || (letter == 0x72 && c == 0x0D)
    || (letter == 0x74 && c == 0x09)
  }

  ghost predicate IsUnicodeEscape(s: Text, c: Unit) {
    && |s| == 6 && s[0] == 0x5C && s[1] == 0x75
    && exists d0, d1, d2, d3 :: IsHex(s[2], d0) && IsHex(s[3], d1) && IsHex(s[4], d2) && IsHex(s[5], d3)
                             && c == d0 * 0x1000 + d1 * 0x100 + d2 * 0x10 + d3
  }

  /** The ways to write a code unit between the quotes. */
  ghost predicate IsSpelling(c: Unit, s: Text) {
    || (s == [c] && c != 0x22 && c != 0x5C)
    || (|s| == 2 && s[0] == 0x5C && IsShortEscape(s[1], c))
    || IsUnicodeEscape(s, c)
  }

  ghost predicate SpellsUnits(units: Text, body: Text)
    decreases |units|
  {
    if units == [] then body == []
    else exists n :: 1 <= n <= |body| && IsSpelling(units[0], body[..n]) && SpellsUnits(units[1..], body[n..])
  }

  /** No tab, line feed or carriage return as itself. */
  ghost predicate NoRawBreaks(body: Text) {
    forall i :: 0 <= i < |body| ==> body[i] != 0x09 && body[i] != 0x0A && body[i] != 0x0D
  }

  ghost predicate IsString(units: Text, s: Text) {
    && |s| >= 2 && s[0] == 0x22 && s[|s| - 1] == 0x22
    && NoRawBreaks(s[1..|s| - 1]) && SpellsUnits(units, s[1..|s| - 1])
  }

  /** A string, raw breaks included, and what follows it. */
  ghost predicate StartsWithString(s: Text, units: Text, rest: Text) {
    exists body :: SpellsUnits(units, body) && s == [0x22] + (body + ([0x22] + rest))
  }

  // ----- Numbers: section 6, with leading zeros and an empty fraction allowed as the code does

  ghost predicate AllDigits(s: Text) {
    forall i :: 0 <= i < |s| ==> 0x30 <= s[i] <= 0x39
  }

  ghost predicate IsFraction(s: Text) {
    s == [] || (s[0] == 0x2E && AllDigits(s[1..]))
  }

  ghost predicate IsExponent(s: Text) {
    || s == []
    || (|s| >= 2 && (s[0] == 0x65 || s[0] == 0x45) && AllDigits(s[1..]))
    || (|s| >= 3 && (s[0] == 0x65 || s[0] == 0x45) && (s[1] == 0x2B || s[1] == 0x2D) && AllDigits(s[2..]))
  }

  ghost predicate IsNumberOf(s: Text, sign: Text, whole: Text, fraction: Text, exponent: Text) {
    && s == sign + (whole + (fraction + exponent))
    && (sign == [] || sign == [0x2D]) && whole != [] && AllDigits(whole)
    && IsFraction(fraction) && IsExponent(exponent)
  }

  ghost predicate IsNumber(s: Text) {
    exists sign, whole, fraction, exponent :: IsNumberOf(s, sign, whole, fraction, exponent)
  }

  // ----- Tokens: section 2

  ghost predicate IsToken(t: Token, s: Text) {
    match t
    case OpenBracket => s == [0x5B]
    case OpenBrace => s == [0x7B]
    case CloseBracket => s == [0x5D]
    case CloseBrace => s == [0x7D]
    case ColonTok => s == [0x3A]
    case CommaTok => s == [0x2C]
    case TrueTok => s == [0x74, 0x72, 0x75, 0x65]
    case FalseTok => s == [0x66, 0x61, 0x6C, 0x73, 0x65]
    case NullTok => s == [0x6E, 0x75, 0x6C, 0x6C]
    case NumTok(lexeme) => s == lexeme && IsNumber(lexeme)
    case StrTok(units) => IsString(units, s)
  }

  ghost predicate IsBlank(s: Text) {
    forall i :: 0 <= i < |s| ==> s[i] == 0x20 || s[i] == 0x09 || s[i] == 0x0A || s[i] == 0x0D
  }

  /** The digits of a number are not torn apart. */
  ghost predicate EndsBefore(t: Token, rest: Text) {
    t.NumTok? && rest != [] ==> !(0x30 <= rest[0] <= 0x39)
  }

  /** The text is these tokens with white space around them. */
  ghost predicate SplitsInto(text: Text, ts: seq<Token>)
    decreases |ts|
  {
    if ts == [] then IsBlank(text)
    else
      exists i, j {:trigger text[i..j]} ::
        && 0 <= i < j <= |text| && IsBlank(text[..i]) && IsToken(ts[0], text[i..j])
        && EndsBefore(ts[0], text[j..]) && SplitsInto(text[j..], ts[1..])
  }

  // ----- Values: sections 3 to 5

  /** The tokens of a value that JSON can express. */
  function TokensOf(v: Value): seq<Token>
    decreases v, 0
  {
    match v
    case Undefined => []
    case Null => [NullTok]
    case Bool(b) => [if b then TrueTok else FalseTok]
    case NonFinite => []
    case Num(lexeme) => [NumTok(lexeme)]
    case Str(text) => [StrTok(text)]
    case Arr(elems) => [OpenBracket] + ElementTokens(elems) + [CloseBracket]
    case Obj(members) => [OpenBrace] + MemberTokens(members) + [CloseBrace]
  }

  function ElementTokens(elems: seq<Value>): seq<Token>
    decreases elems
  {
    if elems == [] then []
    else if |elems| == 1 then TokensOf(elems[0])
    else TokensOf(elems[0]) + ([CommaTok] + ElementTokens(elems[1..]))
  }

  function MemberTokens(members: seq<Member>): seq<Token>
    decreases members
  {
    if members == [] then []
    else
      var first := [StrTok(members[0].key), ColonTok] + TokensOf(members[0].val);
      if |members| == 1 then first else first + ([CommaTok] + MemberTokens(members[1..]))
  }

  /** The values that JSON keeps as they are. */
  ghost predicate IsClean(v: Value)
    decreases v, 0
  {
    match v
    case Undefined => false
    case NonFinite => false
    case Num(lexeme) => IsNumber(lexeme)
    case Arr(elems) => forall i :: 0 <= i < |elems| ==> IsClean(elems[i])
    case Obj(members) => DistinctKeys(members) && forall i :: 0 <= i < |members| ==> IsClean(members[i].val)
    case _ => true
  }

  /** The text spells the value. */
  ghost predicate IsJson(text: Text, v: Value) {
    IsClean(v) && SplitsInto(text, TokensOf(v))
  }
}
