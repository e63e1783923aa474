/** The token expression `tx` and `debackslashify` of json_parse_state.js.  Every function takes
    the text that is still unread and gives back the text that is left. */
module TokenLexer {
  import opened Options
  import opened Texts
  import opened JsonValues

  /** The longest run of digits at the front, and what follows it. */
  function Digits(s: Text): (r: (Text, Text))
    ensures s == r.0 + r.1
    ensures r.1 != [] ==> !IsDigit(r.1[0])
    ensures forall c :: c in r.0 ==> IsDigit(c)
  {
    if s == [] || !IsDigit(s[0]) then ([], s)
    else var (d, rest) := Digits(s[1..]); ([s[0]] + d, rest)
  }

  function SkipJsonSpace(s: Text): (r: Text)
    ensures |r| <= |s|
    ensures r != [] ==> !IsJsonSpace(r[0])
  {
    if s != [] && IsJsonSpace(s[0]) then SkipJsonSpace(s[1..]) else s
  }

  predicate HexQuad(s: Text) {
    |s| >= 4 && IsHexDigit(s[0]) && IsHexDigit(s[1]) && IsHexDigit(s[2]) && IsHexDigit(s[3])
  }

  function HexQuadValue(s: Text): Unit
    requires HexQuad(s)
  {
    HexDigit(s[0]) * 4096 + HexDigit(s[1]) * 256 + HexDigit(s[2]) * 16 + HexDigit(s[3])
  }

  /** The translation table `escapes` (and `escapee` in json_parse.js). */
  function Escapee(c: Unit): Option<Unit> {
    if c == QUOTE || c == BACKSLASH || c == SLASH then Some(c)
    else if c == LOWER_B then Some(0x08)
    else if c == LOWER_F then Some(0x0C)
    else if c == LOWER_N then Some(LF)
    else if c == LOWER_R then Some(CR)
    else if c == LOWER_T then Some(TAB)
    else None
  }

  /** The inside of a string token, up to the closing quote: the raw text and what follows the quote. */
  function RawString(s: Text): (r: Option<(Text, Text)>)
    ensures r.Some? ==> |r.value.1| < |s| && WellEscaped(r.value.0)
  {
    if s == [] then None
    else if s[0] == QUOTE then Some(([], s[1..]))
    else if s[0] == BACKSLASH then
      if |s| >= 2 && Escapee(s[1]).Some? then
        var (raw, rest) :- RawString(s[2..]);
        Some(([s[0], s[1]] + raw, rest))
      else if |s| >= 6 && s[1] == LOWER_U && HexQuad(s[2..]) then
        var (raw, rest) :- RawString(s[6..]);
        assert (s[..6] + raw)[6..] == raw && (s[..6] + raw)[2..] == s[2..6] + raw;
        Some((s[..6] + raw, rest))
      else None
    else if s[0] == CR || s[0] == LF || s[0] == TAB then None
    else
      var (raw, rest) :- RawString(s[1..]);
      Some(([s[0]] + raw, rest))
  }

  /** Every backslash starts one of the escapes that the token expression admits. */
  predicate WellEscaped(raw: Text) {
    raw == [] ||
    if raw[0] != BACKSLASH then WellEscaped(raw[1..])
    else if |raw| >= 2 && Escapee(raw[1]).Some? then WellEscaped(raw[2..])
    else |raw| >= 6 && raw[1] == LOWER_U && HexQuad(raw[2..]) && WellEscaped(raw[6..])
  }

  /** Remove and replace the backslash escapes, from left to right. */
  function Debackslashify(raw: Text): Text
    requires WellEscaped(raw)
  {
    if raw == [] then []
    else if raw[0] != BACKSLASH then [raw[0]] + Debackslashify(raw[1..])
    else if raw[1] == LOWER_U then [HexQuadValue(raw[2..])] + Debackslashify(raw[6..])
    else [Escapee(raw[1]).value] + Debackslashify(raw[2..])
  }

  function LexSign(s: Text): (r: (Text, Text))
    ensures s == r.0 + r.1
  {
    if s != [] && s[0] == MINUS then ([MINUS], s[1..]) else ([], s)
  }

  /** `(?:\.\d*)?` */
  function LexFraction(s: Text): (r: (Text, Text))
    ensures s == r.0 + r.1
  {
    if s != [] && s[0] == DOT then var (d, rest) := Digits(s[1..]); ([DOT] + d, rest) else ([], s)
  }

  predicate IsExponentMark(c: Unit) {
    c == LOWER_E || c == UPPER_E
  }

  function ExponentSign(s: Text): (r: (Text, Text))
    ensures s == r.0 + r.1
  {
    if s != [] && (s[0] == PLUS || s[0] == MINUS) then ([s[0]], s[1..]) else ([], s)
  }

  /** `(?:[eE][+\-]?\d+)?`: without a digit the expression backs off and takes nothing. */
  function LexExponent(s: Text): (r: (Text, Text))
    ensures s == r.0 + r.1
  {
    if s != [] && IsExponentMark(s[0]) then
      var (sign, afterSign) := ExponentSign(s[1..]);
      var (d, rest) := Digits(afterSign);
      if d == [] then ([], s) else ([s[0]] + sign + d, rest)
    else ([], s)
  }

  /** The parts of a number, in the order they are read. */
  function NumberChars(sign: Text, whole: Text, fraction: Text, exponent: Text): Text {
    sign + whole + fraction + exponent
  }

  lemma NumberCharsNested(sign: Text, whole: Text, fraction: Text, exponent: Text)
    ensures NumberChars(sign, whole, fraction, exponent) == sign + (whole + (fraction + exponent))
  {
  }

  /** `-?\d+(?:\.\d*)?(?:[eE][+\-]?\d+)?` */
  function LexNumber(s: Text): (r: Option<(Text, Text)>)
    ensures r.Some? ==> |r.value.1| < |s|
  {
    var (sign, s1) := LexSign(s);
    var (whole, s2) := Digits(s1);
    if whole == [] then None else
      var (fraction, s3) := LexFraction(s2);
      var (exponent, s4) := LexExponent(s3);
      Some((NumberChars(sign, whole, fraction, exponent), s4))
  }

  function Punctuation(c: Unit): Option<Token> {
    if c == COMMA then Some(CommaTok)
    else if c == COLON then Some(ColonTok)
    else if c == LBRACKET then Some(OpenBracket)
    else if c == RBRACKET then Some(CloseBracket)
    else if c == LBRACE then Some(OpenBrace)
    else if c == RBRACE then Some(CloseBrace)
    else None
  }

  /** One token at the front of the text, white space already skipped. */
  function LexToken(s: Text): (r: Option<(Token, Text)>)
    ensures r.Some? ==> |r.value.1| < |s|
  {
    if s == [] then None
    else if Punctuation(s[0]).Some? then Some((Punctuation(s[0]).value, s[1..]))
    else if StartsWith(s, TRUE_TEXT) then Some((TrueTok, s[4..]))
    else if StartsWith(s, FALSE_TEXT) then Some((FalseTok, s[5..]))
    else if StartsWith(s, NULL_TEXT) then Some((NullTok, s[4..]))
    else if s[0] == QUOTE then
      var (raw, rest) :- RawString(s[1..]);
      Some((StrTok(Debackslashify(raw)), rest))
    else
      var (lexeme, rest) :- LexNumber(s);
      Some((NumTok(lexeme), rest))
  }

  /** `tx.exec(source)`: the next token and the source after it, or no match. */
  function Exec(source: Text): (r: Option<(Token, Text)>)
    ensures r.Some? ==> |r.value.1| < |source|
  {
    LexToken(SkipJsonSpace(source))
  }

  /** The whole text as tokens, or None when something is left that no token starts. */
  function Tokenize(s: Text): Option<seq<Token>>
    decreases |s|
  {
    if SkipJsonSpace(s) == [] then Some([])
    else
      match Exec(s)
      case None => None
      case Some(next) =>
        match Tokenize(next.1)
        case None => None
        case Some(toks) => Some([next.0] + toks)
  }
}
