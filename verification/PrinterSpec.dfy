/** json2.js: `quote`, `str` and `JSON.stringify` without replacer and without toJSON methods. */
module PrinterSpec {
  import opened Options
  import opened Texts
  import opened JsonValues

  /** The characters the expression `escapable` matches. */
  predicate Escapable(c: Unit) {
    c == BACKSLASH || c == QUOTE || c <= 0x1F || 0x7F <= c <= 0x9F || c == 0xAD || 0x600 <= c <= 0x604 ||
    c == 0x70F || c == 0x17B4 || c == 0x17B5 || 0x200C <= c <= 0x200F || 0x2028 <= c <= 0x202F ||
    0x2060 <= c <= 0x206F || c == 0xFEFF || 0xFFF0 <= c
  }

  /** The table `meta` of short escapes. */
  function Meta(c: Unit): Option<Unit> {
    if c == 0x08 then Some(LOWER_B)
    else if c == TAB then Some(LOWER_T)
    else if c == LF then Some(LOWER_N)
    else if c == 0x0C then Some(LOWER_F)
    else if c == CR then Some(LOWER_R)
    else if c == QUOTE || c == BACKSLASH then Some(c)
    else None
  }

  function HexChar(d: int): Unit
    requires 0 <= d < 16
  {
    if d < 10 then ZERO + d else LOWER_A + (d - 10)
  }

  /** `n.toString(16)` */
  function ToString16(n: nat): (r: Text)
    ensures r != []
  {
    if n < 16 then [HexChar(n)] else ToString16(n / 16) + [HexChar(n % 16)]
  }

  /** `('0000' + hex).slice(-4)` */
  function LastFour(hex: Text): (r: Text)
    ensures |r| == 4
  {
    ([ZERO, ZERO, ZERO, ZERO] + hex)[|hex|..]
  }

  function Escape(c: Unit): Text {
    match Meta(c)
    case Some(short) => [BACKSLASH, short]
    case None => [BACKSLASH, LOWER_U] + LastFour(ToString16(c))
  }

  /** `string.replace(escapable, ...)` */
  function EscapeAll(s: Text): Text {
    if s == [] then []
    else (if Escapable(s[0]) then Escape(s[0]) else [s[0]]) + EscapeAll(s[1..])
  }

  function Quote(s: Text): Text {
    if exists i :: 0 <= i < |s| && Escapable(s[i]) then [QUOTE] + EscapeAll(s) + [QUOTE] else [QUOTE] + s + [QUOTE]
  }

  function Join(parts: seq<Text>, separator: Text): Text {
    if parts == [] then []
    else if |parts| == 1 then parts[0]
    else parts[0] + (separator + Join(parts[1..], separator))
  }

  /** The parts of an array or object between its brackets; `mind` is the outer gap. */
  function Wrap(open: Unit, parts: seq<Text>, close: Unit, gap: Text, mind: Text): Text {
    if parts == [] then [open, close]
    else if gap != [] then
      [open] + (([LF] + gap) + (Join(parts, [COMMA] + ([LF] + gap)) + (([LF] + mind) + [close])))
    else [open] + (Join(parts, [COMMA]) + [close])
  }

  /** A text, or the undefined and empty results that count as false. */
  predicate Truthy(t: Option<Text>) {
    t.Some? && t.value != []
  }

  /** `str` on a value, with the current gap. */
  function Print(v: Value, gap: Text, indent: Text): Option<Text>
    decreases v, 0
  {
    match v
    case Undefined => None
    case Null => Some(NULL_TEXT)
    case Bool(b) => Some(if b then TRUE_TEXT else FALSE_TEXT)
    case NonFinite => Some(NULL_TEXT)
    case Num(lexeme) => Some(lexeme)
    case Str(text) => Some(Quote(text))
    case Arr(elems) => Some(Wrap(LBRACKET, PrintElements(elems, gap + indent, indent), RBRACKET, gap + indent, gap))
    case Obj(members) => Some(Wrap(LBRACE, PrintMembers(members, gap + indent, indent), RBRACE, gap + indent, gap))
  }

  function PrintElement(v: Value, gap: Text, indent: Text): Text
    decreases v, 1
  {
    var t := Print(v, gap, indent);
    if Truthy(t) then t.value else NULL_TEXT
  }

  function PrintElements(elems: seq<Value>, gap: Text, indent: Text): (parts: seq<Text>)
    ensures |parts| == |elems|
    decreases elems
  {
    if elems == [] then [] else [PrintElement(elems[0], gap, indent)] + PrintElements(elems[1..], gap, indent)
  }

  /** The part for one member; none when the value prints as nothing. */
  function PrintMember(m: Member, gap: Text, indent: Text): seq<Text>
    decreases m
  {
    var t := Print(m.val, gap, indent);
    if Truthy(t) then [Quote(m.key) + (if gap != [] then [COLON, SPACE] else [COLON]) + t.value] else []
  }

  function PrintMembers(members: seq<Member>, gap: Text, indent: Text): seq<Text>
    decreases members
  {
    if members == [] then [] else PrintMember(members[0], gap, indent) + PrintMembers(members[1..], gap, indent)
  }

  /** `JSON.stringify(value, undefined, space)` with a string for `space`. */
  function Stringify(v: Value, space: Text): Option<Text> {
    Print(v, [], space)
  }
}
