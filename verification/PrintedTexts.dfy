/** What is printed, apart from the code: the values that JSON keeps, each token as json2.js writes it, and
    the white space between two tokens. */
module PrintedTexts {
  import opened Options
  import opened Texts
  import opened JsonValues
  import opened JsonTexts

  /** What a JavaScript value always is: objects have distinct keys, finite numbers have texts. */
  ghost predicate IsValue(v: Value)
    decreases v, 0
  {
    match v
    case Num(lexeme) => IsNumber(lexeme)
    case Arr(elems) => forall i :: 0 <= i < |elems| ==> IsValue(elems[i])
    case Obj(members) => DistinctKeys(members) && forall i :: 0 <= i < |members| ==> IsValue(members[i].val)
    case _ => true
  }

  /** The value that JSON keeps: what is not finite is null, what is undefined is null in an array
      and absent from an object. */
  function Clean(v: Value): Value
    decreases v, 0
  {
    match v
    case Undefined => Null
    case NonFinite => Null
    case Arr(elems) => Arr(CleanElements(elems))
    case Obj(members) => Obj(CleanMembers(members))
    case _ => v
  }

  function CleanElements(elems: seq<Value>): (r: seq<Value>)
    ensures |r| == |elems|
    decreases elems
  {
    if elems == [] then [] else [Clean(elems[0])] + CleanElements(elems[1..])
  }

  function CleanMembers(members: seq<Member>): seq<Member>
    decreases members
  {
    if members == [] then []
    else (if members[0].val.Undefined? then [] else [Member(members[0].key, Clean(members[0].val))])
         + CleanMembers(members[1..])
  }

  const HEX: string := "0123456789abcdef"

  function LowerHex(d: int): Unit
    requires 0 <= d < 16
  {
    HEX[d] as int
  }

  /** Control characters, format characters and their like, which other programs may drop or change. */
  predicate IsUnsafe(c: Unit) {
    || c <= 0x1F || 0x7F <= c <= 0x9F || c == 0xAD || 0x600 <= c <= 0x604 || c == 0x70F
    || c == 0x17B4 || c == 0x17B5 || 0x200C <= c <= 0x200F || 0x2028 <= c <= 0x202F
    || 0x2060 <= c <= 0x206F || c == 0xFEFF || c >= 0xFFF0
  }

  /** A code unit within a string. */
  function Printed(c: Unit): Text {
    if c == 0x22 then [0x5C, 0x22]
    else if c == 0x5C then [0x5C, 0x5C]
    else if c == 0x08 then [0x5C, 0x62]
    else if c == 0x09 then [0x5C, 0x74]
    else if c == 0x0A then [0x5C, 0x6E]
    else if c == 0x0C then [0x5C, 0x66]
    else if c == 0x0D then [0x5C, 0x72]
    else if IsUnsafe(c) then
      [0x5C, 0x75, LowerHex(c / 0x1000), LowerHex(c / 0x100 % 0x10), LowerHex(c / 0x10 % 0x10), LowerHex(c % 0x10)]
    else [c]
  }

  function PrintedAll(s: Text): Text {
    if s == [] then [] else Printed(s[0]) + PrintedAll(s[1..])
  }

  function PrintedToken(t: Token): Text {
    match t
    case OpenBracket => [0x5B]
    case OpenBrace => [0x7B]
    case CloseBracket => [0x5D]
    case CloseBrace => [0x7D]
    case ColonTok => [0x3A]
    case CommaTok => [0x2C]
    case TrueTok => [0x74, 0x72, 0x75, 0x65]
    case FalseTok => [0x66, 0x61, 0x6C, 0x73, 0x65]
    case NullTok => [0x6E, 0x75, 0x6C, 0x6C]
    case NumTok(lexeme) => lexeme
    case StrTok(units) => [0x22] + PrintedAll(units) + [0x22]
  }

  function Times(indent: Text, n: nat): Text {
    if n == 0 then [] else Times(indent, n - 1) + indent
  }

  predicate Opens(t: Token) {
    t == OpenBracket || t == OpenBrace
  }

  predicate Closes(t: Token) {
    t == CloseBracket || t == CloseBrace
  }

  /** The white space between two tokens, where `depth` brackets are open: a new line after an opening bracket
      and before its closing one unless nothing is between them, a new line after a comma, a space after a
      colon, and nothing else; each line is indented by what is open on it.  Without an indent there is none. */
  function Gap(prev: Option<Token>, next: Token, depth: nat, indent: Text): Text {
    if indent == [] then []
    else if prev.Some? && Opens(prev.value) then if Closes(next) then [] else [0x0A] + Times(indent, depth)
    else if Closes(next) then [0x0A] + Times(indent, if depth == 0 then 0 else depth - 1)
    else if prev == Some(CommaTok) then [0x0A] + Times(indent, depth)
    else if prev == Some(ColonTok) then [0x20]
    else []
  }

  function DepthAfter(t: Token, depth: nat): nat {
    if Opens(t) then depth + 1 else if Closes(t) && depth > 0 then depth - 1 else depth
  }

  /** The tokens with the white space between them, after `prev`. */
  function LaidOut(prev: Option<Token>, depth: nat, ts: seq<Token>, indent: Text): Text
    decreases |ts|
  {
    if ts == [] then []
    else
      Gap(prev, ts[0], depth, indent)
      + (PrintedToken(ts[0]) + LaidOut(Some(ts[0]), DepthAfter(ts[0], depth), ts[1..], indent))
  }
}
