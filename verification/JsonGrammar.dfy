/** The reference definition of JSON over tokens (RFC 8259, sections 2 to 5, with duplicate keys
    refused): what a value at the front of a token sequence is, and what follows it. */
module JsonGrammar {
  import opened Options
  import opened JsonValues

  type Parsed = Option<(Value, seq<Token>)>

  function ValueAt(ts: seq<Token>): (r: Parsed)
    ensures r.Some? ==> |r.value.1| < |ts|
    decreases |ts|, 0
  {
    if ts == [] then None
    else match ts[0] {
      case TrueTok => Some((Bool(true), ts[1..]))
      case FalseTok => Some((Bool(false), ts[1..]))
      case NullTok => Some((Null, ts[1..]))
      case NumTok(lexeme) => Some((Num(lexeme), ts[1..]))
      case StrTok(text) => Some((Str(text), ts[1..]))
      case OpenBracket =>
        if |ts| > 1 && ts[1].CloseBracket? then Some((Arr([]), ts[2..])) else ElementsAt(ts[1..], [])
      case OpenBrace =>
        if |ts| > 1 && ts[1].CloseBrace? then Some((Obj([]), ts[2..])) else MembersAt(ts[1..], [])
      case _ => None
    }
  }

  /** The remaining elements of an array that already has `done`, and the closing bracket. */
  function ElementsAt(ts: seq<Token>, done: seq<Value>): (r: Parsed)
    ensures r.Some? ==> |r.value.1| < |ts|
    decreases |ts|, 1
  {
    match ValueAt(ts)
    case None => None
    case Some(one) =>
      var rest := one.1;
      if rest == [] then None
      else if rest[0].CloseBracket? then Some((Arr(done + [one.0]), rest[1..]))
      else if rest[0].CommaTok? then ElementsAt(rest[1..], done + [one.0])
      else None
  }

  /** The remaining members of an object that already has `done`, and the closing brace. */
  function MembersAt(ts: seq<Token>, done: seq<Member>): (r: Parsed)
    ensures r.Some? ==> |r.value.1| < |ts|
    decreases |ts|, 1
  {
    if |ts| < 2 || !ts[0].StrTok? || !ts[1].ColonTok? || HasKey(done, ts[0].text) then None
    else
      match ValueAt(ts[2..])
      case None => None
      case Some(one) =>
        var all := done + [Member(ts[0].text, one.0)];
        var rest := one.1;
        if rest == [] then None
        else if rest[0].CloseBrace? then Some((Obj(all), rest[1..]))
        else if rest[0].CommaTok? then MembersAt(rest[1..], all)
        else None
  }

  /** The value that the token sequence is the text of, if it is one. */
  function Parse(ts: seq<Token>): Option<Value> {
    match ValueAt(ts)
    case None => None
    case Some(one) => if one.1 == [] then Some(one.0) else None
  }
}
