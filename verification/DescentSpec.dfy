/** json_parse.js: the recursive-descent parser, as functions from the text that is still unread
    (the current character `ch` is its first character) to a result and the text that is left. */
module DescentSpec {
  import opened Options
  import opened Texts
  import opened JsonValues
  import opened TokenLexer

  type Read<T> = Option<(T, Text)>

  /** `white`: everything up to the space character counts, control characters included. */
  function White(s: Text): (r: Text)
    ensures |r| <= |s|
    ensures r != [] ==> r[0] > SPACE
  {
    if s != [] && s[0] <= SPACE then White(s[1..]) else s
  }

  /** The first k characters, and no more, are spaces or control characters. */
  predicate IsSkipped(s: Text, k: nat)
    requires k <= |s|
  {
    (forall i :: 0 <= i < k ==> s[i] <= 0x20) && (k < |s| ==> s[k] > 0x20)
  }

  lemma {:induction false} WhiteMeans(s: Text) returns (k: nat)
    ensures k <= |s| && White(s) == s[k..] && IsSkipped(s, k)
  {
    if s != [] && s[0] <= SPACE {
      k := WhiteMeans(s[1..]);
      OneMoreSkipped(s, k);
      k := k + 1;
    } else {
      k := 0;
    }
  }

  lemma OneMoreSkipped(s: Text, k: nat)
    requires s != [] && s[0] <= 0x20 && k <= |s[1..]| && IsSkipped(s[1..], k)
    ensures IsSkipped(s, k + 1) && s[1..][k..] == s[k + 1..]
  {
    forall i | 0 <= i < k + 1
      ensures s[i] <= 0x20
    {
      assert i > 0 ==> s[i] == s[1..][i - 1];
    }
  }

  /** `next(c)` along a word. */
  function Word(s: Text, word: Text): Option<Text> {
    if StartsWith(s, word) then Some(s[|word|..]) else None
  }

  function WordValue(s: Text): (r: Read<Value>)
    ensures r.Some? ==> |r.value.1| < |s|
  {
    if s == [] then None
    else if s[0] == LOWER_T then
      match Word(s, TRUE_TEXT) case None => None case Some(rest) => Some((Bool(true), rest))
    else if s[0] == LOWER_F then
      match Word(s, FALSE_TEXT) case None => None case Some(rest) => Some((Bool(false), rest))
    else if s[0] == LOWER_N then
      match Word(s, NULL_TEXT) case None => None case Some(rest) => Some((Null, rest))
    else None
  }

  /** The four-digit loop after `\u`, with `s` still on the character before the next digit.  It
      stops early on a character that is no digit, and that character is then the current one. */
  function HexRun(s: Text, i: nat, uffff: nat): (r: (nat, Text))
    ensures |r.1| <= |s|
    decreases 4 - i
  {
    if i >= 4 then (uffff, s)
    else
      var s1 := Tail(s);
      if s1 == [] || !IsHexDigit(s1[0]) then (uffff, s1)
      else HexRun(s1, i + 1, uffff * 16 + HexDigit(s1[0]))
  }

  /** `String.fromCharCode` */
  function FromCharCode(code: nat): Unit {
    code % 0x10000
  }

  lemma HexStep(s: Text, i: nat, uffff: nat)
    requires i < 4
    requires |s| >= 2 && IsHexDigit(s[1])
    ensures HexRun(s, i, uffff) == HexRun(s[1..], i + 1, uffff * 16 + HexDigit(s[1]))
  {
  }

  lemma HexStop(s: Text, i: nat, uffff: nat)
    requires i < 4
    requires |s| < 2 || !IsHexDigit(s[1])
    ensures HexRun(s, i, uffff) == (uffff, Tail(s))
  {
  }

  /** The characters of a string up to the closing quote, added to `sofar`. */
  function StringBody(s: Text, sofar: Text): (r: Read<Text>)
    ensures r.Some? ==> |r.value.1| < |s|
    decreases |s|
  {
    if s == [] then None
    else if s[0] == QUOTE then Some((sofar, s[1..]))
    else if s[0] == BACKSLASH then
      var s1 := s[1..];
      if s1 == [] then None
      else if s1[0] == LOWER_U then
        var (uffff, s2) := HexRun(s1, 0, 0);
        StringBody(Tail(s2), sofar + [FromCharCode(uffff)])
      else
        match Escapee(s1[0])
        case None => None
        case Some(c) => StringBody(s1[1..], sofar + [c])
    else StringBody(s[1..], sofar + [s[0]])
  }

  function String(s: Text): (r: Read<Text>)
    ensures r.Some? ==> |r.value.1| < |s|
  {
    if s != [] && s[0] == QUOTE then StringBody(s[1..], []) else None
  }

  /** What `number` collects: every part may be empty. */
  function NumberText(s: Text): (r: (Text, Text))
    ensures |s| == |r.0| + |r.1|
  {
    var (sign, s1) := LexSign(s);
    var (whole, s2) := Digits(s1);
    var (fraction, s3) := LexFraction(s2);
    var (exponent, s4) := LooseExponent(s3);
    assert s2 == fraction + (exponent + s4) && s1 == whole + s2 && s == sign + s1;
    (NumberChars(sign, whole, fraction, exponent), s4)
  }

  /** An exponent, taken even when no digit follows its mark. */
  function LooseExponent(s: Text): (r: (Text, Text))
    ensures s == r.0 + r.1
  {
    if s != [] && IsExponentMark(s[0]) then
      var (sign, afterSign) := ExponentSign(s[1..]);
      var (d, rest) := Digits(afterSign);
      ([s[0]] + sign + d, rest)
    else ([], s)
  }

  lemma Regroup(a: Text, b: Text, c: Text, d: Text)
    ensures a + b + c + d == a + (b + c + d)
  {
  }

  /** Whether `+string` is a number: a digit before the exponent, and one in it if there is one. */
  predicate IsNumeric(text: Text) {
    var (sign, s1) := LexSign(text);
    var (whole, s2) := Digits(s1);
    var (fraction, s3) := LexFraction(s2);
    (whole != [] || |fraction| > 1) && LexExponent(s3) == (s3, [])
  }

  function Number(s: Text): (r: Read<Value>)
    ensures r.Some? && s != [] && (s[0] == MINUS || IsDigit(s[0])) ==> |r.value.1| < |s|
  {
    var (text, rest) := NumberText(s);
    if IsNumeric(text) then Some((Num(text), rest)) else None
  }

  function ValueAt(s: Text): (r: Read<Value>)
    ensures r.Some? ==> |r.value.1| < |s|
    decreases |s|, 1
  {
    var w := White(s);
    if w == [] then None
    else if w[0] == LBRACE then ObjectAt(w)
    else if w[0] == LBRACKET then ArrayAt(w)
    else if w[0] == QUOTE then
      match String(w) case None => None case Some(one) => Some((Str(one.0), one.1))
    else if w[0] == MINUS || IsDigit(w[0]) then Number(w)
    else WordValue(w)
  }

  function ArrayAt(s: Text): (r: Read<Value>)
    requires s != [] && s[0] == LBRACKET
    ensures r.Some? ==> |r.value.1| < |s|
    decreases |s|, 0
  {
    var w := White(s[1..]);
    if w != [] && w[0] == RBRACKET then Some((Arr([]), w[1..])) else ElementsAt(w, [])
  }

  function ElementsAt(s: Text, done: seq<Value>): (r: Read<Value>)
    ensures r.Some? ==> |r.value.1| < |s|
    decreases |s|, 2
  {
    match ValueAt(s)
    case None => None
    case Some(one) =>
      var w := White(one.1);
      if w == [] then None
      else if w[0] == RBRACKET then Some((Arr(done + [one.0]), w[1..]))
      else if w[0] == COMMA then ElementsAt(White(w[1..]), done + [one.0])
      else None
  }

  function ObjectAt(s: Text): (r: Read<Value>)
    requires s != [] && s[0] == LBRACE
    ensures r.Some? ==> |r.value.1| < |s|
    decreases |s|, 0
  {
    var w := White(s[1..]);
    if w != [] && w[0] == RBRACE then Some((Obj([]), w[1..])) else MembersAt(w, [])
  }

  function KeyAndColon(s: Text): (r: Read<Text>)
    ensures r.Some? ==> |r.value.1| < |s|
  {
    match String(s)
    case None => None
    case Some(key) =>
      var w := White(key.1);
      if w != [] && w[0] == COLON then Some((key.0, w[1..])) else None
  }

  function MembersAt(s: Text, done: seq<Member>): (r: Read<Value>)
    ensures r.Some? ==> |r.value.1| < |s|
    decreases |s|, 2
  {
    match KeyAndColon(s)
    case None => None
    case Some(key) =>
      if HasKey(done, key.0) then None
      else
        match ValueAt(key.1)
        case None => None
        case Some(one) =>
          var all := Assign(done, key.0, one.0);
          var w := White(one.1);
          if w == [] then None
          else if w[0] == RBRACE then Some((Obj(all), w[1..]))
          else if w[0] == COMMA then MembersAt(White(w[1..]), all)
          else None
  }

  /** The space before the first character is skipped. */
  lemma LeadingSpace(text: Text)
    ensures ValueAt([SPACE] + text) == ValueAt(text)
  {
    assert ([SPACE] + text)[1..] == text;
    assert White([SPACE] + text) == White(text);
  }

  /** json_parse without a reviver: one value with nothing but white space after it. */
  function ParseText(text: Text): Option<Value> {
    match ValueAt(text)
    case None => None
    case Some(one) => if White(one.1) == [] then Some(one.0) else None
  }
}
