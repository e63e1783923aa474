/** The parser itself: every function moves the shared `at` and `ch` through `next`. */
module DescentParser {
  import opened Options
  import opened Texts
  import opened JsonValues
  import opened TokenLexer
  import JsonTexts
  import ParserEquivalence
  import StringMeaning
  import D = DescentSpec

  /** What is unread when `at` is the index of the next character. */
  function Unread(text: Text, at: nat): Text {
    if at == 0 then [SPACE] + text else if at <= |text| then text[at - 1..] else []
  }

  class Parser {
    var at: nat             // the index of the next character
    var ch: Option<Unit>    // the current character; None is the empty string at the end
    var text: Text

    /** The text from the current character on; before the first character that is a space. */
    ghost var rest: Text

    constructor ()
      ensures Valid()
    {
      at, ch, text, rest := 0, Some(SPACE), [], [SPACE];
    }

    ghost predicate Valid()
      reads this
    {
      && ch == (if rest == [] then None else Some(rest[0]))
      && rest == Unread(text, at)
    }

    /** A result of one of the functions: the same value or failure as the specification has, and
        on success the cursor in front of what the specification leaves. */
    ghost predicate Did<T(!new)>(r: Option<T>, spec: D.Read<T>)
      reads this
    {
      match spec
      case None => r == None
      case Some(one) => r == Some(one.0) && rest == one.1
    }

    /** `next()` */
    method Next()
      requires Valid()
      modifies `at, `ch, `rest
      ensures Valid() && rest == Tail(old(rest))
    {
      ch := if at < |text| then Some(text[at]) else None;
      at := at + 1;
      rest := Tail(rest);
    }

    /** `next(c)`: false is the error. */
    method Expect(c: Unit) returns (ok: bool)
      requires Valid()
      modifies `at, `ch, `rest
      ensures Valid()
      ensures ok <==> old(rest) != [] && old(rest)[0] == c
      ensures ok ==> rest == old(rest)[1..]
    {
      if ch != Some(c) {
        return false;
      }
      Next();
      return true;
    }

    method White()
      requires Valid()
      modifies `at, `ch, `rest
      ensures Valid() && rest == D.White(old(rest))
      ensures exists k :: 0 <= k <= |old(rest)| && rest == old(rest)[k..] && D.IsSkipped(old(rest), k)
    {
      ghost var k := D.WhiteMeans(rest);
      while ch.Some? && ch.value <= SPACE
        invariant Valid()
        invariant D.White(rest) == D.White(old(rest))
        decreases |rest|
      {
        Next();
      }
    }

    /** Append the digits at the cursor. */
    method TakeDigits(sofar: Text) returns (chars: Text)
      requires Valid()
      modifies `at, `ch, `rest
      ensures Valid()
      ensures chars == sofar + Digits(old(rest)).0 && rest == Digits(old(rest)).1
    {
      chars := sofar;
      while ch.Some? && IsDigit(ch.value)
        invariant Valid()
        invariant chars + Digits(rest).0 == sofar + Digits(old(rest)).0
        invariant Digits(rest).1 == Digits(old(rest)).1
        decreases |rest|
      {
        assert chars + Digits(rest).0 == (chars + [ch.value]) + Digits(rest[1..]).0;
        chars := chars + [ch.value];
        Next();
      }
    }

    method Number() returns (r: Option<Value>)
      requires Valid()
      modifies `at, `ch, `rest
      ensures Valid() && Did(r, D.Number(old(rest)))
    {
      ghost var (sign, s1) := LexSign(rest);
      ghost var (whole, s2) := Digits(s1);
      ghost var (fraction, s3) := LexFraction(s2);
      ghost var (exponent, s4) := D.LooseExponent(s3);
      var chars := [];
      if ch == Some(MINUS) {
        chars := [MINUS];
        Next();
      }
      assert chars == sign && rest == s1;
      chars := TakeDigits(chars);
      assert chars == sign + whole && rest == s2;
      chars := Fraction(chars);
      assert chars == sign + whole + fraction && rest == s3;
      chars := Exponent(chars);
      if D.IsNumeric(chars) {
        return Some(Num(chars));
      }
      return None;
    }

    method Fraction(sofar: Text) returns (chars: Text)
      requires Valid()
      modifies `at, `ch, `rest
      ensures Valid()
      ensures chars == sofar + LexFraction(old(rest)).0 && rest == LexFraction(old(rest)).1
    {
      chars := sofar;
      if ch == Some(DOT) {
        D.Regroup(chars, [DOT], [], Digits(rest[1..]).0);
        chars := chars + [DOT];
        Next();
        assert chars == sofar + [DOT] + [];
        chars := TakeDigits(chars);
        assert [DOT] + ([] + Digits(old(rest)[1..]).0) == LexFraction(old(rest)).0;
      }
    }

    method Exponent(sofar: Text) returns (chars: Text)
      requires Valid()
      modifies `at, `ch, `rest
      ensures Valid()
      ensures chars == sofar + D.LooseExponent(old(rest)).0 && rest == D.LooseExponent(old(rest)).1
    {
      chars := sofar;
      if ch.Some? && IsExponentMark(ch.value) {
        ghost var sign, d := ExponentSign(rest[1..]).0, Digits(ExponentSign(rest[1..]).1).0;
        D.Regroup(sofar, [rest[0]], sign, d);
        chars := chars + [ch.value];
        Next();
        if ch == Some(MINUS) || ch == Some(PLUS) {
          chars := chars + [ch.value];
          Next();
        }
        assert chars == sofar + [old(rest)[0]] + sign;
        chars := TakeDigits(chars);
      }
    }

    /** The loop over the digits of `\u`. */
    method Hex() returns (uffff: nat)
      requires Valid()
      modifies `at, `ch, `rest
      ensures Valid() && (uffff, rest) == D.HexRun(old(rest), 0, 0)
    {
      var u: nat, i: nat := 0, 0;
      ghost var answer := D.HexRun(rest, 0, 0);
      while i < 4
        invariant Valid() && i <= 4
        invariant D.HexRun(rest, i, u) == answer
      {
        ghost var was := rest;
        Next();
        if ch == None || !IsHexDigit(ch.value) {
          D.HexStop(was, i, u);
          return u;
        }
        D.HexStep(was, i, u);
        u := u * 16 + HexDigit(ch.value);
        i := i + 1;
      }
      return u;
    }

    method String() returns (r: Option<Text>)
      requires Valid()
      modifies `at, `ch, `rest
      ensures Valid() && Did(r, D.String(old(rest)))
      ensures forall units, after ::
                JsonTexts.StartsWithString(old(rest), units, after) ==> r == Some(units) && rest == after
    {
      hide JsonTexts.StartsWithString;
      forall units, after | JsonTexts.StartsWithString(rest, units, after)
        ensures D.String(rest) == Some((units, after))
      {
        StringMeaning.StringBodyRead(rest, units, after);
      }
      var chars: Text := [];
      if ch == Some(QUOTE) {
        Next();
        while ch.Some?
          invariant Valid()
          invariant D.StringBody(rest, chars) == D.String(old(rest))
          decreases |rest|
        {
          if ch == Some(QUOTE) {
            Next();
            return Some(chars);
          } else if ch == Some(BACKSLASH) {
            Next();
            if ch == Some(LOWER_U) {
              var uffff := Hex();
              chars := chars + [D.FromCharCode(uffff)];
            } else if ch.Some? && Escapee(ch.value).Some? {
              chars := chars + [Escapee(ch.value).value];
            } else {
              return None;
            }
          } else {
            chars := chars + [ch.value];
          }
          Next();
        }
      }
      return None;
    }

    /** `next` along the letters of a word. */
    method Letters(word: Text) returns (ok: bool)
      requires Valid()
      modifies `at, `ch, `rest
      ensures Valid()
      ensures ok <==> StartsWith(old(rest), word)
      ensures ok ==> rest == old(rest)[|word|..]
    {
      for i := 0 to |word|
        invariant Valid()
        invariant i <= |old(rest)| && word[..i] == old(rest)[..i]
        invariant rest == old(rest)[i..]
      {
        ok := Expect(word[i]);
        if !ok {
          assert i < |old(rest)| ==> old(rest)[i] != word[i];
          return;
        }
      }
      return true;
    }

    method Word() returns (r: Option<Value>)
      requires Valid()
      modifies `at, `ch, `rest
      ensures Valid() && Did(r, D.WordValue(old(rest)))
    {
      if ch == Some(LOWER_T) {
        var ok := Letters(TRUE_TEXT);
        return if ok then Some(Bool(true)) else None;
      } else if ch == Some(LOWER_F) {
        var ok := Letters(FALSE_TEXT);
        return if ok then Some(Bool(false)) else None;
      } else if ch == Some(LOWER_N) {
        var ok := Letters(NULL_TEXT);
        return if ok then Some(Null) else None;
      }
      return None;
    }

    method Array() returns (r: Option<Value>)
      requires Valid() && rest != [] && rest[0] == LBRACKET
      modifies `at, `ch, `rest
      ensures Valid() && Did(r, D.ArrayAt(old(rest)))
      decreases |rest|, 0
    {
      var elems: seq<Value> := [];
      Next();
      White();
      if ch == Some(RBRACKET) {
        Next();
        return Some(Arr([]));
      }
      while ch.Some?
        invariant Valid() && |rest| < |old(rest)|
        invariant D.ElementsAt(rest, elems) == D.ArrayAt(old(rest))
        decreases |rest|
      {
        var v := Value();
        if v == None {
          return None;
        }
        elems := elems + [v.value];
        White();
        if ch == Some(RBRACKET) {
          Next();
          return Some(Arr(elems));
        }
        var comma := Expect(COMMA);
        if !comma {
          return None;
        }
        White();
      }
      return None;
    }

    /** `key = string(); white(); next(':')` */
    method KeyAndColon() returns (key: Option<Text>)
      requires Valid()
      modifies `at, `ch, `rest
      ensures Valid() && Did(key, D.KeyAndColon(old(rest)))
    {
      key := String();
      if key.Some? {
        White();
        var colon := Expect(COLON);
        if !colon {
          return None;
        }
      }
    }

    method Object() returns (r: Option<Value>)
      requires Valid() && rest != [] && rest[0] == LBRACE
      modifies `at, `ch, `rest
      ensures Valid() && Did(r, D.ObjectAt(old(rest)))
      decreases |rest|, 0
    {
      var members: seq<Member> := [];
      Next();
      White();
      if ch == Some(RBRACE) {
        Next();
        return Some(Obj([]));
      }
      while ch.Some?
        invariant Valid() && |rest| < |old(rest)|
        invariant D.MembersAt(rest, members) == D.ObjectAt(old(rest))
        decreases |rest|
      {
        var key := KeyAndColon();
        if key == None || HasKey(members, key.value) {
          return None;
        }
        var v := Value();
        if v == None {
          return None;
        }
        members := Assign(members, key.value, v.value);
        White();
        if ch == Some(RBRACE) {
          Next();
          return Some(Obj(members));
        }
        var comma := Expect(COMMA);
        if !comma {
          return None;
        }
        White();
      }
      return None;
    }

    method Value() returns (r: Option<Value>)
      requires Valid()
      modifies `at, `ch, `rest
      ensures Valid() && Did(r, D.ValueAt(old(rest)))
      decreases |rest|, 1
    {
      White();
      if ch == Some(LBRACE) {
        r := Object();
      } else if ch == Some(LBRACKET) {
        r := Array();
      } else if ch == Some(QUOTE) {
        var s := String();
        r := if s == None then None else Some(Str(s.value));
      } else if ch.Some? && (ch.value == MINUS || IsDigit(ch.value)) {
        r := Number();
      } else {
        r := Word();
      }
    }

    /** json_parse without a reviver; None is the thrown error. */
    method Parse(source: Text) returns (r: Option<Value>)
      modifies this
      ensures r == D.ParseText(source)
      ensures forall v :: JsonTexts.IsJson(source, v) ==> r == Some(v)
      ensures forall v, ts :: r == Some(v) && JsonTexts.SplitsInto(source, ts) ==> JsonTexts.IsJson(source, v)
    {
      hide JsonTexts.IsJson, JsonTexts.SplitsInto, D.ValueAt, D.White, Tokenize;
      ParserEquivalence.DescentExactAll(source);
      text, at, ch, rest := source, 0, Some(SPACE), [SPACE] + source;
      D.LeadingSpace(source);
      r := Value();
      if r.Some? {
        White();
        if ch.Some? {
          return None;
        }
      }
    }
  }
}
