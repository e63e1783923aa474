module ParserEquivalence {
  import opened Options
  import opened Texts
  import opened JsonValues
  import opened TokenLexer
  import opened LexerFacts
  import opened JsonTexts
  import GrammarMeaning
  import TokenMeaning
  import G = JsonGrammar
  import D = DescentSpec
  import M = StateMachine

  /** A character-level result is the token-level one: the same value, the same tokens to come. */
  ghost predicate Agrees(d: D.Read<Value>, g: G.Parsed) {
    match g
    case None => d == None
    case Some(one) => d.Some? && d.value.0 == one.0 && Tokenize(d.value.1) == Some(one.1)
  }

  /** One token that is a value, seen by both parsers. */
  lemma ScalarAgrees(s: Text)
    requires Tokenize(s).Some? && Tokenize(s).value != []
    requires !Tokenize(s).value[0].OpenBrace? && !Tokenize(s).value[0].OpenBracket?
    ensures Agrees(D.ValueAt(s), G.ValueAt(Tokenize(s).value))
  {
    var w := NextToken(s);
    var (tok, rest) := LexToken(w).value;
    assert Tokenize(s).value[1..] == Tokenize(rest).value;
    ScalarRead(w);
    match tok
    case StrTok(_) =>
    case NumTok(_) =>
    case TrueTok =>
    case FalseTok =>
    case NullTok =>
    case _ => WordFails(w);
  }

  lemma ScalarRead(w: Text)
    requires LexToken(w).Some? && D.White(w) == w && Tokenize(LexToken(w).value.1).Some?
    ensures var (tok, rest) := LexToken(w).value;
            match tok
            case StrTok(text) => D.ValueAt(w) == Some((Str(text), rest))
            case NumTok(lexeme) => D.ValueAt(w) == Some((Num(lexeme), rest))
            case TrueTok => D.ValueAt(w) == Some((Bool(true), rest))
            case FalseTok => D.ValueAt(w) == Some((Bool(false), rest))
            case NullTok => D.ValueAt(w) == Some((Null, rest))
            case _ => true
  {
    hide RawString, D.StringBody, D.ArrayAt, D.ObjectAt, Tokenize;
    match LexToken(w).value.0 {
      case StrTok(_) => StringToken(w);
      case NumTok(_) => NumbersAgree(w);
      case _ =>
    }
  }

  lemma StringToken(w: Text)
    requires LexToken(w).Some? && LexToken(w).value.0.StrTok?
    ensures D.String(w) == Some((LexToken(w).value.0.text, LexToken(w).value.1))
  {
    var raw := RawString(w[1..]).value.0;
    StringsAgree(w[1..], []);
    assert [] + Debackslashify(raw) == Debackslashify(raw);
  }

  lemma WordFails(w: Text)
    requires LexToken(w).Some? && D.White(w) == w
    requires LexToken(w).value.0 in {CloseBrace, CloseBracket, ColonTok, CommaTok}
    ensures D.ValueAt(w) == None
  {
    assert w[0] in {RBRACE, RBRACKET, COLON, COMMA};
  }

  lemma {:induction false} ValueAgrees(s: Text)
    requires Tokenize(s).Some?
    ensures Agrees(D.ValueAt(s), G.ValueAt(Tokenize(s).value))
    decreases |s|, 1
  {
    var w := NextToken(s);
    if w != [] {
      match LexToken(w).value.0 {
        case OpenBracket => ArrayAgrees(s, w);
        case OpenBrace => ObjectAgrees(s, w);
        case _ => ScalarAgrees(s);
      }
    }
  }

  /** The tokens of an opening bracket, seen from the text. */
  lemma OpenBracketText(s: Text, w: Text) returns (inner: Text)
    requires Tokenize(s).Some? && w == D.White(s) && w != [] && w[0] == LBRACKET
    ensures Tokenize(s).value != [] && Tokenize(s).value[0].OpenBracket?
    ensures inner == D.White(w[1..])
    ensures Tokenize(inner) == Tokenize(w[1..]) == Some(Tokenize(s).value[1..])
    ensures inner != [] && inner[0] == RBRACKET <==> |Tokenize(s).value| > 1 && Tokenize(s).value[1].CloseBracket?
    ensures inner != [] && inner[0] == RBRACKET ==> Tokenize(inner[1..]) == Some(Tokenize(s).value[2..])
  {
    var w' := NextToken(s);
    var ts := Tokenize(s).value;
    assert LexToken(w).value == (OpenBracket, w[1..]);
    assert ts[1..] == Tokenize(w[1..]).value;
    inner := NextToken(w[1..]);
    TokenizeSkips(w[1..]);
    if inner != [] {
      assert ts[1] == LexToken(inner).value.0;
      assert ts[2..] == ts[1..][1..] == Tokenize(LexToken(inner).value.1).value;
    }
  }

  lemma {:induction false} ArrayAgrees(s: Text, w: Text)
    requires Tokenize(s).Some? && w == D.White(s) && w != [] && w[0] == LBRACKET
    ensures Agrees(D.ValueAt(s), G.ValueAt(Tokenize(s).value))
    decreases |s|, 0
  {
    var ts := Tokenize(s).value;
    var inner := OpenBracketText(s, w);
    assert D.ValueAt(s) == D.ArrayAt(w);
    if inner == [] || inner[0] != RBRACKET {
      assert D.ArrayAt(w) == D.ElementsAt(inner, []);
      assert G.ValueAt(ts) == G.ElementsAt(ts[1..], []);
      ElementsAgree(inner, []);
    }
  }

  lemma {:induction false} ElementsAgree(s: Text, done: seq<Value>)
    requires Tokenize(s).Some?
    ensures Agrees(D.ElementsAt(s, done), G.ElementsAt(Tokenize(s).value, done))
    decreases |s|, 2
  {
    ValueAgrees(s);
    if D.ValueAt(s).Some? {
      var (v, rest) := D.ValueAt(s).value;
      ElementEndAgrees(rest, done + [v]);
    }
  }

  /** After an element of an array that now has the elements `all`. */
  lemma {:induction false} ElementEndAgrees(rest: Text, all: seq<Value>)
    requires Tokenize(rest).Some?
    ensures var w := D.White(rest);
            var ts := Tokenize(rest).value;
            && (w == [] <==> ts == [])
            && (w != [] ==> (w[0] == RBRACKET <==> ts[0].CloseBracket?) && (w[0] == COMMA <==> ts[0].CommaTok?))
            && (w != [] && w[0] == RBRACKET ==> Tokenize(w[1..]) == Some(ts[1..]))
            && (w != [] && w[0] == COMMA ==>
                  Agrees(D.ElementsAt(D.White(w[1..]), all), G.ElementsAt(ts[1..], all)))
    decreases |rest|, 0
  {
    var w := NextToken(rest);
    if w != [] {
      var after := LexToken(w).value.1;
      assert Tokenize(rest).value[1..] == Tokenize(after).value;
      if w[0] == COMMA {
        TokenizeSkips(after);
        ElementsAgree(D.White(after), all);
      }
    }
  }

  /** The tokens of an opening brace, seen from the text. */
  lemma OpenBraceText(s: Text, w: Text) returns (inner: Text)
    requires Tokenize(s).Some? && w == D.White(s) && w != [] && w[0] == LBRACE
    ensures Tokenize(s).value != [] && Tokenize(s).value[0].OpenBrace?
    ensures inner == D.White(w[1..]) && D.White(inner) == inner
    ensures Tokenize(inner) == Tokenize(w[1..]) == Some(Tokenize(s).value[1..])
    ensures inner == [] <==> |Tokenize(s).value| == 1
    ensures inner != [] && inner[0] == RBRACE <==> |Tokenize(s).value| > 1 && Tokenize(s).value[1].CloseBrace?
    ensures inner != [] && inner[0] == RBRACE ==> Tokenize(inner[1..]) == Some(Tokenize(s).value[2..])
  {
    var w' := NextToken(s);
    var ts := Tokenize(s).value;
    assert LexToken(w).value == (OpenBrace, w[1..]);
    assert ts[1..] == Tokenize(w[1..]).value;
    inner := NextToken(w[1..]);
    TokenizeSkips(w[1..]);
    SkipTwice(w[1..]);
    WhiteIsSkip(inner);
    if inner != [] {
      assert ts[1] == LexToken(inner).value.0;
      assert ts[2..] == ts[1..][1..] == Tokenize(LexToken(inner).value.1).value;
    }
  }

  lemma {:induction false} ObjectAgrees(s: Text, w: Text)
    requires Tokenize(s).Some? && w == D.White(s) && w != [] && w[0] == LBRACE
    ensures Agrees(D.ValueAt(s), G.ValueAt(Tokenize(s).value))
    decreases |s|, 0
  {
    var ts := Tokenize(s).value;
    var inner := OpenBraceText(s, w);
    assert D.ValueAt(s) == D.ObjectAt(w);
    if inner == [] || inner[0] != RBRACE {
      assert D.ObjectAt(w) == D.MembersAt(inner, []);
      assert G.ValueAt(ts) == G.MembersAt(ts[1..], []);
      MembersAgree(inner, []);
    }
  }

  /** Whether a key comes next, and which. */
  lemma KeyAgrees(s: Text)
    requires Tokenize(s).Some? && D.White(s) == s
    ensures var ts := Tokenize(s).value;
            match D.String(s)
            case None => ts == [] || !ts[0].StrTok?
            case Some(key) => ts != [] && ts[0] == StrTok(key.0) && Tokenize(key.1) == Some(ts[1..])
  {
    var s' := NextToken(s);
    if s != [] && s[0] == QUOTE {
      StringToken(s);
    }
  }

  /** Whether a colon comes next, and what follows it. */
  lemma ColonAgrees(s: Text)
    requires Tokenize(s).Some?
    ensures var ts := Tokenize(s).value;
            var w := D.White(s);
            && (w != [] && w[0] == COLON <==> ts != [] && ts[0].ColonTok?)
            && (w != [] && w[0] == COLON ==> Tokenize(w[1..]) == Some(ts[1..]))
  {
    var w := NextToken(s);
    if w != [] && w[0] == COLON {
      assert LexToken(w).value == (ColonTok, w[1..]);
    }
  }

  lemma {:induction false} MembersAgree(s: Text, done: seq<Member>)
    requires Tokenize(s).Some? && D.White(s) == s
    ensures Agrees(D.MembersAt(s, done), G.MembersAt(Tokenize(s).value, done))
    decreases |s|, 2
  {
    KeyAgrees(s);
    var ts := Tokenize(s).value;
    if D.String(s).Some? {
      var (key, rest) := D.String(s).value;
      ColonAgrees(rest);
      var w := D.White(rest);
      if w != [] && w[0] == COLON && !HasKey(done, key) {
        assert ts[1..][1..] == ts[2..];
        ValueAgrees(w[1..]);
        if D.ValueAt(w[1..]).Some? {
          var (v, afterValue) := D.ValueAt(w[1..]).value;
          AssignFresh(done, key, v);
          MemberEndAgrees(afterValue, done + [Member(key, v)]);
        }
      }
    }
  }

  /** After the value of a member, whose object now has the members `all`. */
  lemma {:induction false} MemberEndAgrees(rest: Text, all: seq<Member>)
    requires Tokenize(rest).Some?
    ensures var w := D.White(rest);
            var ts := Tokenize(rest).value;
            && (w == [] <==> ts == [])
            && (w != [] ==> (w[0] == RBRACE <==> ts[0].CloseBrace?) && (w[0] == COMMA <==> ts[0].CommaTok?))
            && (w != [] && w[0] == RBRACE ==> Tokenize(w[1..]) == Some(ts[1..]))
            && (w != [] && w[0] == COMMA ==>
                  Agrees(D.MembersAt(D.White(w[1..]), all), G.MembersAt(ts[1..], all)))
    decreases |rest|, 0
  {
    var w := NextToken(rest);
    if w != [] {
      var after := LexToken(w).value.1;
      assert Tokenize(rest).value[1..] == Tokenize(after).value;
      if w[0] == COMMA {
        TokenizeSkips(after);
        SkipTwice(after);
        WhiteIsSkip(D.White(after));
        MembersAgree(D.White(after), all);
      }
    }
  }

  /** The two parsers on every text: the state machine accepts exactly when the text falls into
      tokens and the recursive-descent parser accepts, and both build the same value. */
  lemma ParsersAgree(text: Text)
    ensures M.ParseText(text) == if Tokenize(text).Some? then D.ParseText(text) else None
  {
    if Tokenize(text).Some? {
      ValueAgrees(text);
      if D.ValueAt(text).Some? {
        var w := NextToken(D.ValueAt(text).value.1);
      }
    }
  }

  /** The recursive descent reads every text that spells a value as that value, and accepts no other text
      that falls into tokens. */
  lemma DescentExact(text: Text, v: Value)
    ensures IsJson(text, v) ==> D.ParseText(text) == Some(v)
    ensures forall ts :: D.ParseText(text) == Some(v) && SplitsInto(text, ts) ==> IsJson(text, v)
  {
    hide IsJson, SplitsInto, D.ParseText;
    ParsersAgree(text);
    GrammarMeaning.JsonExact(text, v);
    forall ts | SplitsInto(text, ts)
      ensures Tokenize(text).Some?
    {
      TokenMeaning.TokenizeExact(text, ts);
    }
  }

  lemma DescentExactAll(text: Text)
    ensures forall v :: IsJson(text, v) ==> D.ParseText(text) == Some(v)
    ensures forall v, ts :: D.ParseText(text) == Some(v) && SplitsInto(text, ts) ==> IsJson(text, v)
  {
    hide IsJson, SplitsInto, D.ParseText;
    forall v
      ensures IsJson(text, v) ==> D.ParseText(text) == Some(v)
      ensures forall ts :: D.ParseText(text) == Some(v) && SplitsInto(text, ts) ==> IsJson(text, v)
    {
      DescentExact(text, v);
    }
  }

  /** The condition is needed: a string with a raw tab is no token, and the recursive descent takes it. */
  lemma RawTab()
    ensures var text := [QUOTE, TAB, QUOTE];
            D.ParseText(text) == Some(Str([TAB])) && M.ParseText(text) == None && Tokenize(text) == None
  {
    var text: Text := [QUOTE, TAB, QUOTE];
    ParsersAgree(text);
    assert RawString(text[1..]) == None;
    assert text[1..][0] == TAB && text[1..][1..] == [QUOTE] && [QUOTE][1..] == [];
    assert D.StringBody([QUOTE], [TAB]) == Some(([TAB], []));
    var none: Text := [];
    assert none + [TAB] == [TAB];
    assert D.StringBody(text[1..], []) == Some(([TAB], []));
    assert D.White(text) == text;
    assert D.ValueAt(text) == Some((Str([TAB]), []));
  }
}
