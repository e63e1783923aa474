/** The grammar over tokens is that of RFC 8259: a sequence parses to a value if and only if it is the
    tokens of that value. */
module GrammarMeaning {
  import opened Options
  import opened Texts
  import opened JsonValues
  import opened TokenLexer
  import opened JsonTexts
  import opened TokenMeaning
  import G = JsonGrammar

  // ----- The tokens of a value parse to the value.

  lemma FirstToken(v: Value)
    requires IsClean(v)
    ensures TokensOf(v) != [] && !TokensOf(v)[0].CloseBracket?
  {
  }

  lemma {:induction false} TokensParse(v: Value, ts: seq<Token>)
    requires IsClean(v)
    ensures G.ValueAt(TokensOf(v) + ts) == Some((v, ts))
    decreases v, 0
  {
    match v {
      case Arr(elems) => ArrayParses(elems, ts);
      case Obj(members) => ObjectParses(members, ts);
      case _ => ScalarParses(v, ts);
    }
  }

  lemma ScalarParses(v: Value, ts: seq<Token>)
    requires IsClean(v) && !v.Arr? && !v.Obj?
    ensures G.ValueAt(TokensOf(v) + ts) == Some((v, ts))
  {
    assert (TokensOf(v) + ts)[1..] == ts;
  }

  lemma {:induction false} ArrayParses(elems: seq<Value>, ts: seq<Token>)
    requires IsClean(Arr(elems))
    ensures G.ValueAt(TokensOf(Arr(elems)) + ts) == Some((Arr(elems), ts))
    decreases elems, 2
  {
    var inner := ElementTokens(elems) + ([CloseBracket] + ts);
    var all := TokensOf(Arr(elems)) + ts;
    assert all == [OpenBracket] + inner && all[1..] == inner;
    if elems == [] {
      assert inner == [CloseBracket] + ts && all[2..] == ts;
    } else {
      ElementsParse(elems, [], ts);
      FirstToken(elems[0]);
      assert inner[0] == TokensOf(elems[0])[0] == all[1];
      assert [] + elems == elems;
    }
  }

  lemma {:induction false} ElementsParse(elems: seq<Value>, done: seq<Value>, ts: seq<Token>)
    requires elems != [] && forall i :: 0 <= i < |elems| ==> IsClean(elems[i])
    ensures G.ElementsAt(ElementTokens(elems) + ([CloseBracket] + ts), done) == Some((Arr(done + elems), ts))
    decreases elems, 1
  {
    var v := elems[0];
    var closing := [CloseBracket] + ts;
    if |elems| == 1 {
      TokensParse(v, closing);
      assert elems == [v] && ElementTokens(elems) == TokensOf(v);
      assert closing[1..] == ts;
    } else {
      var more := ElementTokens(elems[1..]) + closing;
      TokensParse(v, [CommaTok] + more);
      Splice(TokensOf(v), CommaTok, ElementTokens(elems[1..]), closing);
      assert ([CommaTok] + more)[1..] == more;
      ElementsParse(elems[1..], done + [v], ts);
      assert done + [v] + elems[1..] == done + elems;
    }
  }

  lemma Splice(a: seq<Token>, comma: Token, b: seq<Token>, c: seq<Token>)
    ensures (a + ([comma] + b)) + c == a + ([comma] + (b + c))
  {
  }

  lemma {:induction false} ObjectParses(members: seq<Member>, ts: seq<Token>)
    requires IsClean(Obj(members))
    ensures G.ValueAt(TokensOf(Obj(members)) + ts) == Some((Obj(members), ts))
    decreases members, 2
  {
    var inner := MemberTokens(members) + ([CloseBrace] + ts);
    var all := TokensOf(Obj(members)) + ts;
    assert all == [OpenBrace] + inner && all[1..] == inner;
    if members == [] {
      assert inner == [CloseBrace] + ts && all[2..] == ts;
    } else {
      assert [] + members == members;
      MembersParse(members, [], ts);
      assert all[1] == StrTok(members[0].key);
    }
  }

  /** What the grammar does with a key, a colon and a value. */
  lemma MemberStep(key: Text, v: Value, done: seq<Member>, rest: seq<Token>)
    requires !HasKey(done, key) && rest != []
    requires G.ValueAt(TokensOf(v) + rest) == Some((v, rest))
    ensures var all := done + [Member(key, v)];
            var r := G.MembersAt([StrTok(key), ColonTok] + (TokensOf(v) + rest), done);
            && (rest[0].CloseBrace? ==> r == Some((Obj(all), rest[1..])))
            && (rest[0].CommaTok? ==> r == G.MembersAt(rest[1..], all))
  {
    var ts := [StrTok(key), ColonTok] + (TokensOf(v) + rest);
    assert ts[2..] == TokensOf(v) + rest;
  }

  lemma FreshKey(done: seq<Member>, members: seq<Member>)
    requires members != [] && DistinctKeys(done + members)
    ensures !HasKey(done, members[0].key)
  {
    forall i | 0 <= i < |done|
      ensures done[i].key != members[0].key
    {
      assert (done + members)[i] == done[i] && (done + members)[|done|] == members[0];
    }
  }

  /** The tokens of the first member, those after its value, and what they leave to be read. */
  lemma MemberShape(members: seq<Member>, closing: seq<Token>) returns (after: seq<Token>, more: seq<Token>)
    requires members != [] && closing != []
    ensures |members| == 1 ==> after == closing
    ensures |members| > 1 ==> (more == MemberTokens(members[1..]) + closing)
    ensures |members| > 1 ==> (after != [] && after[0] == CommaTok && after[1..] == more)
    ensures MemberTokens(members) + closing
         == [StrTok(members[0].key), ColonTok] + (TokensOf(members[0].val) + after)
  {
    var key, v := members[0].key, members[0].val;
    more := MemberTokens(members[1..]) + closing;
    if |members| == 1 {
      after := closing;
      assert MemberTokens(members) == [StrTok(key), ColonTok] + TokensOf(v);
    } else {
      after := [CommaTok] + more;
      Splice([StrTok(key), ColonTok] + TokensOf(v), CommaTok, MemberTokens(members[1..]), closing);
    }
    assert ([StrTok(key), ColonTok] + TokensOf(v)) + after == [StrTok(key), ColonTok] + (TokensOf(v) + after);
  }

  lemma MoveFirst(done: seq<Member>, members: seq<Member>)
    requires members != []
    ensures done + [Member(members[0].key, members[0].val)] + members[1..] == done + members
  {
  }

  lemma {:induction false} MembersParse(members: seq<Member>, done: seq<Member>, ts: seq<Token>)
    requires members != [] && forall i :: 0 <= i < |members| ==> IsClean(members[i].val)
    requires DistinctKeys(done + members)
    ensures G.MembersAt(MemberTokens(members) + ([CloseBrace] + ts), done) == Some((Obj(done + members), ts))
    decreases members, 1
  {
    var key, v := members[0].key, members[0].val;
    var closing := [CloseBrace] + ts;
    FreshKey(done, members);
    MoveFirst(done, members);
    var after, more := MemberShape(members, closing);
    TokensParse(v, after);
    MemberStep(key, v, done, after);
    if |members| == 1 {
      assert members[1..] == [] && closing[1..] == ts;
      assert done + [Member(key, v)] + [] == done + [Member(key, v)];
    } else {
      MembersParse(members[1..], done + [Member(key, v)], ts);
    }
  }

  // ----- What parses to a value is the tokens of the value.

  ghost predicate NumbersAreNumbers(ts: seq<Token>) {
    forall i :: 0 <= i < |ts| ==> ts[i].NumTok? ==> IsNumber(ts[i].lexeme)
  }

  lemma {:induction false} ParsedIsTokens(ts: seq<Token>)
    requires NumbersAreNumbers(ts)
    ensures G.ValueAt(ts).Some? ==>
              var (v, rest) := G.ValueAt(ts).value;
              IsClean(v) && NumbersAreNumbers(rest) && ts == TokensOf(v) + rest
    decreases |ts|, 0
  {
    if ts == [] || G.ValueAt(ts).None? {
    } else if ts[0].OpenBracket? {
      ArrayParsed(ts);
    } else if ts[0].OpenBrace? {
      ObjectParsed(ts);
    } else {
      assert ts == [ts[0]] + ts[1..];
    }
  }

  lemma {:induction false} ArrayParsed(ts: seq<Token>)
    requires NumbersAreNumbers(ts) && ts != [] && ts[0].OpenBracket? && G.ValueAt(ts).Some?
    ensures var (v, rest) := G.ValueAt(ts).value;
            IsClean(v) && NumbersAreNumbers(rest) && ts == TokensOf(v) + rest
    decreases |ts|, -1
  {
    hide G.ElementsAt, ElementTokens;
    if ts[1].CloseBracket? {
      NoTokens();
      assert ts == [OpenBracket] + [] + [CloseBracket] + ts[2..];
    } else {
      var more, rest := ElementsParsed(ts[1..], []);
      assert [] + more == more;
      assert ts == [OpenBracket] + (ElementTokens(more) + ([CloseBracket] + rest));
    }
  }

  lemma NoTokens()
    ensures ElementTokens([]) == [] && MemberTokens([]) == []
  {
  }

  lemma {:induction false} ObjectParsed(ts: seq<Token>)
    requires NumbersAreNumbers(ts) && ts != [] && ts[0].OpenBrace? && G.ValueAt(ts).Some?
    ensures var (v, rest) := G.ValueAt(ts).value;
            IsClean(v) && NumbersAreNumbers(rest) && ts == TokensOf(v) + rest
    decreases |ts|, -1
  {
    hide G.MembersAt, MemberTokens;
    if ts[1].CloseBrace? {
      NoTokens();
      assert ts == [OpenBrace] + [] + [CloseBrace] + ts[2..];
    } else {
      var more, rest := MembersParsed(ts[1..], []);
      assert [] + more == more;
      assert ts == [OpenBrace] + (MemberTokens(more) + ([CloseBrace] + rest));
    }
  }

  /** The elements that are read, and what is left after the bracket. */
  lemma {:induction false} ElementsParsed(ts: seq<Token>, done: seq<Value>) returns (more: seq<Value>, rest: seq<Token>)
    requires NumbersAreNumbers(ts) && G.ElementsAt(ts, done).Some?
    requires forall i :: 0 <= i < |done| ==> IsClean(done[i])
    ensures more != [] && G.ElementsAt(ts, done).value == (Arr(done + more), rest)
    ensures IsClean(Arr(done + more)) && NumbersAreNumbers(rest)
    ensures ts == ElementTokens(more) + ([CloseBracket] + rest)
    decreases |ts|, 1
  {
    hide TokensOf, ElementTokens, G.ValueAt;
    ParsedIsTokens(ts);
    var (v, after) := G.ValueAt(ts).value;
    if after[0].CloseBracket? {
      more, rest := [v], after[1..];
      OneElement(v);
      assert after == [CloseBracket] + rest;
    } else {
      var later;
      later, rest := ElementsParsed(after[1..], done + [v]);
      more := [v] + later;
      FirstElement(v, later, rest);
      assert after == [CommaTok] + after[1..];
      assert done + [v] + later == done + more;
    }
  }

  lemma OneElement(v: Value)
    ensures ElementTokens([v]) == TokensOf(v)
  {
  }

  lemma OneMember(m: Member)
    ensures MemberTokens([m]) == [StrTok(m.key), ColonTok] + TokensOf(m.val)
  {
  }

  lemma FirstElement(v: Value, later: seq<Value>, rest: seq<Token>)
    requires later != []
    ensures ElementTokens([v] + later) + ([CloseBracket] + rest)
         == TokensOf(v) + ([CommaTok] + (ElementTokens(later) + ([CloseBracket] + rest)))
  {
    assert ([v] + later)[1..] == later;
    Splice(TokensOf(v), CommaTok, ElementTokens(later), [CloseBracket] + rest);
  }

  /** The members that are read, and what is left after the brace. */
  lemma {:induction false} MembersParsed(ts: seq<Token>, done: seq<Member>)
      returns (more: seq<Member>, rest: seq<Token>)
    requires NumbersAreNumbers(ts) && G.MembersAt(ts, done).Some?
    requires DistinctKeys(done) && forall i :: 0 <= i < |done| ==> IsClean(done[i].val)
    ensures more != [] && G.MembersAt(ts, done).value == (Obj(done + more), rest)
    ensures IsClean(Obj(done + more)) && NumbersAreNumbers(rest)
    ensures ts == MemberTokens(more) + ([CloseBrace] + rest)
    decreases |ts|, 1
  {
    hide TokensOf, MemberTokens, G.ValueAt, HasKey, DistinctKeys;
    ParsedIsTokens(ts[2..]);
    var (v, after) := G.ValueAt(ts[2..]).value;
    var m := Member(ts[0].text, v);
    DistinctAppend(done, m.key, v);
    assert ts == [StrTok(m.key), ColonTok] + ts[2..];
    if after[0].CloseBrace? {
      more, rest := [m], after[1..];
      OneMember(m);
      assert after == [CloseBrace] + rest;
    } else {
      var later;
      later, rest := MembersParsed(after[1..], done + [m]);
      more := [m] + later;
      FirstMember(m, later, rest);
      assert after == [CommaTok] + after[1..];
      assert done + [m] + later == done + more;
    }
  }

  lemma FirstMember(m: Member, later: seq<Member>, rest: seq<Token>)
    requires later != []
    ensures MemberTokens([m] + later) + ([CloseBrace] + rest)
         == [StrTok(m.key), ColonTok]
            + (TokensOf(m.val) + ([CommaTok] + (MemberTokens(later) + ([CloseBrace] + rest))))
  {
    assert ([m] + later)[1..] == later;
    Splice([StrTok(m.key), ColonTok] + TokensOf(m.val), CommaTok, MemberTokens(later), [CloseBrace] + rest);
  }

  /** A token sequence parses to a value if and only if JSON can express the value and these are its tokens. */
  lemma ParseExact(ts: seq<Token>, v: Value)
    requires NumbersAreNumbers(ts)
    ensures G.Parse(ts) == Some(v) <==> IsClean(v) && ts == TokensOf(v)
  {
    ParsedIsTokens(ts);
    if G.Parse(ts) == Some(v) {
      assert TokensOf(v) + [] == TokensOf(v);
    }
    if IsClean(v) && ts == TokensOf(v) {
      TokensParse(v, []);
      assert ts + [] == ts;
    }
  }

  lemma {:induction false} SplitNumbers(text: Text, ts: seq<Token>)
    requires SplitsInto(text, ts)
    ensures NumbersAreNumbers(ts)
    decreases |ts|
  {
    if ts != [] {
      var i, j {:trigger text[i..j]} :|
        0 <= i < j <= |text| && IsToken(ts[0], text[i..j]) && SplitsInto(text[j..], ts[1..]);
      SplitNumbers(text[j..], ts[1..]);
      forall k | 0 <= k < |ts| && ts[k].NumTok?
        ensures IsNumber(ts[k].lexeme)
      {
        assert k > 0 ==> ts[k] == ts[1..][k - 1];
      }
    }
  }

  /** Tokenizing and parsing accept exactly the texts that spell a value, with that value. */
  lemma JsonExact(text: Text, v: Value)
    ensures Tokenize(text).Some? && G.Parse(Tokenize(text).value) == Some(v) <==> IsJson(text, v)
  {
    if Tokenize(text).Some? {
      var ts := Tokenize(text).value;
      TokenizeExact(text, ts);
      SplitNumbers(text, ts);
      ParseExact(ts, v);
    }
    TokenizeExact(text, TokensOf(v));
  }
}
