module RoundTrip {
  import opened Options
  import opened Texts
  import opened JsonValues
  import opened JsonTexts
  import opened PrintedTexts
  import opened QuoteFacts
  import D = DescentSpec
  import E = ParserEquivalence
  import GrammarMeaning
  import M = StateMachine
  import NumberMeaning
  import P = PrinterSpec
  import PrinterMeaning

  // ----- Where a number stands among the tokens of a value, no digit can follow it.

  predicate AfterNumber(t: Token) {
    t == CommaTok || Closes(t)
  }

  ghost predicate Separated(ts: seq<Token>) {
    && GrammarMeaning.NumbersAreNumbers(ts)
    && forall i :: 0 <= i < |ts| - 1 && ts[i].NumTok? ==> AfterNumber(ts[i + 1])
  }

  lemma SeparatedStep(t: Token, ts: seq<Token>)
    requires Separated(ts) && (t.NumTok? ==> IsNumber(t.lexeme) && (ts == [] || AfterNumber(ts[0])))
    ensures Separated([t] + ts)
  {
    var all := [t] + ts;
    forall i | 0 <= i < |all| && all[i].NumTok?
      ensures IsNumber(all[i].lexeme) && (i < |all| - 1 ==> AfterNumber(all[i + 1]))
    {
      if i > 0 {
        assert all[i] == ts[i - 1];
        assert i < |all| - 1 ==> all[i + 1] == ts[i];
      }
    }
  }

  lemma {:induction false} TokensSeparated(v: Value, ts: seq<Token>)
    requires IsClean(v) && Separated(ts) && (ts == [] || AfterNumber(ts[0]))
    ensures Separated(TokensOf(v) + ts)
    decreases v, 0
  {
    hide Separated, IsNumber, ElementTokens, MemberTokens;
    match v {
      case Arr(elems) =>
        SeparatedStep(CloseBracket, ts);
        ElementsSeparated(elems, [CloseBracket] + ts);
        SeparatedStep(OpenBracket, ElementTokens(elems) + ([CloseBracket] + ts));
        assert TokensOf(v) + ts == [OpenBracket] + (ElementTokens(elems) + ([CloseBracket] + ts));
      case Obj(members) =>
        SeparatedStep(CloseBrace, ts);
        MembersSeparated(members, [CloseBrace] + ts);
        SeparatedStep(OpenBrace, MemberTokens(members) + ([CloseBrace] + ts));
        assert TokensOf(v) + ts == [OpenBrace] + (MemberTokens(members) + ([CloseBrace] + ts));
      case _ => ScalarSeparated(v, ts);
    }
  }

  lemma ScalarSeparated(v: Value, ts: seq<Token>)
    requires IsClean(v) && !v.Arr? && !v.Obj? && Separated(ts) && (ts == [] || AfterNumber(ts[0]))
    ensures Separated(TokensOf(v) + ts)
  {
    hide Separated, IsNumber;
    SeparatedStep(TokensOf(v)[0], ts);
    assert TokensOf(v) == [TokensOf(v)[0]];
  }

  lemma {:induction false} ElementsSeparated(elems: seq<Value>, ts: seq<Token>)
    requires forall i :: 0 <= i < |elems| ==> IsClean(elems[i])
    requires Separated(ts) && ts != [] && AfterNumber(ts[0])
    ensures Separated(ElementTokens(elems) + ts)
    decreases elems, 1
  {
    hide Separated, TokensOf, IsNumber;
    if elems == [] {
      assert [] + ts == ts;
    } else if |elems| == 1 {
      TokensSeparated(elems[0], ts);
    } else {
      var more := ElementTokens(elems[1..]) + ts;
      ElementsSeparated(elems[1..], ts);
      SeparatedStep(CommaTok, more);
      TokensSeparated(elems[0], [CommaTok] + more);
      assert ElementTokens(elems) + ts == TokensOf(elems[0]) + ([CommaTok] + more);
    }
  }

  lemma {:induction false} MembersSeparated(members: seq<Member>, ts: seq<Token>)
    requires forall i :: 0 <= i < |members| ==> IsClean(members[i].val)
    requires Separated(ts) && ts != [] && AfterNumber(ts[0])
    ensures Separated(MemberTokens(members) + ts)
    decreases members, 1
  {
    hide Separated, TokensOf, IsNumber;
    if members == [] {
      assert [] + ts == ts;
    } else {
      var m := members[0];
      var after := ts;
      if |members| > 1 {
        var more := MemberTokens(members[1..]) + ts;
        MembersSeparated(members[1..], ts);
        SeparatedStep(CommaTok, more);
        after := [CommaTok] + more;
      }
      TokensSeparated(m.val, after);
      SeparatedStep(ColonTok, TokensOf(m.val) + after);
      SeparatedStep(StrTok(m.key), [ColonTok] + (TokensOf(m.val) + after));
      assert MemberTokens(members) + ts == [StrTok(m.key)] + ([ColonTok] + (TokensOf(m.val) + after));
    }
  }

  // ----- What is printed splits into the tokens it was printed from.

  lemma {:induction false} TimesBlank(indent: Text, n: nat)
    requires IsBlank(indent)
    ensures IsBlank(Times(indent, n))
  {
    if n > 0 {
      TimesBlank(indent, n - 1);
    }
  }

  lemma GapBlank(prev: Option<Token>, next: Token, depth: nat, indent: Text)
    requires IsBlank(indent)
    ensures IsBlank(Gap(prev, next, depth, indent))
  {
    TimesBlank(indent, depth);
    TimesBlank(indent, if depth == 0 then 0 else depth - 1);
  }

  /** What follows a number in print. */
  lemma AfterNumberLaid(prev: Option<Token>, depth: nat, ts: seq<Token>, indent: Text)
    requires IsBlank(indent) && (ts == [] || AfterNumber(ts[0]))
    ensures var rest := LaidOut(prev, depth, ts, indent); rest == [] || !(0x30 <= rest[0] <= 0x39)
  {
    if ts != [] {
      var gap := Gap(prev, ts[0], depth, indent);
      GapBlank(prev, ts[0], depth, indent);
      assert LaidOut(prev, depth, ts, indent)[0] == if gap == [] then PrintedToken(ts[0])[0] else gap[0];
    }
  }

  /** The printed text splits into the tokens again, whatever the blank indent. */
  lemma {:induction false} LaidSplits(prev: Option<Token>, depth: nat, ts: seq<Token>, indent: Text)
    requires IsBlank(indent) && Separated(ts)
    ensures SplitsInto(LaidOut(prev, depth, ts, indent), ts)
    decreases |ts|
  {
    if ts != [] {
      hide Gap, PrintedToken, IsToken, IsBlank, SplitsInto, Separated, EndsBefore;
      var gap, piece := Gap(prev, ts[0], depth, indent), PrintedToken(ts[0]);
      var rest := LaidOut(Some(ts[0]), DepthAfter(ts[0], depth), ts[1..], indent);
      var text := gap + (piece + rest);
      GapBlank(prev, ts[0], depth, indent);
      PrintedIsToken(ts[0]);
      TokenNotEmpty(ts[0], piece);
      SeparatedTail(ts);
      LaidSplits(Some(ts[0]), DepthAfter(ts[0], depth), ts[1..], indent);
      NumberEnds(ts[0], DepthAfter(ts[0], depth), ts[1..], indent);
      SplitsFirst(gap, piece, rest, ts[0], ts[1..]);
      assert ts == [ts[0]] + ts[1..];
    }
  }

  lemma NumberEnds(t: Token, depth: nat, ts: seq<Token>, indent: Text)
    requires IsBlank(indent) && (t.NumTok? && ts != [] ==> AfterNumber(ts[0]))
    ensures EndsBefore(t, LaidOut(Some(t), depth, ts, indent))
  {
    if t.NumTok? {
      AfterNumberLaid(Some(t), depth, ts, indent);
    }
  }

  lemma SplitsFirst(blank: Text, piece: Text, rest: Text, t: Token, ts: seq<Token>)
    requires IsBlank(blank) && piece != [] && IsToken(t, piece) && EndsBefore(t, rest) && SplitsInto(rest, ts)
    ensures SplitsInto(blank + (piece + rest), [t] + ts)
  {
    hide IsBlank, IsToken, EndsBefore;
    var text, i, j := blank + (piece + rest), |blank|, |blank| + |piece|;
    assert text[..i] == blank && text[i..j] == piece && text[j..] == rest;
    assert ([t] + ts)[1..] == ts;
  }

  lemma SeparatedTail(ts: seq<Token>)
    requires Separated(ts) && ts != []
    ensures Separated(ts[1..]) && (ts[0].NumTok? ==> IsNumber(ts[0].lexeme))
    ensures ts[0].NumTok? && |ts| > 1 ==> AfterNumber(ts[1..][0])
  {
    assert |ts| > 1 && ts[0].NumTok? ==> AfterNumber(ts[0 + 1]);
    forall i | 0 <= i < |ts[1..]| && ts[1..][i].NumTok?
      ensures IsNumber(ts[1..][i].lexeme) && (i < |ts[1..]| - 1 ==> AfterNumber(ts[1..][i + 1]))
    {
      assert ts[1..][i] == ts[i + 1];
      assert i < |ts[1..]| - 1 ==> AfterNumber(ts[i + 1 + 1]);
    }
  }

  lemma TokenNotEmpty(t: Token, s: Text)
    requires IsToken(t, s)
    ensures s != []
  {
    if t.NumTok? {
      NumberMeaning.NumberFirst(s);
    }
  }

  /** For every value and every white-space indent, both parsers read the printed text back as the
      value without what JSON cannot express. */
  lemma PrintThenParse(v: Value, space: Text)
    requires IsValue(v) && !v.Undefined? && IsBlank(space)
    ensures P.Stringify(v, space).Some?
    ensures D.ParseText(P.Stringify(v, space).value) == Some(Clean(v))
    ensures M.ParseText(P.Stringify(v, space).value) == Some(Clean(v))
  {
    hide D.ParseText, P.Print, Gap, IsValue, Clean;
    var w := Clean(v);
    PrinterMeaning.PrintMeans(v, 0, space);
    PrinterMeaning.CleanIsClean(v);
    TokensSeparated(w, []);
    assert TokensOf(w) + [] == TokensOf(w);
    LaidSplits(None, 0, TokensOf(w), space);
    var text := P.Stringify(v, space).value;
    assert IsJson(text, w);
    GrammarMeaning.JsonExact(text, w);
    E.ParsersAgree(text);
  }

  /** Reading a text and printing the value again, in any layout, changes only the spelling: both
      parsers read the new text as the same value.  A lexeme stands for a finite number and comes back
      as it was; 1e999, which the programs read as Infinity and print as null, stands for none. */
  lemma ParseThenPrint(text: Text, space: Text)
    requires M.ParseText(text).Some? && IsBlank(space)
    ensures var v := M.ParseText(text).value;
            && IsClean(v)
            && P.Stringify(v, space).Some?
            && M.ParseText(P.Stringify(v, space).value) == Some(v)
            && D.ParseText(P.Stringify(v, space).value) == Some(v)
  {
    hide D.ParseText, P.Print;
    var v := M.ParseText(text).value;
    GrammarMeaning.JsonExact(text, v);
    PrinterMeaning.CleanIsValue(v);
    PrinterMeaning.CleanStays(v);
    PrintThenParse(v, space);
  }
}
