/** `JSON.stringify` prints the tokens of the value that JSON keeps, in that layout. */
module PrinterMeaning {
  import opened Options
  import opened Texts
  import opened JsonValues
  import opened JsonTexts
  import opened PrintedTexts
  import opened PrinterSpec

  // ----- Strings

  lemma HexIsLower(d: int)
    requires 0 <= d < 16
    ensures HexChar(d) == LowerHex(d)
  {
  }

  /** The four digits of a code unit. */
  lemma LastFourDigits(c: Unit)
    ensures 0 <= c / 16 / 16 / 16 < 16
    ensures LastFour(ToString16(c)) ==
            [HexChar(c / 16 / 16 / 16), HexChar(c / 16 / 16 % 16), HexChar(c / 16 % 16), HexChar(c % 16)]
  {
    var d0, d1, d2, d3 := HexChar(c / 16 / 16 / 16), HexChar(c / 16 / 16 % 16), HexChar(c / 16 % 16),
      HexChar(c % 16);
    var zeros := [ZERO, ZERO, ZERO, ZERO];
    if c < 16 {
      assert ToString16(c) == [d3];
      assert zeros + [d3] == [ZERO] + [d0, d1, d2, d3];
    } else if c / 16 < 16 {
      assert ToString16(c / 16) == [d2];
      assert ToString16(c) == [d2, d3];
      assert zeros + [d2, d3] == [ZERO, ZERO] + [d0, d1, d2, d3];
    } else if c / 16 / 16 < 16 {
      assert ToString16(c / 16 / 16) == [d1];
      assert ToString16(c / 16) == [d1, d2];
      assert ToString16(c) == [d1, d2, d3];
      assert zeros + [d1, d2, d3] == [ZERO, ZERO, ZERO] + [d0, d1, d2, d3];
    } else {
      assert ToString16(c / 16 / 16 / 16) == [d0];
      assert ToString16(c / 16 / 16) == [d0, d1];
      assert ToString16(c / 16) == [d0, d1, d2];
      assert ToString16(c) == [d0, d1, d2, d3];
    }
  }

  lemma EscapeIsPrinted(c: Unit)
    ensures Printed(c) == if Escapable(c) then Escape(c) else [c]
  {
    hide ToString16, LastFour, HexChar, LowerHex;
    LastFourDigits(c);
    assert c / 16 / 16 / 16 == c / 0x1000 && c / 16 / 16 == c / 0x100;
    HexIsLower(c / 0x1000);
    HexIsLower(c / 0x100 % 0x10);
    HexIsLower(c / 0x10 % 0x10);
    HexIsLower(c % 0x10);
  }

  lemma {:induction false} NothingToEscape(s: Text)
    requires forall i :: 0 <= i < |s| ==> !Escapable(s[i])
    ensures EscapeAll(s) == s
  {
    if s != [] {
      NothingToEscape(s[1..]);
    }
  }

  lemma QuoteIsEscaped(s: Text)
    ensures Quote(s) == [QUOTE] + EscapeAll(s) + [QUOTE]
  {
    if !exists i :: 0 <= i < |s| && Escapable(s[i]) {
      NothingToEscape(s);
    }
  }

  lemma {:induction false} EscapeAllIsPrinted(s: Text)
    ensures EscapeAll(s) == PrintedAll(s)
  {
    if s != [] {
      EscapeIsPrinted(s[0]);
      EscapeAllIsPrinted(s[1..]);
    }
  }

  lemma QuoteMeans(s: Text)
    ensures Quote(s) == PrintedToken(StrTok(s))
  {
    QuoteIsEscaped(s);
    EscapeAllIsPrinted(s);
  }

  // ----- Layout

  function Pad(gap: Text, level: Text): Text {
    if gap != [] then [LF] + level else []
  }

  /** Both layouts at once: white space, possibly none, within the brackets and after the commas. */
  lemma WrapLayout(open: Unit, parts: seq<Text>, close: Unit, gap: Text, mind: Text)
    requires parts != []
    ensures Wrap(open, parts, close, gap, mind)
         == [open] + (Pad(gap, gap) + (Join(parts, [COMMA] + Pad(gap, gap)) + (Pad(gap, mind) + [close])))
  {
    if gap == [] {
      var middle := Join(parts, [COMMA]);
      assert [COMMA] + Pad(gap, gap) == [COMMA];
      assert [] + [close] == [close] && [] + (middle + [close]) == middle + [close];
    }
  }

  lemma JoinFirst(first: Text, others: seq<Text>, separator: Text)
    requires others != []
    ensures Join([first] + others, separator) == first + (separator + Join(others, separator))
  {
    assert ([first] + others)[1..] == others;
  }

  /** After a value it makes no difference which. */
  lemma AfterValue(t: Token, depth: nat, ts: seq<Token>, indent: Text)
    requires !Opens(t) && t != CommaTok && t != ColonTok
    ensures LaidOut(Some(t), depth, ts, indent) == LaidOut(None, depth, ts, indent)
  {
  }

  lemma FirstToken(v: Value)
    requires IsClean(v)
    ensures TokensOf(v) != [] && !Closes(TokensOf(v)[0])
  {
  }

  /** One token and what follows it. */
  lemma TokenLaid(prev: Option<Token>, t: Token, depth: nat, ts: seq<Token>, indent: Text)
    ensures LaidOut(prev, depth, [t] + ts, indent) == Gap(prev, t, depth, indent)
            + (PrintedToken(t) + LaidOut(Some(t), DepthAfter(t, depth), ts, indent))
  {
    assert ([t] + ts)[1..] == ts;
  }

  /** A value in the middle of other tokens. */
  lemma {:induction false} ValueLaid(v: Value, prev: Option<Token>, depth: nat, indent: Text, ts: seq<Token>)
    requires IsClean(v)
    ensures TokensOf(v) != [] && Print(v, Times(indent, depth), indent).Some?
    ensures LaidOut(prev, depth, TokensOf(v) + ts, indent) ==
            Gap(prev, TokensOf(v)[0], depth, indent)
            + (Print(v, Times(indent, depth), indent).value + LaidOut(None, depth, ts, indent))
    decreases v, 0
  {
    match v {
      case Arr(elems) => ArrayLaid(elems, prev, depth, indent, ts);
      case Obj(members) => ObjectLaid(members, prev, depth, indent, ts);
      case _ => ScalarLaid(v, prev, depth, indent, ts);
    }
  }

  lemma ScalarLaid(v: Value, prev: Option<Token>, depth: nat, indent: Text, ts: seq<Token>)
    requires IsClean(v) && !v.Arr? && !v.Obj?
    ensures |TokensOf(v)| == 1 && Print(v, Times(indent, depth), indent).Some?
    ensures LaidOut(prev, depth, TokensOf(v) + ts, indent) ==
            Gap(prev, TokensOf(v)[0], depth, indent)
            + (Print(v, Times(indent, depth), indent).value + LaidOut(None, depth, ts, indent))
  {
    hide LaidOut, Times, Gap, Quote, PrintedAll;
    var t := TokensOf(v)[0];
    TokenLaid(prev, t, depth, ts, indent);
    AfterValue(t, depth, ts, indent);
    assert TokensOf(v) == [t];
    if v.Str? {
      QuoteMeans(v.text);
    }
  }

  lemma {:induction false} TimesEmpty(indent: Text, n: nat)
    ensures n > 0 ==> (Times(indent, n) == [] <==> indent == [])
    ensures indent == [] ==> Times(indent, n) == []
  {
    if n > 0 {
      TimesEmpty(indent, n - 1);
    }
  }

  /** The new line before every element and every member, and the one before the closing bracket. */
  lemma GapsInside(prev: Token, next: Token, depth: nat, indent: Text)
    requires Opens(prev) || prev == CommaTok
    requires depth > 0 && !Closes(next)
    ensures Gap(Some(prev), next, depth, indent) == Pad(Times(indent, depth), Times(indent, depth))
    ensures Gap(None, CloseBracket, depth, indent) == Gap(None, CloseBrace, depth, indent)
         == Pad(Times(indent, depth), Times(indent, depth - 1))
  {
    TimesEmpty(indent, depth);
  }

  lemma Regroup(a: Text, b: Text, c: Text, d: Text, e: Text, x: Text)
    ensures a + (b + (c + (d + (e + x)))) == (a + (b + (c + (d + e)))) + x
  {
  }

  /** Brackets around tokens that are laid out inside them. */
  lemma WrapLaid(open: Token, close: Token, parts: seq<Text>, body: seq<Token>, prev: Option<Token>, depth: nat,
                 indent: Text, ts: seq<Token>)
    requires (open == OpenBracket && close == CloseBracket) || (open == OpenBrace && close == CloseBrace)
    requires parts == [] ==> body == []
    requires var gap := Times(indent, depth + 1);
             parts != [] ==>
               LaidOut(Some(open), depth + 1, body + ([close] + ts), indent) ==
               Pad(gap, gap)
               + (Join(parts, [COMMA] + Pad(gap, gap)) + LaidOut(None, depth + 1, [close] + ts, indent))
    ensures LaidOut(prev, depth, ([open] + body + [close]) + ts, indent) ==
            Gap(prev, open, depth, indent)
            + (Wrap(PrintedToken(open)[0], parts, PrintedToken(close)[0], Times(indent, depth + 1),
                    Times(indent, depth))
               + LaidOut(None, depth, ts, indent))
  {
    hide LaidOut, Join, Times, Gap, Pad;
    var inner := body + ([close] + ts);
    assert ([open] + body + [close]) + ts == [open] + inner;
    TokenLaid(prev, open, depth, inner, indent);
    AfterValue(close, depth, ts, indent);
    if parts == [] {
      assert inner == [close] + ts;
      TokenLaid(Some(open), close, depth + 1, ts, indent);
      NothingInside(open, close, depth + 1, indent);
    } else {
      var gap, mind := Times(indent, depth + 1), Times(indent, depth);
      TokenLaid(None, close, depth + 1, ts, indent);
      GapsInside(open, NullTok, depth + 1, indent);
      var o, c := PrintedToken(open), PrintedToken(close);
      WrapLayout(o[0], parts, c[0], gap, mind);
      var rest := LaidOut(None, depth, ts, indent);
      Regroup(o, Pad(gap, gap), Join(parts, [COMMA] + Pad(gap, gap)), Pad(gap, mind), c, rest);
    }
  }

  lemma NothingInside(open: Token, close: Token, depth: nat, indent: Text)
    requires Opens(open) && Closes(close)
    ensures Gap(Some(open), close, depth, indent) == []
  {
  }

  lemma {:induction false} ArrayLaid(elems: seq<Value>, prev: Option<Token>, depth: nat, indent: Text, ts: seq<Token>)
    requires IsClean(Arr(elems))
    ensures LaidOut(prev, depth, TokensOf(Arr(elems)) + ts, indent) ==
            Gap(prev, OpenBracket, depth, indent)
            + (Print(Arr(elems), Times(indent, depth), indent).value + LaidOut(None, depth, ts, indent))
    decreases elems, 2
  {
    hide LaidOut, Join, Gap, Pad, Wrap;
    var gap := Times(indent, depth + 1);
    if elems != [] {
      ElementsLaid(elems, OpenBracket, depth + 1, indent, [CloseBracket] + ts);
    }
    var parts := PrintElements(elems, gap, indent);
    WrapLaid(OpenBracket, CloseBracket, parts, ElementTokens(elems), prev, depth, indent, ts);
  }

  lemma {:induction false} ElementsLaid(elems: seq<Value>, prev: Token, depth: nat, indent: Text, ts: seq<Token>)
    requires elems != [] && (forall i :: 0 <= i < |elems| ==> IsClean(elems[i])) && depth > 0
    requires Opens(prev) || prev == CommaTok
    ensures var gap := Times(indent, depth);
            LaidOut(Some(prev), depth, ElementTokens(elems) + ts, indent) ==
            Pad(gap, gap)
            + (Join(PrintElements(elems, gap, indent), [COMMA] + Pad(gap, gap)) + LaidOut(None, depth, ts, indent))
    decreases elems, 1
  {
    hide LaidOut, Gap, Pad, Print, TokensOf, Times;
    var v, gap := elems[0], Times(indent, depth);
    CleanIsValue(v);
    PrintsSomething(v, gap, indent);
    FirstToken(v);
    GapsInside(prev, TokensOf(v)[0], depth, indent);
    var text := Print(v, gap, indent).value;
    if |elems| == 1 {
      ValueLaid(v, Some(prev), depth, indent, ts);
      assert PrintElements(elems, gap, indent) == [text];
    } else {
      hide Join;
      var more := ElementTokens(elems[1..]) + ts;
      ValueLaid(v, Some(prev), depth, indent, [CommaTok] + more);
      ElementsLaid(elems[1..], CommaTok, depth, indent, ts);
      Splice(TokensOf(v), ElementTokens(elems[1..]), ts);
      CommaLaid(text, PrintElements(elems[1..], gap, indent), depth, more, indent, ts);
    }
  }

  lemma Splice(a: seq<Token>, b: seq<Token>, c: seq<Token>)
    ensures (a + ([CommaTok] + b)) + c == a + ([CommaTok] + (b + c))
  {
  }

  /** A comma and the parts that follow the first one. */
  lemma CommaLaid(text: Text, parts: seq<Text>, depth: nat, more: seq<Token>, indent: Text, ts: seq<Token>)
    requires var pad := Pad(Times(indent, depth), Times(indent, depth));
             && parts != []
             && LaidOut(Some(CommaTok), depth, more, indent) ==
                pad + (Join(parts, [COMMA] + pad) + LaidOut(None, depth, ts, indent))
    ensures var pad := Pad(Times(indent, depth), Times(indent, depth));
            text + LaidOut(None, depth, [CommaTok] + more, indent) ==
            Join([text] + parts, [COMMA] + pad) + LaidOut(None, depth, ts, indent)
  {
    hide Join, Times, Pad, LaidOut;
    var pad := Pad(Times(indent, depth), Times(indent, depth));
    var rest := LaidOut(None, depth, ts, indent);
    TokenLaid(None, CommaTok, depth, more, indent);
    JoinFirst(text, parts, [COMMA] + pad);
    var later := Join(parts, [COMMA] + pad);
    assert (text + (([COMMA] + pad) + later)) + rest == text + ([COMMA] + (pad + (later + rest)));
  }

  lemma {:induction false} ObjectLaid(members: seq<Member>, prev: Option<Token>, depth: nat, indent: Text,
          ts: seq<Token>)
    requires IsClean(Obj(members))
    ensures LaidOut(prev, depth, TokensOf(Obj(members)) + ts, indent) ==
            Gap(prev, OpenBrace, depth, indent)
            + (Print(Obj(members), Times(indent, depth), indent).value + LaidOut(None, depth, ts, indent))
    decreases members, 2
  {
    hide LaidOut, Join, Gap, Pad, Wrap;
    var gap := Times(indent, depth + 1);
    if members != [] {
      MembersLaid(members, OpenBrace, depth + 1, indent, [CloseBrace] + ts);
    }
    var parts := PrintMembers(members, gap, indent);
    WrapLaid(OpenBrace, CloseBrace, parts, MemberTokens(members), prev, depth, indent, ts);
  }

  lemma {:induction false} MembersLaid(members: seq<Member>, prev: Token, depth: nat, indent: Text, ts: seq<Token>)
    requires members != [] && (forall i :: 0 <= i < |members| ==> IsClean(members[i].val)) && depth > 0
    requires Opens(prev) || prev == CommaTok
    ensures var gap := Times(indent, depth);
            && PrintMembers(members, gap, indent) != []
            && LaidOut(Some(prev), depth, MemberTokens(members) + ts, indent) ==
               Pad(gap, gap)
               + (Join(PrintMembers(members, gap, indent), [COMMA] + Pad(gap, gap)) + LaidOut(None, depth, ts, indent))
    decreases members, 1
  {
    hide LaidOut, Gap, Pad, Print, PrintMember, TokensOf, Times;
    var m, gap := members[0], Times(indent, depth);
    var first := [StrTok(m.key), ColonTok] + TokensOf(m.val);
    if |members| == 1 {
      var text := MemberLaid(m, prev, depth, indent, ts);
      assert PrintMembers(members, gap, indent) == [text];
      assert MemberTokens(members) == first;
    } else {
      hide Join;
      var more := MemberTokens(members[1..]) + ts;
      var text := MemberLaid(m, prev, depth, indent, [CommaTok] + more);
      MembersLaid(members[1..], CommaTok, depth, indent, ts);
      assert MemberTokens(members) == first + ([CommaTok] + MemberTokens(members[1..]));
      Splice(first, MemberTokens(members[1..]), ts);
      CommaLaid(text, PrintMembers(members[1..], gap, indent), depth, more, indent, ts);
    }
  }

  lemma {:induction false} MemberLaid(m: Member, prev: Token, depth: nat, indent: Text, ts: seq<Token>)
      returns (text: Text)
    requires IsClean(m.val) && depth > 0 && (Opens(prev) || prev == CommaTok)
    ensures PrintMember(m, Times(indent, depth), indent) == [text]
    ensures LaidOut(Some(prev), depth, ([StrTok(m.key), ColonTok] + TokensOf(m.val)) + ts, indent) ==
            Pad(Times(indent, depth), Times(indent, depth)) + (text + LaidOut(None, depth, ts, indent))
    decreases m
  {
    hide LaidOut, Pad, Print, TokensOf, Times, Quote, Gap;
    var gap, after := Times(indent, depth), TokensOf(m.val) + ts;
    CleanIsValue(m.val);
    PrintsSomething(m.val, gap, indent);
    FirstToken(m.val);
    GapsInside(prev, StrTok(m.key), depth, indent);
    ValueLaid(m.val, Some(ColonTok), depth, indent, ts);
    var colon := if gap != [] then [COLON, SPACE] else [COLON];
    var v := Print(m.val, gap, indent).value;
    text := Quote(m.key) + colon + v;
    KeyLaid(m.key, prev, depth, indent, after);
    ColonLaid(TokensOf(m.val)[0], depth, indent);
    var rest := LaidOut(None, depth, ts, indent);
    assert (Quote(m.key) + colon + v) + rest == Quote(m.key) + (colon + (v + rest));
    assert colon + (v + rest) == [COLON] + (Gap(Some(ColonTok), TokensOf(m.val)[0], depth, indent) + (v + rest));
    assert ([StrTok(m.key), ColonTok] + TokensOf(m.val)) + ts == [StrTok(m.key)] + ([ColonTok] + after);
  }

  lemma ColonLaid(next: Token, depth: nat, indent: Text)
    requires depth > 0 && !Closes(next)
    ensures Gap(Some(ColonTok), next, depth, indent) == if Times(indent, depth) != [] then [SPACE] else []
  {
    TimesEmpty(indent, depth);
  }

  lemma KeyLaid(key: Text, prev: Token, depth: nat, indent: Text, after: seq<Token>)
    ensures LaidOut(Some(prev), depth, [StrTok(key)] + ([ColonTok] + after), indent) ==
            Gap(Some(prev), StrTok(key), depth, indent)
            + (Quote(key) + ([COLON] + LaidOut(Some(ColonTok), depth, after, indent)))
  {
    hide LaidOut, Quote, Times;
    TokenLaid(Some(prev), StrTok(key), depth, [ColonTok] + after, indent);
    TokenLaid(Some(StrTok(key)), ColonTok, depth, after, indent);
    QuoteMeans(key);
  }

  // ----- Printing drops exactly what JSON cannot express.

  lemma PrintsSomething(v: Value, gap: Text, indent: Text)
    requires IsValue(v) && !v.Undefined?
    ensures Truthy(Print(v, gap, indent))
  {
  }

  lemma MembersPrintSomething(members: seq<Member>, gap: Text, indent: Text)
    requires members != [] && IsValue(members[0].val) && !members[0].val.Undefined?
    ensures PrintMembers(members, gap, indent) != []
  {
    PrintsSomething(members[0].val, gap, indent);
  }

  lemma {:induction false} CleanIsValue(v: Value)
    requires IsClean(v)
    ensures IsValue(v)
    decreases v
  {
    match v {
      case Arr(elems) =>
        forall i | 0 <= i < |elems| ensures IsValue(elems[i]) { CleanIsValue(elems[i]); }
      case Obj(members) =>
        forall i | 0 <= i < |members| ensures IsValue(members[i].val) { CleanIsValue(members[i].val); }
      case _ =>
    }
  }

  lemma {:induction false} CleanElementAt(elems: seq<Value>, i: nat)
    requires i < |elems|
    ensures CleanElements(elems)[i] == Clean(elems[i])
  {
    if i > 0 {
      CleanElementAt(elems[1..], i - 1);
    }
  }

  /** Every member that is left was there, under the same key, in the same order. */
  lemma {:induction false} CleanMembersKept(members: seq<Member>)
    requires DistinctKeys(members)
    ensures DistinctKeys(CleanMembers(members))
    ensures forall j :: 0 <= j < |CleanMembers(members)| ==>
              exists i :: 0 <= i < |members| && !members[i].val.Undefined?
                       && CleanMembers(members)[j] == Member(members[i].key, Clean(members[i].val))
    decreases members
  {
    if members != [] {
      var tail := members[1..];
      CleanMembersKept(tail);
      var r := CleanMembers(members);
      var head := if members[0].val.Undefined? then [] else [Member(members[0].key, Clean(members[0].val))];
      forall j | |head| <= j < |r|
        ensures exists i :: 1 <= i < |members| && !members[i].val.Undefined?
                         && r[j] == Member(members[i].key, Clean(members[i].val))
      {
        var i :| 0 <= i < |tail| && !tail[i].val.Undefined?
              && CleanMembers(tail)[j - |head|] == Member(tail[i].key, Clean(tail[i].val));
        assert members[i + 1] == tail[i];
      }
    }
  }

  lemma {:induction false} CleanIsClean(v: Value)
    requires IsValue(v)
    ensures IsClean(Clean(v))
    decreases v
  {
    match v {
      case Arr(elems) =>
        forall i | 0 <= i < |elems|
          ensures IsClean(CleanElements(elems)[i])
        {
          CleanIsClean(elems[i]);
          CleanElementAt(elems, i);
        }
      case Obj(members) =>
        CleanMembersKept(members);
        forall i | 0 <= i < |members|
          ensures IsClean(Clean(members[i].val))
        {
          CleanIsClean(members[i].val);
        }
      case _ =>
    }
  }

  lemma {:induction false} PrintIsPrintClean(v: Value, gap: Text, indent: Text)
    requires IsValue(v) && !v.Undefined?
    ensures Print(v, gap, indent) == Print(Clean(v), gap, indent)
    decreases v, 0
  {
    match v {
      case Arr(elems) => PrintElementsClean(elems, gap + indent, indent);
      case Obj(members) => PrintMembersClean(members, gap + indent, indent);
      case _ =>
    }
  }

  lemma {:induction false} PrintElementsClean(elems: seq<Value>, gap: Text, indent: Text)
    requires forall i :: 0 <= i < |elems| ==> IsValue(elems[i])
    ensures PrintElements(elems, gap, indent) == PrintElements(CleanElements(elems), gap, indent)
    decreases elems, 1
  {
    if elems != [] {
      PrintElementsClean(elems[1..], gap, indent);
      if !elems[0].Undefined? {
        PrintIsPrintClean(elems[0], gap, indent);
      }
      assert CleanElements(elems)[1..] == CleanElements(elems[1..]);
    }
  }

  lemma {:induction false} PrintMembersClean(members: seq<Member>, gap: Text, indent: Text)
    requires forall i :: 0 <= i < |members| ==> IsValue(members[i].val)
    ensures PrintMembers(members, gap, indent) == PrintMembers(CleanMembers(members), gap, indent)
    decreases members, 1
  {
    if members != [] {
      PrintMembersClean(members[1..], gap, indent);
      var m := members[0];
      if m.val.Undefined? {
        assert PrintMember(m, gap, indent) == [];
        assert [] + PrintMembers(members[1..], gap, indent) == PrintMembers(members[1..], gap, indent);
        assert CleanMembers(members) == CleanMembers(members[1..]);
      } else {
        PrintIsPrintClean(m.val, gap, indent);
        var kept := Member(m.key, Clean(m.val));
        assert PrintMember(m, gap, indent) == PrintMember(kept, gap, indent);
        assert CleanMembers(members) == [kept] + CleanMembers(members[1..]);
        assert CleanMembers(members)[1..] == CleanMembers(members[1..]);
      }
    }
  }

  /** A value that JSON can express comes back unchanged. */
  lemma {:induction false} CleanStays(v: Value)
    requires IsClean(v)
    ensures Clean(v) == v
    decreases v, 0
  {
    match v {
      case Arr(elems) =>
        forall i | 0 <= i < |elems|
          ensures CleanElements(elems)[i] == elems[i]
        {
          CleanStays(elems[i]);
          CleanElementAt(elems, i);
        }
      case Obj(members) => CleanMembersStay(members);
      case _ =>
    }
  }

  lemma {:induction false} CleanMembersStay(members: seq<Member>)
    requires forall i :: 0 <= i < |members| ==> IsClean(members[i].val)
    ensures CleanMembers(members) == members
    decreases members, 1
  {
    if members != [] {
      CleanStays(members[0].val);
      CleanMembersStay(members[1..]);
    }
  }

  /** What JSON keeps of a value: nothing of what it cannot express but a null in its place, or no member. */
  lemma {:induction false} CleanMeans(v: Value)
    ensures v.Undefined? || v.NonFinite? ==> Clean(v) == Null
    ensures v.Null? || v.Bool? || v.Num? || v.Str? ==> Clean(v) == v
    ensures v.Arr? ==>
              && Clean(v).Arr? && |Clean(v).elems| == |v.elems|
              && forall i :: 0 <= i < |v.elems| ==> Clean(v).elems[i] == Clean(v.elems[i])
    ensures v.Obj? && v.members == [] ==> Clean(v) == v
    ensures forall before, m, after :: v == Obj(before + [m] + after) ==>
              Clean(v) == Obj(Clean(Obj(before)).members
                              + (if m.val == Undefined then [] else [Member(m.key, Clean(m.val))])
                              + Clean(Obj(after)).members)
  {
    if v.Arr? {
      forall i | 0 <= i < |v.elems|
        ensures CleanElements(v.elems)[i] == Clean(v.elems[i])
      {
        CleanElementAt(v.elems, i);
      }
    }
    forall before, m, after | v == Obj(before + [m] + after)
      ensures CleanMembers(before + [m] + after) ==
              CleanMembers(before)
              + (if m.val == Undefined then [] else [Member(m.key, Clean(m.val))])
              + CleanMembers(after)
    {
      CleanMembersSplit(before, m, after);
    }
  }

  lemma {:induction false} CleanMembersSplit(before: seq<Member>, m: Member, after: seq<Member>)
    ensures CleanMembers(before + [m] + after) ==
            CleanMembers(before)
            + (if m.val == Undefined then [] else [Member(m.key, Clean(m.val))])
            + CleanMembers(after)
  {
    hide Clean;
    if before == [] {
      assert before + [m] + after == [m] + after && ([m] + after)[1..] == after;
    } else {
      CleanMembersSplit(before[1..], m, after);
      assert before + [m] + after == [before[0]] + (before[1..] + [m] + after);
      assert ([before[0]] + (before[1..] + [m] + after))[1..] == before[1..] + [m] + after;
      var head := if before[0].val.Undefined? then [] else [Member(before[0].key, Clean(before[0].val))];
      var kept := if m.val == Undefined then [] else [Member(m.key, Clean(m.val))];
      InFront(head, CleanMembers(before[1..]), kept, CleanMembers(after));
    }
  }

  lemma InFront(head: seq<Member>, a: seq<Member>, b: seq<Member>, c: seq<Member>)
    ensures head + (a + b + c) == (head + a) + b + c
  {
  }

  /** What is printed where `depth` brackets are open: the tokens of the value that JSON keeps, laid out. */
  lemma PrintMeans(v: Value, depth: nat, indent: Text)
    requires IsValue(v) && !v.Undefined?
    ensures Print(v, Times(indent, depth), indent) == Some(LaidOut(None, depth, TokensOf(Clean(v)), indent))
  {
    hide Print, Gap, Clean, TokensOf, IsValue;
    var w, gap := Clean(v), Times(indent, depth);
    CleanIsClean(v);
    PrintIsPrintClean(v, gap, indent);
    FirstToken(w);
    ValueLaid(w, None, depth, indent, []);
    NoGapBeforeValue(TokensOf(w)[0], depth, indent);
    assert TokensOf(w) + [] == TokensOf(w);
    var text := Print(w, gap, indent).value;
    assert [] + (text + []) == text;
  }

  lemma NoGapBeforeValue(t: Token, depth: nat, indent: Text)
    requires !Closes(t)
    ensures Gap(None, t, depth, indent) == []
  {
  }
}
