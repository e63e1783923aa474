/** Parsing what `JSON.stringify` prints gives the value back. */
module QuoteFacts {
  import opened Options
  import opened Texts
  import opened JsonValues
  import opened JsonTexts
  import opened PrintedTexts
  import opened TokenLexer
  import P = PrinterSpec
  import PrinterMeaning
  import TokenMeaning

  lemma HexSpelled(d: int)
    requires 0 <= d < 16
    ensures IsHex(LowerHex(d), d)
  {
  }

  lemma Recompose(c: Unit)
    ensures c == c / 0x1000 * 0x1000 + c / 0x100 % 0x10 * 0x100 + c / 0x10 % 0x10 * 0x10 + c % 0x10
  {
    var a := c / 0x10;
    var b := a / 0x10;
    assert b == c / 0x100 && b / 0x10 == c / 0x1000;
    assert c == 0x10 * a + c % 0x10 && a == 0x10 * b + a % 0x10 && b == 0x10 * (b / 0x10) + b % 0x10;
  }

  /** What is printed for a code unit is one of the ways to write it. */
  lemma PrintedSpells(c: Unit)
    ensures IsSpelling(c, Printed(c)) && NoRawBreaks(Printed(c))
  {
    if |Printed(c)| == 6 {
      EscapeSpelled(c, Printed(c));
    }
  }

  lemma EscapeSpelled(c: Unit, s: Text)
    requires s == [0x5C, 0x75, LowerHex(c / 0x1000), LowerHex(c / 0x100 % 0x10), LowerHex(c / 0x10 % 0x10),
                   LowerHex(c % 0x10)]
    ensures IsUnicodeEscape(s, c) && NoRawBreaks(s)
  {
    hide LowerHex;
    HexSpelled(c / 0x1000);
    HexSpelled(c / 0x100 % 0x10);
    HexSpelled(c / 0x10 % 0x10);
    HexSpelled(c % 0x10);
    Recompose(c);
    assert IsHex(s[2], c / 0x1000) && IsHex(s[3], c / 0x100 % 0x10);
    assert IsHex(s[4], c / 0x10 % 0x10) && IsHex(s[5], c % 0x10);
  }

  lemma {:induction false} PrintedAllSpells(s: Text)
    ensures SpellsUnits(s, PrintedAll(s)) && NoRawBreaks(PrintedAll(s))
  {
    if s != [] {
      hide Printed, IsSpelling;
      var first, later := Printed(s[0]), PrintedAll(s[1..]);
      PrintedSpells(s[0]);
      PrintedAllSpells(s[1..]);
      SpellingLength(s[0], first);
      assert (first + later)[..|first|] == first && (first + later)[|first|..] == later;
    }
  }

  lemma SpellingLength(c: Unit, s: Text)
    requires IsSpelling(c, s)
    ensures s != []
  {
  }

  /** Every token of a value is printed as a text of that token. */
  lemma PrintedIsToken(t: Token)
    requires t.NumTok? ==> IsNumber(t.lexeme)
    ensures IsToken(t, PrintedToken(t))
  {
    if t.StrTok? {
      var s := PrintedToken(t);
      PrintedAllSpells(t.text);
      assert s[1..|s| - 1] == PrintedAll(t.text);
    }
  }

  /** For every sequence of UTF-16 code units the string token reader undoes `quote`. */
  lemma QuoteRoundTrip(s: Text, rest: Text)
    ensures LexToken(P.Quote(s) + rest) == Some((StrTok(s), rest))
  {
    PrinterMeaning.QuoteMeans(s);
    PrintedIsToken(StrTok(s));
    TokenMeaning.TokenRead(StrTok(s), PrintedToken(StrTok(s)), rest);
  }
}
