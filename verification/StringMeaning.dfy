/** The string tokens of the code are the strings of RFC 8259. */
module StringMeaning {
  import opened Options
  import opened Texts
  import opened TokenLexer
  import opened JsonTexts
  import D = DescentSpec
  import LexerFacts

  lemma HexIs(c: Unit)
    ensures forall d :: IsHex(c, d) <==> IsHexDigit(c) && d == HexDigit(c)
  {
  }

  lemma QuadIs(s: Text, c: Unit)
    requires |s| == 6
    ensures IsUnicodeEscape(s, c) <==> s[0] == 0x5C && s[1] == 0x75 && HexQuad(s[2..]) && c == HexQuadValue(s[2..])
  {
    hide IsHex, HexDigit, IsHexDigit;
    HexIs(s[2]);
    HexIs(s[3]);
    HexIs(s[4]);
    HexIs(s[5]);
    if HexQuad(s[2..]) {
      assert IsHex(s[2], HexDigit(s[2])) && IsHex(s[3], HexDigit(s[3]));
      assert IsHex(s[4], HexDigit(s[4])) && IsHex(s[5], HexDigit(s[5]));
    }
  }

  lemma EscapeeIs(letter: Unit, c: Unit)
    ensures IsShortEscape(letter, c) <==> Escapee(letter) == Some(c)
  {
  }

  /** A spelling in front of a text, with the first character and what the readers look at next. */
  lemma SpellingShape(c: Unit, piece: Text, s: Text)
    requires IsSpelling(c, piece)
    ensures piece != [] && (piece + s)[0] == piece[0] && (piece + s)[|piece|..] == s
    ensures piece[0] != QUOTE
    ensures piece[0] != BACKSLASH <==> piece == [c] && c != QUOTE && c != BACKSLASH
    ensures piece[0] == BACKSLASH && |piece| == 2 ==> (piece + s)[1] == piece[1] && Escapee(piece[1]) == Some(c)
    ensures piece[0] == BACKSLASH && |piece| != 2 ==>
              && |piece| == 6 && (piece + s)[1] == LOWER_U && (piece + s)[..6] == piece && HexQuad((piece + s)[2..])
              && HexQuadValue((piece + s)[2..]) == c
  {
    if piece[0] == BACKSLASH && |piece| == 2 {
      EscapeeIs(piece[1], c);
    } else if piece[0] == BACKSLASH {
      QuadIs(piece, c);
      assert (piece + s)[2..] == piece[2..] + s;
    }
  }

  /** One spelling in front of what the token expression takes. */
  lemma RawTakes(c: Unit, piece: Text, later: Text)
    requires IsSpelling(c, piece) && NoRawBreaks(piece) && RawString(later).Some?
    ensures RawString(piece + later) == Some((piece + RawString(later).value.0, RawString(later).value.1))
  {
    SpellingShape(c, piece, later);
    var s := piece + later;
    assert s[0] == piece[0];
    if |piece| == 1 {
      assert s[1..] == later;
    } else if |piece| == 2 {
      assert s[2..] == later && [s[0], s[1]] == piece;
    }
  }

  lemma EscapeTaken(c: Unit, piece: Text, tail: Text)
    requires IsSpelling(c, piece) && WellEscaped(tail)
    ensures WellEscaped(piece + tail) && Debackslashify(piece + tail) == [c] + Debackslashify(tail)
  {
    SpellingShape(c, piece, tail);
    var s := piece + tail;
    assert s[0] == piece[0];
    if |piece| == 1 {
      assert s[1..] == tail;
    } else if |piece| == 2 {
      assert s[2..] == tail;
    }
  }

  /** Every spelling of every sequence of units is read as those units: the token expression, which
      does not admit raw breaks, and the replacement of the escapes. */
  lemma {:induction false} UnitsAreRaw(units: Text, body: Text, rest: Text)
    requires SpellsUnits(units, body) && NoRawBreaks(body)
    ensures RawString(body + ([QUOTE] + rest)) == Some((body, rest))
    ensures WellEscaped(body) && Debackslashify(body) == units
    decreases |units|
  {
    hide IsSpelling, WellEscaped, Debackslashify;
    var closing := [QUOTE] + rest;
    if units == [] {
      EmptyBody(body, rest);
    } else {
      hide RawString;
      var n :| 1 <= n <= |body| && IsSpelling(units[0], body[..n]) && SpellsUnits(units[1..], body[n..]);
      var piece, later := body[..n], body[n..];
      UnitsAreRaw(units[1..], later, rest);
      assert body == piece + later;
      assert body + closing == piece + (later + closing);
      RawTakes(units[0], piece, later + closing);
      EscapeTaken(units[0], piece, later);
      assert [units[0]] + units[1..] == units;
    }
  }

  lemma EmptyBody(body: Text, rest: Text)
    requires body == []
    ensures RawString(body + ([QUOTE] + rest)) == Some((body, rest))
    ensures WellEscaped(body) && Debackslashify(body) == []
    ensures forall sofar :: D.StringBody(body + ([QUOTE] + rest), sofar) == Some((sofar, rest))
  {
    var closing := [QUOTE] + rest;
    assert body + closing == closing && closing[1..] == rest;
  }

  /** The first spelling of what the token expression takes, and the rest of it. */
  lemma RawSplits(s: Text) returns (n: nat)
    requires RawString(s).Some? && s[0] != QUOTE
    ensures 1 <= n <= |s| && RawString(s[n..]).Some? && |s[n..]| < |s|
    ensures RawString(s).value == (s[..n] + RawString(s[n..]).value.0, RawString(s[n..]).value.1)
    ensures NoRawBreaks(s[..n]) && exists c :: IsSpelling(c, s[..n])
  {
    if s[0] != BACKSLASH {
      n := 1;
      assert IsSpelling(s[0], s[..1]);
    } else if Escapee(s[1]).Some? {
      n := 2;
      EscapeeIs(s[1], Escapee(s[1]).value);
      assert s[..2] == [s[0], s[1]];
      assert IsSpelling(Escapee(s[1]).value, s[..2]);
    } else {
      n := 6;
      assert s[2..][..4] == s[..6][2..];
      QuadIs(s[..6], HexQuadValue(s[2..]));
      assert IsSpelling(HexQuadValue(s[2..]), s[..6]);
    }
  }

  lemma SpellsFirst(c: Unit, piece: Text, units: Text, body: Text)
    requires IsSpelling(c, piece) && piece != [] && SpellsUnits(units, body) && NoRawBreaks(piece) && NoRawBreaks(body)
    ensures SpellsUnits([c] + units, piece + body) && NoRawBreaks(piece + body)
  {
    hide IsSpelling;
    var all, n := piece + body, |piece|;
    assert all[..n] == piece && all[n..] == body && ([c] + units)[1..] == units;
  }

  /** What the token expression takes is a spelling of the units that replacing the escapes gives. */
  lemma {:induction false} RawSpells(s: Text)
    requires RawString(s).Some?
    ensures var (raw, rest) := RawString(s).value;
            s == raw + ([QUOTE] + rest) && NoRawBreaks(raw) && SpellsUnits(Debackslashify(raw), raw)
    decreases |s|
  {
    hide IsSpelling, WellEscaped, Debackslashify;
    if s[0] == QUOTE {
      EmptyBody([], s[1..]);
      assert s == [] + ([QUOTE] + s[1..]);
    } else {
      var n := RawSplits(s);
      hide RawString, SpellsUnits, NoRawBreaks;
      RawSpells(s[n..]);
      var (later, rest) := RawString(s[n..]).value;
      var c :| IsSpelling(c, s[..n]);
      EscapeTaken(c, s[..n], later);
      SpellsFirst(c, s[..n], Debackslashify(later), later);
      assert s == s[..n] + s[n..];
      Associate(s[..n], later, [QUOTE] + rest);
    }
  }

  lemma Associate(a: Text, b: Text, c: Text)
    ensures (a + b) + c == a + (b + c)
  {
  }

  /** json_parse.js reads every spelling as well, raw breaks included. */
  lemma {:induction false} UnitsAreBody(units: Text, body: Text, rest: Text, sofar: Text)
    requires SpellsUnits(units, body)
    ensures D.StringBody(body + ([QUOTE] + rest), sofar) == Some((sofar + units, rest))
    decreases |units|
  {
    hide IsSpelling, D.StringBody;
    if units == [] {
      EmptyBody(body, rest);
      assert sofar + units == sofar;
    } else {
      var n :| 1 <= n <= |body| && IsSpelling(units[0], body[..n]) && SpellsUnits(units[1..], body[n..]);
      var piece, later := body[..n], body[n..] + ([QUOTE] + rest);
      UnitsAreBody(units[1..], body[n..], rest, sofar + [units[0]]);
      assert body + ([QUOTE] + rest) == piece + later;
      assert (sofar + [units[0]]) + units[1..] == sofar + units;
      BodyTakes(units[0], piece, later, sofar);
    }
  }

  lemma StringBodyRead(s: Text, units: Text, rest: Text)
    requires StartsWithString(s, units, rest)
    ensures D.String(s) == Some((units, rest))
  {
    var body :| SpellsUnits(units, body) && s == [QUOTE] + (body + ([QUOTE] + rest));
    UnitsAreBody(units, body, rest, []);
    assert s[1..] == body + ([QUOTE] + rest) && [] + units == units;
  }

  lemma BodyTakes(c: Unit, piece: Text, later: Text, sofar: Text)
    requires IsSpelling(c, piece)
    ensures D.StringBody(piece + later, sofar) == D.StringBody(later, sofar + [c])
  {
    hide IsSpelling, D.HexRun, HexQuad, HexQuadValue;
    var s := piece + later;
    SpellingShape(c, piece, later);
    if piece[0] == BACKSLASH {
      assert s[1..][1..] == s[2..];
      if |piece| != 2 {
        LexerFacts.HexRunQuad(s[1..]);
        assert s[1..][4..][1..] == s[6..];
      }
    }
  }
}
