/** The two parsers against each other: on a text that falls into tokens both follow the grammar,
    and on any other text the state machine rejects. */
module LexerFacts {
  import opened Options
  import opened Texts
  import opened JsonValues
  import opened TokenLexer
  import D = DescentSpec

  lemma TokenStart(s: Text)
    requires LexToken(s).Some?
    ensures s[0] > SPACE && !IsExponentMark(s[0])
  {
  }

  lemma SkipTwice(s: Text)
    ensures SkipJsonSpace(SkipJsonSpace(s)) == SkipJsonSpace(s)
  {
  }

  /** Where tokens follow, both parsers skip the same white space. */
  lemma {:induction false} WhiteIsSkip(s: Text)
    requires SkipJsonSpace(s) == [] || SkipJsonSpace(s)[0] > SPACE
    ensures D.White(s) == SkipJsonSpace(s)
  {
    if s != [] && IsJsonSpace(s[0]) {
      WhiteIsSkip(s[1..]);
    }
  }

  lemma TokenizeSkips(s: Text)
    requires Tokenize(s).Some?
    ensures D.White(s) == SkipJsonSpace(s)
    ensures Tokenize(SkipJsonSpace(s)) == Tokenize(s)
  {
    var w := SkipJsonSpace(s);
    SkipTwice(s);
    assert Exec(w) == Exec(s);
    if w != [] {
      TokenStart(w);
    }
    WhiteIsSkip(s);
  }

  /** A text that falls into tokens: it is blank, or one token and more such text. */
  lemma NextToken(s: Text) returns (w: Text)
    requires Tokenize(s).Some?
    ensures w == D.White(s)
    ensures w == [] <==> Tokenize(s).value == []
    ensures w != [] ==> LexToken(w).Some?
    ensures w != [] ==> Tokenize(LexToken(w).value.1).Some?
    ensures w != [] ==> Tokenize(s).value == [LexToken(w).value.0] + Tokenize(LexToken(w).value.1).value
  {
    TokenizeSkips(s);
    w := SkipJsonSpace(s);
  }

  lemma HexTwoSteps(s: Text, i: nat, uffff: nat)
    requires i < 3
    requires |s| >= 3 && IsHexDigit(s[1]) && IsHexDigit(s[2])
    ensures D.HexRun(s, i, uffff) == D.HexRun(s[2..], i + 2, uffff * 256 + HexDigit(s[1]) * 16 + HexDigit(s[2]))
  {
    D.HexStep(s, i, uffff);
    D.HexStep(s[1..], i + 1, uffff * 16 + HexDigit(s[1]));
    assert s[1..][1..] == s[2..];
  }

  lemma HexRunQuad(s: Text)
    requires s != [] && HexQuad(s[1..])
    ensures D.HexRun(s, 0, 0) == (HexQuadValue(s[1..]), s[4..])
  {
    HexTwoSteps(s, 0, 0);
    var t := s[2..];
    HexTwoSteps(t, 2, HexDigit(s[1]) * 16 + HexDigit(s[2]));
    assert t[2..] == s[4..];
  }

  lemma Shift(a: Text, c: Unit, b: Text)
    ensures (a + [c]) + b == a + ([c] + b)
  {
  }

  /** Scanning a string and replacing its escapes in one pass or in two gives the same text. */
  lemma {:induction false} StringsAgree(s: Text, sofar: Text)
    requires RawString(s).Some?
    ensures D.StringBody(s, sofar) == Some((sofar + Debackslashify(RawString(s).value.0), RawString(s).value.1))
    decreases |s|
  {
    var (raw, rest) := RawString(s).value;
    if s[0] == QUOTE {
      assert sofar + [] == sofar;
    } else if s[0] != BACKSLASH {
      StringsAgree(s[1..], sofar + [s[0]]);
      Shift(sofar, s[0], Debackslashify(raw[1..]));
      assert raw == [s[0]] + RawString(s[1..]).value.0;
      assert raw[1..] == RawString(s[1..]).value.0;
    } else if Escapee(s[1]).Some? {
      var c := Escapee(s[1]).value;
      StringsAgree(s[2..], sofar + [c]);
      assert s[1..][1..] == s[2..];
      Shift(sofar, c, Debackslashify(raw[2..]));
      assert raw == [s[0], s[1]] + RawString(s[2..]).value.0;
      assert raw[2..] == RawString(s[2..]).value.0;
      assert Debackslashify(raw) == [c] + Debackslashify(raw[2..]);
    } else {
      StringsAgreeOnQuad(s, sofar);
    }
  }

  lemma {:induction false} StringsAgreeOnQuad(s: Text, sofar: Text)
    requires RawString(s).Some? && s[0] == BACKSLASH && s[1] == LOWER_U
    ensures D.StringBody(s, sofar) == Some((sofar + Debackslashify(RawString(s).value.0), RawString(s).value.1))
    decreases |s|, 0
  {
    var raw := RawString(s).value.0;
    var c := HexQuadValue(s[2..]);
    StringsAgree(s[6..], sofar + [c]);
    assert s[1..][1..] == s[2..];
    HexRunQuad(s[1..]);
    assert s[1..][4..] == s[5..] && s[5..][1..] == s[6..];
    assert D.StringBody(s, sofar) == D.StringBody(s[6..], sofar + [c]);
    assert raw == s[..6] + RawString(s[6..]).value.0;
    assert raw[6..] == RawString(s[6..]).value.0 && raw[2..] == s[2..6] + RawString(s[6..]).value.0;
    assert HexQuadValue(raw[2..]) == c;
    assert Debackslashify(raw) == [c] + Debackslashify(raw[6..]);
    Shift(sofar, c, Debackslashify(raw[6..]));
  }

  lemma {:induction false} DigitsOf(d: Text, x: Text)
    requires forall c :: c in d ==> IsDigit(c)
    requires x == [] || !IsDigit(x[0])
    ensures Digits(d + x) == (d, x)
  {
    if d == [] {
      assert d + x == x;
    } else {
      assert d[0] in d && (d + x)[1..] == d[1..] + x;
      DigitsOf(d[1..], x);
      assert [d[0]] + d[1..] == d;
    }
  }

  lemma ExponentAlone(s: Text)
    ensures LexExponent(LexExponent(s).0) == (LexExponent(s).0, [])
  {
    var (exponent, rest) := LexExponent(s);
    if exponent != [] {
      var (sign, afterSign) := ExponentSign(s[1..]);
      var (d, _) := Digits(afterSign);
      assert exponent == [s[0]] + sign + d;
      assert exponent[1..] == sign + d;
      assert d[0] in d;
      if sign == [] {
        assert sign + d == d;
      } else {
        assert (sign + d)[1..] == d;
      }
      DigitsOf(d, []);
      assert d + [] == d;
    }
  }

  lemma FractionAlone(s: Text, x: Text)
    requires x == [] || (!IsDigit(x[0]) && x[0] != DOT)
    ensures LexFraction(LexFraction(s).0 + x) == (LexFraction(s).0, x)
  {
    var (fraction, _) := LexFraction(s);
    if fraction == [] {
      assert fraction + x == x;
    } else {
      assert (fraction + x)[1..] == fraction[1..] + x;
      DigitsOf(fraction[1..], x);
    }
  }

  /** A sign and digits are read back from in front of anything that is no digit. */
  lemma SignedAlone(sign: Text, whole: Text, x: Text)
    requires sign == [] || sign == [MINUS]
    requires whole != [] && forall c :: c in whole ==> IsDigit(c)
    requires x == [] || !IsDigit(x[0])
    ensures LexSign(sign + (whole + x)) == (sign, whole + x) && Digits(whole + x) == (whole, x)
  {
    DigitsOf(whole, x);
    assert whole[0] in whole && (whole + x)[0] == whole[0];
    if sign == [] {
      assert sign + (whole + x) == whole + x;
    }
  }

  /** The parts of a number token are the parts of its text alone. */
  lemma NumberParts(s: Text)
      returns (text: Text, sign: Text, s1: Text, whole: Text, s2: Text, fraction: Text, exponent: Text)
    requires LexNumber(s).Some?
    ensures text == LexNumber(s).value.0 == NumberChars(sign, whole, fraction, exponent)
    ensures s1 == whole + s2 && s2 == fraction + exponent
    ensures LexSign(text) == (sign, s1) && Digits(s1) == (whole, s2) && whole != []
    ensures LexFraction(s2) == (fraction, exponent) && LexExponent(exponent) == (exponent, [])
  {
    sign, whole := LexSign(s).0, Digits(LexSign(s).1).0;
    var afterWhole := Digits(LexSign(s).1).1;
    fraction, exponent := LexFraction(afterWhole).0, LexExponent(LexFraction(afterWhole).1).0;
    FractionAlone(afterWhole, exponent);
    ExponentAlone(LexFraction(afterWhole).1);
    s2 := fraction + exponent;
    s1 := whole + s2;
    SignedAlone(sign, whole, s2);
    text := sign + s1;
    NumberCharsNested(sign, whole, fraction, exponent);
  }

  /** What the token expression takes for a number does denote one. */
  lemma LexedIsNumeric(s: Text)
    requires LexNumber(s).Some?
    ensures D.IsNumeric(LexNumber(s).value.0)
  {
    var text, sign, s1, whole, s2, fraction, exponent := NumberParts(s);
  }

  /** Where more tokens follow, both parsers take the same number. */
  lemma NumbersAgree(s: Text)
    requires LexNumber(s).Some? && Tokenize(LexNumber(s).value.1).Some?
    ensures D.Number(s) == Some((Num(LexNumber(s).value.0), LexNumber(s).value.1))
  {
    var rest := LexNumber(s).value.1;
    var s3 := LexFraction(Digits(LexSign(s).1).1).1;
    var w := NextToken(rest);
    assert D.LooseExponent(s3) == LexExponent(s3) by {
      if rest == s3 && s3 != [] && IsExponentMark(s3[0]) {
        assert w == rest;
        TokenStart(w);
      }
    }
    assert D.NumberText(s) == LexNumber(s).value;
    LexedIsNumeric(s);
  }
}
