/** The number tokens of the code are the numbers of RFC 8259, with the two liberties of the token expression. */
module NumberMeaning {
  import opened Options
  import opened Texts
  import opened TokenLexer
  import opened JsonTexts
  import opened LexerFacts

  /** No number goes on with what follows. */
  predicate NumberStops(rest: Text) {
    rest == [] || (!IsDigit(rest[0]) && rest[0] != DOT && !IsExponentMark(rest[0]))
  }

  lemma DigitsAreDigits(s: Text)
    ensures AllDigits(Digits(s).0)
  {
    forall i | 0 <= i < |Digits(s).0|
      ensures 0x30 <= Digits(s).0[i] <= 0x39
    {
      assert Digits(s).0[i] in Digits(s).0;
    }
  }

  lemma FractionIs(s: Text)
    ensures IsFraction(LexFraction(s).0)
  {
    if s != [] && s[0] == DOT {
      DigitsAreDigits(s[1..]);
      assert LexFraction(s).0[1..] == Digits(s[1..]).0;
    }
  }

  lemma ExponentIs(s: Text)
    ensures IsExponent(LexExponent(s).0)
  {
    var e := LexExponent(s).0;
    if e != [] {
      var (sign, afterSign) := ExponentSign(s[1..]);
      var d := Digits(afterSign).0;
      DigitsAreDigits(afterSign);
      assert e == [s[0]] + sign + d;
      assert e[1 + |sign|..] == d;
    }
  }

  lemma FourParts(a: Text, b: Text, c: Text, d: Text, x: Text)
    ensures (a + (b + (c + d))) + x == a + (b + (c + (d + x)))
  {
  }

  /** What the token expression takes as a number is one, and no digit follows it. */
  lemma NumberTaken(s: Text)
    requires LexNumber(s).Some?
    ensures var (lexeme, rest) := LexNumber(s).value;
            s == lexeme + rest && IsNumber(lexeme) && (rest == [] || !IsDigit(rest[0]))
  {
    hide Digits, LexFraction, LexExponent, IsFraction, IsExponent, AllDigits;
    var (sign, s1) := LexSign(s);
    var (whole, s2) := Digits(s1);
    var (fraction, s3) := LexFraction(s2);
    var (exponent, s4) := LexExponent(s3);
    DigitsAreDigits(s1);
    FractionIs(s2);
    ExponentIs(s3);
    NumberCharsNested(sign, whole, fraction, exponent);
    assert IsNumberOf(NumberChars(sign, whole, fraction, exponent), sign, whole, fraction, exponent);
    FourParts(sign, whole, fraction, exponent, s4);
    NoDigitAfter(s2);
  }

  lemma NoDigitAfter(s2: Text)
    requires s2 == [] || !IsDigit(s2[0])
    ensures var s4 := LexExponent(LexFraction(s2).1).1; s4 == [] || !IsDigit(s4[0])
  {
  }

  lemma AllDigitsIn(d: Text)
    requires AllDigits(d)
    ensures forall c :: c in d ==> IsDigit(c)
  {
  }

  lemma FractionRead(fraction: Text, x: Text)
    requires IsFraction(fraction) && (x == [] || (!IsDigit(x[0]) && x[0] != DOT))
    ensures LexFraction(fraction + x) == (fraction, x)
  {
    if fraction == [] {
      assert fraction + x == x;
    } else {
      AllDigitsIn(fraction[1..]);
      DigitsOf(fraction[1..], x);
      assert (fraction + x)[1..] == fraction[1..] + x;
      assert [DOT] + fraction[1..] == fraction;
    }
  }

  lemma SignedDigitsRead(sign: Text, d: Text, x: Text)
    requires sign == [] || sign == [PLUS] || sign == [MINUS]
    requires d != [] && AllDigits(d) && (x == [] || !IsDigit(x[0]))
    ensures ExponentSign(sign + (d + x)) == (sign, d + x) && Digits(d + x) == (d, x)
  {
    AllDigitsIn(d);
    DigitsOf(d, x);
    assert d[0] in d && (d + x)[0] == d[0];
    if sign == [] {
      assert sign + (d + x) == d + x;
    } else {
      assert (sign + (d + x))[1..] == d + x;
    }
  }

  lemma ExponentTaken(s: Text, sign: Text, d: Text, rest: Text)
    requires s != [] && IsExponentMark(s[0]) && d != []
    requires ExponentSign(s[1..]) == (sign, d + rest) && Digits(d + rest) == (d, rest)
    ensures LexExponent(s) == ([s[0]] + sign + d, rest)
  {
    hide Digits, ExponentSign;
  }

  lemma CutAfterMark(e: Text, k: nat, x: Text)
    requires 1 <= k <= |e|
    ensures e == [e[0]] + e[1..k] + e[k..] && (e + x)[1..] == e[1..k] + (e[k..] + x)
  {
  }

  lemma ExponentRead(exponent: Text, x: Text)
    requires IsExponent(exponent) && NumberStops(x)
    ensures LexExponent(exponent + x) == (exponent, x)
  {
    if exponent == [] {
      assert exponent + x == x;
    } else {
      hide Digits, ExponentSign, LexExponent;
      var k := if AllDigits(exponent[1..]) then 1 else 2;
      var sign, d := exponent[1..k], exponent[k..];
      SignedDigitsRead(sign, d, x);
      CutAfterMark(exponent, k, x);
      ExponentTaken(exponent + x, sign, d, x);
    }
  }

  lemma ReadsOn(fraction: Text, exponent: Text, x: Text)
    requires IsFraction(fraction) && IsExponent(exponent) && NumberStops(x)
    ensures var s := exponent + x; s == [] || (!IsDigit(s[0]) && s[0] != DOT)
    ensures var s := fraction + (exponent + x); s == [] || !IsDigit(s[0])
  {
  }

  /** Every number is taken whole where no number goes on. */
  lemma NumberRead(lexeme: Text, x: Text)
    requires IsNumber(lexeme) && NumberStops(x)
    ensures LexNumber(lexeme + x) == Some((lexeme, x))
  {
    hide Digits, LexFraction, LexExponent, IsFraction, IsExponent, AllDigits;
    var sign, whole, fraction, exponent :| IsNumberOf(lexeme, sign, whole, fraction, exponent);
    var afterFraction := exponent + x;
    var afterWhole := fraction + afterFraction;
    AllDigitsIn(whole);
    ReadsOn(fraction, exponent, x);
    SignedAlone(sign, whole, afterWhole);
    FractionRead(fraction, afterFraction);
    ExponentRead(exponent, x);
    FourParts(sign, whole, fraction, exponent, x);
    NumberCharsNested(sign, whole, fraction, exponent);
  }

  lemma NumberFirst(lexeme: Text)
    requires IsNumber(lexeme)
    ensures lexeme != [] && (lexeme[0] == MINUS || IsDigit(lexeme[0]))
  {
    var sign, whole, fraction, exponent :| IsNumberOf(lexeme, sign, whole, fraction, exponent);
    assert sign == [] ==> lexeme[0] == whole[0];
  }
}
