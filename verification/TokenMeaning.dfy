/** The tokens of the code are those of RFC 8259, and so are the texts it splits into tokens. */
module TokenMeaning {
  import opened Options
  import opened Texts
  import opened JsonValues
  import opened TokenLexer
  import opened JsonTexts
  import opened StringMeaning
  import opened NumberMeaning
  import LexerFacts

  lemma StringRead(units: Text, piece: Text, rest: Text)
    requires IsString(units, piece)
    ensures piece != [] && LexToken(piece + rest) == Some((StrTok(units), rest))
  {
    hide RawString, Debackslashify, SpellsUnits, WellEscaped;
    var body := piece[1..|piece| - 1];
    UnitsAreRaw(units, body, rest);
    assert (piece + rest)[1..] == body + ([QUOTE] + rest);
  }

  lemma WordRead(word: Text, rest: Text)
    requires word == TRUE_TEXT || word == FALSE_TEXT || word == NULL_TEXT
    ensures LexToken(word + rest) ==
            Some((if word == TRUE_TEXT then TrueTok else if word == FALSE_TEXT then FalseTok else NullTok, rest))
  {
    assert (word + rest)[|word|..] == rest && word <= word + rest;
  }

  /** A token in front of a text is read as that token. */
  lemma TokenRead(t: Token, piece: Text, rest: Text)
    requires IsToken(t, piece) && (t.NumTok? ==> NumberStops(rest))
    ensures piece != [] && LexToken(piece + rest) == Some((t, rest))
  {
    hide RawString, Debackslashify, LexNumber, IsNumber, IsString, WellEscaped;
    match t {
      case NumTok(lexeme) =>
        NumberFirst(lexeme);
        NumberRead(lexeme, rest);
      case StrTok(units) => StringRead(units, piece, rest);
      case TrueTok => WordRead(piece, rest);
      case FalseTok => WordRead(piece, rest);
      case NullTok => WordRead(piece, rest);
      case _ => assert (piece + rest)[1..] == rest;
    }
  }

  /** What is read in front of a text is a token, and a number goes as far as its digits. */
  lemma TokenTaken(s: Text)
    requires LexToken(s).Some?
    ensures var (t, rest) := LexToken(s).value;
            |rest| < |s| && s == s[..|s| - |rest|] + rest && IsToken(t, s[..|s| - |rest|]) && EndsBefore(t, rest)
  {
    hide RawString, Debackslashify, LexNumber, IsNumber, IsString, WellEscaped;
    var (t, rest) := LexToken(s).value;
    var piece := s[..|s| - |rest|];
    match t {
      case NumTok(_) =>
        NumberTaken(s);
        assert piece == t.lexeme;
      case StrTok(_) => StringTaken(s);
      case TrueTok => assert piece == TRUE_TEXT && s[4..] == rest;
      case FalseTok => assert piece == FALSE_TEXT && s[5..] == rest;
      case NullTok => assert piece == NULL_TEXT && s[4..] == rest;
      case _ => assert s[1..] == rest;
    }
  }

  lemma StringTaken(s: Text)
    requires LexToken(s).Some? && LexToken(s).value.0.StrTok?
    ensures var (t, rest) := LexToken(s).value;
            s == s[..|s| - |rest|] + rest && IsString(t.text, s[..|s| - |rest|])
  {
    hide RawString, Debackslashify, SpellsUnits, WellEscaped;
    var rest := LexToken(s).value.1;
    RawSpells(s[1..]);
    var raw := RawString(s[1..]).value.0;
    assert s == ([QUOTE] + raw + [QUOTE]) + rest;
    assert s[..|s| - |rest|] == [QUOTE] + raw + [QUOTE];
    assert ([QUOTE] + raw + [QUOTE])[1..1 + |raw|] == raw;
  }

  /** Where tokens follow, no number goes on. */
  lemma NoNumberGoesOn(text: Text, ts: seq<Token>)
    requires SplitsInto(text, ts) && (text == [] || !IsDigit(text[0]))
    ensures NumberStops(text)
  {
    if text != [] && ts != [] {
      var i, j {:trigger text[i..j]} :| 0 <= i < j <= |text| && IsBlank(text[..i]) && IsToken(ts[0], text[i..j]);
      if i == 0 {
        if ts[0].NumTok? {
          NumberFirst(text[i..j]);
        }
        assert text[i..j][0] == text[0];
      } else {
        assert text[..i][0] == text[0];
      }
    } else if text != [] {
      assert IsBlank(text);
    }
  }

  lemma {:induction false} BlankSkipped(blank: Text, s: Text)
    requires IsBlank(blank)
    ensures SkipJsonSpace(blank + s) == SkipJsonSpace(s)
  {
    if blank == [] {
      assert blank + s == s;
    } else {
      assert (blank + s)[1..] == blank[1..] + s;
      BlankSkipped(blank[1..], s);
    }
  }

  /** The white space that is skipped, as a number of characters. */
  lemma {:induction false} SkippedIsBlank(s: Text) returns (i: nat)
    ensures i <= |s| && IsBlank(s[..i]) && SkipJsonSpace(s) == s[i..]
  {
    if s != [] && IsJsonSpace(s[0]) {
      i := SkippedIsBlank(s[1..]);
      assert s[..i + 1] == [s[0]] + s[1..][..i] && s[1..][i..] == s[i + 1..];
      i := i + 1;
    } else {
      i := 0;
    }
  }

  /** The tokens of a text are these if and only if the text splits into them. */
  lemma {:induction false} TokenizeExact(text: Text, ts: seq<Token>)
    ensures Tokenize(text) == Some(ts) <==> SplitsInto(text, ts)
    decreases |text|, |ts|
  {
    if SplitsInto(text, ts) {
      SplitTokenized(text, ts);
    }
    if Tokenize(text) == Some(ts) {
      TokenizedSplits(text, ts);
    }
  }

  lemma SplitStep(text: Text, i: nat, j: nat, t: Token, ts: seq<Token>)
    requires i < j <= |text| && IsBlank(text[..i]) && IsToken(t, text[i..j]) && EndsBefore(t, text[j..])
    requires SplitsInto(text[j..], ts) && Tokenize(text[j..]) == Some(ts)
    ensures Tokenize(text) == Some([t] + ts)
  {
    hide SplitsInto, Tokenize, IsToken, IsBlank, LexToken;
    if t.NumTok? {
      NoNumberGoesOn(text[j..], ts);
    }
    TokenRead(t, text[i..j], text[j..]);
    TokenizeStep(text[..i], text[i..j], text[j..], t);
    assert text == text[..i] + (text[i..j] + text[j..]);
  }

  lemma {:induction false} SplitTokenized(text: Text, ts: seq<Token>)
    requires SplitsInto(text, ts)
    ensures Tokenize(text) == Some(ts)
    decreases |ts|
  {
    if ts == [] {
      BlankSkipped(text, []);
      assert text + [] == text;
    } else {
      var i, j {:trigger text[i..j]} :|
        && 0 <= i < j <= |text| && IsBlank(text[..i]) && IsToken(ts[0], text[i..j])
        && EndsBefore(ts[0], text[j..]) && SplitsInto(text[j..], ts[1..]);
      SplitTokenized(text[j..], ts[1..]);
      SplitStep(text, i, j, ts[0], ts[1..]);
      assert ts == [ts[0]] + ts[1..];
    }
  }

  lemma NothingSkipped(s: Text)
    requires LexToken(s).Some?
    ensures SkipJsonSpace(s) == s
  {
    hide RawString, Debackslashify, LexNumber;
    LexerFacts.TokenStart(s);
  }

  lemma TokenizeStep(blank: Text, piece: Text, rest: Text, t: Token)
    requires IsBlank(blank) && piece != [] && LexToken(piece + rest) == Some((t, rest)) && Tokenize(rest).Some?
    ensures Tokenize(blank + (piece + rest)) == Some([t] + Tokenize(rest).value)
  {
    hide LexToken, SkipJsonSpace;
    BlankSkipped(blank, piece + rest);
    NothingSkipped(piece + rest);
  }

  lemma {:induction false} TokenizedSplits(text: Text, ts: seq<Token>)
    requires Tokenize(text) == Some(ts)
    ensures SplitsInto(text, ts)
    decreases |text|
  {
    var i := SkippedIsBlank(text);
    if ts == [] {
      assert text[..i] == text;
    } else {
      var rest := LexToken(text[i..]).value.1;
      TokenTaken(text[i..]);
      TokenizedSplits(rest, ts[1..]);
      var j := |text| - |rest|;
      assert text[i..j] == text[i..][..|text[i..]| - |rest|] && text[j..] == rest;
    }
  }
}
