/** The expression `px` of retrocycle, part by part. */
module PxMeaning {
  import opened Options
  import opened Texts
  import opened TokenLexer
  import opened PathTexts
  import opened StringMeaning

  ghost predicate IsAlphaNumeric(c: Unit) {
    0x30 <= c <= 0x39 || 0x41 <= c <= 0x5A || 0x61 <= c <= 0x7A
  }

  /** One character of a name: anything but a quote, a backslash or a control character, an escape of two
      characters, or \u and four digits or letters. */
  ghost predicate IsPxPiece(s: Text) {
    || (|s| == 1 && s[0] >= 0x20 && s[0] != 0x22 && s[0] != 0x5C)
    || (|s| == 2 && s[0] == 0x5C && s[1] in [0x22, 0x5C, 0x2F, 0x62, 0x66, 0x6E, 0x72, 0x74])
    || (|s| == 6 && s[0] == 0x5C && s[1] == 0x75
        && IsAlphaNumeric(s[2]) && IsAlphaNumeric(s[3]) && IsAlphaNumeric(s[4]) && IsAlphaNumeric(s[5]))
  }

  ghost predicate IsPxBody(s: Text)
    decreases |s|
  {
    s == [] || exists n :: 1 <= n <= |s| && IsPxPiece(s[..n]) && IsPxBody(s[n..])
  }

  /** Brackets around nothing, around one digit, or around a name in quotes. */
  ghost predicate IsPxGroup(s: Text) {
    || s == [0x5B, 0x5D]
    || (|s| == 3 && s[0] == 0x5B && 0x30 <= s[1] <= 0x39 && s[2] == 0x5D)
    || (|s| >= 4 && s[0] == 0x5B && s[1] == 0x22 && s[|s| - 2] == 0x22 && s[|s| - 1] == 0x5D
        && IsPxBody(s[2..|s| - 2]))
  }

  ghost predicate IsPxGroups(s: Text)
    decreases |s|
  {
    s == [] || exists n :: 1 <= n <= |s| && IsPxGroup(s[..n]) && IsPxGroups(s[n..])
  }

  lemma {:induction false} BodyTaken(body: Text, rest: Text)
    requires IsPxBody(body)
    ensures PxString(body + ([QUOTE] + rest)) == Some((body, rest))
    decreases |body|
  {
    var closing := [QUOTE] + rest;
    if body == [] {
      assert body + closing == closing && closing[1..] == rest;
    } else {
      hide PxString, IsPxPiece;
      var n :| 1 <= n <= |body| && IsPxPiece(body[..n]) && IsPxBody(body[n..]);
      BodyTaken(body[n..], rest);
      PieceTaken(body[..n], body[n..] + closing);
      assert body == body[..n] + body[n..];
      Associate(body[..n], body[n..], closing);
    }
  }

  lemma PieceTaken(piece: Text, s: Text)
    requires IsPxPiece(piece) && PxString(s).Some?
    ensures PxString(piece + s) == Some((piece + PxString(s).value.0, PxString(s).value.1))
  {
    var text := piece + s;
    assert text[|piece|..] == s && text[..|piece|] == piece;
    if |piece| == 1 {
      assert [text[0]] == piece;
    } else if |piece| == 2 {
      assert [text[0], text[1]] == piece;
    } else {
      assert text[2] == piece[2] && text[3] == piece[3] && text[4] == piece[4] && text[5] == piece[5];
    }
  }

  /** The first piece of what is taken, and the rest of it. */
  lemma BodySplits(s: Text) returns (n: nat)
    requires PxString(s).Some? && s[0] != QUOTE
    ensures 1 <= n <= |s| && IsPxPiece(s[..n]) && PxString(s[n..]).Some?
    ensures PxString(s).value == (s[..n] + PxString(s[n..]).value.0, PxString(s[n..]).value.1)
  {
    if s[0] != BACKSLASH {
      n := 1;
      assert s[..1] == [s[0]];
    } else if Escapee(s[1]).Some? {
      n := 2;
      assert s[..2] == [s[0], s[1]];
    } else {
      n := 6;
    }
  }

  lemma {:induction false} TakenIsBody(s: Text)
    requires PxString(s).Some?
    ensures s == PxString(s).value.0 + ([QUOTE] + PxString(s).value.1) && IsPxBody(PxString(s).value.0)
    decreases |s|
  {
    if s[0] == QUOTE {
      assert s == [] + ([QUOTE] + s[1..]);
    } else {
      var n := BodySplits(s);
      hide PxString, IsPxPiece;
      TakenIsBody(s[n..]);
      var (later, rest) := PxString(s[n..]).value;
      var raw := s[..n] + later;
      assert raw[..n] == s[..n] && raw[n..] == later && s == s[..n] + s[n..];
      Associate(s[..n], later, [QUOTE] + rest);
    }
  }

  lemma GroupTaken(group: Text, s: Text)
    requires IsPxGroup(group)
    ensures PxSteps(group + s) == NoMatch <==> PxSteps(s) == NoMatch
  {
    hide IsPxBody, PxString;
    var text := group + s;
    assert text[0] == group[0] && text[1] == group[1];
    if group[1] == 0x5D {
      assert text[2..] == s;
    } else if group[1] != 0x22 {
      assert text[2] == group[2] && text[3..] == s;
    } else {
      NameTaken(group, s);
    }
  }

  lemma NameTaken(group: Text, s: Text)
    requires IsPxGroup(group) && |group| >= 4 && group[1] == 0x22
    ensures PxSteps(group + s) == NoMatch <==> PxSteps(s) == NoMatch
  {
    hide PxString;
    var text, body, after := group + s, group[2..|group| - 2], [RBRACKET] + s;
    BodyTaken(body, after);
    assert text[2..] == body + ([QUOTE] + after);
    assert after[1..] == s;
  }

  /** The first group of what matches. */
  lemma StepsSplit(s: Text) returns (n: nat)
    requires s != [] && PxSteps(s) != NoMatch
    ensures 1 <= n <= |s| && IsPxGroup(s[..n]) && PxSteps(s[n..]) != NoMatch
  {
    hide PxString, IsPxBody;
    if s[1] == RBRACKET {
      n := 2;
    } else if IsDigit(s[1]) {
      n := 3;
    } else {
      TakenIsBody(s[2..]);
      var (raw, after) := PxString(s[2..]).value;
      n := |raw| + 4;
      assert s == [s[0], s[1]] + (raw + ([QUOTE] + after)) && after == [RBRACKET] + after[1..];
      assert s[..n] == [LBRACKET, QUOTE] + raw + [QUOTE, RBRACKET] && s[n..] == after[1..];
      assert s[..n][2..n - 2] == raw;
    }
  }

  lemma {:induction false} StepsExact(s: Text)
    ensures PxSteps(s) != NoMatch <==> IsPxGroups(s)
    decreases |s|
  {
    hide IsPxGroup;
    if s != [] && PxSteps(s) != NoMatch {
      var n := StepsSplit(s);
      StepsExact(s[n..]);
    }
    if s != [] && IsPxGroups(s) {
      hide PxSteps;
      var n :| 1 <= n <= |s| && IsPxGroup(s[..n]) && IsPxGroups(s[n..]);
      StepsExact(s[n..]);
      GroupTaken(s[..n], s[n..]);
      assert s == s[..n] + s[n..];
    }
  }

  /** The texts that `px` accepts: a dollar and any number of such brackets. */
  lemma PxExact(s: Text)
    ensures Px(s) != NoMatch <==> s != [] && s[0] == 0x24 && IsPxGroups(s[1..])
  {
    if s != [] {
      StepsExact(s[1..]);
    }
  }
}
