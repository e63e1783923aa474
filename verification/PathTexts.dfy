/** The path texts of cycle.js: how decycle writes them, and how the expression `px` and `eval` of
    retrocycle read them. */
module PathTexts {
  import opened Options
  import opened Texts
  import opened TokenLexer
  import opened PrintedTexts
  import opened PrinterMeaning
  import opened QuoteFacts
  import opened StringMeaning
  import P = PrinterSpec

  const DOLLAR: Unit := 0x24

  datatype Step = Index(i: nat) | Name(name: Text)

  type Path = seq<Step>

  /** A number in decimal digits. */
  function Decimal(n: nat): (r: Text)
    ensures if n < 10 then r == [ZERO + n] else |r| >= 2
    ensures forall c :: c in r ==> IsDigit(c)
  {
    if n < 10 then [ZERO + n] else Decimal(n / 10) + [ZERO + n % 10]
  }

  /** `'[' + i + ']'` and `'[' + JSON.stringify(name) + ']'` */
  function StepText(s: Step): Text {
    match s
    case Index(i) => [LBRACKET] + (Decimal(i) + [RBRACKET])
    case Name(name) => [LBRACKET] + (P.Quote(name) + [RBRACKET])
  }

  function StepsText(path: Path): Text {
    if path == [] then [] else StepText(path[0]) + StepsText(path[1..])
  }

  /** The text of a path, `$` first. */
  function PathText(path: Path): Text {
    [DOLLAR] + StepsText(path)
  }

  lemma {:induction false} StepsTextAppend(path: Path, s: Step)
    ensures StepsText(path + [s]) == StepsText(path) + StepText(s)
  {
    if path == [] {
      assert path + [s] == [s] && StepsText([s][1..]) == [];
    } else {
      assert (path + [s])[1..] == path[1..] + [s];
      StepsTextAppend(path[1..], s);
    }
  }

  /** Going one step down appends the text of the step. */
  lemma PathTextAppend(path: Path, s: Step)
    ensures PathText(path + [s]) == PathText(path) + StepText(s)
  {
    StepsTextAppend(path, s);
  }

  predicate AlphaNumeric(c: Unit) {
    IsDigit(c) || 0x41 <= c <= 0x5A || 0x61 <= c <= 0x7A
  }

  /** The string part of `px`, up to the closing quote: the raw text and what follows the quote. */
  function PxString(s: Text): (r: Option<(Text, Text)>)
    ensures r.Some? ==> |r.value.1| < |s|
  {
    if s == [] then None
    else if s[0] == QUOTE then Some(([], s[1..]))
    else if s[0] == BACKSLASH then
      if |s| >= 2 && Escapee(s[1]).Some? then
        match PxString(s[2..]) case None => None case Some(r) => Some(([s[0], s[1]] + r.0, r.1))
      else if |s| >= 6 && s[1] == LOWER_U
           && AlphaNumeric(s[2]) && AlphaNumeric(s[3]) && AlphaNumeric(s[4]) && AlphaNumeric(s[5]) then
        match PxString(s[6..]) case None => None case Some(r) => Some((s[..6] + r.0, r.1))
      else None
    else if s[0] < SPACE then None
    else
      match PxString(s[1..]) case None => None case Some(r) => Some(([s[0]] + r.0, r.1))
  }

  /** The expression does not match; or it does and `eval` follows the steps, or throws. */
  datatype PxMatch = NoMatch | Matches(steps: Option<Path>)

  function Prepend(s: Option<Step>, m: PxMatch): PxMatch {
    match m
    case NoMatch => NoMatch
    case Matches(steps) => Matches(if s.Some? && steps.Some? then Some([s.value] + steps.value) else None)
  }

  /** `(?:\[(?:\d?|"...")\])*$` */
  function PxSteps(s: Text): PxMatch
    decreases |s|
  {
    if s == [] then Matches(Some([]))
    else if s[0] != LBRACKET || |s| < 2 then NoMatch
    else if s[1] == RBRACKET then Prepend(None, PxSteps(s[2..]))
    else if IsDigit(s[1]) then
      if |s| > 2 && s[2] == RBRACKET then Prepend(Some(Index(s[1] - ZERO)), PxSteps(s[3..])) else NoMatch
    else if s[1] == QUOTE then
      match PxString(s[2..])
      case None => NoMatch
      case Some(r) =>
        if r.1 == [] || r.1[0] != RBRACKET then NoMatch
        else Prepend(if WellEscaped(r.0) then Some(Name(Debackslashify(r.0))) else None, PxSteps(r.1[1..]))
    else NoMatch
  }

  function Px(s: Text): PxMatch {
    if s != [] && s[0] == DOLLAR then PxSteps(s[1..]) else NoMatch
  }

  /** Every array index on the path has one digit. */
  predicate SmallIndices(path: Path) {
    forall i :: 0 <= i < |path| && path[i].Index? ==> path[i].i < 10
  }

  lemma HexIsAlphaNumeric(d: int)
    requires 0 <= d < 16
    ensures AlphaNumeric(LowerHex(d))
  {
    HexSpelled(d);
  }

  /** What is printed for one code unit, in front of what `px` takes. */
  lemma PxPrinted(c: Unit, s: Text)
    requires PxString(s).Some?
    ensures PxString(Printed(c) + s) == Some((Printed(c) + PxString(s).value.0, PxString(s).value.1))
  {
    var piece := Printed(c);
    var text := piece + s;
    if |piece| == 1 {
      assert text[1..] == s;
    } else if |piece| == 2 {
      EscapeeIs(piece[1], c);
      assert text[2..] == s && [text[0], text[1]] == piece;
    } else {
      PxUnicode(c, piece, s);
    }
  }

  lemma PxUnicode(c: Unit, piece: Text, s: Text)
    requires |piece| == 6 && piece == Printed(c) && PxString(s).Some?
    ensures PxString(piece + s) == Some((piece + PxString(s).value.0, PxString(s).value.1))
  {
    hide LowerHex, AlphaNumeric;
    HexIsAlphaNumeric(c / 0x1000);
    HexIsAlphaNumeric(c / 0x100 % 0x10);
    HexIsAlphaNumeric(c / 0x10 % 0x10);
    HexIsAlphaNumeric(c % 0x10);
    var text := piece + s;
    assert text[6..] == s && text[..6] == piece;
    assert Escapee(text[1]) == None;
  }

  lemma {:induction false} PxStringPrinted(s: Text, rest: Text)
    ensures PxString(PrintedAll(s) + ([QUOTE] + rest)) == Some((PrintedAll(s), rest))
  {
    var closing := [QUOTE] + rest;
    if s == [] {
      assert PrintedAll(s) + closing == closing && closing[1..] == rest;
    } else {
      hide Printed, PxString;
      PxStringPrinted(s[1..], rest);
      PxPrinted(s[0], PrintedAll(s[1..]) + closing);
      Associate(Printed(s[0]), PrintedAll(s[1..]), closing);
    }
  }

  /** The text of a step: an index in decimal digits, or a name in quotes as `JSON.stringify` prints it,
      in brackets. */
  lemma StepTextMeans(s: Step)
    ensures s.Index? ==> StepText(s) == [0x5B] + (Decimal(s.i) + [0x5D])
    ensures s.Name? ==> StepText(s) == [0x5B, 0x22] + (PrintedAll(s.name) + [0x22, 0x5D])
  {
    if s.Name? {
      QuoteMeans(s.name);
      assert [0x5B] + (([0x22] + PrintedAll(s.name) + [0x22]) + [0x5D])
          == [0x5B, 0x22] + (PrintedAll(s.name) + [0x22, 0x5D]);
    }
  }

  /** What decimal digits say. */
  function NumberOf(digits: Text): int {
    if digits == [] then 0 else 10 * NumberOf(digits[..|digits| - 1]) + (digits[|digits| - 1] as int - 0x30)
  }

  lemma {:induction false} DecimalMeans(n: nat)
    ensures NumberOf(Decimal(n)) == n && Decimal(n) != []
    ensures forall i :: 0 <= i < |Decimal(n)| ==> 0x30 <= Decimal(n)[i] <= 0x39
    ensures n > 0 ==> Decimal(n)[0] != 0x30
  {
    var d := Decimal(n);
    if n < 10 {
      assert d[..0] == [];
    } else {
      DecimalMeans(n / 10);
      assert d[..|d| - 1] == Decimal(n / 10);
    }
  }

  /** The text of the path to the fourth element of the member a: $["a"][3]. */
  lemma PathTextExample()
    ensures PathText([Name([0x61]), Index(3)]) == [0x24, 0x5B, 0x22, 0x61, 0x22, 0x5D, 0x5B, 0x33, 0x5D]
  {
    StepTextMeans(Name([0x61]));
    assert PrintedAll([0x61]) == [0x61] by {
      var none: Text := [];
      assert [0x61][1..] == none && PrintedAll(none) == none;
    }
    var path := [Name([0x61]), Index(3)];
    assert path[1..] == [Index(3)] && path[1..][1..] == [];
  }

  lemma TwoInFront(rest: Text)
    ensures [QUOTE, RBRACKET] + rest == [QUOTE] + ([RBRACKET] + rest)
  {
  }

  lemma NameText(name: Text, rest: Text)
    ensures StepText(Name(name)) + rest == [LBRACKET, QUOTE] + (PrintedAll(name) + ([QUOTE] + ([RBRACKET] + rest)))
  {
    hide StepText, PrintedAll;
    StepTextMeans(Name(name));
    var a, b := PrintedAll(name), [QUOTE, RBRACKET];
    Associate([LBRACKET, QUOTE], a + b, rest);
    Associate(a, b, rest);
    TwoInFront(rest);
  }

  lemma PxName(name: Text, rest: Text)
    ensures PxSteps(StepText(Name(name)) + rest) == Prepend(Some(Name(name)), PxSteps(rest))
  {
    hide PxString, StepText;
    NameText(name, rest);
    var s := StepText(Name(name)) + rest;
    var after := [RBRACKET] + rest;
    assert s[2..] == PrintedAll(name) + ([QUOTE] + after) && after[1..] == rest;
    PxStringPrinted(name, after);
    PrintedAllSpells(name);
    UnitsAreRaw(name, PrintedAll(name), after);
    PxQuoted(s, PrintedAll(name), after);
  }

  lemma PxQuoted(s: Text, raw: Text, after: Text)
    requires |s| >= 2 && s[0] == LBRACKET && s[1] == QUOTE && PxString(s[2..]) == Some((raw, after))
    requires after != [] && after[0] == RBRACKET && WellEscaped(raw)
    ensures PxSteps(s) == Prepend(Some(Name(Debackslashify(raw))), PxSteps(after[1..]))
  {
  }

  lemma PxIndex(i: nat, rest: Text)
    ensures PxSteps(StepText(Index(i)) + rest) == if i < 10 then Prepend(Some(Index(i)), PxSteps(rest)) else NoMatch
  {
    var s := StepText(Index(i)) + rest;
    var d := Decimal(i);
    assert s == [LBRACKET] + d + ([RBRACKET] + rest);
    assert s[1] == d[0] && d[0] in d;
    if i < 10 {
      assert s[2] == RBRACKET && s[3..] == rest;
    } else {
      assert s[2] == d[1] && d[1] in d;
    }
  }

  /** `px` accepts the path texts that decycle writes exactly when every array index has one digit,
      and `eval` then follows the path that was written. */
  lemma {:induction false} PxReadsSteps(path: Path)
    ensures PxSteps(StepsText(path)) == if SmallIndices(path) then Matches(Some(path)) else NoMatch
  {
    if path != [] {
      var rest := path[1..];
      PxReadsSteps(rest);
      match path[0] {
        case Index(i) => PxIndex(i, StepsText(rest));
        case Name(name) => PxName(name, StepsText(rest));
      }
      assert path == [path[0]] + rest;
      SmallFirst(path);
    }
  }

  lemma SmallFirst(path: Path)
    requires path != []
    ensures SmallIndices(path) <==> (path[0].Index? ==> path[0].i < 10) && SmallIndices(path[1..])
  {
    if SmallIndices(path) {
      assert forall i :: 0 <= i < |path[1..]| ==> path[1..][i] == path[i + 1];
    } else {
      var i :| 0 <= i < |path| && path[i].Index? && path[i].i >= 10;
      assert i > 0 ==> path[1..][i - 1] == path[i];
    }
  }

  lemma PxReadsPath(path: Path)
    ensures Px(PathText(path)) == if SmallIndices(path) then Matches(Some(path)) else NoMatch
  {
    PxReadsSteps(path);
    assert PathText(path)[1..] == StepsText(path);
  }
}
