/** Printing an expression with the parentheses it needs, and reading it back. */
module SqlRoundTrip {
  import opened Options
  import opened SqlSyntax

  function Level(e: Expr): (p: nat)
    ensures p <= 5
  {
    if e.Binary? then Precedence(e.op) else 5
  }

  function AtomTokens(v: Value): seq<Token> {
    match v
    case Str(lexeme) => [StringToken(lexeme)]
    case Num(lexeme) => [NumberToken(lexeme)]
    case NullValue => [NullToken]
    case Id(None, column) => [Identifier(column)]
    case Id(Some(table), column) => [Identifier(table), DotToken, Identifier(column)]
  }

  /** The expression can stand where this level is read without parentheses.  A NOT takes all that
      follows it, so it can do so only at the tail of the expression around it. */
  predicate Bare(e: Expr, level: nat, tail: bool) {
    level <= Level(e) && (e.Not? ==> tail)
  }

  /** The tokens of an expression; `tail` says that no operator follows. */
  function Print(e: Expr, level: nat, tail: bool): (r: seq<Token>)
    requires level <= 5
    decreases e, 1
  {
    if Bare(e, level, tail) then PrintBare(e, tail) else [LeftParen] + (PrintBare(e, true) + [RightParen])
  }

  function PrintBare(e: Expr, tail: bool): (r: seq<Token>)
    decreases e, 0
  {
    match e
    case Atom(v) => AtomTokens(v)
    case Not(operand) => [NotToken] + Print(operand, 0, true)
    case Binary(left, op, right) =>
      Print(left, Precedence(op), false) + ([TokenOf(op)] + Print(right, Precedence(op) + 1, tail))
  }

  /** These tokens stand at position i. */
  predicate Here(ts: seq<Token>, i: nat, p: seq<Token>) {
    i + |p| <= |ts| && ts[i..i + |p|] == p
  }

  lemma HereSplit(ts: seq<Token>, i: nat, p: seq<Token>, q: seq<Token>)
    requires Here(ts, i, p + q)
    ensures Here(ts, i, p) && Here(ts, i + |p|, q)
  {
    assert ts[i..i + |p|] == ts[i..i + |p + q|][..|p|] == p;
    assert ts[i + |p|..i + |p| + |q|] == ts[i..i + |p + q|][|p|..] == q;
  }

  lemma HereFirst(ts: seq<Token>, i: nat, p: seq<Token>)
    requires Here(ts, i, p) && p != []
    ensures ts[i] == p[0]
  {
    assert ts[i..i + |p|][0] == ts[i];
  }

  /** The loops from this level on stop at j: what follows is no operator of theirs, and nothing that
      the scanner does not know. */
  predicate StopsAt(ts: seq<Token>, j: nat, level: nat) {
    j <= |ts| &&
    (j == |ts| || (ts[j] != Unrecognized && (OpOf(ts[j]).Some? ==> Precedence(OpOf(ts[j]).value) < level)))
  }

  /** Any expression may end at j: no dot follows either. */
  predicate EndsAt(ts: seq<Token>, j: nat, level: nat) {
    StopsAt(ts, j, level) && (j < |ts| ==> ts[j] != DotToken)
  }

  /** A printed expression begins with a token that the scanner knows. */
  lemma {:induction false} PrintKnown(e: Expr, level: nat, tail: bool)
    requires level <= 5
    ensures Print(e, level, tail) != [] && Print(e, level, tail)[0] != Unrecognized
    ensures PrintBare(e, tail) != [] && PrintBare(e, tail)[0] != Unrecognized
    decreases e
  {
    match e
    case Atom(v) =>
    case Not(operand) =>
    case Binary(left, op, right) => PrintKnown(left, Precedence(op), false);
  }

  // ----- Reading what was printed, level by level

  /** Read at a level, n tokens from i on come to the loop of that level with the expression to the
      left of it. */
  ghost predicate Reads(e: Expr, level: nat, ts: seq<Token>, i: nat, n: nat)
    requires level <= 5
  {
    i + n <= |ts| && At(level, ts, i) == if level == 5 then Some((e, i + n)) else Loop(level, ts, i + n, e)
  }

  lemma Complete(e: Expr, level: nat, ts: seq<Token>, i: nat, n: nat)
    requires level <= 5 && Reads(e, level, ts, i, n) && StopsAt(ts, i + n, level)
    ensures At(level, ts, i) == Some((e, i + n))
  {
  }

  /** What is read at a higher level first comes to the loop. */
  lemma FromAbove(e: Expr, level: nat, ts: seq<Token>, i: nat, n: nat)
    requires level <= 4 && Reads(e, level + 1, ts, i, n) && StopsAt(ts, i + n, level + 1)
    ensures Reads(e, level, ts, i, n)
  {
    Complete(e, level + 1, ts, i, n);
  }

  lemma ReadsAtom(v: Value, ts: seq<Token>, i: nat)
    requires Here(ts, i, AtomTokens(v)) && EndsAt(ts, i + |AtomTokens(v)|, 6)
    ensures At(5, ts, i) == Some((Atom(v), i + |AtomTokens(v)|))
  {
    HereFirst(ts, i, AtomTokens(v));
    if v.Id? && v.table.Some? {
      var p := AtomTokens(v);
      assert ts[i..i + 3][1] == ts[i + 1] && ts[i..i + 3][2] == ts[i + 2];
    }
  }

  lemma TermInParentheses(e: Expr, ts: seq<Token>, i: nat, k: nat)
    requires i + 1 < k < |ts| && ts[i] == LeftParen && ts[k] == RightParen && ts[i + 1] != Unrecognized
    requires At(0, ts, i + 1) == Some((e, k)) && (k + 1 == |ts| || ts[k + 1] != Unrecognized)
    ensures At(5, ts, i) == Some((e, k + 1))
  {
  }

  lemma TermNot(e: Expr, ts: seq<Token>, i: nat, k: nat)
    requires i + 1 < |ts| && ts[i] == NotToken && ts[i + 1] != Unrecognized && At(0, ts, i + 1) == Some((e, k))
    ensures At(5, ts, i) == Some((Not(e), k))
  {
  }

  lemma LoopTakes(level: nat, ts: seq<Token>, i: nat, left: Expr, op: Op, right: Expr, k: nat)
    requires level == Precedence(op) && i + 1 < |ts| && OpOf(ts[i]) == Some(op) && ts[i + 1] != Unrecognized
    requires At(level + 1, ts, i + 1) == Some((right, k))
    ensures k <= |ts| && Loop(level, ts, i, left) == Loop(level, ts, k, Binary(left, op, right))
  {
  }

  // ----- Where the pieces of a printed expression stand

  lemma ParenthesesHere(inner: seq<Token>, ts: seq<Token>, i: nat)
    requires inner != [] && Here(ts, i, [LeftParen] + (inner + [RightParen]))
    ensures i + 1 + |inner| < |ts| && ts[i] == LeftParen && Here(ts, i + 1, inner) && ts[i + 1] == inner[0]
    ensures ts[i + 1 + |inner|] == RightParen
  {
    HereSplit(ts, i, [LeftParen], inner + [RightParen]);
    HereSplit(ts, i + 1, inner, [RightParen]);
    HereFirst(ts, i, [LeftParen]);
    HereFirst(ts, i + 1 + |inner|, [RightParen]);
    HereFirst(ts, i + 1, inner);
  }

  lemma PrefixHere(t: Token, inner: seq<Token>, ts: seq<Token>, i: nat)
    requires inner != [] && Here(ts, i, [t] + inner)
    ensures i + 1 < |ts| && ts[i] == t && Here(ts, i + 1, inner) && ts[i + 1] == inner[0]
  {
    HereSplit(ts, i, [t], inner);
    HereFirst(ts, i, [t]);
    HereFirst(ts, i + 1, inner);
  }

  /** Every printed expression is read as itself, up to where it may end. */
  lemma {:induction false} ReadsPrint(e: Expr, level: nat, tail: bool, ts: seq<Token>, i: nat)
    requires level <= 5 && Here(ts, i, Print(e, level, tail))
    requires EndsAt(ts, i + |Print(e, level, tail)|, if tail then 0 else level + 1)
    ensures Reads(e, level, ts, i, |Print(e, level, tail)|)
    decreases e, if Bare(e, level, tail) then 2 else 3, 5 - level
  {
    if level < 5 && (!Bare(e, level, tail) || level < Level(e)) {
      ReadsPrint(e, level + 1, tail, ts, i);
      FromAbove(e, level, ts, i, |Print(e, level, tail)|);
    } else if !Bare(e, level, tail) {
      ReadsInParentheses(e, ts, i, tail);
    } else {
      ReadsOwn(e, tail, ts, i);
    }
  }

  /** Without parentheses, at the level of its own operator. */
  lemma {:induction false} ReadsOwn(e: Expr, tail: bool, ts: seq<Token>, i: nat)
    requires (e.Not? ==> tail) && Here(ts, i, PrintBare(e, tail))
    requires EndsAt(ts, i + |PrintBare(e, tail)|, if tail then 0 else Level(e) + 1)
    ensures Reads(e, Level(e), ts, i, |PrintBare(e, tail)|)
    decreases e, 1, 0
  {
    match e
    case Atom(v) => ReadsAtom(v, ts, i);
    case Not(operand) => ReadsNot(operand, ts, i);
    case Binary(left, op, right) => ReadsBinaryBare(left, op, right, tail, ts, i);
  }

  lemma {:induction false} ReadsBinaryBare(left: Expr, op: Op, right: Expr, tail: bool, ts: seq<Token>, i: nat)
    requires Here(ts, i, PrintBare(Binary(left, op, right), tail))
    requires EndsAt(ts, i + |PrintBare(Binary(left, op, right), tail)|, if tail then 0 else Precedence(op) + 1)
    ensures Reads(Binary(left, op, right), Precedence(op), ts, i, |PrintBare(Binary(left, op, right), tail)|)
    decreases Binary(left, op, right), 0, 1
  {
    var pl, pr := Print(left, Precedence(op), false), Print(right, Precedence(op) + 1, tail);
    PrintKnown(right, Precedence(op) + 1, tail);
    assert PrintBare(Binary(left, op, right), tail) == pl + ([TokenOf(op)] + pr);
    BinaryHere(pl, op, pr, ts, i);
    ReadsBinary(left, op, right, tail, ts, i, |pl|, |pr|);
  }

  lemma {:induction false} ReadsInParentheses(e: Expr, ts: seq<Token>, i: nat, tail: bool)
    requires !Bare(e, 5, tail) && Here(ts, i, Print(e, 5, tail))
    requires EndsAt(ts, i + |Print(e, 5, tail)|, if tail then 0 else 6)
    ensures Reads(e, 5, ts, i, |Print(e, 5, tail)|)
    decreases e, 2, 9
  {
    var inner := Print(e, 0, true);
    PrintKnown(e, 0, true);
    ParenthesesHere(inner, ts, i);
    ReadsPrint(e, 0, true, ts, i + 1);
    Complete(e, 0, ts, i + 1, |inner|);
    TermInParentheses(e, ts, i, i + 1 + |inner|);
  }

  lemma {:induction false} ReadsNot(operand: Expr, ts: seq<Token>, i: nat)
    requires Here(ts, i, PrintBare(Not(operand), true)) && EndsAt(ts, i + |PrintBare(Not(operand), true)|, 0)
    ensures Reads(Not(operand), 5, ts, i, |PrintBare(Not(operand), true)|)
    decreases Not(operand), 0, 0
  {
    var inner := Print(operand, 0, true);
    PrintKnown(operand, 0, true);
    PrefixHere(NotToken, inner, ts, i);
    ReadsPrint(operand, 0, true, ts, i + 1);
    Complete(operand, 0, ts, i + 1, |inner|);
    TermNot(operand, ts, i, i + 1 + |inner|);
  }

  /** A left operand, an operator and a right operand, at the level of the operator. */
  lemma Join(left: Expr, op: Op, right: Expr, ts: seq<Token>, i: nat, nl: nat, nr: nat)
    requires Reads(left, Precedence(op), ts, i, nl)
    requires i + nl + 1 < |ts| && OpOf(ts[i + nl]) == Some(op) && ts[i + nl + 1] != Unrecognized
    requires At(Precedence(op) + 1, ts, i + nl + 1) == Some((right, i + nl + 1 + nr))
    ensures Reads(Binary(left, op, right), Precedence(op), ts, i, nl + 1 + nr)
  {
    LoopTakes(Precedence(op), ts, i + nl, left, op, right, i + nl + 1 + nr);
  }

  lemma BinaryHere(pl: seq<Token>, op: Op, pr: seq<Token>, ts: seq<Token>, i: nat)
    requires pr != [] && pr[0] != Unrecognized && Here(ts, i, pl + ([TokenOf(op)] + pr))
    ensures Here(ts, i, pl) && i + |pl| + 1 < |ts| && ts[i + |pl|] == TokenOf(op)
    ensures ts[i + |pl| + 1] != Unrecognized && Here(ts, i + |pl| + 1, pr)
    ensures EndsAt(ts, i + |pl|, Precedence(op) + 1) && |pl + ([TokenOf(op)] + pr)| == |pl| + 1 + |pr|
  {
    HereSplit(ts, i, pl, [TokenOf(op)] + pr);
    PrefixHere(TokenOf(op), pr, ts, i + |pl|);
  }

  lemma {:induction false} ReadsBinary(left: Expr, op: Op, right: Expr, tail: bool, ts: seq<Token>, i: nat, nl: nat,
          nr: nat)
    requires var level := Precedence(op);
             var pl, pr := Print(left, level, false), Print(right, level + 1, tail);
             && Here(ts, i, pl) && nl == |pl| && nr == |pr|
             && i + nl + 1 < |ts| && ts[i + nl] == TokenOf(op) && ts[i + nl + 1] != Unrecognized
             && Here(ts, i + nl + 1, pr)
    requires EndsAt(ts, i + nl, Precedence(op) + 1)
    requires EndsAt(ts, i + nl + 1 + nr, if tail then 0 else Precedence(op) + 1)
    ensures Reads(Binary(left, op, right), Precedence(op), ts, i, nl + 1 + nr)
    decreases Binary(left, op, right), 0, 0
  {
    ReadsPrint(left, Precedence(op), false, ts, i);
    ReadsOperand(right, Precedence(op) + 1, tail, ts, i + nl + 1);
    Join(left, op, right, ts, i, nl, nr);
  }

  lemma {:induction false} ReadsOperand(e: Expr, level: nat, tail: bool, ts: seq<Token>, i: nat)
    requires 1 <= level <= 5 && Here(ts, i, Print(e, level, tail))
    requires EndsAt(ts, i + |Print(e, level, tail)|, if tail then 0 else level)
    ensures At(level, ts, i) == Some((e, i + |Print(e, level, tail)|))
    decreases e, 4, 0
  {
    ReadsPrint(e, level, tail, ts, i);
    Complete(e, level, ts, i, |Print(e, level, tail)|);
  }

  /** Printing and parsing an expression gives the expression, and the parser stops at its end. */
  lemma ParsePrinted(e: Expr)
    ensures Parse(Print(e, 0, true)) == Some((e, |Print(e, 0, true)|))
  {
    var p := Print(e, 0, true);
    PrintKnown(e, 0, true);
    assert p[0..|p|] == p;
    ReadsPrint(e, 0, true, p, 0);
    Complete(e, 0, p, 0, |p|);
  }
}
