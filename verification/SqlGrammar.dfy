/** What the parser accepts, exactly: the grammar as Database.java writes it above its methods, each production
    over the tokens from i to j. */
module SqlGrammar {
  import opened Options
  import opened SqlSyntax
  import opened SqlRoundTrip

  /** The lexemes that the patterns of RELOP and ADDITIVE match. */
  ghost predicate Scanned(ts: seq<Token>) {
    forall i :: 0 <= i < |ts| ==>
      && (ts[i].Relop? ==> ts[i].lexeme in ["<", ">", "<=", ">=", "<>", ">>"])
      && (ts[i].Additive? ==> ts[i].lexeme in ["+", "-"])
  }

  /** expr ::= expr OR andExpr | andExpr */
  ghost predicate IsExpr(ts: seq<Token>, i: nat, j: nat, e: Expr)
    requires i <= j <= |ts|
    decreases j - i, 6
  {
    || IsAndExpr(ts, i, j, e)
    || (exists k {:trigger ts[k]} :: i < k < j && ts[k] == OrToken
           && e.Binary? && e.op == Logical(OrOp) && IsExpr(ts, i, k, e.left) && IsAndExpr(ts, k + 1, j, e.right))
  }

  /** andExpr ::= andExpr AND relationalExpr | relationalExpr */
  ghost predicate IsAndExpr(ts: seq<Token>, i: nat, j: nat, e: Expr)
    requires i <= j <= |ts|
    decreases j - i, 5
  {
    || IsRelationalExpr(ts, i, j, e)
    || (exists k {:trigger ts[k]} :: i < k < j && ts[k] == AndToken
           && e.Binary? && e.op == Logical(AndOp)
           && IsAndExpr(ts, i, k, e.left) && IsRelationalExpr(ts, k + 1, j, e.right))
  }

  /** RELOP | EQUAL | LIKE, and what each of them means */
  ghost predicate IsRelation(t: Token, op: RelationalOp) {
    match op
    case EQ => t == EqualToken
    case LT => t == Relop("<")
    case GT => t == Relop(">")
    case LE => t == Relop("<=")
    case GE => t == Relop(">=") || t == Relop(">>")
    case NE => t == Relop("<>")
    case LIKE => t == LikeToken
  }

  /** relationalExpr ::= relationalExpr (RELOP | EQUAL | LIKE) additiveExpr | additiveExpr */
  ghost predicate IsRelationalExpr(ts: seq<Token>, i: nat, j: nat, e: Expr)
    requires i <= j <= |ts|
    decreases j - i, 4
  {
    || IsAdditiveExpr(ts, i, j, e)
    || (exists k {:trigger ts[k]} :: i < k < j && e.Binary? && e.op.Relational? && IsRelation(ts[k], e.op.r)
           && IsRelationalExpr(ts, i, k, e.left) && IsAdditiveExpr(ts, k + 1, j, e.right))
  }

  /** additiveExpr ::= additiveExpr ADDITIVE multiplicativeExpr | multiplicativeExpr */
  ghost predicate IsAdditiveExpr(ts: seq<Token>, i: nat, j: nat, e: Expr)
    requires i <= j <= |ts|
    decreases j - i, 3
  {
    || IsMultiplicativeExpr(ts, i, j, e)
    || (exists k {:trigger ts[k]} :: i < k < j && e.Binary?
           && ((ts[k] == Additive("+") && e.op == Math(PLUS)) || (ts[k] == Additive("-") && e.op == Math(MINUS)))
           && IsAdditiveExpr(ts, i, k, e.left) && IsMultiplicativeExpr(ts, k + 1, j, e.right))
  }

  /** multiplicativeExpr ::= multiplicativeExpr (STAR | SLASH) term | term */
  ghost predicate IsMultiplicativeExpr(ts: seq<Token>, i: nat, j: nat, e: Expr)
    requires i <= j <= |ts|
    decreases j - i, 2
  {
    || IsTerm(ts, i, j, e)
    || (exists k {:trigger ts[k]} :: i < k < j && e.Binary?
           && ((ts[k] == StarToken && e.op == Math(TIMES)) || (ts[k] == SlashToken && e.op == Math(DIVIDE)))
           && IsMultiplicativeExpr(ts, i, k, e.left) && IsTerm(ts, k + 1, j, e.right))
  }

  ghost predicate OperatorAt(ts: seq<Token>, j: nat) {
    j < |ts| &&
    match ts[j]
    case OrToken => true
    case AndToken => true
    case Relop(_) => true
    case EqualToken => true
    case LikeToken => true
    case Additive(_) => true
    case StarToken => true
    case SlashToken => true
    case _ => false
  }

  /** term ::= NOT expr | LP expr RP | factor, where a NOT takes every operator that follows */
  ghost predicate IsTerm(ts: seq<Token>, i: nat, j: nat, e: Expr)
    requires i <= j <= |ts|
    decreases j - i, 1
  {
    || (i < j && ts[i] == NotToken && !OperatorAt(ts, j) && e.Not? && IsExpr(ts, i + 1, j, e.operand))
    || (i + 2 <= j && ts[i] == LeftParen && ts[j - 1] == RightParen && IsExpr(ts, i + 1, j - 1, e))
    || IsFactor(ts, i, j, e)
  }

  /** factor ::= compoundId | STRING | NUMBER | NULL, and compoundId ::= IDENTIFIER [ DOT IDENTIFIER ] */
  ghost predicate IsFactor(ts: seq<Token>, i: nat, j: nat, e: Expr)
    requires i <= j <= |ts|
  {
    || (j == i + 1 && ts[i].StringToken? && e == Atom(Str(ts[i].lexeme)))
    || (j == i + 1 && ts[i].NumberToken? && e == Atom(Num(ts[i].lexeme)))
    || (j == i + 1 && ts[i] == NullToken && e == Atom(NullValue))
    || (j == i + 1 && ts[i].Identifier? && (j == |ts| || ts[j] != DotToken) && e == Atom(Id(None, ts[i].lexeme)))
    || (j == i + 3 && ts[i].Identifier? && ts[i + 1] == DotToken && ts[i + 2].Identifier?
        && e == Atom(Id(Some(ts[i].lexeme), ts[i + 2].lexeme)))
  }

  /** An expression from i to j that goes no further: no operator is next, and the scanner knows what is. */
  ghost predicate Whole(ts: seq<Token>, i: nat, j: nat, e: Expr) {
    i <= j <= |ts| && IsExpr(ts, i, j, e) && !OperatorAt(ts, j) && (j < |ts| ==> ts[j] != Unrecognized)
  }

  // ----- The productions by level

  ghost predicate AtLevel(level: nat, ts: seq<Token>, i: nat, j: nat, e: Expr)
    requires level <= 5 && i <= j <= |ts|
  {
    match level
    case 0 => IsExpr(ts, i, j, e)
    case 1 => IsAndExpr(ts, i, j, e)
    case 2 => IsRelationalExpr(ts, i, j, e)
    case 3 => IsAdditiveExpr(ts, i, j, e)
    case 4 => IsMultiplicativeExpr(ts, i, j, e)
    case _ => IsTerm(ts, i, j, e)
  }

  /** The operators of each level, by their tokens. */
  lemma OperatorsOf(ts: seq<Token>, op: Op)
    requires Scanned(ts)
    ensures forall k :: 0 <= k < |ts| ==> (OpOf(ts[k]) == Some(op) && Precedence(op) == 0 <==>
                ts[k] == OrToken && op == Logical(OrOp))
    ensures forall k :: 0 <= k < |ts| ==> (OpOf(ts[k]) == Some(op) && Precedence(op) == 1 <==>
                ts[k] == AndToken && op == Logical(AndOp))
    ensures forall k :: 0 <= k < |ts| ==> (OpOf(ts[k]) == Some(op) && Precedence(op) == 2 <==>
                op.Relational? && IsRelation(ts[k], op.r))
    ensures forall k :: 0 <= k < |ts| ==> (OpOf(ts[k]) == Some(op) && Precedence(op) == 3 <==>
                || (ts[k] == Additive("+") && op == Math(PLUS))
                || (ts[k] == Additive("-") && op == Math(MINUS)))
    ensures forall k :: 0 <= k < |ts| ==> (OpOf(ts[k]) == Some(op) && Precedence(op) == 4 <==>
                || (ts[k] == StarToken && op == Math(TIMES))
                || (ts[k] == SlashToken && op == Math(DIVIDE)))
  {
  }

  /** Every level but the last is the next one, or an operator of its own between this level and the next. */
  lemma LevelIs(level: nat, ts: seq<Token>, i: nat, j: nat, e: Expr)
    requires level <= 4 && i <= j <= |ts| && Scanned(ts)
    ensures AtLevel(level, ts, i, j, e) <==>
            || AtLevel(level + 1, ts, i, j, e)
            || (exists k {:trigger ts[k]} :: i < k < j && e.Binary? && OpOf(ts[k]) == Some(e.op)
                   && Precedence(e.op) == level && AtLevel(level, ts, i, k, e.left)
                   && AtLevel(level + 1, ts, k + 1, j, e.right))
  {
    hide OpOf, Precedence, Scanned, IsRelation;
    if e.Binary? {
      OperatorsOf(ts, e.op);
    }
    if level == 0 {
      hide IsAndExpr, IsRelationalExpr, IsAdditiveExpr, IsMultiplicativeExpr, IsTerm;
    } else if level == 1 {
      hide IsExpr, IsRelationalExpr, IsAdditiveExpr, IsMultiplicativeExpr, IsTerm;
    } else if level == 2 {
      hide IsExpr, IsAndExpr, IsAdditiveExpr, IsMultiplicativeExpr, IsTerm;
    } else if level == 3 {
      hide IsExpr, IsAndExpr, IsRelationalExpr, IsMultiplicativeExpr, IsTerm;
    } else {
      hide IsExpr, IsAndExpr, IsRelationalExpr, IsAdditiveExpr, IsTerm;
    }
  }

  lemma OperatorStops(ts: seq<Token>, k: nat, op: Op)
    requires k < |ts| && OpOf(ts[k]) == Some(op)
    ensures StopsAt(ts, k, Precedence(op) + 1)
  {
  }

  lemma OperatorIs(ts: seq<Token>, j: nat)
    ensures OperatorAt(ts, j) <==> j < |ts| && OpOf(ts[j]).Some?
  {
  }

  // ----- What the parser returns is an expression of the grammar that goes no further.

  lemma {:induction false} AtSound(level: nat, ts: seq<Token>, i: nat)
    requires level <= 5 && i <= |ts| && Scanned(ts)
    ensures var r := At(level, ts, i);
            r.Some? ==> AtLevel(level, ts, i, r.value.1, r.value.0) && StopsAt(ts, r.value.1, level)
    decreases |ts| - i, 6 - level, 0
  {
    if level == 5 {
      TermSound(ts, i);
    } else {
      AtSound(level + 1, ts, i);
      if At(level + 1, ts, i).Some? {
        var first := At(level + 1, ts, i).value;
        LevelIs(level, ts, i, first.1, first.0);
        LoopSound(level, ts, i, first.1, first.0);
      }
    }
  }

  lemma {:induction false} LoopSound(level: nat, ts: seq<Token>, start: nat, i: nat, left: Expr)
    requires level <= 4 && start < i <= |ts| && Scanned(ts)
    requires AtLevel(level, ts, start, i, left) && StopsAt(ts, i, level + 1)
    ensures var r := Loop(level, ts, i, left);
            r.Some? ==> AtLevel(level, ts, start, r.value.1, r.value.0) && StopsAt(ts, r.value.1, level)
    decreases |ts| - i, 6 - level, 1
  {
    hide AtLevel, At, Scanned, Precedence;
    if OpAt(level, ts, i).Some? && Advance(ts, i).Some? {
      AtSound(level + 1, ts, i + 1);
      if At(level + 1, ts, i + 1).Some? {
        var next := At(level + 1, ts, i + 1).value;
        var e := Binary(left, OpOf(ts[i]).value, next.0);
        LevelIs(level, ts, start, next.1, e);
        LoopSound(level, ts, start, next.1, e);
      }
    }
  }

  lemma {:induction false} TermSound(ts: seq<Token>, i: nat)
    requires i <= |ts| && Scanned(ts)
    ensures var r := Term(ts, i); r.Some? ==> IsTerm(ts, i, r.value.1, r.value.0) && StopsAt(ts, r.value.1, 5)
    decreases |ts| - i, 0, 0
  {
    if i < |ts| && (ts[i] == NotToken || ts[i] == LeftParen) {
      if Advance(ts, i).Some? {
        AtSound(0, ts, i + 1);
      }
    }
  }

  // ----- Every expression of the grammar that goes no further is what the parser returns.

  lemma {:induction false} FirstKnown(level: nat, ts: seq<Token>, i: nat, j: nat, e: Expr)
    requires level <= 5 && i <= j <= |ts| && Scanned(ts) && AtLevel(level, ts, i, j, e)
    ensures i < j && ts[i] != Unrecognized
    decreases j - i, 6 - level
  {
    if level < 5 {
      LevelIs(level, ts, i, j, e);
      if AtLevel(level + 1, ts, i, j, e) {
        FirstKnown(level + 1, ts, i, j, e);
      } else {
        var k {:trigger ts[k]} :| i < k < j && e.Binary? && OpOf(ts[k]) == Some(e.op) && Precedence(e.op) == level
          && AtLevel(level, ts, i, k, e.left) && AtLevel(level + 1, ts, k + 1, j, e.right);
        FirstKnown(level, ts, i, k, e.left);
      }
    }
  }

  lemma {:induction false} TermReads(ts: seq<Token>, i: nat, j: nat, e: Expr)
    requires i <= j <= |ts| && Scanned(ts) && IsTerm(ts, i, j, e) && StopsAt(ts, j, 6)
    ensures Reads(e, 5, ts, i, j - i)
    decreases j - i, 0
  {
    hide IsExpr, At, Loop, Term;
    OperatorIs(ts, j);
    if ts[i] == NotToken {
      ExprReads(ts, i + 1, j, e.operand);
      TermNot(e.operand, ts, i, j);
    } else if ts[i] == LeftParen {
      ExprReads(ts, i + 1, j - 1, e);
      TermInParentheses(e, ts, i, j - 1);
    } else {
      FactorReads(ts, i, j, e);
    }
  }

  lemma FactorReads(ts: seq<Token>, i: nat, j: nat, e: Expr)
    requires i <= j <= |ts| && IsFactor(ts, i, j, e) && StopsAt(ts, j, 6)
    ensures At(5, ts, i) == Some((e, j))
  {
  }

  /** The whole of what a NOT or a parenthesis begins. */
  lemma {:induction false} ExprReads(ts: seq<Token>, i: nat, j: nat, e: Expr)
    requires i <= j <= |ts| && Scanned(ts) && IsExpr(ts, i, j, e) && StopsAt(ts, j, 0)
    ensures i < j && ts[i] != Unrecognized && At(0, ts, i) == Some((e, j))
    decreases j - i, 7
  {
    hide IsExpr, At, Loop;
    FirstKnown(0, ts, i, j, e);
    LevelReads(0, ts, i, j, e);
    Complete(e, 0, ts, i, j - i);
  }

  lemma {:induction false} LevelReads(level: nat, ts: seq<Token>, i: nat, j: nat, e: Expr)
    requires level <= 5 && i <= j <= |ts| && Scanned(ts) && AtLevel(level, ts, i, j, e) && StopsAt(ts, j, level + 1)
    ensures Reads(e, level, ts, i, j - i)
    decreases j - i, 6 - level
  {
    hide At, Loop, Reads, Precedence, OpOf;
    if level == 5 {
      TermReads(ts, i, j, e);
    } else {
      hide AtLevel;
      LevelIs(level, ts, i, j, e);
      if AtLevel(level + 1, ts, i, j, e) {
        LevelReads(level + 1, ts, i, j, e);
        FromAbove(e, level, ts, i, j - i);
      } else {
        var k {:trigger ts[k]} :| i < k < j && e.Binary? && OpOf(ts[k]) == Some(e.op) && Precedence(e.op) == level
          && AtLevel(level, ts, i, k, e.left) && AtLevel(level + 1, ts, k + 1, j, e.right);
        InfixReads(level, ts, i, k, j, e);
      }
    }
  }

  lemma {:induction false} InfixReads(level: nat, ts: seq<Token>, i: nat, k: nat, j: nat, e: Expr)
    requires level <= 4 && i < k < j <= |ts| && Scanned(ts) && e.Binary?
    requires OpOf(ts[k]) == Some(e.op) && Precedence(e.op) == level && StopsAt(ts, j, level + 1)
    requires AtLevel(level, ts, i, k, e.left) && AtLevel(level + 1, ts, k + 1, j, e.right)
    ensures Reads(e, level, ts, i, j - i)
    decreases j - i, 0
  {
    hide At, Loop, Reads, Precedence, OpOf, AtLevel;
    OperatorStops(ts, k, e.op);
    LevelReads(level, ts, i, k, e.left);
    FirstKnown(level + 1, ts, k + 1, j, e.right);
    LevelReads(level + 1, ts, k + 1, j, e.right);
    Complete(e.right, level + 1, ts, k + 1, j - (k + 1));
    SqlRoundTrip.Join(e.left, e.op, e.right, ts, i, k - i, j - (k + 1));
  }

  /** The parser succeeds with a tree and an end if and only if the tokens up to there are that expression
      in the grammar and it goes no further. */
  lemma ExprExact(ts: seq<Token>, i: nat, j: nat, e: Expr)
    requires i <= |ts| && Scanned(ts)
    ensures At(0, ts, i) == Some((e, j)) <==> Whole(ts, i, j, e)
  {
    hide IsExpr, At;
    OperatorIs(ts, j);
    AtSound(0, ts, i);
    if Whole(ts, i, j, e) {
      ExprReads(ts, i, j, e);
    }
  }

  /** The same from the first token on: this is the language of the parser, and its trees. */
  lemma ParseExact(ts: seq<Token>, j: nat, e: Expr)
    requires Scanned(ts)
    ensures Parse(ts) == Some((e, j)) <==> Whole(ts, 0, j, e)
  {
    ExprExact(ts, 0, j, e);
    if Whole(ts, 0, j, e) {
      FirstKnown(0, ts, 0, j, e);
    }
  }
}
