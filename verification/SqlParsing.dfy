/** The parser of Database.java: one method for each level, over a scanner that is shared. */
module SqlParsing {
  import opened Options
  import opened SqlSyntax
  import SqlGrammar

  class ExpressionParser {
    /** What the scanner delivers, and the position of the current token. */
    const tokens: seq<Token>
    var at: nat

    constructor (tokens: seq<Token>)
      ensures this.tokens == tokens && at == 0
    {
      this.tokens := tokens;
      at := 0;
    }

    /** The result and the position are those of the grammar; None stands for the ParseFailure. */
    static predicate Agrees(r: Option<Expr>, at: nat, p: Parsed) {
      match p
      case None => r == None
      case Some(read) => r == Some(read.0) && at == read.1
    }

    /** `advance`, past the current token. */
    method AdvanceToken() returns (ok: bool)
      requires at < |tokens|
      modifies this`at
      ensures at == old(at) + 1 && ok == Advance(tokens, old(at)).Some?
    {
      at := at + 1;
      ok := at == |tokens| || tokens[at] != Unrecognized;
    }

    /** `expr ::= andExpr { OR andExpr }` */
    method Expr() returns (r: Option<Expr>)
      requires at <= |tokens|
      modifies this`at
      ensures Agrees(r, at, At(0, tokens, old(at)))
      decreases |tokens| - at, 6
    {
      r := AndExpr();
      if r.None? {
        return;
      }
      var left := r.value;
      while at < |tokens| && tokens[at] == OrToken
        invariant old(at) < at <= |tokens|
        invariant Loop(0, tokens, at, left) == At(0, tokens, old(at))
        decreases |tokens| - at
      {
        var ok := AdvanceToken();
        if !ok {
          return None;
        }
        var right := AndExpr();
        if right.None? {
          return None;
        }
        left := Binary(left, Logical(OrOp), right.value);
      }
      return Some(left);
    }

    /** `andExpr ::= relationalExpr { AND relationalExpr }` */
    method AndExpr() returns (r: Option<Expr>)
      requires at <= |tokens|
      modifies this`at
      ensures Agrees(r, at, At(1, tokens, old(at)))
      decreases |tokens| - at, 5
    {
      r := RelationalExpr();
      if r.None? {
        return;
      }
      var left := r.value;
      while at < |tokens| && tokens[at] == AndToken
        invariant old(at) < at <= |tokens|
        invariant Loop(1, tokens, at, left) == At(1, tokens, old(at))
        decreases |tokens| - at
      {
        var ok := AdvanceToken();
        if !ok {
          return None;
        }
        var right := RelationalExpr();
        if right.None? {
          return None;
        }
        left := Binary(left, Logical(AndOp), right.value);
      }
      return Some(left);
    }

    /** `relationalExpr ::= additiveExpr { RELOP additiveExpr | EQUAL additiveExpr | LIKE additiveExpr }` */
    method RelationalExpr() returns (r: Option<Expr>)
      requires at <= |tokens|
      modifies this`at
      ensures Agrees(r, at, At(2, tokens, old(at)))
      decreases |tokens| - at, 4
    {
      r := AdditiveExpr();
      if r.None? {
        return;
      }
      var left := r.value;
      while true
        invariant old(at) < at <= |tokens|
        invariant Loop(2, tokens, at, left) == At(2, tokens, old(at))
        decreases |tokens| - at
      {
        var op;
        if at < |tokens| && tokens[at].Relop? {
          var lexeme := tokens[at].lexeme;
          if |lexeme| == 1 {
            op := if lexeme[0] == '<' then LT else GT;
          } else if |lexeme| >= 2 && lexeme[0] == '<' && lexeme[1] == '>' {
            op := NE;
          } else {
            op := if |lexeme| >= 1 && lexeme[0] == '<' then LE else GE;
          }
        } else if at < |tokens| && tokens[at] == EqualToken {
          op := EQ;
        } else if at < |tokens| && tokens[at] == LikeToken {
          op := LIKE;
        } else {
          return Some(left);
        }
        var ok := AdvanceToken();
        if !ok {
          return None;
        }
        var right := AdditiveExpr();
        if right.None? {
          return None;
        }
        left := Binary(left, Relational(op), right.value);
      }
    }

    /** `additiveExpr ::= multiplicativeExpr { ADDITIVE multiplicativeExpr }` */
    method AdditiveExpr() returns (r: Option<Expr>)
      requires at <= |tokens|
      modifies this`at
      ensures Agrees(r, at, At(3, tokens, old(at)))
      decreases |tokens| - at, 3
    {
      r := MultiplicativeExpr();
      if r.None? {
        return;
      }
      var left := r.value;
      while at < |tokens| && tokens[at].Additive?
        invariant old(at) < at <= |tokens|
        invariant Loop(3, tokens, at, left) == At(3, tokens, old(at))
        decreases |tokens| - at
      {
        var lexeme := tokens[at].lexeme;
        var op := if |lexeme| >= 1 && lexeme[0] == '+' then PLUS else MINUS;
        var ok := AdvanceToken();
        if !ok {
          return None;
        }
        var right := MultiplicativeExpr();
        if right.None? {
          return None;
        }
        left := Binary(left, Math(op), right.value);
      }
      return Some(left);
    }

    /** `multiplicativeExpr ::= term { STAR term | SLASH term }` */
    method MultiplicativeExpr() returns (r: Option<Expr>)
      requires at <= |tokens|
      modifies this`at
      ensures Agrees(r, at, At(4, tokens, old(at)))
      decreases |tokens| - at, 2
    {
      r := Term();
      if r.None? {
        return;
      }
      var left := r.value;
      while at < |tokens| && (tokens[at] == StarToken || tokens[at] == SlashToken)
        invariant old(at) < at <= |tokens|
        invariant Loop(4, tokens, at, left) == At(4, tokens, old(at))
        decreases |tokens| - at
      {
        var op := if tokens[at] == StarToken then TIMES else DIVIDE;
        var ok := AdvanceToken();
        if !ok {
          return None;
        }
        var right := Term();
        if right.None? {
          return None;
        }
        left := Binary(left, Math(op), right.value);
      }
      return Some(left);
    }

    /** `term ::= NOT expr | LP expr RP | factor` */
    method Term() returns (r: Option<Expr>)
      requires at <= |tokens|
      modifies this`at
      ensures Agrees(r, at, At(5, tokens, old(at)))
      decreases |tokens| - at, 1
    {
      assert At(5, tokens, at) == SqlSyntax.Term(tokens, at);
      if at == |tokens| {
        return None;
      } else if tokens[at] == NotToken {
        var ok := AdvanceToken();
        if !ok {
          return None;
        }
        r := Expr();
        return if r.Some? then Some(Not(r.value)) else None;
      } else if tokens[at] == LeftParen {
        var ok := AdvanceToken();
        if !ok {
          return None;
        }
        r := Expr();
        if r.None? || at == |tokens| || tokens[at] != RightParen {
          return None;
        }
        ok := AdvanceToken();
        return if ok then r else None;
      }
      r := Factor();
    }

    /** `factor ::= STRING | NUMBER | NULL | IDENTIFIER [ DOT IDENTIFIER ]` */
    method Factor() returns (r: Option<Expr>)
      requires at < |tokens|
      modifies this`at
      ensures Agrees(r, at, SqlSyntax.Factor(tokens, old(at)))
      decreases |tokens| - at, 0
    {
      var t := tokens[at];
      var ok := AdvanceToken();
      if !ok {
        return None;
      }
      match t
      case StringToken(lexeme) => return Some(Atom(Str(lexeme)));
      case NumberToken(lexeme) => return Some(Atom(Num(lexeme)));
      case NullToken => return Some(Atom(NullValue));
      case Identifier(name) =>
        if at == |tokens| || tokens[at] != DotToken {
          return Some(Atom(Id(None, name)));
        }
        ok := AdvanceToken();
        if !ok || at == |tokens| || !tokens[at].Identifier? {
          return None;
        }
        var column := tokens[at].lexeme;
        ok := AdvanceToken();
        return if ok then Some(Atom(Id(Some(name), column))) else None;
      case _ => return None;
    }

    /** The first token, and the expression that begins there. */
    method ParseExpression() returns (r: Option<Expr>)
      modifies this`at
      ensures Agrees(r, at, Parse(tokens))
      ensures SqlGrammar.Scanned(tokens) ==>
                if r.Some? then SqlGrammar.Whole(tokens, 0, at, r.value)
                else forall e, j :: !SqlGrammar.Whole(tokens, 0, j, e)
    {
      hide SqlGrammar.Whole, At, SqlGrammar.Scanned;
      forall e, j: nat | SqlGrammar.Scanned(tokens)
        ensures Parse(tokens) == Some((e, j)) <==> SqlGrammar.Whole(tokens, 0, j, e)
      {
        SqlGrammar.ParseExact(tokens, j, e);
      }
      at := 0;
      if tokens != [] && tokens[0] == Unrecognized {
        return None;
      }
      r := Expr();
    }
  }
}
