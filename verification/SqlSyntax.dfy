/** The expressions of Database.java and their tokens. */
module SqlSyntax {
  import opened Options

  datatype LogicalOp = OrOp | AndOp

  datatype RelationalOp = EQ | LT | GT | LE | GE | NE | LIKE

  datatype MathOp = PLUS | MINUS | TIMES | DIVIDE

  datatype Value = Str(lexeme: string) | Num(lexeme: string) | NullValue | Id(table: Option<string>, column: string)

  datatype Op = Logical(l: LogicalOp) | Relational(r: RelationalOp) | Math(m: MathOp)

  datatype Expr = Binary(left: Expr, op: Op, right: Expr) | Not(operand: Expr) | Atom(value: Value)

  /** What the scanner delivers.  `Unrecognized` stands for input that no token matches: the scanner
      throws when it gets there.  `Other` is any token that no expression contains. */
  datatype Token =
    | OrToken
    | AndToken
    | Relop(lexeme: string)
    | EqualToken
    | LikeToken
    | Additive(lexeme: string)
    | StarToken
    | SlashToken
    | NotToken
    | LeftParen
    | RightParen
    | DotToken
    | StringToken(lexeme: string)
    | NumberToken(lexeme: string)
    | NullToken
    | Identifier(lexeme: string)
    | Other
    | Unrecognized

  /** How tightly an operator binds: OR 0, AND 1, relations 2, sums 3, products 4. */
  function Precedence(op: Op): (p: nat)
    ensures p <= 4
  {
    match op
    case Logical(OrOp) => 0
    case Logical(AndOp) => 1
    case Relational(_) => 2
    case Math(PLUS) => 3
    case Math(MINUS) => 3
    case Math(_) => 4
  }

  /** The operator that the lexeme of a RELOP token stands for. */
  function RelopOf(lexeme: string): RelationalOp {
    if |lexeme| == 1 then if lexeme[0] == '<' then LT else GT
    else if |lexeme| >= 2 && lexeme[0] == '<' && lexeme[1] == '>' then NE
    else if |lexeme| >= 1 && lexeme[0] == '<' then LE
    else GE
  }

  /** The operator that a token stands for. */
  function OpOf(t: Token): Option<Op> {
    match t
    case OrToken => Some(Logical(OrOp))
    case AndToken => Some(Logical(AndOp))
    case Relop(lexeme) => Some(Relational(RelopOf(lexeme)))
    case EqualToken => Some(Relational(EQ))
    case LikeToken => Some(Relational(LIKE))
    case Additive(lexeme) => Some(Math(if |lexeme| >= 1 && lexeme[0] == '+' then PLUS else MINUS))
    case StarToken => Some(Math(TIMES))
    case SlashToken => Some(Math(DIVIDE))
    case _ => None
  }

  function TokenOf(op: Op): (t: Token)
    ensures OpOf(t) == Some(op)
  {
    match op
    case Logical(OrOp) => OrToken
    case Logical(AndOp) => AndToken
    case Relational(EQ) => EqualToken
    case Relational(LIKE) => LikeToken
    case Relational(LT) => Relop("<")
    case Relational(GT) => Relop(">")
    case Relational(LE) => Relop("<=")
    case Relational(GE) => Relop(">=")
    case Relational(NE) => Relop("<>")
    case Math(PLUS) => Additive("+")
    case Math(MINUS) => Additive("-")
    case Math(TIMES) => StarToken
    case Math(DIVIDE) => SlashToken
  }

  // ----- The grammar, as the parser reads it.

  /** The token that is looked at is the i-th; past it is the end of the input. */
  function Advance(ts: seq<Token>, i: nat): (r: Option<nat>)
    requires i < |ts|
    ensures r.Some? ==> r.value == i + 1
  {
    if i + 1 < |ts| && ts[i + 1] == Unrecognized then None else Some(i + 1)
  }

  /** The operator at the i-th token, if it is one of this level. */
  function OpAt(level: nat, ts: seq<Token>, i: nat): (r: Option<Op>)
    ensures r.Some? ==> i < |ts|
  {
    if i < |ts| && OpOf(ts[i]).Some? && Precedence(OpOf(ts[i]).value) == level then OpOf(ts[i]) else None
  }

  type Parsed = Option<(Expr, nat)>

  /** expr, andExpr, relationalExpr, additiveExpr and multiplicativeExpr are the levels 0 to 4, and
      term is level 5. */
  function At(level: nat, ts: seq<Token>, i: nat): (r: Parsed)
    requires level <= 5 && i <= |ts|
    ensures r.Some? ==> i < r.value.1 <= |ts|
    decreases |ts| - i, 6 - level, 0
  {
    if level == 5 then Term(ts, i)
    else
      match At(level + 1, ts, i)
      case None => None
      case Some(first) => Loop(level, ts, first.1, first.0)
  }

  /** The loop of one level, with what stands to the left. */
  function Loop(level: nat, ts: seq<Token>, i: nat, left: Expr): (r: Parsed)
    requires level <= 4 && i <= |ts|
    ensures r.Some? ==> i <= r.value.1 <= |ts|
    decreases |ts| - i, 6 - level, 1
  {
    match OpAt(level, ts, i)
    case None => Some((left, i))
    case Some(op) =>
      match Advance(ts, i)
      case None => None
      case Some(j) =>
        match At(level + 1, ts, j)
        case None => None
        case Some(next) => Loop(level, ts, next.1, Binary(left, op, next.0))
  }

  /** term ::= NOT expr | LP expr RP | factor */
  function Term(ts: seq<Token>, i: nat): (r: Parsed)
    requires i <= |ts|
    ensures r.Some? ==> i < r.value.1 <= |ts|
    decreases |ts| - i, 0, 0
  {
    if i == |ts| then None
    else if ts[i] == NotToken || ts[i] == LeftParen then
      match Advance(ts, i)
      case None => None
      case Some(j) =>
        match At(0, ts, j)
        case None => None
        case Some(inner) =>
          if ts[i] == NotToken then Some((Not(inner.0), inner.1))
          else if inner.1 == |ts| || ts[inner.1] != RightParen then None
          else match Advance(ts, inner.1)
            case None => None
            case Some(k) => Some((inner.0, k))
    else Factor(ts, i)
  }

  /** factor ::= STRING | NUMBER | NULL | IDENTIFIER [ DOT IDENTIFIER ] */
  function Factor(ts: seq<Token>, i: nat): (r: Parsed)
    requires i < |ts|
    ensures r.Some? ==> i < r.value.1 <= |ts|
  {
    match Advance(ts, i)
    case None => None
    case Some(j) =>
      match ts[i]
      case StringToken(lexeme) => Some((Atom(Str(lexeme)), j))
      case NumberToken(lexeme) => Some((Atom(Num(lexeme)), j))
      case NullToken => Some((Atom(NullValue), j))
      case Identifier(name) =>
        if j == |ts| || ts[j] != DotToken then Some((Atom(Id(None, name)), j))
        else
          (match Advance(ts, j)
           case None => None
           case Some(k) =>
             if k == |ts| || !ts[k].Identifier? then None
             else
               match Advance(ts, k)
               case None => None
               case Some(end) => Some((Atom(Id(Some(name), ts[k].lexeme)), end)))
      case _ => None
  }

  /** Scanning to the first token, and `expr`. */
  function Parse(ts: seq<Token>): Parsed {
    if ts != [] && ts[0] == Unrecognized then None else At(0, ts, 0)
  }
}
