/** json_parse_state.js: a pushdown automaton over the variables state, stack, container, key and
    value, driven by the action tables. */
module StateMachine {
  import opened Options
  import opened Texts
  import opened JsonValues
  import opened TokenLexer
  import GrammarMeaning
  import JsonGrammar
  import JsonTexts

  datatype State =
    | Go | Done
    | FirstOKey | OKey | AtColon | OValue | OComma
    | FirstAValue | AValue | AComma

  /** The current container; a frame pushed in state `go` saves none. */
  datatype Container = NoContainer | ArrayOf(elems: seq<Value>) | ObjectOf(members: seq<Member>)

  datatype Frame = Frame(container: Container, state: State, key: Option<Text>)

  datatype Config = Config(
    state: State,
    stack: seq<Frame>,
    container: Container,
    key: Option<Text>,
    value: Value)

  /** The states in which a value may start. */
  predicate ExpectsValue(s: State) {
    s in {Go, OValue, FirstAValue, AValue}
  }

  /** The state that a complete value leads to. */
  function AfterValue(s: State): State
    requires ExpectsValue(s)
  {
    match s
    case Go => Done
    case OValue => OComma
    case _ => AComma
  }

  /** The container, and the key that waits for its value, are what the state calls for. */
  predicate Fits(s: State, c: Container, k: Option<Text>) {
    match s
    case Go => true
    case Done => true
    case FirstOKey => c == ObjectOf([])
    case OKey => c.ObjectOf? && c.members != [] && DistinctKeys(c.members)
    case AtColon => c.ObjectOf? && DistinctKeys(c.members) && k.Some?
    case OValue => c.ObjectOf? && DistinctKeys(c.members) && k.Some? && !HasKey(c.members, k.value)
    case OComma => c.ObjectOf? && DistinctKeys(c.members) && k.Some? && !HasKey(c.members, k.value)
    case FirstAValue => c == ArrayOf([])
    case AValue => c.ArrayOf? && c.elems != []
    case AComma => c.ArrayOf?
  }

  /** What holds in every reachable configuration: the stack is empty exactly in the first and the
      last state, the bottom frame returns to the accepting state, every other frame returns to
      the comma state of the kind of container it saves, and no pending key is in its container. */
  predicate Wf(c: Config) {
    && (c.stack == [] <==> c.state in {Go, Done})
    && Fits(c.state, c.container, c.key)
    && (c.stack != [] ==> c.stack[0].state == Done)
    && forall i :: 1 <= i < |c.stack| ==>
         c.stack[i].state in {OComma, AComma} && Fits(c.stack[i].state, c.stack[i].container, c.stack[i].key)
  }

  /** `{` and `[`: save the surroundings, except that only an object value saves its key. */
  function Push(c: Config, inner: Container, s: State): Config
    requires ExpectsValue(c.state)
  {
    var saved :=
      match c.state
      case Go => Frame(NoContainer, Done, None)
      case OValue => Frame(c.container, OComma, c.key)
      case _ => Frame(c.container, AComma, None);
    c.(stack := c.stack + [saved], container := inner, state := s)
  }

  function ToValue(c: Container): Value
    requires !c.NoContainer?
  {
    match c
    case ArrayOf(elems) => Arr(elems)
    case ObjectOf(members) => Obj(members)
  }

  /** `}` and `]`: the finished container is the value; the surroundings come back. */
  function Pop(c: Config, finished: Container): Config
    requires c.stack != [] && !finished.NoContainer?
  {
    var top := c.stack[|c.stack| - 1];
    Config(top.state, c.stack[..|c.stack| - 1], top.container, top.key, ToValue(finished))
  }

  function Take(c: Config, v: Value): Option<Config> {
    if ExpectsValue(c.state) then Some(c.(value := v, state := AfterValue(c.state))) else None
  }

  /** One action of the tables; None is the error of a missing action or of a duplicate key. */
  function Step(c: Config, tok: Token): (r: Option<Config>)
    requires Wf(c)
    ensures r.Some? ==> Wf(r.value)
    ensures r.Some? ==> |r.value.stack| == |c.stack| + Nesting(tok)
  {
    match tok
    case OpenBrace => if ExpectsValue(c.state) then Some(Push(c, ObjectOf([]), FirstOKey)) else None
    case OpenBracket => if ExpectsValue(c.state) then Some(Push(c, ArrayOf([]), FirstAValue)) else None
    case CloseBrace =>
      if c.state == FirstOKey then Some(Pop(c, c.container))
      else if c.state == OComma then
        Some(Pop(c, ObjectOf(Assign(c.container.members, c.key.value, c.value))))
      else None
    case CloseBracket =>
      if c.state == FirstAValue then Some(Pop(c, c.container))
      else if c.state == AComma then Some(Pop(c, ArrayOf(c.container.elems + [c.value])))
      else None
    case ColonTok =>
      if c.state == AtColon && !HasKey(c.container.members, c.key.value) then Some(c.(state := OValue))
      else None
    case CommaTok =>
      if c.state == OComma then
        AssignFresh(c.container.members, c.key.value, c.value);
        DistinctAppend(c.container.members, c.key.value, c.value);
        Some(c.(container := ObjectOf(Assign(c.container.members, c.key.value, c.value)), state := OKey))
      else if c.state == AComma then
        Some(c.(container := ArrayOf(c.container.elems + [c.value]), state := AValue))
      else None
    case TrueTok => Take(c, Bool(true))
    case FalseTok => Take(c, Bool(false))
    case NullTok => Take(c, Null)
    case NumTok(lexeme) => Take(c, Num(lexeme))
    case StrTok(text) =>
      if c.state in {FirstOKey, OKey} then Some(c.(value := Str(text), key := Some(text), state := AtColon))
      else Take(c, Str(text))
  }

  function Nesting(tok: Token): int {
    match tok
    case OpenBrace => 1
    case OpenBracket => 1
    case CloseBrace => -1
    case CloseBracket => -1
    case _ => 0
  }

  /** The machine over a whole token sequence. */
  function Run(c: Config, ts: seq<Token>): (r: Option<Config>)
    requires Wf(c)
    ensures r.Some? ==> Wf(r.value)
    decreases |ts|
  {
    if ts == [] then Some(c)
    else
      match Step(c, ts[0])
      case None => None
      case Some(next) => Run(next, ts[1..])
  }

  /** The answer for the tokens that are left: the value if they lead to the accepting state;
      every other end is a syntax error. */
  function Accept(c: Config, ts: seq<Token>): Option<Value>
    requires Wf(c)
    decreases |ts|
  {
    if ts == [] then (if c.state == Done then Some(c.value) else None)
    else
      match Step(c, ts[0])
      case None => None
      case Some(next) => Accept(next, ts[1..])
  }

  lemma {:induction false} AcceptIsRun(c: Config, ts: seq<Token>)
    requires Wf(c)
    ensures Accept(c, ts) == match Run(c, ts)
                             case None => None
                             case Some(last) => if last.state == Done then Some(last.value) else None
    decreases |ts|
  {
    if ts != [] && Step(c, ts[0]).Some? {
      AcceptIsRun(Step(c, ts[0]).value, ts[1..]);
    }
  }

  /** The net number of brackets that a token sequence leaves open. */
  function OpenBrackets(ts: seq<Token>): int {
    if ts == [] then 0 else Nesting(ts[0]) + OpenBrackets(ts[1..])
  }

  /** In every run the stack grows by exactly the brackets that are left open. */
  lemma {:induction false} StackDepth(c: Config, ts: seq<Token>)
    requires Wf(c)
    ensures Run(c, ts).Some? ==> |Run(c, ts).value.stack| == |c.stack| + OpenBrackets(ts)
    decreases |ts|
  {
    if ts != [] && Step(c, ts[0]).Some? {
      StackDepth(Step(c, ts[0]).value, ts[1..]);
    }
  }

  /** The configuration after a complete value: the value is in `value` and the surroundings are
      untouched, but closing a container overwrites `key` with what the frame saved. */
  function WithValue(c: Config, v: Value): (r: Config)
    requires ExpectsValue(c.state)
    ensures Wf(c) ==> Wf(r)
  {
    c.(value := v,
       state := AfterValue(c.state),
       key := if (v.Arr? || v.Obj?) && c.state != OValue then None else c.key,
       container := if (v.Arr? || v.Obj?) && c.state == Go then NoContainer else c.container)
  }

  /** The machine waits for a value, and is not about to close an empty array. */
  predicate AtValue(c: Config, ts: seq<Token>) {
    Wf(c) && ExpectsValue(c.state) && (c.state == FirstAValue && ts != [] ==> !ts[0].CloseBracket?)
  }

  /** Where a value may start, the machine does with a grammatical value what the grammar says,
      and never accepts when the grammar finds none. */
  lemma {:induction false} RunValue(c: Config, ts: seq<Token>)
    requires AtValue(c, ts)
    ensures match JsonGrammar.ValueAt(ts)
            case None => Accept(c, ts) == None
            case Some(one) => Accept(c, ts) == Accept(WithValue(c, one.0), one.1)
    decreases |ts|, 1
  {
    if ts == [] {
    } else if ts[0].OpenBracket? {
      RunArray(c, ts);
    } else if ts[0].OpenBrace? {
      RunObject(c, ts);
    } else {
      RunScalar(c, ts);
    }
  }

  lemma RunScalar(c: Config, ts: seq<Token>)
    requires AtValue(c, ts) && ts != [] && !ts[0].OpenBracket? && !ts[0].OpenBrace?
    ensures match JsonGrammar.ValueAt(ts)
            case None => Accept(c, ts) == None
            case Some(one) => Accept(c, ts) == Accept(WithValue(c, one.0), one.1)
  {
    var result := JsonGrammar.ValueAt(ts);
    if result.Some? {
      assert result.value.1 == ts[1..];
      assert Step(c, ts[0]) == Some(WithValue(c, result.value.0));
    } else {
      assert Step(c, ts[0]) == None;
    }
  }

  lemma {:induction false} RunArray(c: Config, ts: seq<Token>)
    requires AtValue(c, ts) && ts != [] && ts[0].OpenBracket?
    ensures match JsonGrammar.ValueAt(ts)
            case None => Accept(c, ts) == None
            case Some(one) => Accept(c, ts) == Accept(WithValue(c, one.0), one.1)
    decreases |ts|, 0
  {
    var inside := Push(c, ArrayOf([]), FirstAValue);
    assert Step(c, ts[0]) == Some(inside);
    assert Accept(c, ts) == Accept(inside, ts[1..]);
    if |ts| > 1 && ts[1].CloseBracket? {
      assert Step(inside, ts[1]) == Some(WithValue(c, Arr([])));
      assert ts[1..][1..] == ts[2..];
    } else {
      RunElements(c, inside, ts[1..], []);
      assert JsonGrammar.ValueAt(ts) == JsonGrammar.ElementsAt(ts[1..], []);
    }
  }

  lemma {:induction false} RunObject(c: Config, ts: seq<Token>)
    requires AtValue(c, ts) && ts != [] && ts[0].OpenBrace?
    ensures match JsonGrammar.ValueAt(ts)
            case None => Accept(c, ts) == None
            case Some(one) => Accept(c, ts) == Accept(WithValue(c, one.0), one.1)
    decreases |ts|, 0
  {
    var inside := Push(c, ObjectOf([]), FirstOKey);
    assert Step(c, ts[0]) == Some(inside);
    assert Accept(c, ts) == Accept(inside, ts[1..]);
    if |ts| > 1 && ts[1].CloseBrace? {
      assert Step(inside, ts[1]) == Some(WithValue(c, Obj([])));
      assert ts[1..][1..] == ts[2..];
    } else {
      RunMembers(c, inside, ts[1..], []);
      assert JsonGrammar.ValueAt(ts) == JsonGrammar.MembersAt(ts[1..], []);
    }
  }

  /** `inside` is the machine within an array that was opened in configuration `c`. */
  predicate InArray(c: Config, inside: Config, done: seq<Value>)
    requires ExpectsValue(c.state)
  {
    && Wf(c) && Wf(inside)
    && inside.state == (if done == [] then FirstAValue else AValue)
    && inside.container == ArrayOf(done)
    && inside.stack == Push(c, ArrayOf([]), FirstAValue).stack
  }

  /** `inside` is the machine within an object that was opened in configuration `c`. */
  predicate InObject(c: Config, inside: Config, done: seq<Member>)
    requires ExpectsValue(c.state)
  {
    && Wf(c) && Wf(inside)
    && inside.state == (if done == [] then FirstOKey else OKey)
    && inside.container == ObjectOf(done)
    && inside.stack == Push(c, ObjectOf([]), FirstOKey).stack
  }

  /** What `]` and `,` do after an element. */
  lemma ElementEnd(c: Config, inside: Config, done: seq<Value>, v: Value)
    requires ExpectsValue(c.state) && InArray(c, inside, done)
    ensures var after := WithValue(inside, v);
            && Wf(after) && after.state == AComma
            && Step(after, CloseBracket) == Some(WithValue(c, Arr(done + [v])))
            && Step(after, CommaTok).Some? && InArray(c, Step(after, CommaTok).value, done + [v])
            && (forall ts :: AtValue(Step(after, CommaTok).value, ts))
            && forall tok :: tok != CloseBracket && tok != CommaTok ==> Step(after, tok) == None
  {
  }

  lemma {:induction false} RunElements(c: Config, inside: Config, ts: seq<Token>, done: seq<Value>)
    requires ExpectsValue(c.state) && InArray(c, inside, done) && AtValue(inside, ts)
    ensures match JsonGrammar.ElementsAt(ts, done)
            case None => Accept(inside, ts) == None
            case Some(one) => Accept(inside, ts) == Accept(WithValue(c, one.0), one.1)
    decreases |ts|, 2
  {
    hide InArray, WithValue, Step, Push;
    RunValue(inside, ts);
    if JsonGrammar.ValueAt(ts).Some? {
      var (v, rest) := JsonGrammar.ValueAt(ts).value;
      ElementEnd(c, inside, done, v);
      if rest != [] && rest[0].CommaTok? {
        RunElements(c, Step(WithValue(inside, v), CommaTok).value, rest[1..], done + [v]);
      }
    }
  }

  lemma {:induction false} RunMembers(c: Config, inside: Config, ts: seq<Token>, done: seq<Member>)
    requires ExpectsValue(c.state) && InObject(c, inside, done)
    requires done == [] && ts != [] ==> !ts[0].CloseBrace?
    ensures match JsonGrammar.MembersAt(ts, done)
            case None => Accept(inside, ts) == None
            case Some(one) => Accept(inside, ts) == Accept(WithValue(c, one.0), one.1)
    decreases |ts|, 2
  {
    if ts != [] && ts[0].StrTok? {
      var keyed := Step(inside, ts[0]).value;
      assert Accept(inside, ts) == Accept(keyed, ts[1..]);
      if |ts| > 1 && ts[1].ColonTok? && !HasKey(done, ts[0].text) {
        var waiting := keyed.(state := OValue);
        assert Step(keyed, ts[1]) == Some(waiting);
        assert ts[1..][1..] == ts[2..];
        RunValue(waiting, ts[2..]);
        if JsonGrammar.ValueAt(ts[2..]).Some? {
          RunMemberEnd(c, waiting, ts[2..], done);
        }
      }
    }
  }

  /** After the value of a member: the object ends, or the comma leads to the next member. */
  lemma {:induction false} RunMemberEnd(c: Config, waiting: Config, ts: seq<Token>, done: seq<Member>)
    requires ExpectsValue(c.state) && Wf(c) && Wf(waiting)
    requires waiting.state == OValue && waiting.container == ObjectOf(done)
    requires waiting.stack == Push(c, ObjectOf([]), FirstOKey).stack
    requires JsonGrammar.ValueAt(ts).Some?
    ensures var (v, rest) := JsonGrammar.ValueAt(ts).value;
            var all := done + [Member(waiting.key.value, v)];
            var answer := Accept(WithValue(waiting, v), rest);
            if rest != [] && rest[0].CloseBrace? then answer == Accept(WithValue(c, Obj(all)), rest[1..])
            else if rest != [] && rest[0].CommaTok? then
              match JsonGrammar.MembersAt(rest[1..], all)
              case None => answer == None
              case Some(one) => answer == Accept(WithValue(c, one.0), one.1)
            else answer == None
    decreases |ts|, 2
  {
    var (v, rest) := JsonGrammar.ValueAt(ts).value;
    var all := done + [Member(waiting.key.value, v)];
    MemberEnd(c, waiting, done, v);
    if rest != [] && rest[0].CommaTok? {
      RunMembers(c, Step(WithValue(waiting, v), CommaTok).value, rest[1..], all);
    }
  }

  /** What `}` and `,` do after the value of a member. */
  lemma MemberEnd(c: Config, waiting: Config, done: seq<Member>, v: Value)
    requires ExpectsValue(c.state) && Wf(c) && Wf(waiting)
    requires waiting.state == OValue && waiting.container == ObjectOf(done)
    requires waiting.stack == Push(c, ObjectOf([]), FirstOKey).stack
    ensures var after := WithValue(waiting, v);
            var all := done + [Member(waiting.key.value, v)];
            && Wf(after) && after.state == OComma
            && Step(after, CloseBrace) == Some(WithValue(c, Obj(all)))
            && Step(after, CommaTok).Some? && InObject(c, Step(after, CommaTok).value, all)
  {
    AssignFresh(done, waiting.key.value, v);
  }

  predicate Initial(c: Config) {
    c.state == Go && c.stack == []
  }

  /** On every token sequence the machine accepts exactly the sequences the grammar accepts, with
      the same value, whatever an earlier run left in container, key and value. */
  lemma MachineIsGrammar(c: Config, ts: seq<Token>)
    requires Initial(c)
    ensures Accept(c, ts) == JsonGrammar.Parse(ts)
  {
    RunValue(c, ts);
    match JsonGrammar.ValueAt(ts)
    case None =>
    case Some(one) =>
      if one.1 != [] {
        assert Step(WithValue(c, one.0), one.1[0]) == None;
      }
  }

  /** The value of a source text: its tokens parse, and nothing but white space is left over. */
  function ParseText(source: Text): Option<Value> {
    match Tokenize(source)
    case None => None
    case Some(ts) => JsonGrammar.Parse(ts)
  }

  /** The token loop from configuration `c`: it stops where no token starts, and what is left then
      must be white space. */
  function RunText(c: Config, source: Text): Option<Value>
    requires Wf(c)
    decreases |source|
  {
    match Exec(source)
    case None => if c.state == Done && SkipJsonSpace(source) == [] then Some(c.value) else None
    case Some(next) =>
      match Step(c, next.0)
      case None => None
      case Some(after) => RunText(after, next.1)
  }

  lemma {:induction false} RunTextIsAccept(c: Config, source: Text)
    requires Wf(c)
    ensures RunText(c, source) == match Tokenize(source)
                                  case None => None
                                  case Some(ts) => Accept(c, ts)
    decreases |source|
  {
    match Exec(source)
    case None =>
    case Some(next) =>
      match Step(c, next.0)
      case None =>
      case Some(after) => RunTextIsAccept(after, next.1);
  }

  class StateParser {
    var state: State
    var stack: seq<Frame>
    var container: Container
    var key: Option<Text>
    var value: Value

    constructor ()
      ensures Wf(Now())
    {
      state, stack, container, key, value := Go, [], NoContainer, None, Undefined;
    }

    ghost function Now(): Config
      reads this
    {
      Config(state, stack, container, key, value)
    }

    /** The table action for a token in the current state; false when it throws. */
    method Act(tok: Token) returns (legal: bool)
      requires Wf(Now())
      modifies this
      ensures legal == Step(old(Now()), tok).Some?
      ensures legal ==> Now() == Step(old(Now()), tok).value
    {
      legal := true;
      match tok {
        case OpenBrace =>
          legal := Open(ObjectOf([]), FirstOKey);
        case OpenBracket =>
          legal := Open(ArrayOf([]), FirstAValue);
        case CloseBrace =>
          if state == FirstOKey {
            Close();
          } else if state == OComma {
            container := ObjectOf(Assign(container.members, key.value, value));
            Close();
          } else {
            legal := false;
          }
        case CloseBracket =>
          if state == FirstAValue {
            Close();
          } else if state == AComma {
            container := ArrayOf(container.elems + [value]);
            Close();
          } else {
            legal := false;
          }
        case ColonTok =>
          if state == AtColon && !HasKey(container.members, key.value) {
            state := OValue;
          } else {
            legal := false;
          }
        case CommaTok =>
          if state == OComma {
            container := ObjectOf(Assign(container.members, key.value, value));
            state := OKey;
          } else if state == AComma {
            container := ArrayOf(container.elems + [value]);
            state := AValue;
          } else {
            legal := false;
          }
        case TrueTok => legal := Scalar(Bool(true));
        case FalseTok => legal := Scalar(Bool(false));
        case NullTok => legal := Scalar(Null);
        case NumTok(lexeme) => legal := Scalar(Num(lexeme));
        case StrTok(text) =>
          if state in {FirstOKey, OKey} {
            value := Str(text);
            key := Some(text);
            state := AtColon;
          } else {
            legal := Scalar(Str(text));
          }
      }
    }

    method Open(inner: Container, s: State) returns (legal: bool)
      modifies this
      ensures legal == ExpectsValue(old(state))
      ensures legal ==> Now() == Push(old(Now()), inner, s)
    {
      match state {
        case Go => stack := stack + [Frame(NoContainer, Done, None)];
        case OValue => stack := stack + [Frame(container, OComma, key)];
        case FirstAValue => stack := stack + [Frame(container, AComma, None)];
        case AValue => stack := stack + [Frame(container, AComma, None)];
        case _ => return false;
      }
      container, state := inner, s;
      return true;
    }

    method Close()
      requires stack != [] && !container.NoContainer?
      modifies this
      ensures Now() == Pop(old(Now()), old(container))
    {
      var pop := stack[|stack| - 1];
      stack := stack[..|stack| - 1];
      value := ToValue(container);
      container, key, state := pop.container, pop.key, pop.state;
    }

    method Scalar(v: Value) returns (legal: bool)
      modifies this
      ensures legal == Take(old(Now()), v).Some?
      ensures legal ==> Now() == Take(old(Now()), v).value
    {
      if !ExpectsValue(state) {
        return false;
      }
      value, state := v, AfterValue(state);
      return true;
    }

    /** json_parse without a reviver; None is the SyntaxError.  The fields start as an earlier
        call, finished or failed, has left them. */
    method Parse(text: Text) returns (r: Option<Value>)
      modifies this
      ensures r == ParseText(text)
      ensures forall v :: r == Some(v) <==> JsonTexts.IsJson(text, v)
    {
      forall v
        ensures ParseText(text) == Some(v) <==> JsonTexts.IsJson(text, v)
      {
        GrammarMeaning.JsonExact(text, v);
      }
      hide JsonTexts.IsJson;
      var source := text;
      state, stack := Go, [];
      RunTextIsAccept(Now(), text);
      if Tokenize(text).Some? {
        MachineIsGrammar(Now(), Tokenize(text).value);
      }
      ghost var answer := RunText(Now(), text);
      var token := Exec(source);
      while token.Some?
        invariant Wf(Now())
        invariant token == Exec(source)
        invariant RunText(Now(), source) == answer
        decreases |source|
      {
        var legal := Act(token.value.0);
        if !legal {
          return None;
        }
        source := token.value.1;
        token := Exec(source);
      }
      if state != Done || SkipJsonSpace(source) != [] {
        return None;
      }
      return Some(value);
    }
  }
}
