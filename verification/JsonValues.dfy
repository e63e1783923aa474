/** JavaScript values as the JSON code sees them, and JSON tokens. */
module JsonValues {
  import opened Texts

  /** An object is the sequence of its members in the order a for-in loop visits them.
      A finite number is the text that denotes it.  Undefined and NonFinite are values the
      printer can meet and no parser builds. */
  datatype Value =
    | Undefined
    | Null
    | Bool(b: bool)
    | NonFinite
    | Num(lexeme: Text)
    | Str(text: Text)
    | Arr(elems: seq<Value>)
    | Obj(members: seq<Member>)

  datatype Member = Member(key: Text, val: Value)

  datatype Token =
    | OpenBrace | CloseBrace | OpenBracket | CloseBracket | ColonTok | CommaTok
    | TrueTok | FalseTok | NullTok
    | NumTok(lexeme: Text)
    | StrTok(text: Text)

  predicate HasKey(ms: seq<Member>, k: Text) {
    exists i :: 0 <= i < |ms| && ms[i].key == k
  }

  predicate DistinctKeys(ms: seq<Member>) {
    forall i, j :: 0 <= i < j < |ms| ==> ms[i].key != ms[j].key
  }

  /** The effect of `container[key] = value`: overwrite the member, or add it at the end. */
  function Assign(ms: seq<Member>, k: Text, v: Value): seq<Member> {
    if ms == [] then [Member(k, v)]
    else if ms[0].key == k then [Member(k, v)] + ms[1..]
    else [ms[0]] + Assign(ms[1..], k, v)
  }

  /** Assigning a key the object lacks overwrites nothing. */
  lemma {:induction false} AssignFresh(ms: seq<Member>, k: Text, v: Value)
    requires !HasKey(ms, k)
    ensures Assign(ms, k, v) == ms + [Member(k, v)]
  {
    if ms != [] {
      assert ms[0].key != k;
      forall i | 0 <= i < |ms[1..]|
        ensures ms[1..][i].key != k
      {
        assert ms[i + 1].key != k;
      }
      AssignFresh(ms[1..], k, v);
    }
  }

  lemma DistinctAppend(ms: seq<Member>, k: Text, v: Value)
    requires DistinctKeys(ms) && !HasKey(ms, k)
    ensures DistinctKeys(ms + [Member(k, v)])
  {
  }
}
