module Printer {
  import opened Options
  import opened Texts
  import opened JsonValues
  import opened JsonTexts
  import opened PrintedTexts
  import PrinterMeaning
  import S = PrinterSpec

  class Stringifier {
    var gap: Text
    var indent: Text

    constructor () {
      gap, indent := [], [];
    }

    /** `str`: the gap is deeper while the members are printed and is given back on every return. */
    method Str(v: Value) returns (r: Option<Text>)
      modifies `gap
      ensures gap == old(gap)
      ensures r == S.Print(v, gap, indent)
      ensures forall depth: nat :: gap == Times(indent, depth) && IsValue(v) && !v.Undefined? ==>
                r == Some(LaidOut(None, depth, TokensOf(Clean(v)), indent))
      decreases v, 0
    {
      forall depth: nat | gap == Times(indent, depth) && IsValue(v) && !v.Undefined?
        ensures S.Print(v, gap, indent) == Some(LaidOut(None, depth, TokensOf(Clean(v)), indent))
      {
        PrinterMeaning.PrintMeans(v, depth, indent);
      }
      hide LaidOut, Times, IsValue, TokensOf, Clean;
      var mind := gap;
      match v {
        case Undefined => return None;
        case Null => return Some(NULL_TEXT);
        case Bool(b) => return Some(if b then TRUE_TEXT else FALSE_TEXT);
        case NonFinite => return Some(NULL_TEXT);
        case Num(lexeme) => return Some(lexeme);
        case Str(text) => return Some(S.Quote(text));
        case Arr(elems) =>
          gap := gap + indent;
          var partial := StrElements(elems);
          r := Some(S.Wrap(LBRACKET, partial, RBRACKET, gap, mind));
          gap := mind;
        case Obj(members) =>
          gap := gap + indent;
          var partial := StrMembers(members);
          r := Some(S.Wrap(LBRACE, partial, RBRACE, gap, mind));
          gap := mind;
      }
    }

    /** The loop of `str` over the elements of an array. */
    method StrElements(elems: seq<Value>) returns (partial: seq<Text>)
      modifies `gap
      ensures gap == old(gap)
      ensures partial == S.PrintElements(elems, gap, indent)
      decreases elems, 0
    {
      hide LaidOut, Times, IsValue, TokensOf, Clean;
      partial := [];
      for i := 0 to |elems|
        invariant gap == old(gap)
        invariant partial + S.PrintElements(elems[i..], gap, indent) == S.PrintElements(elems, gap, indent)
      {
        var t := Str(elems[i]);
        assert elems[i..][1..] == elems[i + 1..];
        var part := if S.Truthy(t) then t.value else NULL_TEXT;
        assert partial + ([part] + S.PrintElements(elems[i + 1..], gap, indent))
            == (partial + [part]) + S.PrintElements(elems[i + 1..], gap, indent);
        partial := partial + [part];
      }
      assert partial + [] == partial;
    }

    /** The loop of `str` over the members of an object. */
    method StrMembers(members: seq<Member>) returns (partial: seq<Text>)
      modifies `gap
      ensures gap == old(gap)
      ensures partial == S.PrintMembers(members, gap, indent)
      decreases members, 0
    {
      hide LaidOut, Times, IsValue, TokensOf, Clean;
      partial := [];
      for i := 0 to |members|
        invariant gap == old(gap)
        invariant partial + S.PrintMembers(members[i..], gap, indent) == S.PrintMembers(members, gap, indent)
      {
        var t := Str(members[i].val);
        assert members[i..][1..] == members[i + 1..];
        ghost var later := S.PrintMembers(members[i + 1..], gap, indent);
        assert partial + (S.PrintMember(members[i], gap, indent) + later)
            == (partial + S.PrintMember(members[i], gap, indent)) + later;
        if S.Truthy(t) {
          partial := partial + [S.Quote(members[i].key) + (if gap != [] then [COLON, SPACE] else [COLON]) + t.value];
        }
      }
      assert partial + [] == partial;
    }

    /** The indent is `space` itself, or as many spaces as the number says. */
    method Stringify(v: Value, space: Text) returns (r: Option<Text>)
      modifies this
      ensures r == S.Stringify(v, space)
      ensures IsValue(v) && !v.Undefined? ==> r == Some(LaidOut(None, 0, TokensOf(Clean(v)), space))
      ensures v.Undefined? ==> r == None
    {
      gap, indent := [], space;
      r := Str(v);
      assert gap == Times(indent, 0);
    }

    method StringifyNumber(v: Value, space: int) returns (r: Option<Text>)
      modifies this
      ensures r == S.Stringify(v, seq(if space < 0 then 0 else space, _ => SPACE))
      ensures IsValue(v) && !v.Undefined? ==>
                r == Some(LaidOut(None, 0, TokensOf(Clean(v)), seq(if space < 0 then 0 else space, _ => 0x20)))
      ensures v.Undefined? ==> r == None
    {
      gap, indent := [], [];
      var i := 0;
      while i < space
        invariant i <= (if space < 0 then 0 else space)
        invariant gap == [] && indent == seq(i, _ => SPACE)
      {
        indent := indent + [SPACE];
        i := i + 1;
      }
      assert gap == Times(indent, 0);
      r := Str(v);
    }
  }
}
