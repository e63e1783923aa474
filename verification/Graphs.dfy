/** Object graphs, the trees that decycle makes of them, and what it means that two graphs are the
    same up to the identity of their objects. */
module Graphs {
  import opened Options
  import opened Texts
  import opened PathTexts

  datatype Prim = NullPrim | BoolPrim(b: bool) | NumPrim(lexeme: Text) | StrPrim(text: Text)

  datatype Slot<A> = Plain(p: Prim) | Link(to: A)

  datatype Kind = ArrayKind | ObjectKind

  /** A field of an array is an index, a field of an object is a name. */
  datatype Field<A> = Field(step: Step, slot: Slot<A>)

  datatype Node<A> = Node(kind: Kind, fields: seq<Field<A>>)

  type Heap<A> = map<A, Node<A>>

  ghost predicate WellFormedNode<A>(n: Node<A>) {
    match n.kind
    case ArrayKind => forall i :: 0 <= i < |n.fields| ==> n.fields[i].step == Index(i)
    case ObjectKind =>
      && (forall i :: 0 <= i < |n.fields| ==> n.fields[i].step.Name?)
      && DistinctSteps(n.fields)
  }

  ghost predicate DistinctSteps<A>(fs: seq<Field<A>>) {
    forall i, j :: 0 <= i < j < |fs| ==> fs[i].step != fs[j].step
  }

  /** Every object a field refers to is in the heap. */
  ghost predicate Closed<A(!new)>(h: Heap<A>) {
    forall a :: a in h ==> WellFormedNode(h[a]) && LinksIn(h[a].fields, h.Keys)
  }

  ghost predicate LinksIn<A>(fs: seq<Field<A>>, keys: set<A>) {
    forall i :: 0 <= i < |fs| && fs[i].slot.Link? ==> fs[i].slot.to in keys
  }

  function FieldIndex<A>(fs: seq<Field<A>>, s: Step): (r: Option<nat>)
    ensures r.Some? ==> r.value < |fs| && fs[r.value].step == s
    ensures r.None? ==> forall i :: 0 <= i < |fs| ==> fs[i].step != s
  {
    if fs == [] then None
    else if fs[0].step == s then Some(0)
    else match FieldIndex(fs[1..], s) case None => None case Some(i) => Some(i + 1)
  }

  /** The value that a path leads to. */
  function Walk<A>(h: Heap<A>, s: Slot<A>, path: Path): Option<Slot<A>>
    decreases |path|
  {
    if path == [] then Some(s)
    else if s.Plain? || s.to !in h then None
    else
      match FieldIndex(h[s.to].fields, path[0])
      case None => None
      case Some(i) => Walk(h, h[s.to].fields[i].slot, path[1..])
  }

  // ----- Isomorphism of what two values reach.

  function MapSlot<A, B>(f: map<A, B>, s: Slot<A>): Slot<B>
    requires s.Link? ==> s.to in f
  {
    match s
    case Plain(p) => Plain(p)
    case Link(a) => Link(f[a])
  }

  /** The fields of `n` are those of `m`, with every reference renamed by `f`. */
  ghost predicate SameNode<A, B>(f: map<A, B>, m: Node<A>, n: Node<B>)
    requires LinksIn(m.fields, f.Keys)
  {
    && n.kind == m.kind && |n.fields| == |m.fields|
    && forall i :: 0 <= i < |m.fields| ==>
         n.fields[i].step == m.fields[i].step && n.fields[i].slot == MapSlot(f, m.fields[i].slot)
  }

  ghost predicate Injective<A(!new), B(!new)>(f: map<A, B>) {
    forall a, b :: a in f && b in f && f[a] == f[b] ==> a == b
  }

  /** `f` matches the objects that `s` reaches in `h` one to one with objects of `r`, and `t` is
      the image of `s`: sharing and cycles included, the two are the same structure. */
  ghost predicate IsoBy<A(!new), B(!new)>(h: Heap<A>, s: Slot<A>, r: Heap<B>, t: Slot<B>, f: map<A, B>) {
    && Injective(f)
    && (s.Link? ==> s.to in f) && t == MapSlot(f, s)
    && forall a :: a in f ==>
         a in h && LinksIn(h[a].fields, f.Keys) && f[a] in r && SameNode(f, h[a], r[f[a]])
  }

  lemma {:induction false} SameIndex<A, B>(f: map<A, B>, m: Node<A>, n: Node<B>, s: Step)
    requires LinksIn(m.fields, f.Keys) && SameNode(f, m, n)
    ensures FieldIndex(m.fields, s) == FieldIndex(n.fields, s)
    decreases |m.fields|
  {
    if m.fields != [] {
      SameIndex(f, Node(m.kind, m.fields[1..]), Node(n.kind, n.fields[1..]), s);
    }
  }

  /** Isomorphic values agree on every path: it leads nowhere in both, or to matching values. */
  lemma {:induction false} IsoWalk<A(!new), B(!new)>(h: Heap<A>, s: Slot<A>, r: Heap<B>, t: Slot<B>, f: map<A, B>,
          path: Path)
    requires IsoBy(h, s, r, t, f)
    ensures match Walk(h, s, path)
            case None => Walk(r, t, path) == None
            case Some(v) => (v.Link? ==> v.to in f) && Walk(r, t, path) == Some(MapSlot(f, v))
    decreases |path|
  {
    if path != [] && s.Link? {
      var m, n := h[s.to], r[f[s.to]];
      SameIndex(f, m, n, path[0]);
      if FieldIndex(m.fields, path[0]).Some? {
        var i := FieldIndex(m.fields, path[0]).value;
        IsoWalk(h, m.fields[i].slot, r, n.fields[i].slot, f, path[1..]);
      }
    }
  }

  // ----- Trees.

  datatype Tree = Leaf(p: Prim) | Branch(kind: Kind, fields: seq<TreeField>)

  datatype TreeField = TreeField(step: Step, tree: Tree)

  /** `"$ref"` */
  const REF_NAME: Text := [DOLLAR, LOWER_R, LOWER_E, LOWER_F]

  /** `{$ref: path}` */
  function RefTree(path: Path): Tree {
    Branch(ObjectKind, [TreeField(Name(REF_NAME), Leaf(StrPrim(PathText(path))))])
  }

  /** The reference to the fourth element of the member a: {"$ref": "$[\"a\"][3]"}. */
  lemma RefTreeExample()
    ensures RefTree([Name([0x61]), Index(3)])
         == Branch(ObjectKind, [TreeField(Name([0x24, 0x72, 0x65, 0x66]),
                                          Leaf(StrPrim([0x24, 0x5B, 0x22, 0x61, 0x22, 0x5D, 0x5B, 0x33, 0x5D])))])
  {
    PathTextExample();
  }

  function ChildIndex(fs: seq<TreeField>, s: Step): (r: Option<nat>)
    ensures r.Some? ==> r.value < |fs| && fs[r.value].step == s
    ensures r.None? ==> forall i :: 0 <= i < |fs| ==> fs[i].step != s
  {
    if fs == [] then None
    else if fs[0].step == s then Some(0)
    else match ChildIndex(fs[1..], s) case None => None case Some(i) => Some(i + 1)
  }

  /** The text of a `$ref` member, when an object has one that is a string. */
  function RefMember<A>(n: Node<A>): Option<Text> {
    match FieldIndex(n.fields, Name(REF_NAME))
    case None => None
    case Some(i) =>
      match n.fields[i].slot
      case Plain(StrPrim(text)) => Some(text)
      case _ => None
  }

  /** The same for an item of a tree. */
  function RefText(t: Tree): Option<Text> {
    if t.Leaf? then None
    else
      match ChildIndex(t.fields, Name(REF_NAME))
      case None => None
      case Some(i) =>
        var c := t.fields[i].tree;
        if c.Leaf? && c.p.StrPrim? then Some(c.p.text) else None
  }

  /** What retrocycle makes of an item: no reference, or one that `eval` follows or throws on. */
  function RefMatch(t: Tree): PxMatch {
    match RefText(t)
    case None => NoMatch
    case Some(text) => Px(text)
  }
}
