/** retrocycle: the structure it starts from, with every object named by the path at which it was
    created, and what `rez` makes of it. */
module RetrocycleSpec {
  import opened Options
  import opened PathTexts
  import opened Graphs
  import opened DecycleFacts

  function LoadSlot(t: Tree, at: Path): Slot<Path> {
    match t
    case Leaf(p) => Plain(p)
    case Branch(_, _) => Link(at)
  }

  function LoadNode(t: Tree, at: Path): Node<Path>
    requires t.Branch?
  {
    Node(t.kind, seq(|t.fields|, i requires 0 <= i < |t.fields| =>
      Field(t.fields[i].step, LoadSlot(t.fields[i].tree, at + [t.fields[i].step]))))
  }

  /** The objects of a tree, none of them shared. */
  function Load(t: Tree, at: Path): Heap<Path>
    decreases t, 0
  {
    match t
    case Leaf(_) => map[]
    case Branch(_, fields) => LoadFields(fields, at) + map[at := LoadNode(t, at)]
  }

  function LoadFields(fs: seq<TreeField>, at: Path): Heap<Path>
    decreases fs
  {
    if fs == [] then map[] else LoadFields(fs[1..], at) + LoadItem(fs[0], at)
  }

  function LoadItem(f: TreeField, at: Path): Heap<Path>
    decreases f
  {
    Load(f.tree, at + [f.step])
  }

  /** An item that is a reference becomes what its path leads to. */
  function RezSlot(t: Tree, at: Path): Slot<Path> {
    match RefMatch(t)
    case Matches(Some(target)) => Link(target)
    case _ => LoadSlot(t, at)
  }

  function RezNode(t: Tree, at: Path): Node<Path>
    requires t.Branch?
  {
    Node(t.kind, seq(|t.fields|, i requires 0 <= i < |t.fields| =>
      Field(t.fields[i].step, RezSlot(t.fields[i].tree, at + [t.fields[i].step]))))
  }

  /** The objects `rez` visits, as it leaves them: it does not descend into references. */
  function Rez(t: Tree, at: Path): Heap<Path>
    decreases t, 0
  {
    match t
    case Leaf(_) => map[]
    case Branch(_, fields) => RezFields(fields, at) + map[at := RezNode(t, at)]
  }

  function RezItem(f: TreeField, at: Path): Heap<Path>
    decreases f
  {
    if RefMatch(f.tree).NoMatch? then Rez(f.tree, at + [f.step]) else map[]
  }

  function RezFields(fs: seq<TreeField>, at: Path): Heap<Path>
    decreases fs
  {
    if fs == [] then map[] else RezItem(fs[0], at) + RezFields(fs[1..], at)
  }

  /** The structure after retrocycle; what it has replaced is still there but no longer reached. */
  function Retrocycle(t: Tree): Heap<Path> {
    Load(t, []) + Rez(t, [])
  }

  /** No two fields of an object have the same name. */
  ghost predicate ProperTree(t: Tree) {
    t.Branch? ==>
      && (forall i, j :: 0 <= i < j < |t.fields| ==> t.fields[i].step != t.fields[j].step)
      && (forall i :: 0 <= i < |t.fields| ==> ProperTree(t.fields[i].tree))
  }

  /** The places `rez` visits. */
  predicate Spine(t: Tree, p: Path): (r: bool)
    ensures r ==> At(t, p).Some? && At(t, p).value.Branch?
    decreases |p|
  {
    && t.Branch?
    && (p == [] ||
        match ChildIndex(t.fields, p[0])
        case None => false
        case Some(i) => RefMatch(t.fields[i].tree).NoMatch? && Spine(t.fields[i].tree, p[1..]))
  }

  /** A place is visited together with its parent, unless it is a reference or no object. */
  lemma {:induction false} SpineStep(t: Tree, p: Path, s: Step)
    ensures Spine(t, p + [s]) <==>
      Spine(t, p) && match ChildIndex(At(t, p).value.fields, s)
                     case None => false
                     case Some(i) =>
                       var item := At(t, p).value.fields[i].tree;
                       RefMatch(item).NoMatch? && item.Branch?
    ensures Spine(t, p) && ChildIndex(At(t, p).value.fields, s).Some? ==>
      At(t, p + [s]) == Some(At(t, p).value.fields[ChildIndex(At(t, p).value.fields, s).value].tree)
    decreases |p|
  {
    if p == [] {
      assert [] + [s] == [s] && [s][1..] == [];
    } else {
      assert (p + [s])[1..] == p[1..] + [s];
      if t.Branch? && ChildIndex(t.fields, p[0]).Some? {
        SpineStep(t.fields[ChildIndex(t.fields, p[0]).value].tree, p[1..], s);
      }
    }
  }
}
