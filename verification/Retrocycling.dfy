/** retrocycle as it runs: `rez` overwrites members of the structure in place. */
module Retrocycling {
  import opened Options
  import opened PathTexts
  import opened Graphs
  import opened DecycleFacts
  import S = RetrocycleSpec
  import F = RetrocycleFacts

  lemma RefTextLoaded(t: Tree, at: Path)
    requires t.Branch?
    ensures RefMember(S.LoadNode(t, at)) == RefText(t)
  {
    F.SameTreeIndex(S.LoadNode(t, at).fields, t.fields, Name(REF_NAME));
  }

  ghost predicate Loaded(t: Tree, at: Path, heap: Heap<Path>) {
    forall x :: x in S.Load(t, at) ==> x in heap && heap[x] == S.Load(t, at)[x]
  }

  /** Every reference in the structure is to a place that is visited. */
  ghost predicate RefsResolve(root: Tree) {
    forall p, i :: S.Spine(root, p) && 0 <= i < |At(root, p).value.fields| ==>
      match RefMatch(At(root, p).value.fields[i].tree)
      case NoMatch => true
      case Matches(target) => target.Some? && S.Spine(root, target.value)
  }

  /** The object at `at` with the references among its first `i` fields resolved. */
  ghost function Partial(t: Tree, at: Path, i: nat): Node<Path>
    requires t.Branch? && i <= |t.fields|
  {
    Node(t.kind, seq(|t.fields|, j requires 0 <= j < |t.fields| =>
      Field(t.fields[j].step,
            if j < i then S.RezSlot(t.fields[j].tree, at + [t.fields[j].step])
            else S.LoadSlot(t.fields[j].tree, at + [t.fields[j].step]))))
  }

  /** The heap after the first `i` fields of the object at `at`. */
  ghost function Mid(t: Tree, at: Path, base: Heap<Path>, i: nat): Heap<Path>
    requires t.Branch? && i <= |t.fields|
  {
    (base + S.RezFields(t.fields[..i], at))[at := Partial(t, at, i)]
  }

  lemma {:induction false} LoadKeysBelow(t: Tree, at: Path)
    ensures forall x :: x in S.Load(t, at) ==> at <= x
    decreases t, 0
  {
    if t.Branch? {
      LoadFieldKeysBelow(t.fields, at);
    }
  }

  lemma {:induction false} LoadFieldKeysBelow(fs: seq<TreeField>, at: Path)
    ensures forall x :: x in S.LoadFields(fs, at) ==> at < x && exists i :: 0 <= i < |fs| && fs[i].step == x[|at|]
    decreases fs
  {
    if fs != [] {
      LoadItemKeysBelow(fs[0], at);
      LoadFieldKeysBelow(fs[1..], at);
      forall x | x in S.LoadFields(fs, at)
        ensures at < x && exists i :: 0 <= i < |fs| && fs[i].step == x[|at|]
      {
        if x !in S.LoadItem(fs[0], at) {
          var i :| 0 <= i < |fs[1..]| && fs[1..][i].step == x[|at|];
          assert fs[i + 1].step == x[|at|];
        }
      }
    }
  }

  lemma {:induction false} LoadItemKeysBelow(f: TreeField, at: Path)
    ensures forall x :: x in S.LoadItem(f, at) ==> at < x && x[|at|] == f.step
    decreases f
  {
    var below := at + [f.step];
    LoadKeysBelow(f.tree, below);
    forall x | x in S.LoadItem(f, at)
      ensures at < x && x[|at|] == f.step
    {
      assert x in S.Load(f.tree, below);
      assert below <= x;
      assert x[|at|] == below[|at|];
    }
  }

  lemma {:induction false} LoadFieldsAt(fs: seq<TreeField>, at: Path, i: nat, x: Path)
    requires i < |fs| && x in S.LoadItem(fs[i], at)
    requires forall i, j :: 0 <= i < j < |fs| ==> fs[i].step != fs[j].step
    ensures x in S.LoadFields(fs, at) && S.LoadFields(fs, at)[x] == S.LoadItem(fs[i], at)[x]
  {
    LoadItemKeysBelow(fs[i], at);
    if i > 0 {
      LoadItemKeysBelow(fs[0], at);
      assert fs[i] == fs[1..][i - 1];
      LoadFieldsAt(fs[1..], at, i - 1, x);
    }
  }

  lemma OtherFieldsMiss(fs: seq<TreeField>, at: Path, i: nat)
    requires i < |fs| && forall i, j :: 0 <= i < j < |fs| ==> fs[i].step != fs[j].step
    ensures forall x :: x in S.RezFields(fs[..i], at) ==> at < x && x[|at|] != fs[i].step
  {
    F.RezFieldKeysBelow(fs[..i], at);
  }

  /** A field that was not visited yet is still as it was loaded. */
  lemma StillLoaded(t: Tree, at: Path, base: Heap<Path>, i: nat)
    requires t.Branch? && i < |t.fields| && Loaded(t, at, base)
    requires forall i, j :: 0 <= i < j < |t.fields| ==> t.fields[i].step != t.fields[j].step
    ensures Loaded(t.fields[i].tree, at + [t.fields[i].step], Mid(t, at, base, i))
  {
    var f := t.fields[i];
    var below := at + [f.step];
    LoadItemKeysBelow(f, at);
    OtherFieldsMiss(t.fields, at, i);
    forall x | x in S.Load(f.tree, below)
      ensures x in Mid(t, at, base, i) && Mid(t, at, base, i)[x] == S.Load(f.tree, below)[x]
    {
      assert x in S.LoadItem(f, at);
      LoadFieldsAt(t.fields, at, i, x);
      assert x in S.Load(t, at);
    }
  }

  lemma MapAssociative<K, V>(a: map<K, V>, b: map<K, V>, c: map<K, V>)
    ensures a + (b + c) == (a + b) + c
  {
  }

  lemma {:induction false} RezFieldsSnoc(fs: seq<TreeField>, at: Path, i: nat)
    requires i < |fs|
    ensures S.RezFields(fs[..i + 1], at) == S.RezFields(fs[..i], at) + S.RezItem(fs[i], at)
    decreases i
  {
    if i == 0 {
      assert fs[..1] == [fs[0]] && fs[..0] == [];
    } else {
      RezFieldsSnoc(fs[1..], at, i - 1);
      assert fs[..i + 1][1..] == fs[1..][..i] && fs[..i][1..] == fs[1..][..i - 1];
      MapAssociative(S.RezItem(fs[0], at), S.RezFields(fs[1..][..i - 1], at), S.RezItem(fs[i], at));
    }
  }

  lemma MapShuffle<K, V>(a: map<K, V>, b: map<K, V>, c: map<K, V>, k: K, v: V)
    requires k !in c
    ensures (a + (b + c))[k := v] == (a + b)[k := v] + c
  {
  }

  /** One field on, when the field is no reference. */
  lemma MidItem(t: Tree, at: Path, base: Heap<Path>, i: nat)
    requires t.Branch? && i < |t.fields| && RefMatch(t.fields[i].tree).NoMatch?
    ensures Mid(t, at, base, i + 1) == Mid(t, at, base, i) + S.RezItem(t.fields[i], at)
  {
    RezFieldsSnoc(t.fields, at, i);
    F.RezItemKeysBelow(t.fields[i], at);
    assert Partial(t, at, i + 1) == Partial(t, at, i);
    MapShuffle(base, S.RezFields(t.fields[..i], at), S.RezItem(t.fields[i], at), at, Partial(t, at, i));
  }

  /** One field on, when the field is a reference. */
  lemma MidReference(t: Tree, at: Path, base: Heap<Path>, i: nat)
    requires t.Branch? && i < |t.fields| && RefMatch(t.fields[i].tree).Matches?
    ensures Mid(t, at, base, i + 1) == Mid(t, at, base, i)[at := Partial(t, at, i + 1)]
  {
    RezFieldsSnoc(t.fields, at, i);
    assert S.RezItem(t.fields[i], at) == map[];
  }

  lemma MidLeaf(t: Tree, at: Path, base: Heap<Path>, i: nat)
    requires t.Branch? && i < |t.fields| && t.fields[i].tree.Leaf?
    ensures Mid(t, at, base, i + 1) == Mid(t, at, base, i)
  {
    MidItem(t, at, base, i);
    assert S.RezItem(t.fields[i], at) == map[];
  }

  lemma MidStart(t: Tree, at: Path, heap: Heap<Path>)
    requires t.Branch? && Loaded(t, at, heap)
    ensures Mid(t, at, heap, 0) == heap
  {
    assert at in S.Load(t, at);
    assert t.fields[..0] == [] && Partial(t, at, 0) == S.LoadNode(t, at);
  }

  lemma MidEnd(t: Tree, at: Path, base: Heap<Path>)
    requires t.Branch?
    ensures Mid(t, at, base, |t.fields|) == base + S.Rez(t, at)
  {
    assert t.fields[..|t.fields|] == t.fields;
    assert Partial(t, at, |t.fields|) == S.RezNode(t, at);
  }

  lemma PartialBetween(t: Tree, at: Path, i: nat)
    requires t.Branch? && i <= |t.fields|
    ensures F.NodeBetween(t, at, Partial(t, at, i))
  {
  }

  lemma ItemLoaded(t: Tree, at: Path, heap: Heap<Path>)
    requires t.Branch? && Loaded(t, at, heap)
    ensures at in heap && RefMember(heap[at]) == RefText(t)
  {
    assert at in S.Load(t, at);
    RefTextLoaded(t, at);
  }

  /** Resolving one reference: `eval` finds the place, and the member is overwritten. */
  lemma ReferenceStep(root: Tree, at: Path, i: nat, base: Heap<Path>, heap: Heap<Path>, target: Path)
    requires RefsResolve(root) && S.Spine(root, at) && F.Between(root, heap)
    requires i < |At(root, at).value.fields| && heap == Mid(At(root, at).value, at, base, i)
    requires RefMatch(At(root, at).value.fields[i].tree) == Matches(Some(target))
    ensures Walk(heap, Link([]), target) == Some(Link(target))
    ensures var n := heap[at];
            var after := heap[at := n.(fields := n.fields[i := Field(n.fields[i].step, Link(target))])];
            after == Mid(At(root, at).value, at, base, i + 1) && F.Between(root, after)
  {
    var t := At(root, at).value;
    assert [] + target == target;
    F.WalkSpine(root, heap, [], target);
    MidReference(t, at, base, i);
    PartialBetween(t, at, i + 1);
    var n := Partial(t, at, i);
    assert n.fields[i := Field(n.fields[i].step, Link(target))] == Partial(t, at, i + 1).fields;
  }

  /** An object that is no reference is visited when its parent is. */
  lemma ChildVisited(root: Tree, at: Path, i: nat)
    requires S.ProperTree(root) && S.Spine(root, at) && i < |At(root, at).value.fields|
    requires var c := At(root, at).value.fields[i].tree; c.Branch? && RefMatch(c).NoMatch?
    ensures var f := At(root, at).value.fields[i];
            S.Spine(root, at + [f.step]) && At(root, at + [f.step]) == Some(f.tree)
  {
    ProperPart(root, at);
    var f := At(root, at).value.fields[i];
    ChildIndexAt(At(root, at).value.fields, i);
    S.SpineStep(root, at, f.step);
  }

  lemma {:induction false} ChildIndexAt(fs: seq<TreeField>, i: nat)
    requires i < |fs| && forall i, j :: 0 <= i < j < |fs| ==> fs[i].step != fs[j].step
    ensures ChildIndex(fs, fs[i].step) == Some(i)
  {
    if i > 0 {
      assert fs[0].step != fs[i].step;
      assert fs[i] == fs[1..][i - 1];
      ChildIndexAt(fs[1..], i - 1);
    }
  }

  lemma {:induction false} ProperPart(t: Tree, p: Path)
    requires S.ProperTree(t) && S.Spine(t, p)
    ensures S.ProperTree(At(t, p).value)
    decreases |p|
  {
    if p != [] {
      ProperPart(t.fields[ChildIndex(t.fields, p[0]).value].tree, p[1..]);
    }
  }

  class Retrocycler {
    var heap: Heap<Path>

    constructor (heap: Heap<Path>)
      ensures this.heap == heap
    {
      this.heap := heap;
    }

    /** `rez(value)` for the object at `at`; the part of the structure below it is still as loaded. */
    method Rez(at: Path, ghost root: Tree)
      requires S.ProperTree(root) && RefsResolve(root)
      requires S.Spine(root, at) && F.Between(root, heap) && Loaded(At(root, at).value, at, heap)
      modifies this
      ensures heap == old(heap) + S.Rez(At(root, at).value, at)
      ensures F.Between(root, heap)
      decreases At(root, at).value, 1
    {
      ghost var t := At(root, at).value;
      ProperPart(root, at);
      MidStart(t, at, heap);
      MidEnd(t, at, heap);
      for i := 0 to |heap[at].fields|
        invariant heap == Mid(t, at, old(heap), i) && F.Between(root, heap)
      {
        StillLoaded(t, at, old(heap), i);
        RezField(at, i, root, old(heap));
      }
    }

    /** The body of the loops of `rez`: one item. */
    method RezField(at: Path, i: nat, ghost root: Tree, ghost base: Heap<Path>)
      requires S.ProperTree(root) && RefsResolve(root) && S.Spine(root, at) && F.Between(root, heap)
      requires i < |At(root, at).value.fields| && heap == Mid(At(root, at).value, at, base, i)
      requires var f := At(root, at).value.fields[i]; Loaded(f.tree, at + [f.step], heap)
      modifies this
      ensures heap == Mid(At(root, at).value, at, base, i + 1) && F.Between(root, heap)
      decreases At(root, at).value, 0
    {
      ghost var t := At(root, at).value;
      ghost var c := t.fields[i].tree;
      var node := heap[at];
      assert node == Partial(t, at, i);
      var item := node.fields[i].slot;
      if item.Plain? {
        MidLeaf(t, at, base, i);
        return;
      }
      ItemLoaded(c, item.to, heap);
      var text := RefMember(heap[item.to]);
      var reference := if text.Some? then Px(text.value) else NoMatch;
      if reference.NoMatch? {
        ChildVisited(root, at, i);
        MidItem(t, at, base, i);
        Rez(item.to, root);
      } else if reference.steps.Some? {
        ReferenceStep(root, at, i, base, heap, reference.steps.value);
        var found := Walk(heap, Link([]), reference.steps.value);
        heap := heap[at := node.(fields := node.fields[i := Field(node.fields[i].step, found.value)])];
      } else {
        assert false;
      }
    }

    /** `JSON.retrocycle($)` on a structure in which no object is shared yet. */
    method Retrocycle(ghost root: Tree)
      requires root.Branch? && S.ProperTree(root) && RefsResolve(root) && heap == S.Load(root, [])
      modifies this
      ensures heap == S.Retrocycle(root)
    {
      LoadBetween(root);
      Rez([], root);
    }
  }

  lemma {:induction false} LoadAt(t: Tree, at: Path, p: Path)
    requires S.ProperTree(t) && S.Spine(t, p)
    ensures at + p in S.Load(t, at) && S.Load(t, at)[at + p] == S.LoadNode(At(t, p).value, at + p)
    decreases t
  {
    if p == [] {
      assert at + p == at;
    } else {
      var i := ChildIndex(t.fields, p[0]).value;
      var f := t.fields[i];
      LoadAt(f.tree, at + [f.step], p[1..]);
      assert (at + [f.step]) + p[1..] == at + p;
      assert S.LoadItem(f, at) == S.Load(f.tree, at + [f.step]);
      LoadFieldsAt(t.fields, at, i, at + p);
      assert |at + p| > |at|;
    }
  }

  lemma LoadBetween(t: Tree)
    requires S.ProperTree(t)
    ensures F.Between(t, S.Load(t, []))
  {
    forall p | S.Spine(t, p)
      ensures p in S.Load(t, []) && F.NodeBetween(At(t, p).value, p, S.Load(t, [])[p])
    {
      LoadAt(t, [], p);
      assert [] + p == p;
    }
  }
}
