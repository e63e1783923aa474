module RetrocycleFacts {
  import opened Options
  import opened PathTexts
  import opened Graphs
  import opened DecycleFacts
  import opened RetrocycleSpec

  lemma {:induction false} RezKeysBelow(t: Tree, at: Path)
    ensures forall x :: x in Rez(t, at) ==> at <= x
    decreases t, 0
  {
    if t.Branch? {
      RezFieldKeysBelow(t.fields, at);
    }
  }

  lemma {:induction false} RezFieldKeysBelow(fs: seq<TreeField>, at: Path)
    ensures forall x :: x in RezFields(fs, at) ==> at < x && exists i :: 0 <= i < |fs| && fs[i].step == x[|at|]
    decreases fs
  {
    if fs != [] {
      RezItemKeysBelow(fs[0], at);
      RezFieldKeysBelow(fs[1..], at);
      forall x | x in RezFields(fs, at)
        ensures at < x && exists i :: 0 <= i < |fs| && fs[i].step == x[|at|]
      {
        if x in RezFields(fs[1..], at) {
          var i :| 0 <= i < |fs[1..]| && fs[1..][i].step == x[|at|];
          assert fs[i + 1].step == x[|at|];
        }
      }
    }
  }

  lemma {:induction false} RezItemKeysBelow(f: TreeField, at: Path)
    ensures forall x :: x in RezItem(f, at) ==> at < x && x[|at|] == f.step
    decreases f
  {
    var below := at + [f.step];
    RezKeysBelow(f.tree, below);
    forall x | x in RezItem(f, at)
      ensures at < x && x[|at|] == f.step
    {
      assert x in Rez(f.tree, below);
      assert below <= x;
      assert x[|at|] == below[|at|];
    }
  }

  /** Fields of different names do not touch each other's objects. */
  lemma {:induction false} RezFieldsAt(fs: seq<TreeField>, at: Path, i: nat, x: Path)
    requires i < |fs| && x in RezItem(fs[i], at)
    requires forall i, j :: 0 <= i < j < |fs| ==> fs[i].step != fs[j].step
    ensures x in RezFields(fs, at) && RezFields(fs, at)[x] == RezItem(fs[i], at)[x]
  {
    RezItemKeysBelow(fs[i], at);
    if i == 0 {
      RezFieldKeysBelow(fs[1..], at);
    } else {
      assert fs[i] == fs[1..][i - 1];
      RezFieldsAt(fs[1..], at, i - 1, x);
    }
  }

  /** Every visited object is left as `RezNode` says. */
  lemma {:induction false} RezAt(t: Tree, at: Path, p: Path)
    requires ProperTree(t) && Spine(t, p)
    ensures at + p in Rez(t, at) && Rez(t, at)[at + p] == RezNode(At(t, p).value, at + p)
    decreases t
  {
    if p == [] {
      assert at + p == at;
    } else {
      var i := ChildIndex(t.fields, p[0]).value;
      var f := t.fields[i];
      RezAt(f.tree, at + [f.step], p[1..]);
      assert (at + [f.step]) + p[1..] == at + p;
      assert RezItem(f, at) == Rez(f.tree, at + [f.step]);
      RezFieldsAt(t.fields, at, i, at + p);
      assert |at + p| > |at|;
    }
  }

  /** An object of the heap is what was loaded, with some of its references resolved. */
  ghost predicate NodeBetween(t: Tree, at: Path, n: Node<Path>)
    requires t.Branch?
  {
    && n.kind == t.kind && |n.fields| == |t.fields|
    && forall i :: 0 <= i < |t.fields| ==>
         var below := at + [t.fields[i].step];
         && n.fields[i].step == t.fields[i].step
         && n.fields[i].slot in {LoadSlot(t.fields[i].tree, below), RezSlot(t.fields[i].tree, below)}
  }

  ghost predicate Between(root: Tree, heap: Heap<Path>) {
    forall p :: Spine(root, p) ==> p in heap && NodeBetween(At(root, p).value, p, heap[p])
  }

  lemma {:induction false} SameTreeIndex(fs: seq<Field<Path>>, ts: seq<TreeField>, s: Step)
    requires |fs| == |ts| && forall i :: 0 <= i < |ts| ==> fs[i].step == ts[i].step
    ensures FieldIndex(fs, s) == ChildIndex(ts, s)
  {
    if ts != [] {
      SameTreeIndex(fs[1..], ts[1..], s);
    }
  }

  lemma {:induction false} SpinePrefix(t: Tree, p: Path, x: Path)
    requires Spine(t, p + x)
    ensures Spine(t, p)
    decreases |x|
  {
    if x == [] {
      assert p + x == p;
    } else {
      assert p + [x[0]] + x[1..] == p + x;
      SpinePrefix(t, p + [x[0]], x[1..]);
      SpineStep(t, p, x[0]);
    }
  }

  /** While references are being resolved, a path of visited places leads where it led at first. */
  lemma {:induction false} WalkSpine(root: Tree, heap: Heap<Path>, p: Path, x: Path)
    requires Between(root, heap) && Spine(root, p + x)
    ensures Walk(heap, Link(p), x) == Some(Link(p + x))
    decreases |x|
  {
    SpinePrefix(root, p, x);
    if x == [] {
      assert p + x == p;
    } else {
      assert p + [x[0]] + x[1..] == p + x;
      SpinePrefix(root, p + [x[0]], x[1..]);
      SpineStep(root, p, x[0]);
      var t := At(root, p).value;
      SameTreeIndex(heap[p].fields, t.fields, x[0]);
      WalkSpine(root, heap, p + [x[0]], x[1..]);
    }
  }

  /** The structure that is left is one in which every reference is resolved. */
  lemma RetrocycleAt(t: Tree, p: Path)
    requires ProperTree(t) && Spine(t, p)
    ensures p in Retrocycle(t) && Retrocycle(t)[p] == RezNode(At(t, p).value, p)
  {
    RezAt(t, [], p);
    assert [] + p == p;
  }

  lemma RetrocycleBetween(t: Tree)
    requires ProperTree(t)
    ensures Between(t, Retrocycle(t))
  {
    forall p | Spine(t, p)
      ensures p in Retrocycle(t) && NodeBetween(At(t, p).value, p, Retrocycle(t)[p])
    {
      RetrocycleAt(t, p);
    }
  }
}
