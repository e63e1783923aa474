/** What decycle makes: every object it reaches is copied exactly once, and every other occurrence
    of the object is replaced by the path of the copy. */
module DecycleFacts {
  import opened Options
  import opened PathTexts
  import opened Graphs
  import opened DecycleSpec

  /** `t`, at `path`, is the copy of `s`: an object is copied where its path was recorded and is a
      reference to that path everywhere else. */
  ghost predicate Copied<A(!new)>(h: Heap<A>, phi: Seen<A>, s: Slot<A>, path: Path, t: Tree)
    decreases t
  {
    match s
    case Plain(p) => t == Leaf(p)
    case Link(a) =>
      && a in phi && a in h
      && if phi[a] != path then t == RefTree(phi[a])
         else
           && t.Branch? && t.kind == h[a].kind && |t.fields| == |h[a].fields|
           && forall i :: 0 <= i < |t.fields| ==>
                && t.fields[i].step == h[a].fields[i].step
                && Copied(h, phi, h[a].fields[i].slot, path + [t.fields[i].step], t.fields[i].tree)
  }

  /** Going down `x` from `s` in the graph and from `t` in the copy arrives at the object `b` and
      at the place where it was recorded, by way of objects that are copied where they stand. */
  ghost predicate Reached<A(!new)>(h: Heap<A>, phi: Seen<A>, s: Slot<A>, path: Path, t: Tree, x: Path, b: A)
    decreases t
  {
    && s.Link? && s.to in h && s.to in phi && phi[s.to] == path
    && t.Branch? && |t.fields| == |h[s.to].fields|
    && if x == [] then s.to == b
       else
         exists i :: 0 <= i < |t.fields|
           && FieldIndex(h[s.to].fields, x[0]) == Some(i) && ChildIndex(t.fields, x[0]) == Some(i)
           && Reached(h, phi, h[s.to].fields[i].slot, path + [x[0]], t.fields[i].tree, x[1..], b)
  }

  lemma {:induction false} CopiedExtends<A(!new)>(h: Heap<A>, m: Seen<A>, n: Seen<A>, s: Slot<A>, path: Path, t: Tree)
    requires Extends(m, n) && Copied(h, m, s, path, t)
    ensures Copied(h, n, s, path, t)
    decreases t
  {
    if s.Link? && m[s.to] == path {
      forall i | 0 <= i < |t.fields|
        ensures Copied(h, n, h[s.to].fields[i].slot, path + [t.fields[i].step], t.fields[i].tree)
      {
        CopiedExtends(h, m, n, h[s.to].fields[i].slot, path + [t.fields[i].step], t.fields[i].tree);
      }
    }
  }

  lemma {:induction false} ReachedExtends<A(!new)>(h: Heap<A>, m: Seen<A>, n: Seen<A>, s: Slot<A>, path: Path, t: Tree,
          x: Path, b: A)
    requires Extends(m, n) && Reached(h, m, s, path, t, x, b)
    ensures Reached(h, n, s, path, t, x, b)
    decreases t
  {
    if x != [] {
      var i :| 0 <= i < |t.fields|
        && FieldIndex(h[s.to].fields, x[0]) == Some(i) && ChildIndex(t.fields, x[0]) == Some(i)
        && Reached(h, m, h[s.to].fields[i].slot, path + [x[0]], t.fields[i].tree, x[1..], b);
      ReachedExtends(h, m, n, h[s.to].fields[i].slot, path + [x[0]], t.fields[i].tree, x[1..], b);
    }
  }

  /** No object is recorded at `path` or below it. */
  ghost predicate Unused<A(!new)>(seen: Seen<A>, path: Path) {
    forall b :: b in seen ==> !(path <= seen[b])
  }

  /** The objects that `after` adds to `seen` are recorded at places below `path` where `t` holds
      their copies. */
  ghost predicate Placed<A(!new)>(h: Heap<A>, seen: Seen<A>, after: Seen<A>, s: Slot<A>, path: Path, t: Tree) {
    forall b :: b in after && b !in seen ==>
      path <= after[b] && Reached(h, after, s, path, t, after[b][|path|..], b)
  }

  /** What holds after the walk over one value. */
  ghost predicate Good<A(!new)>(h: Heap<A>, seen: Seen<A>, after: Seen<A>, s: Slot<A>, path: Path, t: Tree) {
    && Extends(seen, after) && Injective(after) && after.Keys <= h.Keys
    && Copied(h, after, s, path, t)
    && Placed(h, seen, after, s, path, t)
  }

  lemma {:induction false} DerezGood<A(!new)>(h: Heap<A>, s: Slot<A>, path: Path, seen: Seen<A>)
    requires Closed(h) && (s.Link? ==> s.to in h) && seen.Keys <= h.Keys
    requires Injective(seen) && Unused(seen, path)
    ensures var (t, after) := Derez(h, s, path, seen); Good(h, seen, after, s, path, t)
    decreases h.Keys - seen.Keys, 0
  {
    if s.Link? && s.to !in seen {
      var a := s.to;
      var seen1 := seen[a := path];
      assert h.Keys - seen1.Keys < h.Keys - seen.Keys by {
        assert a in h.Keys - seen.Keys && a !in h.Keys - seen1.Keys;
      }
      DistinctFields(h[a]);
      NothingBelow(seen, a, path, h[a].fields);
      DerezFieldsGood(h, h[a].fields, path, seen1);
      var (ts, after) := DerezFields(h, h[a].fields, path, seen1);
      ObjectGood(h, seen, after, a, path, ts);
    }
  }

  lemma NothingBelow<A(!new)>(seen: Seen<A>, a: A, path: Path, fs: seq<Field<A>>)
    requires Unused(seen, path) && a !in seen && Injective(seen)
    ensures Injective(seen[a := path])
    ensures forall i :: 0 <= i < |fs| ==> Unused(seen[a := path], path + [fs[i].step])
  {
    var seen1 := seen[a := path];
    forall i | 0 <= i < |fs|
      ensures Unused(seen1, path + [fs[i].step])
    {
      var below := path + [fs[i].step];
      assert path <= below && !(below <= path);
      forall b | b in seen1
        ensures !(below <= seen1[b])
      {
        PrefixOfPrefix(path, below, seen1[b]);
      }
    }
  }

  lemma PrefixOfPrefix(p: Path, q: Path, r: Path)
    requires p <= q
    ensures q <= r ==> p <= r
  {
  }

  /** An object whose fields are copied is copied. */
  lemma ObjectGood<A(!new)>(h: Heap<A>, seen: Seen<A>, after: Seen<A>, a: A, path: Path, ts: seq<TreeField>)
    requires a in h && a !in seen && |ts| == |h[a].fields| && DistinctSteps(h[a].fields)
    requires forall i :: 0 <= i < |ts| ==> ts[i].step == h[a].fields[i].step
    requires GoodFields(h, seen[a := path], after, h[a].fields, path, ts)
    ensures Good(h, seen, after, Link(a), path, Branch(h[a].kind, ts))
  {
    var t := Branch(h[a].kind, ts);
    var fs := h[a].fields;
    assert after[a] == path;
    forall b | b in after && b !in seen
      ensures path <= after[b] && Reached(h, after, Link(a), path, t, after[b][|path|..], b)
    {
      if b == a {
        assert path[|path|..] == [];
      } else {
        BelowObject(h, after, a, path, ts, b);
      }
    }
  }

  /** What is reached through a field of an object is reached from the object. */
  lemma BelowObject<A(!new)>(h: Heap<A>, after: Seen<A>, a: A, path: Path, ts: seq<TreeField>, b: A)
    requires a in h && |ts| == |h[a].fields| && DistinctSteps(h[a].fields)
    requires forall i :: 0 <= i < |ts| ==> ts[i].step == h[a].fields[i].step
    requires a in after && after[a] == path && b in after && BelowField(h, after, h[a].fields, path, ts, b)
    ensures path <= after[b] && Reached(h, after, Link(a), path, Branch(h[a].kind, ts), after[b][|path|..], b)
  {
    var fs := h[a].fields;
    var i :| 0 <= i < |fs| && path + [fs[i].step] <= after[b]
      && Reached(h, after, fs[i].slot, path + [fs[i].step], ts[i].tree, after[b][|path| + 1..], b);
    var x := after[b][|path|..];
    assert x[0] == fs[i].step && x[1..] == after[b][|path| + 1..];
    FieldIndexAt(fs, i);
    SameSteps(fs, ts, x[0]);
  }

  lemma DistinctFields<A>(n: Node<A>)
    requires WellFormedNode(n)
    ensures DistinctSteps(n.fields)
  {
  }

  lemma {:induction false} FieldIndexAt<A>(fs: seq<Field<A>>, i: nat)
    requires i < |fs| && DistinctSteps(fs)
    ensures FieldIndex(fs, fs[i].step) == Some(i)
  {
    if i > 0 {
      assert fs[0].step != fs[i].step;
      assert fs[i] == fs[1..][i - 1];
      FieldIndexAt(fs[1..], i - 1);
    }
  }

  lemma {:induction false} SameSteps<A>(fs: seq<Field<A>>, ts: seq<TreeField>, s: Step)
    requires |fs| == |ts| && forall i :: 0 <= i < |fs| ==> ts[i].step == fs[i].step
    ensures ChildIndex(ts, s) == FieldIndex(fs, s)
  {
    if fs != [] {
      SameSteps(fs[1..], ts[1..], s);
    }
  }

  /** What holds after the walk over fields: every field is copied, and what is newly recorded is
      found below one of them. */
  ghost predicate GoodFields<A(!new)>(h: Heap<A>, seen: Seen<A>, after: Seen<A>, fs: seq<Field<A>>, path: Path,
          ts: seq<TreeField>)
    requires |ts| == |fs|
  {
    && Extends(seen, after) && Injective(after) && after.Keys <= h.Keys
    && (forall i :: 0 <= i < |fs| ==> Copied(h, after, fs[i].slot, path + [fs[i].step], ts[i].tree))
    && (forall b :: b in after && b !in seen ==> BelowField(h, after, fs, path, ts, b))
  }

  ghost predicate BelowField<A(!new)>(h: Heap<A>, after: Seen<A>, fs: seq<Field<A>>, path: Path, ts: seq<TreeField>,
          b: A)
    requires |ts| == |fs| && b in after
  {
    exists i :: 0 <= i < |fs| && path + [fs[i].step] <= after[b]
      && Reached(h, after, fs[i].slot, path + [fs[i].step], ts[i].tree, after[b][|path| + 1..], b)
  }

  lemma StillUnused<A(!new)>(h: Heap<A>, seen: Seen<A>, seen1: Seen<A>, slot: Slot<A>, path: Path, mine: Step,
          other: Step, t: Tree)
    requires Good(h, seen, seen1, slot, path + [mine], t) && mine != other
    requires Unused(seen, path + [other])
    ensures Unused(seen1, path + [other])
  {
    forall b | b in seen1
      ensures !(path + [other] <= seen1[b])
    {
      if b !in seen {
        assert seen1[b][|path|] == mine;
      }
    }
  }

  lemma {:induction false} DerezFieldsGood<A(!new)>(h: Heap<A>, fs: seq<Field<A>>, path: Path, seen: Seen<A>)
    requires Closed(h) && LinksIn(fs, h.Keys) && seen.Keys <= h.Keys && DistinctSteps(fs)
    requires Injective(seen) && forall i :: 0 <= i < |fs| ==> Unused(seen, path + [fs[i].step])
    ensures var (ts, after) := DerezFields(h, fs, path, seen); GoodFields(h, seen, after, fs, path, ts)
    decreases h.Keys - seen.Keys, 1 + |fs|
  {
    if fs != [] {
      var first := path + [fs[0].step];
      DerezGood(h, fs[0].slot, first, seen);
      var (t, seen1) := Derez(h, fs[0].slot, first, seen);
      assert h.Keys - seen1.Keys <= h.Keys - seen.Keys;
      forall i | 0 <= i < |fs[1..]|
        ensures Unused(seen1, path + [fs[1..][i].step])
      {
        StillUnused(h, seen, seen1, fs[0].slot, path, fs[0].step, fs[1..][i].step, t);
      }
      DerezFieldsGood(h, fs[1..], path, seen1);
      var (ts, after) := DerezFields(h, fs[1..], path, seen1);
      FirstAndRest(h, seen, seen1, after, fs, path, t, ts);
    }
  }

  /** The first field and the others together. */
  lemma FirstAndRest<A(!new)>(h: Heap<A>, seen: Seen<A>, seen1: Seen<A>, after: Seen<A>, fs: seq<Field<A>>, path: Path,
          t: Tree, ts: seq<TreeField>)
    requires fs != [] && |ts| == |fs| - 1
    requires Good(h, seen, seen1, fs[0].slot, path + [fs[0].step], t)
    requires GoodFields(h, seen1, after, fs[1..], path, ts)
    ensures GoodFields(h, seen, after, fs, path, [TreeField(fs[0].step, t)] + ts)
  {
    var all := [TreeField(fs[0].step, t)] + ts;
    CopiedExtends(h, seen1, after, fs[0].slot, path + [fs[0].step], t);
    forall i | 0 <= i < |fs|
      ensures Copied(h, after, fs[i].slot, path + [fs[i].step], all[i].tree)
    {
      if i > 0 {
        assert fs[i] == fs[1..][i - 1] && all[i] == ts[i - 1];
      }
    }
    forall b | b in after && b !in seen
      ensures BelowField(h, after, fs, path, all, b)
    {
      if b in seen1 {
        var first := path + [fs[0].step];
        assert seen1[b][|first|..] == after[b][|path| + 1..];
        ReachedExtends(h, seen1, after, fs[0].slot, first, t, after[b][|path| + 1..], b);
        assert all[0].tree == t;
      } else {
        assert BelowField(h, after, fs[1..], path, ts, b);
        var i :| 0 <= i < |fs[1..]| && path + [fs[1..][i].step] <= after[b]
          && Reached(h, after, fs[1..][i].slot, path + [fs[1..][i].step], ts[i].tree, after[b][|path| + 1..], b);
        assert fs[i + 1] == fs[1..][i] && all[i + 1] == ts[i];
      }
    }
  }

  lemma {:induction false} ReachedWalks<A(!new)>(h: Heap<A>, phi: Seen<A>, s: Slot<A>, path: Path, t: Tree, x: Path,
          b: A)
    requires Reached(h, phi, s, path, t, x, b)
    ensures Walk(h, s, x) == Some(Link(b))
    decreases t
  {
    if x != [] {
      var i :| 0 <= i < |t.fields|
        && FieldIndex(h[s.to].fields, x[0]) == Some(i) && ChildIndex(t.fields, x[0]) == Some(i)
        && Reached(h, phi, h[s.to].fields[i].slot, path + [x[0]], t.fields[i].tree, x[1..], b);
      ReachedWalks(h, phi, h[s.to].fields[i].slot, path + [x[0]], t.fields[i].tree, x[1..], b);
    }
  }

  /** The part of a tree at a path. */
  function At(t: Tree, x: Path): Option<Tree>
    decreases |x|
  {
    if x == [] then Some(t)
    else if t.Leaf? then None
    else match ChildIndex(t.fields, x[0]) case None => None case Some(i) => At(t.fields[i].tree, x[1..])
  }

  lemma {:induction false} ReachedCopy<A(!new)>(h: Heap<A>, phi: Seen<A>, s: Slot<A>, path: Path, t: Tree, x: Path,
          b: A)
    requires Reached(h, phi, s, path, t, x, b) && Copied(h, phi, s, path, t)
    ensures At(t, x).Some? && At(t, x).value.Branch?
    ensures b in phi && phi[b] == path + x && Copied(h, phi, Link(b), phi[b], At(t, x).value)
    decreases t
  {
    if x == [] {
      assert path + x == path;
    } else {
      var i :| 0 <= i < |t.fields|
        && FieldIndex(h[s.to].fields, x[0]) == Some(i) && ChildIndex(t.fields, x[0]) == Some(i)
        && Reached(h, phi, h[s.to].fields[i].slot, path + [x[0]], t.fields[i].tree, x[1..], b);
      ReachedCopy(h, phi, h[s.to].fields[i].slot, path + [x[0]], t.fields[i].tree, x[1..], b);
      assert path + [x[0]] + x[1..] == path + x;
    }
  }

  /** The objects a value reaches: those some path leads to. */
  ghost predicate Reaches<A>(h: Heap<A>, s: Slot<A>, b: A) {
    exists x: Path :: Walk(h, s, x) == Some(Link(b))
  }

  /** The recorded objects are closed under references. */
  lemma RecordedClosed<A(!new)>(h: Heap<A>, s: Slot<A>, b: A)
    requires Closed(h) && (s.Link? ==> s.to in h)
    requires var (_, phi) := Decycle(h, s); b in phi
    ensures b in h && LinksIn(h[b].fields, Decycle(h, s).1.Keys)
  {
    var (t, phi) := Decycle(h, s);
    DerezGood(h, s, [], map[]);
    assert phi[b][0..] == phi[b];
    ReachedCopy(h, phi, s, [], t, phi[b], b);
    var c := At(t, phi[b]).value;
    forall i | 0 <= i < |h[b].fields| && h[b].fields[i].slot.Link?
      ensures h[b].fields[i].slot.to in phi
    {
      assert Copied(h, phi, h[b].fields[i].slot, phi[b] + [c.fields[i].step], c.fields[i].tree);
    }
  }

  lemma {:induction false} WalkStaysRecorded<A(!new)>(h: Heap<A>, phi: Seen<A>, s: Slot<A>, x: Path)
    requires forall b :: b in phi ==> b in h && LinksIn(h[b].fields, phi.Keys)
    requires s.Link? ==> s.to in phi
    ensures Walk(h, s, x).Some? && Walk(h, s, x).value.Link? ==> Walk(h, s, x).value.to in phi
    decreases |x|
  {
    if x != [] && s.Link? && FieldIndex(h[s.to].fields, x[0]).Some? {
      WalkStaysRecorded(h, phi, h[s.to].fields[FieldIndex(h[s.to].fields, x[0]).value].slot, x[1..]);
    }
  }

  /** decycle on every finite graph: it records exactly the objects the value reaches, each at one
      path of its own; the path leads to the object in the graph and to its copy in the tree. */
  lemma DecycleRecords<A(!new)>(h: Heap<A>, s: Slot<A>)
    requires Closed(h) && (s.Link? ==> s.to in h)
    ensures var (t, phi) := Decycle(h, s);
            && Injective(phi) && Copied(h, phi, s, [], t)
            && (forall b :: b in phi <==> Reaches(h, s, b))
            && forall b :: b in phi ==>
                 && Walk(h, s, phi[b]) == Some(Link(b))
                 && Reached(h, phi, s, [], t, phi[b], b)
                 && At(t, phi[b]).Some? && Copied(h, phi, Link(b), phi[b], At(t, phi[b]).value)
  {
    var (t, phi) := Decycle(h, s);
    DerezGood(h, s, [], map[]);
    forall b | b in phi
      ensures Walk(h, s, phi[b]) == Some(Link(b)) && Reached(h, phi, s, [], t, phi[b], b)
      ensures At(t, phi[b]).Some? && Copied(h, phi, Link(b), phi[b], At(t, phi[b]).value)
      ensures b in h && LinksIn(h[b].fields, phi.Keys)
    {
      assert phi[b][0..] == phi[b];
      ReachedWalks(h, phi, s, [], t, phi[b], b);
      ReachedCopy(h, phi, s, [], t, phi[b], b);
      RecordedClosed(h, s, b);
    }
    forall b | Reaches(h, s, b)
      ensures b in phi
    {
      var x: Path :| Walk(h, s, x) == Some(Link(b));
      WalkStaysRecorded(h, phi, s, x);
    }
  }
}
