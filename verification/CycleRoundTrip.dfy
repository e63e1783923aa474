/** retrocycle after decycle. */
module CycleRoundTrip {
  import opened Options
  import opened Texts
  import opened PathTexts
  import opened Graphs
  import opened DecycleSpec
  import opened DecycleFacts
  import R = RetrocycleSpec
  import F = RetrocycleFacts
  import Decycling
  import Retrocycling

  /** No object below the root has itself a `$ref` member that `px` takes for a path. */
  ghost predicate NoFakeReference<A(!new)>(h: Heap<A>, phi: Seen<A>) {
    forall b :: b in phi && phi[b] != [] ==>
      b in h && (RefMember(h[b]).Some? ==> Px(RefMember(h[b]).value).NoMatch?)
  }

  /** Where an object occurs again, the path written for it has only one-digit array indices. */
  ghost predicate SharedPathsSmall<A(!new)>(h: Heap<A>, phi: Seen<A>) {
    forall a, i :: a in phi && a in h && 0 <= i < |h[a].fields| && h[a].fields[i].slot.Link? ==>
      var b := h[a].fields[i].slot.to;
      b in phi && phi[b] != phi[a] + [h[a].fields[i].step] ==> SmallIndices(phi[b])
  }

  /** The copy of an object has the same `$ref` member, when that is a string. */
  lemma CopiedRefText<A(!new)>(h: Heap<A>, phi: Seen<A>, b: A, t: Tree)
    requires Closed(h) && b in phi && Copied(h, phi, Link(b), phi[b], t)
    ensures b in h && RefText(t) == RefMember(h[b])
  {
    SameSteps(h[b].fields, t.fields, Name(REF_NAME));
    if FieldIndex(h[b].fields, Name(REF_NAME)).Some? {
      var i := FieldIndex(h[b].fields, Name(REF_NAME)).value;
      assert Copied(h, phi, h[b].fields[i].slot, phi[b] + [t.fields[i].step], t.fields[i].tree);
    }
  }

  /** The copy of an object is not mistaken for a reference. */
  lemma CopyIsNoReference<A(!new)>(h: Heap<A>, phi: Seen<A>, b: A, t: Tree)
    requires Closed(h) && NoFakeReference(h, phi) && b in phi && phi[b] != []
    requires Copied(h, phi, Link(b), phi[b], t)
    ensures RefMatch(t).NoMatch?
  {
    CopiedRefText(h, phi, b, t);
  }

  lemma ReferenceMatch(p: Path)
    ensures RefMatch(RefTree(p)) == if SmallIndices(p) then Matches(Some(p)) else NoMatch
  {
    PxReadsPath(p);
  }

  lemma {:induction false} CopiedProper<A(!new)>(h: Heap<A>, phi: Seen<A>, s: Slot<A>, path: Path, t: Tree)
    requires Closed(h) && Copied(h, phi, s, path, t)
    ensures R.ProperTree(t)
    decreases t
  {
    if s.Link? && phi[s.to] == path {
      DistinctFields(h[s.to]);
      forall i | 0 <= i < |t.fields|
        ensures R.ProperTree(t.fields[i].tree)
      {
        CopiedProper(h, phi, h[s.to].fields[i].slot, path + [t.fields[i].step], t.fields[i].tree);
      }
    }
  }

  /** Where an object was recorded, `rez` comes by. */
  lemma {:induction false} RecordedVisited<A(!new)>(h: Heap<A>, phi: Seen<A>, s: Slot<A>, path: Path, t: Tree, x: Path,
          b: A)
    requires Closed(h) && NoFakeReference(h, phi)
    requires Copied(h, phi, s, path, t) && Reached(h, phi, s, path, t, x, b)
    ensures R.Spine(t, x)
    decreases t
  {
    if x != [] {
      var i :| 0 <= i < |t.fields|
        && FieldIndex(h[s.to].fields, x[0]) == Some(i) && ChildIndex(t.fields, x[0]) == Some(i)
        && Reached(h, phi, h[s.to].fields[i].slot, path + [x[0]], t.fields[i].tree, x[1..], b);
      var slot := h[s.to].fields[i].slot;
      assert Copied(h, phi, slot, path + [t.fields[i].step], t.fields[i].tree);
      CopyIsNoReference(h, phi, slot.to, t.fields[i].tree);
      RecordedVisited(h, phi, slot, path + [x[0]], t.fields[i].tree, x[1..], b);
    }
  }

  /** What `rez` comes by is the copy of an object, or a reference that `px` does not match. */
  ghost predicate CopyOrReference<A(!new)>(h: Heap<A>, phi: Seen<A>, p: Path, t: Tree) {
    || (exists a :: a in phi && phi[a] == p && Copied(h, phi, Link(a), p, t))
    || (exists b :: b in phi && t == RefTree(phi[b]))
  }

  lemma CopiedObject<A(!new)>(h: Heap<A>, phi: Seen<A>, s: Slot<A>, path: Path, t: Tree)
    requires Copied(h, phi, s, path, t) && t.Branch?
    ensures CopyOrReference(h, phi, path, t)
  {
    if phi[s.to] == path {
      assert Copied(h, phi, Link(s.to), path, t);
    }
  }

  lemma BelowReference(p: Path, x: Path)
    requires R.Spine(RefTree(p), x)
    ensures x == []
  {
  }

  lemma {:induction false} VisitedIsCopy<A(!new)>(h: Heap<A>, phi: Seen<A>, s: Slot<A>, path: Path, t: Tree, x: Path)
    requires Copied(h, phi, s, path, t) && R.Spine(t, x)
    ensures CopyOrReference(h, phi, path + x, At(t, x).value)
    decreases t
  {
    if phi[s.to] != path {
      BelowReference(phi[s.to], x);
    }
    if x == [] {
      assert path + x == path;
      CopiedObject(h, phi, s, path, t);
    } else {
      var i := ChildIndex(t.fields, x[0]).value;
      var c := t.fields[i].tree;
      assert Copied(h, phi, h[s.to].fields[i].slot, path + [t.fields[i].step], c);
      VisitedIsCopy(h, phi, h[s.to].fields[i].slot, path + [x[0]], c, x[1..]);
      assert path + [x[0]] + x[1..] == path + x;
    }
  }

  /** Every reference in the copy is to a place `rez` comes by. */
  lemma ReferencesResolve<A(!new)>(h: Heap<A>, s: Slot<A>)
    requires Closed(h) && (s.Link? ==> s.to in h) && NoFakeReference(h, Decycle(h, s).1)
    ensures R.ProperTree(Decycle(h, s).0) && Retrocycling.RefsResolve(Decycle(h, s).0)
  {
    var (t, phi) := Decycle(h, s);
    DecycleRecords(h, s);
    CopiedProper(h, phi, s, [], t);
    forall p, i | R.Spine(t, p) && 0 <= i < |At(t, p).value.fields|
      ensures match RefMatch(At(t, p).value.fields[i].tree)
              case NoMatch => true
              case Matches(target) => target.Some? && R.Spine(t, target.value)
    {
      VisitedIsCopy(h, phi, s, [], t, p);
      assert [] + p == p;
      ItemResolves(h, phi, s, t, p, At(t, p).value, i);
    }
  }

  lemma ItemResolves<A(!new)>(h: Heap<A>, phi: Seen<A>, s: Slot<A>, t: Tree, p: Path, part: Tree, i: nat)
    requires Closed(h) && NoFakeReference(h, phi) && Copied(h, phi, s, [], t)
    requires forall b :: b in phi ==> Reached(h, phi, s, [], t, phi[b], b)
    requires part.Branch? && i < |part.fields| && CopyOrReference(h, phi, p, part)
    ensures match RefMatch(part.fields[i].tree)
            case NoMatch => true
            case Matches(target) => target.Some? && R.Spine(t, target.value)
  {
    if a :| a in phi && phi[a] == p && Copied(h, phi, Link(a), p, part) {
      var slot, c := h[a].fields[i].slot, part.fields[i].tree;
      var below := p + [part.fields[i].step];
      assert Copied(h, phi, slot, below, c);
      if slot.Link? {
        if phi[slot.to] == below {
          CopyIsNoReference(h, phi, slot.to, c);
        } else {
          ReferenceMatch(phi[slot.to]);
          RecordedVisited(h, phi, s, [], t, phi[slot.to], slot.to);
        }
      }
    }
  }

  /** With one-digit indices on the shared paths, every object comes out as it was. */
  lemma ObjectRestored<A(!new)>(h: Heap<A>, phi: Seen<A>, a: A, t: Tree)
    requires Closed(h) && NoFakeReference(h, phi) && SharedPathsSmall(h, phi)
    requires a in phi && a in h && LinksIn(h[a].fields, phi.Keys) && Copied(h, phi, Link(a), phi[a], t)
    ensures SameNode(phi, h[a], R.RezNode(t, phi[a]))
  {
    var n := R.RezNode(t, phi[a]);
    forall i | 0 <= i < |h[a].fields|
      ensures n.fields[i].step == h[a].fields[i].step && n.fields[i].slot == MapSlot(phi, h[a].fields[i].slot)
    {
      var slot, c := h[a].fields[i].slot, t.fields[i].tree;
      var below := phi[a] + [t.fields[i].step];
      assert Copied(h, phi, slot, below, c);
      if slot.Link? {
        if phi[slot.to] == below {
          CopyIsNoReference(h, phi, slot.to, c);
        } else {
          ReferenceMatch(phi[slot.to]);
        }
      }
    }
  }

  lemma Restored<A(!new)>(h: Heap<A>, s: Slot<A>)
    requires Closed(h) && (s.Link? ==> s.to in h)
    requires var phi := Decycle(h, s).1; NoFakeReference(h, phi) && SharedPathsSmall(h, phi)
    ensures var (t, phi) := Decycle(h, s); IsoBy(h, s, R.Retrocycle(t), R.LoadSlot(t, []), phi)
  {
    var (t, phi) := Decycle(h, s);
    DecycleRecords(h, s);
    ReferencesResolve(h, s);
    forall a | a in phi
      ensures a in h && LinksIn(h[a].fields, phi.Keys)
      ensures phi[a] in R.Retrocycle(t) && SameNode(phi, h[a], R.Retrocycle(t)[phi[a]])
    {
      RecordedClosed(h, s, a);
      RecordedVisited(h, phi, s, [], t, phi[a], a);
      F.RetrocycleAt(t, phi[a]);
      ObjectRestored(h, phi, a, At(t, phi[a]).value);
    }
    if s.Link? {
      assert Copied(h, phi, s, [], t);
      assert Walk(h, s, []) == Some(s);
      assert Reaches(h, s, s.to);
      RootRecorded(h, s);
    }
  }

  lemma RootRecorded<A(!new)>(h: Heap<A>, s: Slot<A>)
    requires Closed(h) && s.Link? && s.to in h
    ensures var (t, phi) := Decycle(h, s); s.to in phi && phi[s.to] == [] && t.Branch?
  {
    var none: Seen<A> := map[];
    assert s.to !in none;
    DerezGood(h, s, [], none);
  }

  lemma {:induction false} WalkOn<A>(h: Heap<A>, s: Slot<A>, x: Path, st: Step)
    requires Walk(h, s, x).Some?
    ensures Walk(h, s, x + [st]) == Walk(h, Walk(h, s, x).value, [st])
    decreases |x|
  {
    if x == [] {
      assert x + [st] == [st];
    } else {
      assert (x + [st])[1..] == x[1..] + [st];
      WalkOn(h, h[s.to].fields[FieldIndex(h[s.to].fields, x[0]).value].slot, x[1..], st);
    }
  }

  /** A field of an object, from the path of the object. */
  lemma WalkToField<A(!new)>(h: Heap<A>, s: Slot<A>, x: Path, a: A, i: nat)
    requires Closed(h) && a in h && i < |h[a].fields| && Walk(h, s, x) == Some(Link(a))
    ensures Walk(h, s, x + [h[a].fields[i].step]) == Some(h[a].fields[i].slot)
  {
    DistinctFields(h[a]);
    FieldIndexAt(h[a].fields, i);
    WalkOn(h, s, x, h[a].fields[i].step);
  }

  /** The copy of an object has a reference where another path to the object was recorded first. */
  lemma ReferenceField<A(!new)>(h: Heap<A>, phi: Seen<A>, a: A, i: nat, part: Tree)
    requires a in phi && a in h && i < |h[a].fields| && Copied(h, phi, Link(a), phi[a], part)
    requires var f := h[a].fields[i]; f.slot.Link? && f.slot.to in phi && phi[f.slot.to] != phi[a] + [f.step]
    ensures part.Branch? && i < |part.fields|
    ensures part.fields[i] == TreeField(h[a].fields[i].step, RefTree(phi[h[a].fields[i].slot.to]))
  {
    assert Copied(h, phi, h[a].fields[i].slot, phi[a] + [part.fields[i].step], part.fields[i].tree);
  }

  /** In the structure that is left, a reference that `px` does not match is an object of its own. */
  lemma WalkToLeftReference<A(!new)>(h: Heap<A>, s: Slot<A>, a: A, i: nat)
    requires Closed(h) && (s.Link? ==> s.to in h)
    requires var phi := Decycle(h, s).1;
             && NoFakeReference(h, phi) && a in phi && a in h && i < |h[a].fields|
             && h[a].fields[i].slot.Link? && h[a].fields[i].slot.to in phi
             && phi[h[a].fields[i].slot.to] != phi[a] + [h[a].fields[i].step]
             && !SmallIndices(phi[h[a].fields[i].slot.to])
    ensures var (t, phi) := Decycle(h, s);
            var q := phi[a] + [h[a].fields[i].step];
            Walk(R.Retrocycle(t), Link([]), q) == Some(Link(q))
  {
    var (t, phi) := Decycle(h, s);
    var slot := h[a].fields[i].slot;
    var q := phi[a] + [h[a].fields[i].step];
    DecycleRecords(h, s);
    ReferencesResolve(h, s);
    RecordedVisited(h, phi, s, [], t, phi[a], a);
    ReferenceField(h, phi, a, i, At(t, phi[a]).value);
    LeftWhereItIs(t, phi[a], i, phi[slot.to]);
  }

  /** A reference with a larger index stays where it is. */
  lemma LeftWhereItIs(t: Tree, p: Path, i: nat, target: Path)
    requires R.ProperTree(t) && Retrocycling.RefsResolve(t) && R.Spine(t, p)
    requires i < |At(t, p).value.fields| && At(t, p).value.fields[i].tree == RefTree(target) && !SmallIndices(target)
    ensures var q := p + [At(t, p).value.fields[i].step]; Walk(R.Retrocycle(t), Link([]), q) == Some(Link(q))
  {
    var q := p + [At(t, p).value.fields[i].step];
    ReferenceMatch(target);
    Retrocycling.ChildVisited(t, p, i);
    F.RetrocycleBetween(t);
    assert [] + q == q;
    F.WalkSpine(t, R.Retrocycle(t), [], q);
  }

  /** The two paths that led to one object lead to two objects in what is left. */
  lemma TwoPaths<A(!new)>(h: Heap<A>, s: Slot<A>, a: A, i: nat)
    requires Closed(h) && (s.Link? ==> s.to in h)
    requires var phi := Decycle(h, s).1;
             && NoFakeReference(h, phi) && a in phi && a in h && i < |h[a].fields|
             && h[a].fields[i].slot.Link? && h[a].fields[i].slot.to in phi
             && phi[h[a].fields[i].slot.to] != phi[a] + [h[a].fields[i].step]
             && !SmallIndices(phi[h[a].fields[i].slot.to])
    ensures var (t, phi) := Decycle(h, s);
            var b := h[a].fields[i].slot.to;
            var q := phi[a] + [h[a].fields[i].step];
            && Walk(h, s, phi[b]) == Some(Link(b)) && Walk(h, s, q) == Some(Link(b))
            && Walk(R.Retrocycle(t), Link([]), phi[b]) == Some(Link(phi[b]))
            && Walk(R.Retrocycle(t), Link([]), q) == Some(Link(q))
            && t.Branch?
  {
    var (t, phi) := Decycle(h, s);
    var b := h[a].fields[i].slot.to;
    DecycleRecords(h, s);
    ReferencesResolve(h, s);
    WalkToField(h, s, phi[a], a, i);
    WalkToLeftReference(h, s, a, i);
    RecordedVisited(h, phi, s, [], t, phi[b], b);
    F.RetrocycleBetween(t);
    assert [] + phi[b] == phi[b];
    F.WalkSpine(t, R.Retrocycle(t), [], phi[b]);
  }

  /** With a larger index on a shared path, no matching of the objects exists. */
  lemma NotRestored<A(!new)>(h: Heap<A>, s: Slot<A>, f: map<A, Path>)
    requires Closed(h) && (s.Link? ==> s.to in h)
    requires var phi := Decycle(h, s).1; NoFakeReference(h, phi) && !SharedPathsSmall(h, phi)
    ensures var t := Decycle(h, s).0; !IsoBy(h, s, R.Retrocycle(t), R.LoadSlot(t, []), f)
  {
    var (t, phi) := Decycle(h, s);
    var a, i :| a in phi && a in h && 0 <= i < |h[a].fields| && h[a].fields[i].slot.Link?
      && h[a].fields[i].slot.to in phi
      && phi[h[a].fields[i].slot.to] != phi[a] + [h[a].fields[i].step]
      && !SmallIndices(phi[h[a].fields[i].slot.to]);
    TwoPaths(h, s, a, i);
    var b := h[a].fields[i].slot.to;
    PathsTogether(h, s, R.Retrocycle(t), f, phi[b], phi[a] + [h[a].fields[i].step], b);
  }

  lemma PathsTogether<A(!new)>(h: Heap<A>, s: Slot<A>, r: Heap<Path>, f: map<A, Path>, p: Path, q: Path, b: A)
    requires Walk(h, s, p) == Walk(h, s, q) == Some(Link(b))
    requires Walk(r, Link([]), p) != Walk(r, Link([]), q)
    ensures !IsoBy(h, s, r, Link([]), f)
  {
    if IsoBy(h, s, r, Link([]), f) {
      IsoWalk(h, s, r, Link([]), f, p);
      IsoWalk(h, s, r, Link([]), f, q);
    }
  }

  /** retrocycle after decycle, on every finite graph in which nothing looks like a reference: what
      comes out is the same structure, sharing and cycles included, if and only if the paths of the
      objects that occur again have only one-digit array indices. */
  lemma DecycleThenRetrocycle<A(!new)>(h: Heap<A>, s: Slot<A>)
    requires Closed(h) && (s.Link? ==> s.to in h) && NoFakeReference(h, Decycle(h, s).1)
    ensures var (t, phi) := Decycle(h, s);
            (exists f: map<A, Path> :: IsoBy(h, s, R.Retrocycle(t), R.LoadSlot(t, []), f)) <==> SharedPathsSmall(h, phi)
  {
    var (t, phi) := Decycle(h, s);
    if SharedPathsSmall(h, phi) {
      Restored(h, s);
    } else {
      forall f: map<A, Path>
        ensures !IsoBy(h, s, R.Retrocycle(t), R.LoadSlot(t, []), f)
      {
        NotRestored(h, s, f);
      }
    }
  }

  // ----- Objects that look like references

  /** No reachable object but the root has a `$ref` member that `px` takes for a path. */
  ghost predicate NoLookalike<A(!new)>(h: Heap<A>, s: Slot<A>) {
    forall b :: b in h && Reaches(h, s, b) && s != Link(b) ==>
      RefMember(h[b]).Some? ==> Px(RefMember(h[b]).value).NoMatch?
  }

  /** The same, in terms of the graph and of the record. */
  lemma LookalikesAreFake<A(!new)>(h: Heap<A>, s: Slot<A>)
    requires Closed(h) && (s.Link? ==> s.to in h)
    ensures NoLookalike(h, s) <==> NoFakeReference(h, Decycle(h, s).1)
  {
    var (t, phi) := Decycle(h, s);
    DecycleRecords(h, s);
    if s.Link? {
      RootRecorded(h, s);
    }
    forall b | b in phi
      ensures b in h && Reaches(h, s, b) && (s == Link(b) <==> phi[b] == [])
    {
      assert Copied(h, phi, Link(b), phi[b], At(t, phi[b]).value);
    }
  }

  /** A visited place below the root is no reference. */
  lemma {:induction false} SpineIsNoReference(t: Tree, p: Path)
    requires R.Spine(t, p) && p != []
    ensures RefMatch(At(t, p).value).NoMatch?
    decreases |p|
  {
    var i := ChildIndex(t.fields, p[0]).value;
    if p[1..] != [] {
      SpineIsNoReference(t.fields[i].tree, p[1..]);
    }
  }

  /** One step on the way to a recorded object. */
  lemma NextOnTheWay<A(!new)>(h: Heap<A>, phi: Seen<A>, s: Slot<A>, path: Path, t: Tree, x: Path, b: A) returns (i: nat)
    requires Closed(h) && Copied(h, phi, s, path, t) && Reached(h, phi, s, path, t, x, b) && x != []
    ensures s.Link? && s.to in h && t.Branch? && i < |t.fields| == |h[s.to].fields| && t.fields[i].step == x[0]
    ensures FieldIndex(h[s.to].fields, x[0]) == Some(i) && ChildIndex(t.fields, x[0]) == Some(i)
    ensures Copied(h, phi, h[s.to].fields[i].slot, path + [x[0]], t.fields[i].tree)
    ensures Reached(h, phi, h[s.to].fields[i].slot, path + [x[0]], t.fields[i].tree, x[1..], b)
  {
    i :| 0 <= i < |t.fields|
      && FieldIndex(h[s.to].fields, x[0]) == Some(i) && ChildIndex(t.fields, x[0]) == Some(i)
      && Reached(h, phi, h[s.to].fields[i].slot, path + [x[0]], t.fields[i].tree, x[1..], b);
    assert Copied(h, phi, h[s.to].fields[i].slot, path + [t.fields[i].step], t.fields[i].tree);
  }

  lemma FakeHere<A(!new)>(h: Heap<A>, phi: Seen<A>, s: Slot<A>, path: Path, t: Tree, step: Step, i: nat, c: A)
    requires s.Link? && s.to in h && t.Branch? && i < |t.fields| == |h[s.to].fields| && t.fields[i].step == step
    requires FieldIndex(h[s.to].fields, step) == Some(i) && h[s.to].fields[i].slot == Link(c)
    requires c in phi && phi[c] == path + [step] && Copied(h, phi, Link(c), path + [step], t.fields[i].tree)
    requires !RefMatch(t.fields[i].tree).NoMatch?
    ensures FakeAt(h, phi, s, path, t, [], i, c)
  {
    assert [step][1..] == [] && [] + [step] == [step] && path + [] == path;
  }

  /** On the way to a recorded object, `rez` comes by all the way, or it meets the copy of an object that it
      takes for a reference. */
  lemma {:induction false} FirstFake<A(!new)>(h: Heap<A>, phi: Seen<A>, s: Slot<A>, path: Path, t: Tree, x: Path, b: A)
    returns (y: Path, i: nat, c: A)
    requires Closed(h) && Copied(h, phi, s, path, t) && Reached(h, phi, s, path, t, x, b)
    ensures R.Spine(t, x) || FakeAt(h, phi, s, path, t, y, i, c)
    decreases t
  {
    y, i, c := [], 0, s.to;
    if x != [] {
      var j := NextOnTheWay(h, phi, s, path, t, x, b);
      var slot, item, below := h[s.to].fields[j].slot, t.fields[j].tree, path + [x[0]];
      if RefMatch(item).NoMatch? {
        y, i, c := FirstFake(h, phi, slot, below, item, x[1..], b);
        if !R.Spine(item, x[1..]) {
          BelowFake(h, phi, s, path, t, x[0], j, y, i, c);
          y := [x[0]] + y;
        }
      } else {
        i, c := j, slot.to;
        FakeHere(h, phi, s, path, t, x[0], i, c);
      }
    }
  }

  /** At this place, which `rez` visits, the i-th item is the copy of an object and looks like a reference. */
  ghost predicate FakeAt<A(!new)>(h: Heap<A>, phi: Seen<A>, s: Slot<A>, path: Path, t: Tree, y: Path, i: nat, c: A) {
    && R.Spine(t, y) && i < |At(t, y).value.fields|
    && var f := At(t, y).value.fields[i];
       && !RefMatch(f.tree).NoMatch?
       && c in phi && phi[c] == (path + y) + [f.step] && Copied(h, phi, Link(c), phi[c], f.tree)
       && Walk(h, s, y + [f.step]) == Some(Link(c))
  }

  lemma BelowFake<A(!new)>(h: Heap<A>, phi: Seen<A>, s: Slot<A>, path: Path, t: Tree, step: Step, j: nat, y: Path,
          i: nat, c: A)
    requires s.Link? && s.to in h && t.Branch? && j < |t.fields| == |h[s.to].fields|
    requires FieldIndex(h[s.to].fields, step) == Some(j) && ChildIndex(t.fields, step) == Some(j)
    requires RefMatch(t.fields[j].tree).NoMatch?
    requires FakeAt(h, phi, h[s.to].fields[j].slot, path + [step], t.fields[j].tree, y, i, c)
    ensures FakeAt(h, phi, s, path, t, [step] + y, i, c)
  {
    hide Copied, Closed;
    var z := [step] + y;
    assert z[0] == step && z[1..] == y;
    var st := At(t, z).value.fields[i].step;
    assert (z + [st])[0] == step && (z + [st])[1..] == y + [st];
    assert (path + [step]) + y == path + z;
  }

  /** Resolving the references keeps the `$ref` member that is a string. */
  lemma RezKeepsRefText(t: Tree, at: Path)
    requires t.Branch?
    ensures RefMember(R.RezNode(t, at)) == RefText(t)
  {
    F.SameTreeIndex(R.RezNode(t, at).fields, t.fields, Name(REF_NAME));
  }

  lemma SameRefMember<A, B>(f: map<A, B>, m: Node<A>, n: Node<B>)
    requires LinksIn(m.fields, f.Keys) && SameNode(f, m, n)
    ensures RefMember(m) == RefMember(n)
  {
    SameIndex(f, m, n, Name(REF_NAME));
  }

  /** Where an item was resolved, the path leads to what it named. */
  lemma WalkToResolved(t: Tree, y: Path, i: nat, target: Path)
    requires R.ProperTree(t) && R.Spine(t, y) && i < |At(t, y).value.fields|
    requires RefMatch(At(t, y).value.fields[i].tree) == Matches(Some(target))
    ensures Walk(R.Retrocycle(t), Link([]), y + [At(t, y).value.fields[i].step]) == Some(Link(target))
  {
    var r, part := R.Retrocycle(t), At(t, y).value;
    var st := part.fields[i].step;
    F.RetrocycleBetween(t);
    assert [] + y == y;
    F.WalkSpine(t, r, [], y);
    F.RetrocycleAt(t, y);
    WalkOn(r, Link([]), y, st);
    Retrocycling.ProperPart(t, y);
    Retrocycling.ChildIndexAt(part.fields, i);
    F.SameTreeIndex(r[y].fields, part.fields, st);
    assert [st][1..] == [];
    assert Walk(r, Link(y), [st]) == Walk(r, r[y].fields[i].slot, []);
  }

  /** An object that looks like a reference breaks the structure, whatever visited place it names. */
  lemma FakeBreaks<A(!new)>(h: Heap<A>, s: Slot<A>, y: Path, i: nat, c: A, f: map<A, Path>)
    requires Closed(h) && s.Link? && s.to in h
    requires var (t, phi) := Decycle(h, s); Retrocycling.RefsResolve(t) && FakeAt(h, phi, s, [], t, y, i, c)
    ensures !IsoBy(h, s, R.Retrocycle(Decycle(h, s).0), Link([]), f)
  {
    var (t, phi) := Decycle(h, s);
    var r := R.Retrocycle(t);
    DecycleRecords(h, s);
    CopiedProper(h, phi, s, [], t);
    RootRecorded(h, s);
    var item := At(t, y).value.fields[i];
    var target := RefMatch(item.tree).steps.value;
    WalkToResolved(t, y, i, target);
    CopiedRefText(h, phi, c, item.tree);
    if IsoBy(h, s, r, Link([]), f) {
      IsoWalk(h, s, r, Link([]), f, y + [item.step]);
      assert f[c] == target;
      if target != [] {
        F.RetrocycleAt(t, target);
        RezKeepsRefText(At(t, target).value, target);
        SameRefMember(f, h[c], r[target]);
        SpineIsNoReference(t, target);
      }
    }
  }

  /** retrocycle after decycle, wherever every reference of the copy leads to a place that `rez` visits: the
      result is the same structure if and only if no object looks like a reference and the paths of the objects
      that occur again have only one-digit array indices. */
  lemma ComesBackExactly<A(!new)>(h: Heap<A>, s: Slot<A>)
    requires Closed(h) && (s.Link? ==> s.to in h) && Retrocycling.RefsResolve(Decycle(h, s).0)
    ensures var (t, phi) := Decycle(h, s);
            (exists f: map<A, Path> :: IsoBy(h, s, R.Retrocycle(t), R.LoadSlot(t, []), f))
            <==> NoLookalike(h, s) && SharedPathsSmall(h, phi)
  {
    var (t, phi) := Decycle(h, s);
    LookalikesAreFake(h, s);
    if NoFakeReference(h, phi) {
      DecycleThenRetrocycle(h, s);
    } else {
      DecycleRecords(h, s);
      var b :| b in phi && phi[b] != []
        && !(b in h && (RefMember(h[b]).Some? ==> Px(RefMember(h[b]).value).NoMatch?));
      CopiedRefText(h, phi, b, At(t, phi[b]).value);
      if R.Spine(t, phi[b]) {
        SpineIsNoReference(t, phi[b]);
      }
      var y, i, c := FirstFake(h, phi, s, [], t, phi[b], b);
      RootRecorded(h, s);
      forall f: map<A, Path>
        ensures !IsoBy(h, s, R.Retrocycle(t), Link([]), f)
      {
        FakeBreaks(h, s, y, i, c, f);
      }
    }
  }

  /** No array has more than ten elements, and no object has a `$ref` member that is a string. */
  ghost predicate Modest<A(!new)>(h: Heap<A>) {
    forall a :: a in h ==> (h[a].kind.ArrayKind? ==> |h[a].fields| <= 10) && RefMember(h[a]).None?
  }

  lemma {:induction false} WalkSmall<A(!new)>(h: Heap<A>, s: Slot<A>, path: Path)
    requires Closed(h) && Modest(h) && Walk(h, s, path).Some?
    ensures SmallIndices(path)
    decreases |path|
  {
    if path != [] {
      var n := h[s.to];
      var i := FieldIndex(n.fields, path[0]).value;
      WalkSmall(h, n.fields[i].slot, path[1..]);
      assert WellFormedNode(n) && n.fields[i].step == path[0];
      forall j | 0 <= j < |path| && path[j].Index?
        ensures path[j].i < 10
      {
        assert j > 0 ==> path[j] == path[1..][j - 1];
      }
    }
  }

  /** A graph with short arrays and without `$ref` members always comes back. */
  lemma ModestGraphComesBack<A(!new)>(h: Heap<A>, s: Slot<A>)
    requires Closed(h) && (s.Link? ==> s.to in h) && Modest(h)
    ensures var t := Decycle(h, s).0; exists f: map<A, Path> :: IsoBy(h, s, R.Retrocycle(t), R.LoadSlot(t, []), f)
  {
    var (t, phi) := Decycle(h, s);
    DecycleRecords(h, s);
    forall b | b in phi
      ensures b in h && SmallIndices(phi[b])
    {
      assert Copied(h, phi, Link(b), phi[b], At(t, phi[b]).value);
      WalkSmall(h, s, phi[b]);
    }
    DecycleThenRetrocycle(h, s);
  }

  /** Both methods in a row: decycle, and retrocycle on the objects of the tree it makes.  A plain value goes
      through both as it is. */
  method RoundTrip<A(!new, ==)>(h: Heap<A>, s: Slot<A>) returns (r: Heap<Path>, root: Slot<Path>)
    requires Closed(h) && (s.Link? ==> s.to in h) && Retrocycling.RefsResolve(Decycle(h, s).0)
    ensures (exists f: map<A, Path> :: IsoBy(h, s, r, root, f))
      <==> NoLookalike(h, s) && SharedPathsSmall(h, Decycle(h, s).1)
  {
    var first := new Decycling.Decycler(h);
    var copy := first.Decycle(s);
    root := R.LoadSlot(copy, []);
    ComesBackExactly(h, s);
    if s.Plain? {
      return map[], root;
    }
    RoundTripReady(h, s);
    var second := new Retrocycling.Retrocycler(R.Load(copy, []));
    second.Retrocycle(copy);
    r := second.heap;
  }

  lemma RoundTripReady<A(!new)>(h: Heap<A>, s: Slot<A>)
    requires Closed(h) && s.Link? && s.to in h
    ensures var t := Decycle(h, s).0; t.Branch? && R.ProperTree(t)
  {
    DecycleRecords(h, s);
    CopiedProper(h, Decycle(h, s).1, s, [], Decycle(h, s).0);
    RootRecorded(h, s);
  }

  /** An array of ten nulls and twice the same empty object. */
  function LongHeap(): Heap<nat> {
    map[0 := LongNode(), 1 := Node(ObjectKind, [])]
  }

  function LongNode(): (n: Node<nat>)
    ensures |n.fields| == 12
    ensures forall i :: 0 <= i < 12 ==> n.fields[i] == Field(Index(i), if i < 10 then Plain(NullPrim) else Link(1))
  {
    Node(ArrayKind, seq(12, i requires 0 <= i < 12 => Field(Index(i), if i < 10 then Plain(NullPrim) else Link(1))))
  }

  lemma NothingInside(x: Path)
    ensures x != [] ==> Walk(LongHeap(), Link(1), x) == None
  {
  }

  lemma LongPaths(p: Path)
    requires Walk(LongHeap(), Link(0), p) == Some(Link(1))
    ensures p == [Index(10)] || p == [Index(11)]
  {
    var h := LongHeap();
    var i := FieldIndex(h[0].fields, p[0]).value;
    assert Walk(h, h[0].fields[i].slot, p[1..]) == Some(Link(1));
    assert p == [p[0]] + p[1..];
    NothingInside(p[1..]);
  }

  lemma LongHeapIsClosed()
    ensures Closed(LongHeap()) && Walk(LongHeap(), Link(0), [Index(10)]) == Some(Link(1))
  {
    var h := LongHeap();
    assert WellFormedNode(h[0]) && WellFormedNode(h[1]);
    DistinctFields(h[0]);
    FieldIndexAt(h[0].fields, 10);
    assert [Index(10)][1..] == [];
    assert Walk(h, h[0].fields[10].slot, []) == Some(Link(1));
  }

  lemma RecordedInHeap<A(!new)>(h: Heap<A>, s: Slot<A>, b: A)
    requires Closed(h) && s.Link? && s.to in h && b in Decycle(h, s).1
    ensures b in h && Walk(h, s, Decycle(h, s).1[b]) == Some(Link(b))
  {
    DecycleRecords(h, s);
    var (t, phi) := Decycle(h, s);
    assert Copied(h, phi, Link(b), phi[b], At(t, phi[b]).value);
  }

  lemma WalkedIsRecorded<A(!new)>(h: Heap<A>, s: Slot<A>, x: Path, b: A)
    requires Closed(h) && s.Link? && s.to in h && Walk(h, s, x) == Some(Link(b))
    ensures b in Decycle(h, s).1
  {
    DecycleRecords(h, s);
    assert Reaches(h, s, b);
  }

  /** What is recorded for it. */
  lemma LongRecord(phi: Seen<nat>)
    requires Closed(LongHeap()) && phi == Decycle(LongHeap(), Link(0)).1
    ensures phi.Keys == {0, 1} && phi[0] == [] && (phi[1] == [Index(10)] || phi[1] == [Index(11)])
  {
    LongHeapIsClosed();
    RootRecorded(LongHeap(), Link(0));
    WalkedIsRecorded(LongHeap(), Link(0), [Index(10)], 1);
    RecordedInHeap(LongHeap(), Link(0), 1);
    LongPaths(phi[1]);
    forall b | b in phi
      ensures b in {0, 1}
    {
      RecordedInHeap(LongHeap(), Link(0), b);
      assert LongHeap().Keys == {0, 1};
    }
  }

  lemma LongPathIsShared(phi: Seen<nat>)
    requires phi.Keys == {0, 1} && phi[0] == [] && (phi[1] == [Index(10)] || phi[1] == [Index(11)])
    ensures NoFakeReference(LongHeap(), phi) && !SharedPathsSmall(LongHeap(), phi)
  {
    var h := LongHeap();
    assert phi[1][0].Index? && !SmallIndices(phi[1]);
    var i := if phi[1] == [Index(10)] then 11 else 10;
    assert h[0].fields[i] == Field(Index(i), Link(1)) && phi[0] + [Index(i)] == [Index(i)];
    assert phi[1] != phi[0] + [h[0].fields[i].step];
  }

  /** Why the indices must be small: the array of ten nulls and twice the same object does not come back. */
  lemma LongArray()
    ensures Closed(LongHeap())
    ensures var (t, phi) := Decycle(LongHeap(), Link(0));
            && NoFakeReference(LongHeap(), phi) && !SharedPathsSmall(LongHeap(), phi)
            && forall f: map<nat, Path> :: !IsoBy(LongHeap(), Link(0), R.Retrocycle(t), R.LoadSlot(t, []), f)
  {
    LongHeapIsClosed();
    LongRecord(Decycle(LongHeap(), Link(0)).1);
    LongPathIsShared(Decycle(LongHeap(), Link(0)).1);
    DecycleThenRetrocycle(LongHeap(), Link(0));
  }

  /** An object {"k": {"$ref": "$"}}. */
  function FakeHeap(k: Text): Heap<nat> {
    map[0 := Node(ObjectKind, [Field(Name(k), Link(1))]),
        1 := Node(ObjectKind, [Field(Name(REF_NAME), Plain(StrPrim([DOLLAR])))])]
  }

  lemma FakeDecycled(k: Text)
    requires k != REF_NAME
    ensures Closed(FakeHeap(k))
    ensures Decycle(FakeHeap(k), Link(0)).0 == Branch(ObjectKind, [TreeField(Name(k), RefTree([]))])
  {
    var h := FakeHeap(k);
    var none: Seen<nat> := map[];
    var seen := none[0 := []];
    var seen1 := seen[1 := [Name(k)]];
    assert PathText([]) == [DOLLAR];
    assert h[1].fields[1..] == [] && h[0].fields[1..] == [];
    assert DerezFields(h, h[1].fields, [Name(k)], seen1).0 == RefTree([]).fields;
    assert Derez(h, Link(1), [Name(k)], seen).0 == RefTree([]);
    assert [] + [Name(k)] == [Name(k)];
    assert DerezFields(h, h[0].fields, [], seen).0 == [TreeField(Name(k), RefTree([]))];
  }

  /** Why fake references are shut out: the object {"k": {"$ref": "$"}} comes out as an object whose
      member is the object itself, which is not the same structure. */
  lemma FakeReference(k: Text)
    requires k != REF_NAME
    ensures Closed(FakeHeap(k))
    ensures var t := Decycle(FakeHeap(k), Link(0)).0;
            && R.Retrocycle(t)[[]] == Node(ObjectKind, [Field(Name(k), Link([]))])
            && forall f: map<nat, Path> :: !IsoBy(FakeHeap(k), Link(0), R.Retrocycle(t), Link([]), f)
  {
    var h := FakeHeap(k);
    FakeDecycled(k);
    ReferenceMatch([]);
    var r := R.Retrocycle(Decycle(h, Link(0)).0);
    assert r[[]].fields == [Field(Name(k), Link([]))];
    var once, twice := [Name(k)], [Name(k), Name(k)];
    assert twice[1..] == once && once[1..] == [];
    assert FieldIndex(r[[]].fields, Name(k)) == Some(0);
    assert Walk(r, Link([]), once) == Some(Link([]));
    assert Walk(r, Link([]), twice) == Walk(r, Link([]), once);
    assert Walk(h, Link(1), once) == None;
    assert Walk(h, Link(0), twice) == None;
    forall f: map<nat, Path>
      ensures !IsoBy(h, Link(0), r, Link([]), f)
    {
      if IsoBy(h, Link(0), r, Link([]), f) {
        IsoWalk(h, Link(0), r, Link([]), f, twice);
      }
    }
  }
}
