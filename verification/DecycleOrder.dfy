/** Where decycle copies an object: at the first place, in the order of the fields, at which the walk meets it. */
module DecycleOrder {
  import opened PathTexts
  import opened Graphs
  import opened DecycleSpec
  import opened DecycleFacts

  /** Going down `x` from `s` in the graph and from `t` in the copy, by way of objects that are copied where
      they stand, arrives at the value `v`. */
  ghost predicate Stands<A(!new)>(h: Heap<A>, phi: Seen<A>, s: Slot<A>, path: Path, t: Tree, x: Path, v: Slot<A>)
    decreases t
  {
    if x == [] then v == s
    else
      && s.Link? && s.to in h && s.to in phi && phi[s.to] == path && t.Branch? && |t.fields| == |h[s.to].fields|
      && exists i :: 0 <= i < |t.fields| && t.fields[i].step == h[s.to].fields[i].step == x[0]
           && Stands(h, phi, h[s.to].fields[i].slot, path + [x[0]], t.fields[i].tree, x[1..], v)
  }

  /** In the order of the fields, an object before what is below it. */
  ghost predicate Before(t: Tree, p: Path, q: Path)
    decreases |p|
  {
    if p == [] then q != []
    else
      && q != [] && t.Branch?
      && exists i, j :: 0 <= i <= j < |t.fields| && t.fields[i].step == p[0] && t.fields[j].step == q[0]
           && (i == j ==> Before(t.fields[i].tree, p[1..], q[1..]))
  }

  /** Every new reference in the copy of `s` comes after the copy that it refers to. */
  ghost predicate Backward<A(!new)>(h: Heap<A>, seen: Seen<A>, after: Seen<A>, s: Slot<A>, path: Path, t: Tree) {
    forall x: Path, b ::
      Stands(h, after, s, path, t, x, Link(b)) && b in after && b !in seen && after[b] != path + x ==>
        path <= after[b] && Before(t, after[b][|path|..], x)
  }

  /** The same for fields: the copy is in an earlier field, or earlier in the same one. */
  ghost predicate BackwardFields<A(!new)>(h: Heap<A>, seen: Seen<A>, after: Seen<A>, fs: seq<Field<A>>, path: Path,
          ts: seq<TreeField>)
    requires |ts| == |fs|
  {
    forall i: nat, y: Path, b ::
      i < |fs| && Stands(h, after, fs[i].slot, path + [fs[i].step], ts[i].tree, y, Link(b))
      && b in after && b !in seen && after[b] != path + [fs[i].step] + y ==>
        Earlier(after[b], fs, path, ts, i, y)
  }

  ghost predicate Earlier<A>(p: Path, fs: seq<Field<A>>, path: Path, ts: seq<TreeField>, i: nat, y: Path)
    requires i < |fs| == |ts|
  {
    exists j: nat :: j <= i && path + [fs[j].step] <= p && (j == i ==> Before(ts[i].tree, p[|path| + 1..], y))
  }

  /** What stands in a copy was recorded when the copy was made. */
  lemma {:induction false} StandsThen<A(!new)>(h: Heap<A>, m: Seen<A>, n: Seen<A>, s: Slot<A>, path: Path, t: Tree,
          x: Path, v: Slot<A>)
    requires Extends(m, n) && Copied(h, m, s, path, t) && Stands(h, n, s, path, t, x, v)
    ensures Stands(h, m, s, path, t, x, v) && (v.Link? ==> v.to in m)
    decreases t
  {
    if x != [] {
      var i :| 0 <= i < |t.fields| && t.fields[i].step == h[s.to].fields[i].step == x[0]
        && Stands(h, n, h[s.to].fields[i].slot, path + [x[0]], t.fields[i].tree, x[1..], v);
      StandsThen(h, m, n, h[s.to].fields[i].slot, path + [x[0]], t.fields[i].tree, x[1..], v);
    }
  }

  lemma {:induction false} DerezBackward<A(!new)>(h: Heap<A>, s: Slot<A>, path: Path, seen: Seen<A>)
    requires Closed(h) && (s.Link? ==> s.to in h) && seen.Keys <= h.Keys
    requires Injective(seen) && Unused(seen, path)
    ensures var (t, after) := Derez(h, s, path, seen); Backward(h, seen, after, s, path, t)
    decreases h.Keys - seen.Keys, 0
  {
    var (t, after) := Derez(h, s, path, seen);
    if s.Link? && s.to !in seen {
      var a := s.to;
      var seen1 := seen[a := path];
      assert h.Keys - seen1.Keys < h.Keys - seen.Keys by {
        assert a in h.Keys - seen.Keys && a !in h.Keys - seen1.Keys;
      }
      DistinctFields(h[a]);
      NothingBelow(seen, a, path, h[a].fields);
      DerezFieldsBackward(h, h[a].fields, path, seen1);
      var (ts, _) := DerezFields(h, h[a].fields, path, seen1);
      ObjectBackward(h, seen, after, a, path, ts);
    }
  }

  /** An object whose fields refer backward does. */
  lemma ObjectBackward<A(!new)>(h: Heap<A>, seen: Seen<A>, after: Seen<A>, a: A, path: Path, ts: seq<TreeField>)
    requires a in h && a in after && after[a] == path && |ts| == |h[a].fields|
    requires forall i :: 0 <= i < |ts| ==> ts[i].step == h[a].fields[i].step
    requires BackwardFields(h, seen[a := path], after, h[a].fields, path, ts)
    ensures Backward(h, seen, after, Link(a), path, Branch(h[a].kind, ts))
  {
    var t, fs := Branch(h[a].kind, ts), h[a].fields;
    forall x: Path, b |
      Stands(h, after, Link(a), path, t, x, Link(b)) && b in after && b !in seen && after[b] != path + x
      ensures path <= after[b] && Before(t, after[b][|path|..], x)
    {
      if b == a {
        assert path[|path|..] == [];
      } else {
        var i: nat :| i < |ts| && ts[i].step == fs[i].step == x[0]
          && Stands(h, after, fs[i].slot, path + [x[0]], ts[i].tree, x[1..], Link(b));
        assert path + [x[0]] + x[1..] == path + x;
        assert Earlier(after[b], fs, path, ts, i, x[1..]);
        EarlierIsBefore(after[b], fs, path, ts, i, x, h[a].kind);
      }
    }
  }

  lemma EarlierIsBefore<A>(p: Path, fs: seq<Field<A>>, path: Path, ts: seq<TreeField>, i: nat, x: Path, kind: Kind)
    requires i < |fs| == |ts| && (forall k :: 0 <= k < |ts| ==> ts[k].step == fs[k].step)
    requires x != [] && x[0] == fs[i].step && Earlier(p, fs, path, ts, i, x[1..])
    ensures path <= p && Before(Branch(kind, ts), p[|path|..], x)
  {
    var j: nat :| j <= i && path + [fs[j].step] <= p && (j == i ==> Before(ts[i].tree, p[|path| + 1..], x[1..]));
    var y := p[|path|..];
    assert p[|path|] == fs[j].step && y[1..] == p[|path| + 1..];
    assert Branch(kind, ts).fields[j].step == y[0] && Branch(kind, ts).fields[i].step == x[0];
  }

  lemma {:induction false} DerezFieldsBackward<A(!new)>(h: Heap<A>, fs: seq<Field<A>>, path: Path, seen: Seen<A>)
    requires Closed(h) && LinksIn(fs, h.Keys) && seen.Keys <= h.Keys && DistinctSteps(fs)
    requires Injective(seen) && forall i :: 0 <= i < |fs| ==> Unused(seen, path + [fs[i].step])
    ensures var (ts, after) := DerezFields(h, fs, path, seen); BackwardFields(h, seen, after, fs, path, ts)
    decreases h.Keys - seen.Keys, 1 + |fs|
  {
    if fs != [] {
      var first := path + [fs[0].step];
      DerezGood(h, fs[0].slot, first, seen);
      DerezBackward(h, fs[0].slot, first, seen);
      var (t, seen1) := Derez(h, fs[0].slot, first, seen);
      assert h.Keys - seen1.Keys <= h.Keys - seen.Keys;
      forall i | 0 <= i < |fs[1..]|
        ensures Unused(seen1, path + [fs[1..][i].step])
      {
        StillUnused(h, seen, seen1, fs[0].slot, path, fs[0].step, fs[1..][i].step, t);
      }
      DerezFieldsBackward(h, fs[1..], path, seen1);
      var (ts, after) := DerezFields(h, fs[1..], path, seen1);
      FirstThenRest(h, seen, seen1, after, fs, path, t, ts);
    }
  }

  lemma FirstThenRest<A(!new)>(h: Heap<A>, seen: Seen<A>, seen1: Seen<A>, after: Seen<A>, fs: seq<Field<A>>,
                               path: Path, t: Tree, ts: seq<TreeField>)
    requires fs != [] && |ts| == |fs| - 1
    requires Good(h, seen, seen1, fs[0].slot, path + [fs[0].step], t) && Extends(seen1, after)
    requires Backward(h, seen, seen1, fs[0].slot, path + [fs[0].step], t)
    requires BackwardFields(h, seen1, after, fs[1..], path, ts)
    ensures BackwardFields(h, seen, after, fs, path, [TreeField(fs[0].step, t)] + ts)
  {
    var all := [TreeField(fs[0].step, t)] + ts;
    var first := path + [fs[0].step];
    forall i: nat, y: Path, b |
      i < |fs| && Stands(h, after, fs[i].slot, path + [fs[i].step], all[i].tree, y, Link(b))
      && b in after && b !in seen && after[b] != path + [fs[i].step] + y
      ensures Earlier(after[b], fs, path, all, i, y)
    {
      if i == 0 {
        StandsThen(h, seen1, after, fs[0].slot, first, t, y, Link(b));
        assert first <= after[b] && Before(all[0].tree, after[b][|first|..], y);
      } else if b in seen1 {
        assert first <= after[b];
      } else {
        assert fs[i] == fs[1..][i - 1] && all[i] == ts[i - 1];
        assert Earlier(after[b], fs[1..], path, ts, i - 1, y);
        var j: nat :| j <= i - 1 && path + [fs[1..][j].step] <= after[b]
          && (j == i - 1 ==> Before(ts[i - 1].tree, after[b][|path| + 1..], y));
        assert fs[j + 1] == fs[1..][j];
      }
    }
  }

  /** In what decycle returns, every reference comes after the copy it refers to: an object is copied at its
      first place in the order of the fields, and nowhere else. */
  lemma ReferencesPointBack<A(!new)>(h: Heap<A>, s: Slot<A>, x: Path, b: A)
    requires Closed(h) && (s.Link? ==> s.to in h)
    requires var (t, phi) := Decycle(h, s); Stands(h, phi, s, [], t, x, Link(b)) && b in phi && phi[b] != x
    ensures var (t, phi) := Decycle(h, s); Before(t, phi[b], x)
  {
    var (t, phi) := Decycle(h, s);
    DerezBackward(h, s, [], map[]);
    assert [] + x == x && phi[b][0..] == phi[b];
  }
}
