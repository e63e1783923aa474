/** decycle: the walk `derez`, as a function of the objects recorded so far and their paths. */
module DecycleSpec {
  import opened PathTexts
  import opened Graphs

  type Seen<A> = map<A, Path>

  /** The copy of the value at `path`, and what is recorded after it. */
  function Derez<A(!new)>(h: Heap<A>, s: Slot<A>, path: Path, seen: Seen<A>): (r: (Tree, Seen<A>))
    requires Closed(h) && (s.Link? ==> s.to in h)
    ensures Extends(seen, r.1)
    decreases h.Keys - seen.Keys, 0
  {
    match s
    case Plain(p) => (Leaf(p), seen)
    case Link(a) =>
      if a in seen then (RefTree(seen[a]), seen)
      else
        assert h.Keys - seen[a := path].Keys < h.Keys - seen.Keys by {
          assert a in h.Keys - seen.Keys && a !in h.Keys - seen[a := path].Keys;
        }
        var (fields, after) := DerezFields(h, h[a].fields, path, seen[a := path]);
        (Branch(h[a].kind, fields), after)
  }

  function DerezFields<A(!new)>(h: Heap<A>, fs: seq<Field<A>>, path: Path, seen: Seen<A>)
    : (r: (seq<TreeField>, Seen<A>))
    requires Closed(h) && LinksIn(fs, h.Keys)
    ensures Extends(seen, r.1)
    ensures |r.0| == |fs| && forall i :: 0 <= i < |fs| ==> r.0[i].step == fs[i].step
    decreases h.Keys - seen.Keys, 1 + |fs|
  {
    if fs == [] then ([], seen)
    else
      var (t, seen1) := Derez(h, fs[0].slot, path + [fs[0].step], seen);
      assert h.Keys - seen1.Keys <= h.Keys - seen.Keys;
      var (ts, seen2) := DerezFields(h, fs[1..], path, seen1);
      ([TreeField(fs[0].step, t)] + ts, seen2)
  }

  /** The loop over the fields, one field on; `done` is copied already. */
  lemma FieldsStep<A(!new)>(h: Heap<A>, fs: seq<Field<A>>, i: nat, path: Path, seen: Seen<A>, done: seq<TreeField>)
    requires Closed(h) && LinksIn(fs, h.Keys) && i < |fs|
    ensures var (t, seen1) := Derez(h, fs[i].slot, path + [fs[i].step], seen);
            && (done + [TreeField(fs[i].step, t)]) + DerezFields(h, fs[i + 1..], path, seen1).0
               == done + DerezFields(h, fs[i..], path, seen).0
            && DerezFields(h, fs[i + 1..], path, seen1).1 == DerezFields(h, fs[i..], path, seen).1
  {
    var (t, seen1) := Derez(h, fs[i].slot, path + [fs[i].step], seen);
    assert fs[i..][0] == fs[i] && fs[i..][1..] == fs[i + 1..];
    var later := DerezFields(h, fs[i + 1..], path, seen1).0;
    assert done + ([TreeField(fs[i].step, t)] + later) == (done + [TreeField(fs[i].step, t)]) + later;
  }

  ghost predicate Extends<A(!new)>(m: Seen<A>, n: Seen<A>) {
    forall a :: a in m ==> a in n && n[a] == m[a]
  }

  /** `decycle(object)` */
  function Decycle<A(!new)>(h: Heap<A>, s: Slot<A>): (Tree, Seen<A>)
    requires Closed(h) && (s.Link? ==> s.to in h)
  {
    Derez(h, s, [], map[])
  }
}
