/** decycle as it runs: `objects` and `paths` grow during the walk. */
module Decycling {
  import opened Options
  import opened Texts
  import opened PathTexts
  import opened Graphs
  import S = DecycleSpec

  class Decycler<A(!new, ==)> {
    const heap: Heap<A>
    var objects: seq<A>
    var paths: seq<Text>
    /** The same record as a map, with the paths as steps. */
    ghost var recorded: S.Seen<A>

    constructor (heap: Heap<A>)
      ensures this.heap == heap && Valid() && recorded == map[]
    {
      this.heap := heap;
      objects, paths, recorded := [], [], map[];
    }

    ghost predicate Valid()
      reads this
    {
      && |objects| == |paths|
      && (forall i :: 0 <= i < |objects| ==> objects[i] in recorded && paths[i] == PathText(recorded[objects[i]]))
      && (forall a :: a in recorded ==> a in objects)
    }

    /** The linear search for an object that was seen before. */
    method Find(a: A) returns (index: Option<nat>)
      ensures index.Some? ==> index.value < |objects| && objects[index.value] == a
      ensures index.None? ==> a !in objects
    {
      for i := 0 to |objects|
        invariant forall j :: 0 <= j < i ==> objects[j] != a
      {
        if objects[i] == a {
          return Some(i);
        }
      }
      return None;
    }

    /** `derez(value, path)`; `at` is the path as steps. */
    method Derez(value: Slot<A>, path: Text, ghost at: Path) returns (copy: Tree)
      requires Valid() && Closed(heap) && (value.Link? ==> value.to in heap)
      requires path == PathText(at)
      modifies this
      ensures Valid()
      ensures copy == S.Derez(heap, value, at, old(recorded)).0
      ensures recorded == S.Derez(heap, value, at, old(recorded)).1
      decreases heap.Keys - recorded.Keys, 0
    {
      if value.Plain? {
        return Leaf(value.p);
      }
      var a := value.to;
      var known := Find(a);
      if known.Some? {
        return Branch(ObjectKind, [TreeField(Name(REF_NAME), Leaf(StrPrim(paths[known.value])))]);
      }
      ghost var before := recorded;
      objects, paths, recorded := objects + [a], paths + [path], recorded[a := at];
      assert heap.Keys - recorded.Keys < heap.Keys - before.Keys by {
        assert a in heap.Keys - before.Keys && a !in heap.Keys - recorded.Keys;
      }
      var fields := DerezFields(heap[a].fields, path, at);
      return Branch(heap[a].kind, fields);
    }

    /** The loops of `derez` over the elements of an array and over the members of an object. */
    method DerezFields(fs: seq<Field<A>>, path: Text, ghost at: Path) returns (copies: seq<TreeField>)
      requires Valid() && Closed(heap) && LinksIn(fs, heap.Keys)
      requires path == PathText(at)
      modifies this
      ensures Valid()
      ensures copies == S.DerezFields(heap, fs, at, old(recorded)).0
      ensures recorded == S.DerezFields(heap, fs, at, old(recorded)).1
      decreases heap.Keys - recorded.Keys, 1
    {
      copies := [];
      for i := 0 to |fs|
        invariant Valid() && heap.Keys - recorded.Keys <= heap.Keys - old(recorded).Keys
        invariant copies + S.DerezFields(heap, fs[i..], at, recorded).0 == S.DerezFields(heap, fs, at, old(recorded)).0
        invariant S.DerezFields(heap, fs[i..], at, recorded).1 == S.DerezFields(heap, fs, at, old(recorded)).1
      {
        ghost var before := recorded;
        PathTextAppend(at, fs[i].step);
        S.FieldsStep(heap, fs, i, at, recorded, copies);
        var t := Derez(fs[i].slot, path + StepText(fs[i].step), at + [fs[i].step]);
        copies := copies + [TreeField(fs[i].step, t)];
      }
      assert copies + [] == copies;
    }

    /** `JSON.decycle(object)`: the walk from `$`. */
    method Decycle(object_: Slot<A>) returns (copy: Tree)
      requires Closed(heap) && (object_.Link? ==> object_.to in heap)
      modifies this
      ensures Valid() && copy == S.Decycle(heap, object_).0 && recorded == S.Decycle(heap, object_).1
    {
      objects, paths, recorded := [], [], map[];
      assert PathText([]) == [DOLLAR];
      copy := Derez(object_, [DOLLAR], []);
    }
  }
}
