/** Rollback when the cursor holds the stored row itself, as the contract of Cursor says. */
module StoredRowRollback {
  import opened UndoLog
  import opened TableModel
  import opened StackFacts

  /** What the table holds when everything since the k-th open `begin` is undone. */
  ghost function Undone<Id>(t: Table<Id>, k: nat): Content
    requires Wf(t) && k < |t.stack|
  {
    WfFlat(t.rows, t.stack[k..]);
    var st := UndoAll(Flat(t.stack[k..]), t.rows);
    Contents(st.ids, st.cells)
  }

  /** At every nesting depth, undoing gives back what the table held at that `begin`. */
  ghost predicate Restorable<Id>(t: Table<Id>) {
    Wf(t) && forall k :: 0 <= k < |t.stack| ==> Undone(t, k) == t.marks[k].begun
  }

  /** Executing the entry that was just logged takes the operation back. */
  lemma TakesBack<Id>(t: Table<Id>, op: Op<Id>) returns (u: Undo<Id>)
    requires Wf(t) && Enabled(t, false, op) && (op.Insert? || op.Update? || op.Delete?)
    ensures var r := Step(t, false, op);
            Logged(t, r, u) && Similar(t.rows, Execute(u, r.rows))
  {
    u := StepLogs(t, false, op);
    var r := Step(t, false, op);
    match op
    case Insert(id, _) =>
      assert id !in t.rows.ids;
      RemoveLast(t.rows.ids, id);
    case Update(at, cell, v, _) =>
      var row := t.rows.ids[at];
      var was := t.rows.cells[row][cell];
      assert t.rows.cells[row][cell := v][cell := was] == t.rows.cells[row];
      assert Execute(u, r.rows).cells == t.rows.cells;
    case Delete(at, _) =>
      assert t.rows.ids == t.rows.ids[..at] + [t.rows.ids[at]] + t.rows.ids[at + 1..];
  }

  lemma {:induction false} RemoveLast<Id>(s: seq<Id>, x: Id)
    requires x !in s
    ensures RemoveFirst(s + [x], x) == s
  {
    if s == [] {
      assert s + [x] == [x];
    } else {
      assert (s + [x])[1..] == s[1..] + [x];
      RemoveLast(s[1..], x);
    }
  }

  lemma LoggedUndone<Id>(t: Table<Id>, r: Table<Id>, u: Undo<Id>, k: nat)
    requires Wf(t) && Wf(r) && Logged(t, r, u) && Similar(t.rows, Execute(u, r.rows)) && k < |t.stack|
    ensures Undone(r, k) == Undone(t, k)
  {
    var log := Flat(t.stack[k..]);
    RegisterFrom(t.stack, u, k);
    FlatRegister(t.stack[k..], u);
    WfFlat(t.rows, t.stack[k..]);
    WfFlat(r.rows, r.stack[k..]);
    GrownNamed(t.rows, r.rows, [log]);
    assert WfLog(r.rows, [log][0]) && WfLog(r.rows, [u]);
    UndoAllAppend(log, [u], r.rows);
    assert [u][..0] == [];
    assert UndoAll([u], r.rows) == Execute(u, r.rows);
    SimilarUndo(log, t.rows, Execute(u, r.rows));
    SimilarContents(UndoAll(log, t.rows), UndoAll(log, Execute(u, r.rows)));
  }

  lemma BeginRestorable<Id>(t: Table<Id>)
    requires Restorable(t)
    ensures Restorable(Step(t, false, Begin))
  {
    var r := Step(t, false, Begin);
    StepWf(t, false, Begin);
    forall k | 0 <= k < |r.stack|
      ensures Undone(r, k) == r.marks[k].begun
    {
      if k == |t.stack| {
        assert r.stack[k..] == [[]] && r.stack[k..][..0] == [];
        assert Flat(r.stack[k..]) == [];
      } else {
        assert r.stack[k..][..|r.stack[k..]| - 1] == t.stack[k..];
        assert Flat(r.stack[k..]) == Flat(t.stack[k..]) + [] == Flat(t.stack[k..]);
      }
    }
  }

  lemma CommitTopRestorable<Id>(t: Table<Id>)
    requires Restorable(t) && t.stack != []
    ensures Restorable(t.(stack := CommitTop(t.stack), marks := t.marks[..|t.marks| - 1]))
  {
    var r := t.(stack := CommitTop(t.stack), marks := t.marks[..|t.marks| - 1]);
    CommitTopNamed(t.rows, t.stack);
    forall k | 0 <= k < |r.stack|
      ensures Undone(r, k) == r.marks[k].begun
    {
      CommitFrom(t.stack, k);
      FlatCommit(t.stack[k..]);
      assert Undone(t, k) == t.marks[k].begun;
    }
  }

  lemma {:induction false} CommitRestorable<Id>(t: Table<Id>, all: bool)
    requires Restorable(t) && t.stack != []
    ensures Restorable(CommitLevels(t, all))
    decreases |t.stack|
  {
    CommitTopRestorable(t);
    var one := t.(stack := CommitTop(t.stack), marks := t.marks[..|t.marks| - 1]);
    if all && one.stack != [] {
      CommitRestorable(one, all);
    }
  }

  /** One level back: the table holds what it held at the `begin`, and the outer levels can still
      be undone. */
  lemma RollbackTopRestores<Id>(t: Table<Id>)
    requires Restorable(t) && t.stack != []
    ensures Restorable(RollbackTop(t))
    ensures ContentOf(RollbackTop(t)) == t.marks[|t.marks| - 1].begun
  {
    var n := |t.stack| - 1;
    var r := RollbackTop(t);
    assert t.stack[n..] == [t.stack[n]] && t.stack[n..][..0] == [];
    assert Flat(t.stack[n..]) == [] + t.stack[n] == t.stack[n];
    assert Undone(t, n) == t.marks[n].begun;
    forall k | 0 <= k < n
      ensures Undone(r, k) == r.marks[k].begun
    {
      assert t.stack[k..][..n - k] == r.stack[k..];
      assert Flat(t.stack[k..]) == Flat(r.stack[k..]) + t.stack[n];
      WfFlat(t.rows, t.stack[k..]);
      WfFlat(t.rows, r.stack[k..]);
      UndoAllAppend(Flat(r.stack[k..]), t.stack[n], t.rows);
      assert Undone(t, k) == t.marks[k].begun;
    }
  }

  lemma {:induction false} RollbackRestores<Id>(t: Table<Id>, all: bool)
    requires Restorable(t) && t.stack != []
    ensures Restorable(RollbackLevels(t, all))
    ensures ContentOf(RollbackLevels(t, all)) == t.marks[if all then 0 else |t.marks| - 1].begun
    decreases |t.stack|
  {
    RollbackTopRestores(t);
    if all && RollbackTop(t).stack != [] {
      RollbackRestores(RollbackTop(t), all);
    }
  }

  lemma StepRestorable<Id>(t: Table<Id>, op: Op<Id>)
    requires Restorable(t) && Enabled(t, false, op)
    ensures Restorable(Step(t, false, op))
  {
    match op {
      case Begin => BeginRestorable(t);
      case Commit(all) => CommitRestorable(t, all);
      case Rollback(all) => RollbackRestores(t, all);
      case _ =>
        var u := TakesBack(t, op);
        var r := Step(t, false, op);
        LoggedWf(t, r, u);
        forall k | 0 <= k < |r.stack|
          ensures Undone(r, k) == r.marks[k].begun
        {
          LoggedUndone(t, r, u, k);
          assert Undone(t, k) == t.marks[k].begun;
        }
    }
  }
}
