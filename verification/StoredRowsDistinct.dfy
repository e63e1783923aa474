/** With the stored row in the cursor no row is ever in the list twice, whatever is rolled back. */
module StoredRowsDistinct {
  import opened UndoLog
  import opened TableModel
  import opened StackFacts
  import S = StoredRowRollback
  import C = CopiedRowRollback

  /** What the list is when the entries from the j-th on are undone. */
  ghost function ListAt<Id>(log: Log<Id>, st: Rows<Id>, j: nat): seq<Id>
    requires WfRows(st) && WfLog(st, log) && j <= |log|
  {
    UndoAll(log[j..], st).ids
  }

  /** No row is in the list twice now, nor after any number of entries are undone. */
  ghost predicate AlwaysDistinct<Id>(log: Log<Id>, st: Rows<Id>)
    requires WfRows(st) && WfLog(st, log)
  {
    forall j :: 0 <= j <= |log| ==> C.NoRepeats(ListAt(log, st, j))
  }

  ghost predicate Distinct<Id>(t: Table<Id>)
    requires Wf(t)
  {
    WfFlat(t.rows, t.stack);
    AlwaysDistinct(Flat(t.stack), t.rows)
  }

  lemma DistinctNow<Id>(t: Table<Id>)
    requires Wf(t) && Distinct(t)
    ensures C.NoRepeats(t.rows.ids)
  {
    WfFlat(t.rows, t.stack);
    var log := Flat(t.stack);
    assert log[|log|..] == [];
    assert ListAt(log, t.rows, |log|) == t.rows.ids;
  }

  lemma SameDistinct<Id>(a: seq<Id>, b: seq<Id>)
    requires C.NoRepeats(a) && multiset(a) == multiset(b)
    ensures C.NoRepeats(b)
  {
    forall x | x in b
      ensures multiset(b)[x] <= 1
    {
      assert x in multiset(b);
      assert x in a;
    }
  }

  /** Undoing the later entries first. */
  lemma ListAppend<Id>(a: Log<Id>, b: Log<Id>, st: Rows<Id>, j: nat)
    requires WfRows(st) && WfLog(st, a) && WfLog(st, b) && j <= |a|
    ensures WfLog(st, a + b) && WfLog(UndoAll(b, st), a)
    ensures ListAt(a + b, st, j) == ListAt(a, UndoAll(b, st), j)
  {
    assert (a + b)[j..] == a[j..] + b;
    UndoAllAppend(a[j..], b, st);
    UndoAllAppend(a, b, st);
  }

  lemma UndoneDistinct<Id>(a: Log<Id>, b: Log<Id>, st: Rows<Id>)
    requires WfRows(st) && WfLog(st, a) && WfLog(st, b)
    requires WfLog(st, a + b) && AlwaysDistinct(a + b, st)
    ensures WfLog(UndoAll(b, st), a) && AlwaysDistinct(a, UndoAll(b, st))
  {
    UndoAllAppend(a, b, st);
    forall j | 0 <= j <= |a|
      ensures C.NoRepeats(ListAt(a, UndoAll(b, st), j))
    {
      ListAppend(a, b, st, j);
      assert C.NoRepeats(ListAt(a + b, st, j));
    }
  }

  /** One more entry that takes back what was done. */
  lemma EntryDistinct<Id>(log: Log<Id>, u: Undo<Id>, before: Rows<Id>, after: Rows<Id>)
    requires WfRows(before) && WfLog(before, log) && AlwaysDistinct(log, before)
    requires WfRows(after) && WfLog(after, log) && Names(u, after.cells)
    requires Similar(before, Execute(u, after)) && C.NoRepeats(after.ids)
    ensures WfLog(after, log + [u]) && AlwaysDistinct(log + [u], after)
  {
    assert WfLog(after, [u]) && WfLog(after, log + [u]);
    assert [u][0] == u && [u][..0] == [];
    var st := UndoAll([u], after);
    assert UndoAll([], Execute(u, after)) == Execute(u, after);
    assert st == Execute(u, after);
    forall j | 0 <= j <= |log| + 1
      ensures C.NoRepeats(ListAt(log + [u], after, j))
    {
      if j == |log| + 1 {
        assert (log + [u])[j..] == [];
      } else {
        ListAppend(log, [u], after, j);
        SimilarUndo(log[j..], before, st);
        assert C.NoRepeats(ListAt(log, before, j));
        SameDistinct(ListAt(log, before, j), ListAt(log, st, j));
      }
    }
  }

  /** The rows in the list after an operation that logs. */
  lemma StepDistinctRows<Id>(t: Table<Id>, op: Op<Id>)
    requires Wf(t) && C.NoRepeats(t.rows.ids) && Enabled(t, false, op) && (op.Insert? || op.Update? || op.Delete?)
    ensures C.NoRepeats(Step(t, false, op).rows.ids)
  {
    match op
    case Insert(id, _) => C.AppendFresh(t.rows.ids, id);
    case Update(_, _, _, _) =>
    case Delete(at, _) =>
      C.MultisetWithout(t.rows.ids, at);
      C.StillNoRepeats(t.rows.ids[..at] + t.rows.ids[at + 1..], t.rows.ids[at], t.rows.ids);
  }

  lemma LoggedDistinct<Id>(t: Table<Id>, op: Op<Id>)
    requires Wf(t) && Distinct(t) && Enabled(t, false, op) && (op.Insert? || op.Update? || op.Delete?)
    ensures Wf(Step(t, false, op)) && Distinct(Step(t, false, op))
  {
    var u := S.TakesBack(t, op);
    var r := Step(t, false, op);
    StepWf(t, false, op);
    DistinctNow(t);
    StepDistinctRows(t, op);
    WfFlat(t.rows, t.stack);
    WfFlat(r.rows, r.stack);
    if t.stack != [] {
      FlatRegister(t.stack, u);
      GrownNamed(t.rows, r.rows, [Flat(t.stack)]);
      assert WfLog(r.rows, [Flat(t.stack)][0]);
      EntryDistinct(Flat(t.stack), u, t.rows, r.rows);
    }
  }

  lemma CommitTopDistinct<Id>(t: Table<Id>)
    requires Wf(t) && Distinct(t) && t.stack != []
    ensures var one := t.(stack := CommitTop(t.stack), marks := t.marks[..|t.marks| - 1]);
            Wf(one) && Distinct(one)
  {
    CommitTopNamed(t.rows, t.stack);
    if |t.stack| >= 2 {
      FlatCommit(t.stack);
    } else {
      DistinctNow(t);
      OnlyNow(t.rows);
    }
  }

  lemma OnlyNow<Id>(st: Rows<Id>)
    requires WfRows(st) && C.NoRepeats(st.ids)
    ensures AlwaysDistinct([], st)
  {
  }

  lemma {:induction false} CommitDistinct<Id>(t: Table<Id>, all: bool)
    requires Wf(t) && Distinct(t) && t.stack != []
    ensures Wf(CommitLevels(t, all)) && Distinct(CommitLevels(t, all))
    decreases |t.stack|
  {
    CommitTopDistinct(t);
    var one := t.(stack := CommitTop(t.stack), marks := t.marks[..|t.marks| - 1]);
    if all && one.stack != [] {
      CommitDistinct(one, all);
    }
  }

  lemma {:induction false} RollbackDistinct<Id>(t: Table<Id>, all: bool)
    requires Wf(t) && Distinct(t) && t.stack != []
    ensures Distinct(RollbackLevels(t, all))
    decreases |t.stack|
  {
    var n := |t.stack| - 1;
    var r := RollbackTop(t);
    WfFlat(t.rows, t.stack);
    WfFlat(t.rows, t.stack[..n]);
    UndoneDistinct(Flat(t.stack[..n]), t.stack[n], t.rows);
    WfFlat(r.rows, r.stack);
    if all && r.stack != [] {
      RollbackDistinct(r, all);
    }
  }

  lemma StepDistinct<Id>(t: Table<Id>, op: Op<Id>)
    requires Wf(t) && Distinct(t) && Enabled(t, false, op)
    ensures Wf(Step(t, false, op)) && Distinct(Step(t, false, op))
  {
    match op {
      case Begin =>
        var r := Step(t, false, Begin);
        assert r.stack[..|r.stack| - 1] == t.stack;
        assert Flat(r.stack) == Flat(t.stack) + [] == Flat(t.stack);
      case Commit(all) => CommitDistinct(t, all);
      case Rollback(all) => RollbackDistinct(t, all);
      case _ => LoggedDistinct(t, op);
    }
  }
}
