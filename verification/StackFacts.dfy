/** Facts about every run of the model, under either reading of the cursor. */
module StackFacts {
  import opened UndoLog
  import opened TableModel

  /** All that was logged on these levels, in order. */
  function Flat<Id>(stack: seq<Log<Id>>): Log<Id>
    decreases |stack|
  {
    if stack == [] then []
    else var n := |stack| - 1; Flat(stack[..n]) + stack[n]
  }

  lemma {:induction false} WfFlat<Id>(st: Rows<Id>, stack: seq<Log<Id>>)
    requires forall k :: 0 <= k < |stack| ==> WfLog(st, stack[k])
    ensures WfLog(st, Flat(stack))
    decreases |stack|
  {
    if stack != [] {
      var n := |stack| - 1;
      WfFlat(st, stack[..n]);
      forall u | u in Flat(stack)
        ensures Names(u, st.cells)
      {
        assert u in Flat(stack[..n]) || u in stack[n];
      }
    }
  }

  lemma FlatRegister<Id>(stack: seq<Log<Id>>, u: Undo<Id>)
    requires stack != []
    ensures Flat(Register(stack, u)) == Flat(stack) + [u]
  {
    var n := |stack| - 1;
    var r := Register(stack, u);
    assert r[..n] == stack[..n] && r[n] == stack[n] + [u];
    assert Flat(stack[..n]) + (stack[n] + [u]) == (Flat(stack[..n]) + stack[n]) + [u];
  }

  lemma FlatCommit<Id>(stack: seq<Log<Id>>)
    requires |stack| >= 2
    ensures Flat(CommitTop(stack)) == Flat(stack)
  {
    var n := |stack| - 1;
    var r := CommitTop(stack);
    assert r[..n - 1] == stack[..n - 1] == stack[..n][..n - 1];
    assert r[n - 1] == stack[n - 1] + stack[n];
    assert Flat(stack[..n]) == Flat(stack[..n - 1]) + stack[n - 1];
    LogsAssociate(Flat(stack[..n - 1]), stack[n - 1], stack[n]);
  }

  lemma LogsAssociate<Id>(a: Log<Id>, b: Log<Id>, c: Log<Id>)
    ensures a + (b + c) == (a + b) + c
  {
  }

  lemma RegisterFrom<Id>(stack: seq<Log<Id>>, u: Undo<Id>, k: nat)
    requires k < |stack|
    ensures Register(stack, u)[k..] == Register(stack[k..], u)
  {
  }

  lemma CommitFrom<Id>(stack: seq<Log<Id>>, k: nat)
    requires k < |stack| - 1
    ensures CommitTop(stack)[k..] == CommitTop(stack[k..])
  {
  }

  lemma RegisterNamed<Id>(st: Rows<Id>, stack: seq<Log<Id>>, u: Undo<Id>)
    requires Names(u, st.cells) && forall k :: 0 <= k < |stack| ==> WfLog(st, stack[k])
    ensures forall k :: 0 <= k < |Register(stack, u)| ==> WfLog(st, Register(stack, u)[k])
  {
  }

  /** More rows, none of another width: what was named still is. */
  lemma GrownNamed<Id>(st: Rows<Id>, st1: Rows<Id>, stack: seq<Log<Id>>)
    requires forall k :: 0 <= k < |stack| ==> WfLog(st, stack[k])
    requires forall x :: x in st.cells ==> x in st1.cells && |st1.cells[x]| == |st.cells[x]|
    ensures forall k :: 0 <= k < |stack| ==> WfLog(st1, stack[k])
  {
    forall k | 0 <= k < |stack|
      ensures WfLog(st1, stack[k])
    {
      forall u | u in stack[k]
        ensures Names(u, st1.cells)
      {
        assert Names(u, st.cells);
      }
    }
  }

  /** The rows before the entry is registered, and the entry itself. */
  ghost predicate Logged<Id>(t: Table<Id>, r: Table<Id>, u: Undo<Id>) {
    && WfRows(r.rows) && Names(u, r.rows.cells)
    && (forall x :: x in t.rows.cells ==> x in r.rows.cells && |r.rows.cells[x]| == |t.rows.cells[x]|)
    && r.stack == Register(t.stack, u) && r.marks == t.marks
  }

  lemma StepLogs<Id>(t: Table<Id>, copying: bool, op: Op<Id>) returns (u: Undo<Id>)
    requires Wf(t) && Enabled(t, copying, op) && (op.Insert? || op.Update? || op.Delete?)
    ensures Logged(t, Step(t, copying, op), u)
    ensures op.Insert? ==> u == UndoInsert(op.id)
    ensures op.Update? ==>
      var row := CursorRow(copying, t.rows, op.at, op.copy).0;
      u == UndoUpdate(row, op.cell, t.rows.cells[t.rows.ids[op.at]][op.cell])
    ensures op.Delete? ==> u == UndoDelete(CursorRow(copying, t.rows, op.at, op.copy).0)
  {
    match op
    case Insert(id, values) => u := UndoInsert(id);
    case Update(at, cell, v, copy) =>
      u := UndoUpdate(CursorRow(copying, t.rows, at, copy).0, cell, t.rows.cells[t.rows.ids[at]][cell]);
    case Delete(at, copy) => u := UndoDelete(CursorRow(copying, t.rows, at, copy).0);
  }

  lemma LoggedWf<Id>(t: Table<Id>, r: Table<Id>, u: Undo<Id>)
    requires Wf(t) && Logged(t, r, u)
    ensures Wf(r)
  {
    GrownNamed(t.rows, r.rows, t.stack);
    RegisterNamed(r.rows, t.stack, u);
  }

  lemma CommitTopNamed<Id>(st: Rows<Id>, stack: seq<Log<Id>>)
    requires stack != [] && forall k :: 0 <= k < |stack| ==> WfLog(st, stack[k])
    ensures forall k :: 0 <= k < |CommitTop(stack)| ==> WfLog(st, CommitTop(stack)[k])
  {
  }

  lemma {:induction false} CommitWf<Id>(t: Table<Id>, all: bool)
    requires Wf(t) && t.stack != []
    ensures Wf(CommitLevels(t, all))
    decreases |t.stack|
  {
    var one := t.(stack := CommitTop(t.stack), marks := t.marks[..|t.marks| - 1]);
    CommitTopNamed(t.rows, t.stack);
    if all && one.stack != [] {
      CommitWf(one, all);
    }
  }

  /** Every operation keeps the rows, the logs and the marks in order. */
  lemma StepWf<Id>(t: Table<Id>, copying: bool, op: Op<Id>)
    requires Wf(t) && Enabled(t, copying, op)
    ensures Wf(Step(t, copying, op))
  {
    match op {
      case Insert(_, _) => var u := StepLogs(t, copying, op); LoggedWf(t, Step(t, copying, op), u);
      case Update(_, _, _, _) => var u := StepLogs(t, copying, op); LoggedWf(t, Step(t, copying, op), u);
      case Delete(_, _) => var u := StepLogs(t, copying, op); LoggedWf(t, Step(t, copying, op), u);
      case Begin =>
      case Commit(all) => CommitWf(t, all);
      case Rollback(all) =>
    }
  }
}
