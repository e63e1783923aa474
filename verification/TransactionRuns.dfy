/** Whole runs: any mix of inserts, updates, deletes, begins, commits and rollbacks. */
module TransactionRuns {
  import opened UndoLog
  import opened TableModel
  import opened StackFacts
  import S = StoredRowRollback
  import D = StoredRowsDistinct
  import C = CopiedRowRollback

  /** Every operation can run when its turn comes. */
  ghost predicate CanRun<Id>(t: Table<Id>, copying: bool, ops: seq<Op<Id>>)
    requires Wf(t)
    decreases |ops|
  {
    ops == [] ||
    (Enabled(t, copying, ops[0]) && (StepWf(t, copying, ops[0]); CanRun(Step(t, copying, ops[0]), copying, ops[1..])))
  }

  ghost function Run<Id>(t: Table<Id>, copying: bool, ops: seq<Op<Id>>): (r: Table<Id>)
    requires Wf(t) && CanRun(t, copying, ops)
    ensures Wf(r)
    decreases |ops|
  {
    if ops == [] then t
    else
      StepWf(t, copying, ops[0]);
      Run(Step(t, copying, ops[0]), copying, ops[1..])
  }

  /** A table with no open transaction. */
  ghost predicate Idle<Id>(t: Table<Id>) {
    Wf(t) && t.stack == [] && C.NoRepeats(t.rows.ids)
  }

  lemma {:induction false} RunRestorable<Id>(t: Table<Id>, ops: seq<Op<Id>>)
    requires S.Restorable(t) && CanRun(t, false, ops)
    ensures S.Restorable(Run(t, false, ops))
    decreases |ops|
  {
    if ops != [] {
      S.StepRestorable(t, ops[0]);
      RunRestorable(Step(t, false, ops[0]), ops[1..]);
    }
  }

  lemma {:induction false} RunBalanced<Id>(t: Table<Id>, ops: seq<Op<Id>>)
    requires C.Balanced(t) && CanRun(t, true, ops)
    ensures C.Balanced(Run(t, true, ops))
    decreases |ops|
  {
    if ops != [] {
      C.StepBalanced(t, ops[0]);
      RunBalanced(Step(t, true, ops[0]), ops[1..]);
    }
  }

  lemma {:induction false} RunDistinct<Id>(t: Table<Id>, ops: seq<Op<Id>>)
    requires Wf(t) && D.Distinct(t) && CanRun(t, false, ops)
    ensures D.Distinct(Run(t, false, ops))
    decreases |ops|
  {
    if ops != [] {
      D.StepDistinct(t, ops[0]);
      RunDistinct(Step(t, false, ops[0]), ops[1..]);
    }
  }

  /** One more operation at the end. */
  lemma {:induction false} RunLast<Id>(t: Table<Id>, copying: bool, ops: seq<Op<Id>>, op: Op<Id>)
    requires Wf(t) && CanRun(t, copying, ops) && Enabled(Run(t, copying, ops), copying, op)
    ensures CanRun(t, copying, ops + [op])
    ensures Run(t, copying, ops + [op]) == Step(Run(t, copying, ops), copying, op)
    decreases |ops|
  {
    if ops == [] {
      StepWf(t, copying, op);
      assert (ops + [op])[1..] == [];
    } else {
      StepWf(t, copying, ops[0]);
      assert (ops + [op])[1..] == ops[1..] + [op];
      RunLast(Step(t, copying, ops[0]), copying, ops[1..], op);
    }
  }

  /** A new table. */
  function Nothing<Id>(): Table<Id> {
    Table(Rows([], map[]), [], [])
  }

  /** The table is what these operations make of a new table. */
  ghost predicate Reached<Id>(t: Table<Id>, copying: bool, ops: seq<Op<Id>>) {
    CanRun(Nothing<Id>(), copying, ops) && t == Run(Nothing<Id>(), copying, ops)
  }

  lemma ReachedStep<Id>(t: Table<Id>, copying: bool, ops: seq<Op<Id>>, op: Op<Id>)
    requires Reached(t, copying, ops) && Enabled(t, copying, op)
    ensures Reached(Step(t, copying, op), copying, ops + [op])
  {
    RunLast(Nothing<Id>(), copying, ops, op);
  }

  /** What every reachable table keeps, under either reading of the cursor. */
  lemma ReachedSound<Id>(t: Table<Id>, copying: bool, ops: seq<Op<Id>>)
    requires Reached(t, copying, ops)
    ensures Wf(t) && C.NoRepeats(t.rows.ids)
    ensures copying ==> C.Balanced(t)
    ensures !copying ==> S.Restorable(t) && D.Distinct(t)
  {
    var none := Nothing<Id>();
    if copying {
      RunBalanced(none, ops);
    } else {
      RunRestorable(none, ops);
      D.OnlyNow(none.rows);
      RunDistinct(none, ops);
      D.DistinctNow(t);
    }
  }

  /** With the stored row in the cursor: after any run, a rollback gives back what the table held
      at the matching `begin`, at every nesting depth. */
  lemma StoredRollbackAfterRun<Id>(t: Table<Id>, ops: seq<Op<Id>>, all: bool)
    requires Idle(t) && CanRun(t, false, ops) && Run(t, false, ops).stack != []
    ensures var r := Run(t, false, ops);
            ContentOf(RollbackLevels(r, all)) == r.marks[if all then 0 else |r.marks| - 1].begun
  {
    RunRestorable(t, ops);
    S.RollbackRestores(Run(t, false, ops), all);
  }

  /** With the copy in the cursor, as the code has it: after any run, a rollback of the innermost level or
      of all levels gives back what the table held at the matching `begin` exactly when the rows inserted
      since are all still there and rollbacks before left nothing behind. */
  lemma CopiedRollbackAfterRun<Id>(t: Table<Id>, ops: seq<Op<Id>>, all: bool)
    requires Idle(t) && CanRun(t, true, ops) && Run(t, true, ops).stack != []
    ensures var r := Run(t, true, ops);
            ContentOf(RollbackLevels(r, all)) == r.marks[if all then 0 else |r.marks| - 1].begun <==> C.Restores(r, all)
  {
    assert C.Balanced(t);
    RunBalanced(t, ops);
    C.RollbackRestoresIff(Run(t, true, ops));
    C.RollbackAllRestoresIff(Run(t, true, ops));
  }

  /** The copy in the cursor also means that an update never changes the table. */
  lemma CopiedUpdateChangesNothing<Id>(t: Table<Id>, op: Op<Id>)
    requires Wf(t) && Enabled(t, true, op) && op.Update?
    ensures var r := Step(t, true, op);
            && r.rows.ids == t.rows.ids && WfRows(r.rows) && ContentOf(r) == ContentOf(t)
            && forall x :: x in t.rows.ids ==> r.rows.cells[x] == t.rows.cells[x]
  {
    C.ContentsFrame(t.rows.ids, t.rows.cells, Step(t, true, op).rows.cells);
  }

  // ----- An input on which the code's rollback fails: begin, insert a row, delete it, rollback.

  function Started(): Table<nat> {
    Table(Rows([], map[]), [], [])
  }

  function Begun(): Table<nat> {
    Table(Rows([], map[]), [[]], [Mark(multiset{}, multiset{})])
  }

  function WithRow(values: seq<Cell>): Table<nat> {
    Table(Rows([0], map[0 := values]), [[UndoInsert(0)]], [Mark(multiset{}, multiset{})])
  }

  function WithoutRow(values: seq<Cell>): Table<nat> {
    Table(Rows([], map[0 := values, 1 := values]), [[UndoInsert(0), UndoDelete(1)]], [Mark(multiset{}, multiset{})])
  }

  lemma BeginStep()
    ensures Idle(Started()) && Wf(Begun())
    ensures Step(Started(), true, Begin) == Begun()
    ensures ContentOf(Started()) == multiset{}
  {
  }

  lemma InsertStep(values: seq<Cell>)
    ensures Wf(Begun()) && Wf(WithRow(values))
    ensures Enabled(Begun(), true, Insert(0, values)) && Step(Begun(), true, Insert(0, values)) == WithRow(values)
  {
    RegisterOnly<nat>([], UndoInsert(0));
    var log: Log<nat> := [UndoInsert(0)];
    assert [] + [UndoInsert(0)] == log;
    var r := Step(Begun(), true, Insert(0, values));
    assert r.rows.cells == map[0 := values] && r.rows.ids == [0] && r.stack == [log];
  }

  lemma DeleteStep(values: seq<Cell>)
    ensures Wf(WithRow(values)) && Wf(WithoutRow(values))
    ensures Enabled(WithRow(values), true, Delete(0, 1)) &&
      Step(WithRow(values), true, Delete(0, 1)) == WithoutRow(values)
  {
    RegisterOnly<nat>([UndoInsert(0)], UndoDelete(1));
    var log: Log<nat> := [UndoInsert(0), UndoDelete(1)];
    assert [UndoInsert(0)] + [UndoDelete(1)] == log;
    var r := Step(WithRow(values), true, Delete(0, 1));
    assert r.rows.cells == map[0 := values, 1 := values] && r.rows.ids == [] && r.stack == [log];
  }

  lemma RegisterOnly<Id>(log: Log<Id>, u: Undo<Id>)
    ensures Register([log], u) == [log + [u]]
  {
    assert [log][..0] == [];
  }

  lemma RowIsBack(values: seq<Cell>)
    requires Wf(WithoutRow(values))
    ensures Wf(Step(WithoutRow(values), true, Rollback(false)))
    ensures ContentOf(Step(WithoutRow(values), true, Rollback(false))) == multiset{values}
  {
    var t := WithoutRow(values);
    UndoBoth(t.rows);
    OneRow(1, t.rows.cells);
    assert RollbackTop(t).rows == UndoAll(t.stack[0], t.rows);
  }

  lemma UndoBoth(st: Rows<nat>)
    requires st.ids == [] && 0 in st.cells && 1 in st.cells
    ensures var log := [UndoInsert(0), UndoDelete(1)];
            WfLog(st, log) && UndoAll(log, st) == Rows([1], st.cells)
  {
    var log: Log<nat> := [UndoInsert(0), UndoDelete(1)];
    assert log[..1] == [UndoInsert(0)] && log[..1][..0] == [];
    assert Execute(log[1], st) == Rows([1], st.cells);
    RemoveAbsent([1], 0);
  }

  lemma OneRow<Id>(id: Id, cells: map<Id, seq<Cell>>)
    requires id in cells
    ensures Contents([id], cells) == multiset{cells[id]}
  {
    assert [id][1..] == [];
    assert multiset{cells[id]} + multiset{} == multiset{cells[id]};
  }

  lemma RunFirst<Id>(t: Table<Id>, copying: bool, op: Op<Id>, rest: seq<Op<Id>>)
    requires Wf(t) && Enabled(t, copying, op) && Wf(Step(t, copying, op)) && CanRun(Step(t, copying, op), copying, rest)
    ensures CanRun(t, copying, [op] + rest)
    ensures Run(t, copying, [op] + rest) == Run(Step(t, copying, op), copying, rest)
  {
    assert ([op] + rest)[1..] == rest;
  }

  /** Begin, insert a row, delete it, rollback: the row stays in the table. */
  lemma DeletedInsertSurvives(values: seq<Cell>)
    ensures var ops := [Begin] + ([Insert(0, values)] + ([Delete(0, 1)] + ([Rollback(false)] + [])));
            && Idle(Started()) && CanRun(Started(), true, ops)
            && ContentOf(Started()) == multiset{}
            && ContentOf(Run(Started(), true, ops)) == multiset{values}
  {
    BeginStep();
    InsertStep(values);
    DeleteStep(values);
    RowIsBack(values);
    RunFirst(WithoutRow(values), true, Rollback(false), []);
    RunFirst(WithRow(values), true, Delete(0, 1), [Rollback(false)] + []);
    RunFirst(Begun(), true, Insert(0, values), [Delete(0, 1)] + ([Rollback(false)] + []));
    RunFirst(Started(), true, Begin, [Insert(0, values)] + ([Delete(0, 1)] + ([Rollback(false)] + [])));
  }
}
