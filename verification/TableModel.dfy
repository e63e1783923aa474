/** A table under transactions, on values: what every operation does to the rows and to the stack
    of logs.  The field `marks` remembers, for each open `begin`, what the table held then. */
module TableModel {
  import opened UndoLog

  type Content = multiset<seq<Cell>>

  /** What the table held at a `begin`, and what rollbacks of inner transactions have left behind
      since then that no log knows of. */
  datatype Mark = Mark(begun: Content, leak: Content)

  datatype Table<Id> = Table(rows: Rows<Id>, stack: seq<Log<Id>>, marks: seq<Mark>)

  /** The operations; an identity that is made on the way is part of the operation. */
  datatype Op<Id> =
    | Insert(id: Id, values: seq<Cell>)
    | Update(at: nat, cell: nat, v: Cell, copy: Id)
    | Delete(at: nat, copy: Id)
    | Begin
    | Commit(all: bool)
    | Rollback(all: bool)

  ghost predicate Wf<Id>(t: Table<Id>) {
    && WfRows(t.rows)
    && |t.marks| == |t.stack|
    && forall k :: 0 <= k < |t.stack| ==> WfLog(t.rows, t.stack[k])
  }

  function ContentOf<Id(==)>(t: Table<Id>): Content
    requires WfRows(t.rows)
  {
    Contents(t.rows.ids, t.rows.cells)
  }

  /** The operation can run: the cursor is on a row, identities are new, and there is a `begin` for
      the commit or rollback (otherwise an IllegalStateException is thrown). */
  ghost predicate Enabled<Id>(t: Table<Id>, copying: bool, op: Op<Id>)
    requires Wf(t)
  {
    match op
    case Insert(id, _) => id !in t.rows.cells
    case Update(at, cell, _, copy) =>
      at < |t.rows.ids| && cell < |t.rows.cells[t.rows.ids[at]]| && (copying ==> copy !in t.rows.cells)
    case Delete(at, copy) => at < |t.rows.ids| && (copying ==> copy !in t.rows.cells)
    case Begin => true
    case Commit(_) => t.stack != []
    case Rollback(_) => t.stack != []
  }

  /** `register`: nothing is logged outside transactions. */
  function Register<Id>(stack: seq<Log<Id>>, u: Undo<Id>): seq<Log<Id>> {
    if stack == [] then []
    else var n := |stack| - 1; stack[..n] + [stack[n] + [u]]
  }

  /** The row the cursor holds: the stored row, or a copy of it with an identity of its own. */
  function CursorRow<Id>(copying: bool, rows: Rows<Id>, at: nat, copy: Id): (Id, Rows<Id>)
    requires WfRows(rows) && at < |rows.ids|
  {
    if copying then (copy, rows.(cells := rows.cells[copy := rows.cells[rows.ids[at]]]))
    else (rows.ids[at], rows)
  }

  function CommitTop<Id>(stack: seq<Log<Id>>): seq<Log<Id>>
    requires stack != []
  {
    var n := |stack| - 1;
    if n == 0 then [] else stack[..n - 1] + [stack[n - 1] + stack[n]]
  }

  function CommitLevels<Id>(t: Table<Id>, all: bool): Table<Id>
    requires t.stack != [] && |t.marks| == |t.stack|
    decreases |t.stack|
  {
    var one := t.(stack := CommitTop(t.stack), marks := t.marks[..|t.marks| - 1]);
    if all && one.stack != [] then CommitLevels(one, all) else one
  }

  /** The contents of the rows that a log has inserted and that are not in the list any more. */
  datatype Kind<Id> = Deleted | Inserted | Present(ids: seq<Id>) | Missing(ids: seq<Id>)

  predicate Counts<Id(==)>(u: Undo<Id>, kind: Kind<Id>) {
    match kind
    case Deleted => u.UndoDelete?
    case Inserted => u.UndoInsert?
    case Present(ids) => u.UndoInsert? && u.row in ids
    case Missing(ids) => u.UndoInsert? && u.row !in ids
  }

  /** The contents of the rows that the entries of one kind name. */
  function Tally<Id(==)>(log: Log<Id>, kind: Kind<Id>, cells: map<Id, seq<Cell>>): Content
    requires forall u :: u in log ==> u.row in cells
    decreases |log|
  {
    if log == [] then multiset{}
    else
      var n := |log| - 1;
      Tally(log[..n], kind, cells) + (if Counts(log[n], kind) then multiset{cells[log[n].row]} else multiset{})
  }

  function AddLeak(marks: seq<Mark>, leak: Content): (r: seq<Mark>)
    ensures |r| == |marks|
    ensures forall k :: 0 <= k < |marks| ==> r[k] == Mark(marks[k].begun, marks[k].leak + leak)
  {
    seq(|marks|, k requires 0 <= k < |marks| => Mark(marks[k].begun, marks[k].leak + leak))
  }

  function RollbackTop<Id(==)>(t: Table<Id>): (r: Table<Id>)
    requires Wf(t) && t.stack != []
    ensures Wf(r) && |r.stack| == |t.stack| - 1
  {
    var n := |t.stack| - 1;
    var rows := UndoAll(t.stack[n], t.rows);
    assert forall k :: 0 <= k < n ==> WfLog(rows, t.stack[k]) by {
      forall k | 0 <= k < n
        ensures WfLog(rows, t.stack[k])
      {
        PrefixNamed(t.stack[k], 0, t.rows, rows);
      }
    }
    Table(rows, t.stack[..n], AddLeak(t.marks[..n], Tally(t.stack[n], Missing(t.rows.ids), t.rows.cells)))
  }

  function RollbackLevels<Id(==)>(t: Table<Id>, all: bool): (r: Table<Id>)
    requires Wf(t) && t.stack != []
    ensures Wf(r)
    decreases |t.stack|
  {
    var one := RollbackTop(t);
    if all && one.stack != [] then RollbackLevels(one, all) else one
  }

  function Step<Id(==)>(t: Table<Id>, copying: bool, op: Op<Id>): Table<Id>
    requires Wf(t) && Enabled(t, copying, op)
  {
    match op
    case Insert(id, values) =>
      t.(rows := Rows(t.rows.ids + [id], t.rows.cells[id := values]), stack := Register(t.stack, UndoInsert(id)))
    case Update(at, cell, v, copy) =>
      var (row, rows) := CursorRow(copying, t.rows, at, copy);
      var was := rows.cells[row][cell];
      t.(rows := rows.(cells := rows.cells[row := rows.cells[row][cell := v]]),
         stack := Register(t.stack, UndoUpdate(row, cell, was)))
    case Delete(at, copy) =>
      var (row, rows) := CursorRow(copying, t.rows, at, copy);
      t.(rows := rows.(ids := rows.ids[..at] + rows.ids[at + 1..]), stack := Register(t.stack, UndoDelete(row)))
    case Begin => t.(stack := t.stack + [[]], marks := t.marks + [Mark(ContentOf(t), multiset{})])
    case Commit(all) => CommitLevels(t, all)
    case Rollback(all) => RollbackLevels(t, all)
  }
}
