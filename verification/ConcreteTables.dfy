/** ConcreteTable.java: the table object, whose row list, row arrays and stack of undo logs change
    in place.  Every operation is tied to the model of TableModel. */
module ConcreteTables {
  import opened Options
  import opened UndoLog
  import opened TableModel
  import opened StackFacts
  import opened Selectors
  import opened PlainEffects
  import opened TransactionRuns
  import S = StoredRowRollback
  import C = CopiedRowRollback

  type Row = array<Cell>

  lemma RollbackContent<Id>(t: Table<Id>, copying: bool, ops: seq<Op<Id>>, all: bool)
    requires Reached(t, copying, ops) && t.stack != []
    ensures |t.marks| == |t.stack|
    ensures ContentOf(RollbackLevels(t, all)) == t.marks[if all then 0 else |t.marks| - 1].begun
      <==> !copying || C.Restores(t, all)
  {
    ReachedSound(t, copying, ops);
    if copying {
      C.RollbackRestoresIff(t);
      C.RollbackAllRestoresIff(t);
    } else {
      S.RollbackRestores(t, all);
    }
  }

  lemma NoTwice<Id>(ids: seq<Id>)
    requires C.NoRepeats(ids)
    ensures forall i, j :: 0 <= i < j < |ids| ==> ids[i] != ids[j]
  {
    forall i, j | 0 <= i < j < |ids|
      ensures ids[i] != ids[j]
    {
      assert ids == ids[..j] + [ids[j]] + ids[j + 1..];
      assert multiset(ids) == multiset(ids[..j]) + multiset{ids[j]} + multiset(ids[j + 1..]);
      assert ids[i] == ids[..j][i] && ids[i] in multiset(ids[..j]);
      assert multiset(ids)[ids[j]] <= 1;
    }
  }

  lemma {:induction false} RollbackDepth<Id>(t: Table<Id>, all: bool)
    requires Wf(t) && t.stack != []
    ensures |RollbackLevels(t, all).stack| == if all then 0 else |t.stack| - 1
    decreases |t.stack|
  {
    if all && |t.stack| > 1 {
      RollbackDepth(RollbackTop(t), all);
    }
  }

  /** `indexOf`, as a function of the column names. */
  function IndexOf(names: seq<string>, name: string): (r: Option<nat>)
    ensures r.Some? ==> r.value < |names| && names[r.value] == name && name !in names[..r.value]
    ensures r.None? ==> name !in names
  {
    if names == [] then None
    else if names[0] == name then Some(0)
    else
      match IndexOf(names[1..], name)
      case None => None
      case Some(k) =>
        assert names[..k + 1] == [names[0]] + names[1..][..k];
        Some(k + 1)
  }

  /** What a column gets when the values go to the named columns one after the other: the last
      value that goes to it, or null. */
  function LastGiven(names: seq<string>, c: nat, columns: seq<string>, values: seq<Cell>): Cell
    requires |columns| == |values|
    decreases |columns|
  {
    if columns == [] then None
    else
      var n := |columns| - 1;
      if IndexOf(names, columns[n]) == Some(c) then values[n] else LastGiven(names, c, columns[..n], values[..n])
  }

  /** The row in which every column gets the last value that is listed for it, or null. */
  function Spread(names: seq<string>, columns: seq<string>, values: seq<Cell>): seq<Cell>
    requires |columns| == |values|
  {
    seq(|names|, c requires 0 <= c < |names| => LastGiven(names, c, columns, values))
  }

  /** The last of the listed columns that is this one gives the value. */
  lemma {:induction false} LastGivenMeans(names: seq<string>, c: nat, columns: seq<string>, values: seq<Cell>)
    requires |columns| == |values|
    ensures forall k :: 0 <= k < |columns| && IndexOf(names, columns[k]) == Some(c)
                        && (forall m :: k < m < |columns| ==> IndexOf(names, columns[m]) != Some(c)) ==>
              LastGiven(names, c, columns, values) == values[k]
    ensures (forall k :: 0 <= k < |columns| ==> IndexOf(names, columns[k]) != Some(c)) ==>
              LastGiven(names, c, columns, values) == None
    decreases |columns|
  {
    if columns != [] {
      var n := |columns| - 1;
      LastGivenMeans(names, c, columns[..n], values[..n]);
    }
  }

  lemma {:induction false} FirstIndex(names: seq<string>, name: string, i: nat)
    requires i < |names| && names[i] == name && forall k :: 0 <= k < i ==> names[k] != name
    ensures IndexOf(names, name) == Some(i)
  {
    if i > 0 {
      assert names[0] != name;
      FirstIndex(names[1..], name, i - 1);
    }
  }

  lemma SpreadMeans(names: seq<string>, columns: seq<string>, values: seq<Cell>)
    requires |columns| == |values|
    ensures SpreadsTo(names, columns, values, Spread(names, columns, values))
  {
    forall c, k | 0 <= c < |names| && 0 <= k < |columns| && columns[k] == names[c]
                  && names[c] !in names[..c] && names[c] !in columns[k + 1..]
      ensures LastGiven(names, c, columns, values) == values[k]
    {
      FirstIndex(names, columns[k], c);
      forall m | k < m < |columns|
        ensures IndexOf(names, columns[m]) != Some(c)
      {
        assert columns[m] == columns[k + 1..][m - (k + 1)];
      }
      LastGivenMeans(names, c, columns, values);
    }
    forall c | 0 <= c < |names| && (names[c] !in columns || names[c] in names[..c])
      ensures LastGiven(names, c, columns, values) == None
    {
      LastGivenMeans(names, c, columns, values);
    }
  }

  /** One more operation in the history is one more step. */
  lemma HistoryStep<Id>(t: Table<Id>, r: Table<Id>, copying: bool, ops: seq<Op<Id>>, op: Op<Id>)
    requires Reached(t, copying, ops) && Enabled(t, copying, op) && Reached(r, copying, ops + [op])
    ensures r == Step(t, copying, op)
  {
    RunLast(Nothing<Id>(), copying, ops, op);
  }

  /** The contents of the rows in the list, in order. */
  function RowContents<Id(==)>(st: Rows<Id>): (s: seq<seq<Cell>>)
    requires WfRows(st)
    ensures |s| == |st.ids| && forall i :: 0 <= i < |s| ==> s[i] == st.cells[st.ids[i]]
  {
    seq(|st.ids|, i requires 0 <= i < |st.ids| => st.cells[st.ids[i]])
  }

  lemma InsertContents<Id>(t: Table<Id>, copying: bool, op: Op<Id>)
    requires Wf(t) && Enabled(t, copying, op) && op.Insert?
    ensures WfRows(Step(t, copying, op).rows)
    ensures RowContents(Step(t, copying, op).rows) == RowContents(t.rows) + [op.values]
  {
    StepWf(t, copying, op);
    assert forall x :: x in t.rows.ids ==> x in t.rows.cells;
  }

  /** The contents as a bag. */
  lemma {:induction false} ContentsAsBag<Id>(st: Rows<Id>)
    requires WfRows(st)
    ensures Contents(st.ids, st.cells) == multiset(RowContents(st))
    decreases |st.ids|
  {
    if st.ids != [] {
      var rest := Rows(st.ids[1..], st.cells);
      ContentsAsBag(rest);
      assert RowContents(st) == [st.cells[st.ids[0]]] + RowContents(rest);
    }
  }

  /** The table after an update through the cursor, which holds this row. */
  lemma UpdateStep<Id>(t: Table<Id>, copying: bool, ops: seq<Op<Id>>, at: nat, cell: nat, v: Cell, row: Id,
          r: Table<Id>)
    requires Reached(t, copying, ops) && at < |t.rows.ids| && t.rows.ids[at] in t.rows.cells
    requires if copying then row !in t.rows.cells else row == t.rows.ids[at]
    requires var was := t.rows.cells[t.rows.ids[at]];
             && cell < |was|
             && r.rows == Rows(t.rows.ids, t.rows.cells[row := was[cell := v]])
             && r.stack == TableModel.Register(t.stack, UndoUpdate(row, cell, was[cell])) && r.marks == t.marks
    ensures var op := Op.Update(at, cell, v, row);
            Wf(t) && Enabled(t, copying, op) && r == Step(t, copying, op) && Reached(r, copying, ops + [op])
  {
    var rows := CursorRow(copying, t.rows, at, row).1;
    assert rows.cells[row := rows.cells[row][cell := v]] == r.rows.cells;
    ReachedStep(t, copying, ops, Op.Update(at, cell, v, row));
  }

  /** The table after a deletion through the cursor. */
  lemma DeletionStep<Id>(t: Table<Id>, copying: bool, ops: seq<Op<Id>>, at: nat, row: Id, r: Table<Id>)
    requires Reached(t, copying, ops) && at < |t.rows.ids| && t.rows.ids[at] in t.rows.cells
    requires if copying then row !in t.rows.cells else row == t.rows.ids[at]
    requires r.rows == Rows(t.rows.ids[..at] + t.rows.ids[at + 1..], t.rows.cells[row := t.rows.cells[t.rows.ids[at]]])
    requires r.stack == TableModel.Register(t.stack, UndoDelete(row)) && r.marks == t.marks
    ensures var op := Op.Delete(at, row);
            Wf(t) && Enabled(t, copying, op) && r == Step(t, copying, op) && Reached(r, copying, ops + [op])
    ensures WfRows(r.rows) && RowContents(r.rows) == RemoveAt(RowContents(t.rows), at)
  {
    assert CursorRow(copying, t.rows, at, row).1.cells == r.rows.cells;
    ReachedStep(t, copying, ops, Op.Delete(at, row));
    DeleteContents(t, copying, Op.Delete(at, row));
  }

  lemma DeleteContents<Id>(t: Table<Id>, copying: bool, op: Op<Id>)
    requires Wf(t) && Enabled(t, copying, op) && op.Delete?
    ensures WfRows(Step(t, copying, op).rows)
    ensures RowContents(Step(t, copying, op).rows) == RemoveAt(RowContents(t.rows), op.at)
  {
    StepWf(t, copying, op);
  }

  /** What an update does to the contents: nothing when the cursor holds a copy. */
  lemma UpdateContents<Id>(t: Table<Id>, copying: bool, ops: seq<Op<Id>>, op: Op<Id>)
    requires Reached(t, copying, ops) && Enabled(t, copying, op) && op.Update?
    ensures WfRows(Step(t, copying, op).rows)
    ensures var before := RowContents(t.rows);
            RowContents(Step(t, copying, op).rows)
              == if copying then before else before[op.at := before[op.at][op.cell := op.v]]
  {
    ReachedSound(t, copying, ops);
    NoTwice(t.rows.ids);
  }

  /** On every level the log has only grown. */
  ghost predicate LogsGrow<Id>(a: seq<Log<Id>>, b: seq<Log<Id>>) {
    |a| == |b| && forall k :: 0 <= k < |a| ==> a[k] <= b[k]
  }

  lemma RegisterGrows<Id>(a: seq<Log<Id>>, b: seq<Log<Id>>, u: Undo<Id>)
    requires LogsGrow(a, b)
    ensures LogsGrow(a, TableModel.Register(b, u))
  {
  }

  class ConcreteTable {
    var tableName: string
    const columnNames: seq<string>
    /** The cursor hands out copies of the rows, as `Results.advance` does. */
    const copying: bool
    var rowSet: seq<Row>
    var transactionStack: seq<Log<Row>>
    var isDirty: bool
    /** What every row holds that is or was in the list, or that a log names. */
    ghost var cells: map<Row, seq<Cell>>
    ghost var marks: seq<Mark>
    /** What has been done to the table. */
    ghost var history: seq<Op<Row>>

    /** The table as a value. */
    ghost function View(): Table<Row>
      reads this
    {
      Table(Rows(rowSet, cells), transactionStack, marks)
    }

    /** The arrays hold what the value says. */
    ghost predicate Stored()
      reads this, cells.Keys
    {
      forall a :: a in cells ==> a[..] == cells[a]
    }

    ghost predicate Valid()
      reads this, cells.Keys
    {
      Stored() && Reached(View(), copying, history) && forall a :: a in cells ==> a.Length == |columnNames|
    }

    /** The contents of the rows, in order. */
    ghost function Seen(): (s: seq<seq<Cell>>)
      requires Valid()
      reads this, cells.Keys
      ensures |s| == |rowSet| && forall i :: 0 <= i < |s| ==> |s[i]| == |columnNames|
    {
      assert forall i :: 0 <= i < |rowSet| ==> rowSet[i] in View().rows.ids;
      assert forall x :: x in View().rows.ids ==> x in View().rows.cells;
      RowContents(View().rows)
    }

    lemma SeenAt(at: nat)
      requires Valid() && at < |rowSet|
      ensures rowSet[at] in cells && Seen()[at] == rowSet[at][..]
    {
      assert rowSet[at] in View().rows.ids;
    }

    constructor (tableName: string, columnNames: seq<string>, copying: bool)
      ensures this.tableName == tableName
      ensures Valid() && View() == Table(Rows([], map[]), [], []) && !isDirty
      ensures this.columnNames == columnNames && this.copying == copying
    {
      this.tableName := tableName;
      this.columnNames := columnNames;
      this.copying := copying;
      rowSet, transactionStack, isDirty := [], [], false;
      cells, marks, history := map[], [], [];
    }

    /** `indexOf`: None stands for the IndexOutOfBoundsException. */
    method ColumnIndex(columnName: string) returns (index: Option<nat>)
      ensures index == IndexOf(columnNames, columnName)
    {
      var i := 0;
      while i < |columnNames|
        invariant 0 <= i <= |columnNames|
        invariant forall k :: 0 <= k < i ==> columnNames[k] != columnName
      {
        if columnNames[i] == columnName {
          FirstIndex(columnNames, columnName, i);
          return Some(i);
        }
        i := i + 1;
      }
      return None;
    }

    method Register(u: Undo<Row>)
      modifies this`transactionStack
      ensures transactionStack == TableModel.Register(old(transactionStack), u)
    {
      if transactionStack != [] {
        var n := |transactionStack| - 1;
        transactionStack := transactionStack[n := transactionStack[n] + [u]];
      }
    }

    method DoInsert(newRow: Row)
      requires Valid() && newRow !in cells && newRow.Length == |columnNames|
      modifies this
      ensures tableName == old(tableName) && marks == old(marks) && |transactionStack| == |old(transactionStack)|
      ensures Valid() && cells.Keys == old(cells.Keys) + {newRow} && isDirty
      ensures View() == Step(old(View()), copying, Op.Insert(newRow, newRow[..]))
      ensures Seen() == old(Seen()) + [newRow[..]]
    {
      ghost var before := View();
      rowSet := rowSet + [newRow];
      Register(UndoInsert(newRow));
      isDirty := true;
      cells := cells[newRow := newRow[..]];
      InsertContents(before, copying, Op.Insert(newRow, newRow[..]));
      ReachedStep(before, copying, history, Op.Insert(newRow, newRow[..]));
      history := history + [Op.Insert(newRow, newRow[..])];
    }

    /** `insert(String[])`: exactly one value for every column. */
    method Insert(values: seq<Cell>) returns (newRow: Row)
      requires Valid() && |values| == |columnNames|
      modifies this
      ensures tableName == old(tableName) && marks == old(marks) && |transactionStack| == |old(transactionStack)|
      ensures Valid() && isDirty && fresh(newRow) && newRow[..] == values && cells.Keys == old(cells.Keys) + {newRow}
      ensures View() == Step(old(View()), copying, Op.Insert(newRow, values))
      ensures Seen() == old(Seen()) + [values]
    {
      newRow := new Cell[|values|](i requires 0 <= i < |values| => values[i]);
      assert newRow[..] == values;
      DoInsert(newRow);
    }

    /** `insert(String[], String[])`: the values go to the named columns, the rest is null; a
        column that does not exist throws before anything changes. */
    method InsertInto(columns: seq<string>, values: seq<Cell>) returns (ok: bool)
      requires Valid() && |columns| == |values|
      modifies this
      ensures tableName == old(tableName) && marks == old(marks) && |transactionStack| == |old(transactionStack)|
      ensures ok == (forall i :: 0 <= i < |columns| ==> columns[i] in columnNames)
      ensures Valid() && cells.Keys >= old(cells.Keys) && fresh(cells.Keys - old(cells.Keys))
      ensures !ok ==> View() == old(View()) && cells == old(cells) && isDirty == old(isDirty)
      ensures ok ==> |rowSet| == |old(rowSet)| + 1 && isDirty
      ensures ok ==>
        (var newRow := rowSet[|rowSet| - 1];
         fresh(newRow) && cells.Keys == old(cells.Keys) + {newRow} &&
           View() == Step(old(View()), copying, Op.Insert(newRow, Spread(columnNames, columns, values))))
      ensures Seen() == if ok then old(Seen()) + [Spread(columnNames, columns, values)] else old(Seen())
      ensures ok ==> |Seen()| > 0 && SpreadsTo(columnNames, columns, values, Seen()[|Seen()| - 1])
    {
      hide Reached, Run, Wf, Enabled, SpreadsTo;
      var newRow := new Cell[|columnNames|](_ => None);
      var i := 0;
      while i < |columns|
        invariant 0 <= i <= |columns| && fresh(newRow)
        invariant forall k :: 0 <= k < i ==> columns[k] in columnNames
        invariant forall c :: 0 <= c < |columnNames| ==>
          newRow[c] == LastGiven(columnNames, c, columns[..i], values[..i])
        invariant View() == old(View()) && Valid()
        modifies newRow
      {
        var index := ColumnIndex(columns[i]);
        if index.None? {
          return false;
        }
        newRow[index.value] := values[i];
        assert columns[..i + 1][..i] == columns[..i] && values[..i + 1][..i] == values[..i];
        i := i + 1;
      }
      assert columns[..i] == columns && values[..i] == values;
      assert newRow[..] == Spread(columnNames, columns, values);
      SpreadMeans(columnNames, columns, values);
      DoInsert(newRow);
      return true;
    }

    method Begin()
      requires Valid()
      modifies this`transactionStack, this`marks, this`history
      ensures Valid() && View() == Step(old(View()), copying, Op.Begin) && history == old(history) + [Op.Begin]
      ensures |transactionStack| == |old(transactionStack)| + 1
      ensures Seen() == old(Seen())
    {
      ghost var before := View();
      transactionStack, marks := transactionStack + [[]], marks + [Mark(ContentOf(before), multiset{})];
      assert View() == Step(before, copying, Op.Begin);
      ReachedStep(before, copying, history, Op.Begin);
      history := history + [Op.Begin];
    }

    /** `commit`: false stands for the IllegalStateException. */
    method Commit(all: bool) returns (ok: bool)
      requires Valid()
      modifies this`transactionStack, this`marks, this`history
      ensures Valid() && ok == (old(transactionStack) != [])
      ensures View() == if ok then CommitLevels(old(View()), all) else old(View())
      ensures history == if ok then old(history) + [Op.Commit(all)] else old(history)
      ensures ok ==> |transactionStack| == if all then 0 else |old(transactionStack)| - 1
      ensures rowSet == old(rowSet) && Seen() == old(Seen())
    {
      if transactionStack == [] {
        return false;
      }
      ghost var before := View();
      var again := true;
      while again
        invariant again ==> transactionStack != [] && |marks| == |transactionStack|
        invariant again ==> CommitLevels(View(), all) == CommitLevels(before, all)
        invariant !again ==> View() == CommitLevels(before, all)
        invariant again && !all ==> |transactionStack| == |old(transactionStack)|
        invariant !again ==> |transactionStack| == if all then 0 else |old(transactionStack)| - 1
        modifies this`transactionStack, this`marks
        decreases again, |transactionStack|
      {
        CommitOne();
        again := all && transactionStack != [];
      }
      ReachedStep(before, copying, history, Op.Commit(all));
      history := history + [Op.Commit(all)];
      return true;
    }

    /** One round of `commit`: the log goes to the level below, if there is one. */
    method CommitOne()
      requires transactionStack != [] && |marks| == |transactionStack|
      modifies this`transactionStack, this`marks
      ensures transactionStack == CommitTop(old(transactionStack)) && marks == old(marks)[..|old(marks)| - 1]
    {
      var n := |transactionStack| - 1;
      var currentLevel := transactionStack[n];
      transactionStack, marks := transactionStack[..n], marks[..n];
      if n > 0 {
        transactionStack := transactionStack[n - 1 := transactionStack[n - 1] + currentLevel];
      }
    }

    /** `execute` of the three Undo classes. */
    method ExecuteUndo(u: Undo<Row>)
      requires Stored() && WfRows(View().rows) && Names(u, cells)
      modifies this`rowSet, this`cells, cells.Keys
      ensures Stored() && View().rows == UndoLog.Execute(u, old(View().rows))
    {
      match u
      case UndoInsert(row) => rowSet := RemoveFirst(rowSet, row);
      case UndoDelete(row) => rowSet := rowSet + [row];
      case UndoUpdate(row, cell, was) =>
        WriteCell(row, cell, was);
    }

    /** `rollback`: false stands for the IllegalStateException. */
    method Rollback(all: bool) returns (ok: bool)
      requires Valid()
      modifies this`transactionStack, this`marks, this`history, this`rowSet, this`cells, cells.Keys
      ensures Valid() && ok == (old(transactionStack) != [])
      ensures View() == if ok then RollbackLevels(old(View()), all) else old(View())
      ensures cells.Keys == old(cells.Keys)
      ensures history == if ok then old(history) + [Op.Rollback(all)] else old(history)
      ensures ok ==> |transactionStack| == if all then 0 else |old(transactionStack)| - 1
      ensures ok ==> |old(marks)| == |old(transactionStack)|
      ensures ok ==>
        (ContentOf(View()) == old(marks[if all then 0 else |marks| - 1].begun) <==>
          !copying || C.Restores(old(View()), all))
    {
      if transactionStack == [] {
        return false;
      }
      ghost var result := RollbackLevels(View(), all);
      RollbackContent(View(), copying, history, all);
      RollbackDepth(View(), all);
      ReachedStep(View(), copying, history, Op.Rollback(all));
      history := history + [Op.Rollback(all)];
      var again := true;
      while again
        invariant Wf(View()) && Stored() && cells.Keys == old(cells.Keys)
        invariant again ==> transactionStack != [] && RollbackLevels(View(), all) == result
        invariant !again ==> View() == result
        modifies this`transactionStack, this`marks, this`rowSet, this`cells, cells.Keys
        decreases again, |transactionStack|
      {
        RollbackOne();
        again := all && transactionStack != [];
      }
      return true;
    }

    /** One round of `rollback`. */
    method RollbackOne()
      requires Wf(View()) && Stored() && transactionStack != []
      modifies this`transactionStack, this`marks, this`rowSet, this`cells, cells.Keys
      ensures Stored() && View() == RollbackTop(old(View()))
    {
      ghost var before := View();
      var n := |transactionStack| - 1;
      var currentLevel := transactionStack[n];
      transactionStack := transactionStack[..n];
      marks := AddLeak(marks[..n], Tally(currentLevel, Missing(before.rows.ids), before.rows.cells));
      while currentLevel != []
        invariant WfRows(View().rows) && WfLog(View().rows, currentLevel) && Stored() && cells.Keys == old(cells.Keys)
        invariant UndoAll(currentLevel, View().rows) == UndoAll(before.stack[n], before.rows)
        modifies this`rowSet, this`cells, cells.Keys
        decreases |currentLevel|
      {
        ghost var st := View().rows;
        var m := |currentLevel| - 1;
        ExecuteUndo(currentLevel[m]);
        PrefixNamed(currentLevel, m, st, View().rows);
        currentLevel := currentLevel[..m];
      }
    }

    /** `advance`: the stored row, or a copy of it. */
    method Advance(at: nat) returns (row: Row)
      requires Valid() && at < |rowSet|
      ensures copying ==> fresh(row)
      ensures !copying ==> row == rowSet[at]
      ensures row[..] == Seen()[at]
    {
      SeenAt(at);
      if !copying {
        return rowSet[at];
      }
      var temp := rowSet[at];
      row := new Cell[temp.Length](_ => None);
      var i := 0;
      while i < temp.Length
        invariant 0 <= i <= temp.Length && row[..i] == temp[..i]
        modifies row
      {
        row[i] := temp[i];
        i := i + 1;
      }
      assert row[..] == row[..i] && temp[..] == temp[..i];
    }

    /** The row in the cursor is the stored row at this position, or a copy that nothing refers to. */
    ghost predicate OnRow(row: Row, at: nat)
      requires Valid()
      reads this, cells.Keys, row
    {
      && at < |rowSet|
      && (copying ==> row !in cells && row[..] == Seen()[at])
      && (!copying ==> row == rowSet[at])
    }

    /** `row[index] = newValue` */
    method WriteCell(row: Row, index: nat, newValue: Cell)
      requires Stored() && index < row.Length
      modifies this`cells, row
      ensures Stored() && cells == old(cells)[row := old(row[..])[index := newValue]]
    {
      row[index] := newValue;
      cells := cells[row := row[..]];
      assert row[..] == old(row[..])[index := newValue];
    }

    /** `Cursor.update`, once the column is found and the value is not the object in the cell. */
    method CursorUpdate(row: Row, ghost at: nat, index: nat, newValue: Cell)
      requires Valid() && OnRow(row, at) && index < |columnNames|
      modifies this, row
      ensures tableName == old(tableName)
      ensures Valid() && isDirty && cells.Keys == old(cells.Keys) + {row}
      ensures View() == Step(old(View()), copying, Op.Update(at, index, newValue, row))
    {
      hide Reached;
      ghost var before := View();
      SeenAt(at);
      assert row[..] == Seen()[at];
      var oldValue := row[index];
      WriteCell(row, index, newValue);
      isDirty := true;
      Register(UndoUpdate(row, index, oldValue));
      UpdateStep(before, copying, history, at, index, newValue, row, View());
      history := history + [Op.Update(at, index, newValue, row)];
    }

    /** `Cursor.delete` */
    method CursorDelete(row: Row, at: nat)
      requires Valid() && OnRow(row, at)
      modifies this
      ensures tableName == old(tableName)
      ensures Valid() && isDirty && cells.Keys == old(cells.Keys) + {row}
      ensures View() == Step(old(View()), copying, Op.Delete(at, row))
      ensures Seen() == RemoveAt(old(Seen()), at)
    {
      hide Reached;
      ghost var before := View();
      SeenAt(at);
      assert row[..] == Seen()[at];
      rowSet := rowSet[..at] + rowSet[at + 1..];
      isDirty := true;
      Register(UndoDelete(row));
      cells := cells[row := row[..]];
      DeletionStep(before, copying, history, at, row, View());
      history := history + [Op.Delete(at, row)];
    }

    /** One round of the loop of `update`, on the i-th row. */
    method VisitForUpdate(where: Selector, columnName: string, i: nat) returns (visit: Visit)
      requires Valid() && i < |rowSet|
      modifies this, {rowSet[i]}
      ensures tableName == old(tableName)
      ensures Valid() && cells.Keys >= old(cells.Keys) && fresh(cells.Keys - old(cells.Keys))
      ensures rowSet == old(rowSet) && marks == old(marks) && |transactionStack| == |old(transactionStack)|
      ensures visit == UpdateVisit(where, IndexOf(columnNames, columnName), i, old(Seen()[i]))
      ensures isDirty == (old(isDirty) || visit.Put?)
      ensures Seen() == PutAt(copying, old(Seen()), IndexOf(columnNames, columnName), visit, i)
    {
      var row := Advance(i);
      var answer := where.approve(i, row[..]);
      if answer.No? {
        return Skip;
      } else if answer.Refuses? {
        return Stop(answer.failure);
      }
      var newValue := where.value(i, row[..]);
      if newValue.Fails? {
        return Stop(newValue.failure);
      }
      var index := ColumnIndex(columnName);
      if index.None? || newValue.Itself? || (newValue.Null? && row[index.value].None?) {
        return Stop(RuntimeFailure);
      }
      var v := if newValue.Null? then None else Some(newValue.s);
      UpdateContents(View(), copying, history, Op.Update(i, index.value, v, row));
      CursorUpdate(row, i, index.value, v);
      return Put(v);
    }

    /** `update`: approved rows are visited in order until one of them throws. */
    method Update(where: Selector, columnName: string) returns (result: Outcome)
      requires Valid()
      modifies this, cells.Keys
      ensures tableName == old(tableName)
      ensures Valid() && cells.Keys >= old(cells.Keys) && fresh(cells.Keys - old(cells.Keys))
      ensures rowSet == old(rowSet) && marks == old(marks) && |transactionStack| == |old(transactionStack)|
      ensures (result, Seen()) == UpdateFrom(copying, where, IndexOf(columnNames, columnName), old(Seen()), 0, 0)
      ensures exists n :: UpdateDoes(copying, where, columnNames, columnName, old(Seen()), n, result, Seen())
    {
      hide Reached, UpdateDoes;
      ghost var column := IndexOf(columnNames, columnName);
      ghost var n := UpdatePlainly(copying, where, columnNames, columnName, column, Seen());
      ghost var goal := UpdateFrom(copying, where, column, Seen(), 0, 0);
      var updated := 0;
      var i := 0;
      while i < |rowSet|
        invariant 0 <= i <= |rowSet| && Valid() && cells.Keys >= old(cells.Keys) && fresh(cells.Keys - old(cells.Keys))
        invariant rowSet == old(rowSet) && marks == old(marks) && |transactionStack| == |old(transactionStack)|
        invariant tableName == old(tableName)
        invariant UpdateFrom(copying, where, column, Seen(), i, updated) == goal
      {
        SeenAt(i);
        var visit := VisitForUpdate(where, columnName, i);
        if visit.Stop? {
          return Failed(visit.failure);
        }
        if visit.Put? {
          updated := updated + 1;
        }
        i := i + 1;
      }
      assert |Seen()| == |rowSet|;
      return Done(updated);
    }

    /** One round of the loop of `delete`: the cursor is on the row at this position. */
    method VisitForDelete(where: Selector, i: nat, at: nat) returns (visit: Visit)
      requires Valid() && at < |rowSet|
      modifies this
      ensures tableName == old(tableName)
      ensures Valid() && cells.Keys >= old(cells.Keys) && fresh(cells.Keys - old(cells.Keys))
      ensures marks == old(marks)
      ensures transactionStack == old(transactionStack)
        || exists u :: transactionStack == TableModel.Register(old(transactionStack), u)
      ensures visit == DeleteVisit(where, i, old(Seen()[at]))
      ensures isDirty == (old(isDirty) || visit.Take?)
      ensures rowSet == if visit.Take? then RemoveAt(old(rowSet), at) else old(rowSet)
      ensures Seen() == if visit.Take? then RemoveAt(old(Seen()), at) else old(Seen())
    {
      var row := Advance(at);
      var answer := where.approve(i, row[..]);
      if answer.No? {
        return Skip;
      } else if answer.Refuses? {
        return Stop(answer.failure);
      }
      CursorDelete(row, at);
      return Take;
    }

    /** `delete`: approved rows are taken out of the list, in order, until one of them throws. */
    method Delete(where: Selector) returns (result: Outcome)
      requires Valid()
      modifies this
      ensures tableName == old(tableName)
      ensures Valid() && cells.Keys >= old(cells.Keys) && fresh(cells.Keys - old(cells.Keys))
      ensures marks == old(marks) && LogsGrow(old(transactionStack), transactionStack)
      ensures (result, rowSet, Seen()) == DeleteFrom(where, old(rowSet), old(Seen()), 0, 0, 0)
      ensures exists n ::
                && DeleteDoes(where, old(Seen()), old(rowSet), n, result, rowSet)
                && DeleteDoes(where, old(Seen()), old(Seen()), n, result, Seen())
    {
      hide Reached, DeleteDoes;
      ghost var n := DeletePlainly(where, rowSet, Seen());
      ghost var goal := DeleteFrom(where, rowSet, Seen(), 0, 0, 0);
      var deleted := 0;
      var at, i := 0, 0;
      while at < |rowSet|
        invariant at <= |rowSet| && Valid() && cells.Keys >= old(cells.Keys) && fresh(cells.Keys - old(cells.Keys))
        invariant marks == old(marks) && LogsGrow(old(transactionStack), transactionStack) &&
          tableName == old(tableName)
        invariant DeleteFrom(where, rowSet, Seen(), at, i, deleted) == goal
        decreases |rowSet| - at
      {
        ghost var stack := transactionStack;
        var visit := VisitForDelete(where, i, at);
        if transactionStack != stack {
          ghost var u :| transactionStack == TableModel.Register(stack, u);
          RegisterGrows(old(transactionStack), stack, u);
        }
        if visit.Stop? {
          return Failed(visit.failure);
        }
        if visit.Take? {
          deleted := deleted + 1;
        } else {
          at := at + 1;
        }
        i := i + 1;
      }
      return Done(deleted);
    }
  }
}
