/** Database.java: the tables by name, kept in step with one transaction level. */
module Databases {
  import opened Options
  import opened UndoLog
  import opened TableModel
  import opened PlainEffects
  import opened Selectors
  import opened StackFacts
  import opened TransactionRuns
  import opened ConcreteTables
  import C = CopiedRowRollback

  class Database {
    const copying: bool
    /** The assertions of this class are enabled; a JVM has them disabled unless it is told otherwise. */
    const asserting: bool
    var tables: map<string, ConcreteTable>
    var transactionLevel: int
    var affectedRows: nat

    /** Every table that is or was in the map, and its rows. */
    ghost var repr: set<object>
    /** The table that a row belongs to, or belonged to. */
    ghost var owner: map<Row, ConcreteTable>

    /** The table has this name and so many open transactions. */
    static ghost predicate TableAt(t: ConcreteTable, n: string, level: int, copying: bool)
      reads t, t.cells.Keys
    {
      t.Valid() && t.copying == copying && t.tableName == n && |t.transactionStack| == level
    }

    /** The rows of the table are its own. */
    static ghost predicate Owned(t: ConcreteTable, owner: map<Row, ConcreteTable>, repr: set<object>)
      reads t`cells
    {
      forall a :: a in t.cells ==> a in owner && owner[a] == t && a in repr
    }

    /** Every table in the map has so many open transactions. */
    static ghost predicate InStep(tables: map<string, ConcreteTable>, owner: map<Row, ConcreteTable>,
            repr: set<object>, level: int, copying: bool)
      reads repr
    {
      && (forall n :: n in tables ==> tables[n] in repr)
      && (forall n :: n in tables ==> Owned(tables[n], owner, repr))
      && (forall n :: n in tables ==> TableAt(tables[n], n, level, copying))
    }

    /** The tables are in step with the transaction level. */
    ghost predicate Valid()
      reads this`tables, this`transactionLevel, this`repr, this`owner, repr
    {
      transactionLevel >= 0 && this !in repr && InStep(tables, owner, repr, transactionLevel, copying)
    }

    constructor (copying: bool, asserting: bool)
      ensures Valid() && tables == map[] && transactionLevel == 0 && repr == {}
      ensures this.copying == copying && this.asserting == asserting
    {
      this.copying, this.asserting := copying, asserting;
      tables, transactionLevel, affectedRows, owner, repr := map[], 0, 0, map[], {};
    }

    /** A new table opens as many transactions as there are. */
    method Join(value: ConcreteTable, level: nat)
      requires value.Valid() && value.transactionStack == []
      modifies value`transactionStack, value`marks, value`history
      ensures value.Valid() && |value.transactionStack| == |value.marks| == level && value.Seen() == old(value.Seen())
      ensures forall k :: 0 <= k < level ==> value.marks[k].begun == ContentOf(value.View())
    {
      var i := 0;
      while i < level
        invariant 0 <= i <= level && |value.transactionStack| == |value.marks| == i && value.Valid()
        invariant value.Seen() == old(value.Seen())
        invariant forall k :: 0 <= k < i ==> value.marks[k].begun == ContentOf(value.View())
      {
        value.Begin();
        i := i + 1;
      }
    }

    /** The rows of the table, as its own. */
    static ghost function Claimed(owner: map<Row, ConcreteTable>, rows: set<Row>, t: ConcreteTable)
      : (r: map<Row, ConcreteTable>)
      ensures r.Keys == owner.Keys + rows
      ensures forall a :: a in r ==> r[a] == if a in rows then t else owner[a]
    {
      owner + map a | a in rows :: t
    }

    /** Another table that is in step. */
    static lemma StillInStep(before: map<string, ConcreteTable>, owner: map<Row, ConcreteTable>, repr: set<object>,
            key: string, value: ConcreteTable, level: int, copying: bool)
      requires InStep(before, owner, repr, level, copying)
      requires TableAt(value, key, level, copying) && owner.Keys !! value.cells.Keys
      ensures var rows := value.cells.Keys;
              InStep(before[key := value], Claimed(owner, rows, value), repr + {value} + rows, level, copying)
    {
      var rows := value.cells.Keys;
      var after, owner1, repr1 := before[key := value], Claimed(owner, rows, value), repr + {value} + rows;
      forall n | n in after
        ensures Owned(after[n], owner1, repr1) && TableAt(after[n], n, level, copying)
      {
        if n != key {
          assert Owned(before[n], owner, repr) && TableAt(before[n], n, level, copying);
        }
      }
    }

    /** `realMap.put`, for a table that is in step already. */
    method Add(key: string, value: ConcreteTable)
      requires Valid() && TableAt(value, key, transactionLevel, copying) && owner.Keys !! value.cells.Keys
      modifies this`tables, this`owner, this`repr
      ensures Valid() && tables == old(tables)[key := value] && owner.Keys == old(owner.Keys) + value.cells.Keys
      ensures repr == old(repr) + {value} + value.cells.Keys
    {
      hide ConcreteTable.Valid;
      StillInStep(tables, owner, repr, key, value, transactionLevel, copying);
      ghost var owner1, repr1 := Claimed(owner, value.cells.Keys, value), repr + {value} + value.cells.Keys;
      assert this !in repr1;
      tables, owner, repr := tables[key := value], owner1, repr1;
      assert InStep(tables, owner1, repr1, transactionLevel, copying) == true;
    }

    // ----- Transactions on all tables.

    /** What one of the three operations does to the level. */
    static function After(level: nat, op: Op<Row>): nat
      requires OnAll(op) && (op.Begin? || level > 0)
    {
      if op.Begin? then level + 1 else level - 1
    }

    static predicate OnAll(op: Op<Row>) {
      op.Begin? || op == Op.Commit(false) || op == Op.Rollback(false)
    }

    /** The table has not been through the operation yet, or has. */
    static ghost predicate Stage(t: ConcreteTable, n: string, moved: bool, op: Op<Row>, level: nat,
            before: seq<Op<Row>>, copying: bool)
      requires OnAll(op) && (op.Begin? || level > 0)
      reads t, t.cells.Keys
    {
      if moved then TableAt(t, n, After(level, op), copying) && t.history == before + [op]
      else TableAt(t, n, level, copying) && t.history == before
    }

    /** Some tables have been through the operation, the rest has not. */
    ghost predicate Between(rest: set<string>, op: Op<Row>, level: nat, before: map<string, seq<Op<Row>>>)
      requires OnAll(op) && (op.Begin? || level > 0)
      reads this, repr
    {
      && this !in repr
      && (forall n :: n in tables ==> tables[n] in repr)
      && (forall n :: n in tables ==> Owned(tables[n], owner, repr))
      && (forall n :: n in tables ==> n in before && Stage(tables[n], n, n !in rest, op, level, before[n], copying))
    }

    /** `begin()`, `commit(THIS_LEVEL)` or `rollback(THIS_LEVEL)` of one table: with the level of the
        database above zero, no table finds its stack empty. */
    static method Perform(t: ConcreteTable, op: Op<Row>, ghost n: string, ghost level: nat, ghost before: seq<Op<Row>>)
      requires OnAll(op) && (op.Begin? || level > 0) && Stage(t, n, false, op, level, before, t.copying)
      modifies t`transactionStack, t`marks, t`history, t`rowSet, t`cells, t.cells.Keys
      ensures Stage(t, n, true, op, level, before, t.copying) && t.cells.Keys == old(t.cells.Keys)
    {
      match op {
        case Begin =>
          t.Begin();
        case Commit(all) =>
          var ok := t.Commit(all);
          assert ok;
        case Rollback(all) =>
          var ok := t.Rollback(all);
          assert ok;
      }
    }

    /** One round of the loops of `begin`, `commit` and `rollback`. */
    method OnTable(n: string, op: Op<Row>, ghost rest: set<string>, ghost level: nat,
            ghost before: map<string, seq<Op<Row>>>)
      requires OnAll(op) && (op.Begin? || level > 0) && n in rest && n in tables && Between(rest, op, level, before)
      requires n in before && Stage(tables[n], n, false, op, level, before[n], copying)
      modifies tables[n], tables[n].cells.Keys
      ensures Between(rest - {n}, op, level, before)
    {
      hide Reached;
      forall m | m in tables && m != n
        ensures tables[m] != tables[n]
      {
        assert Stage(tables[m], m, m !in rest, op, level, before[m], copying);
      }
      Perform(tables[n], op, n, level, before[n]);
      forall m | m in tables && m != n
        ensures Stage(tables[m], m, m !in rest - {n}, op, level, before[m], copying)
      {
        assert m in rest <==> m in rest - {n};
      }
    }

    /** The loops of `begin`, `commit` and `rollback` over the tables. */
    method OnEach(op: Op<Row>, ghost level: nat, ghost before: map<string, seq<Op<Row>>>)
      requires OnAll(op) && (op.Begin? || level > 0) && Between(tables.Keys, op, level, before)
      modifies repr
      ensures Between({}, op, level, before)
    {
      var rest := tables.Keys;
      while rest != {}
        invariant rest <= tables.Keys && Between(rest, op, level, before)
        decreases rest
      {
        var n :| n in rest;
        OnTable(n, op, rest, level, before);
        rest := rest - {n};
      }
    }

    // ----- The three operations.

    /** What the tables are and what has been done to them, before an operation. */
    ghost function Histories(): (r: map<string, seq<Op<Row>>>)
      reads this`tables, tables.Values
    {
      map n | n in tables :: tables[n].history
    }

    ghost function Views(): (r: map<string, Table<Row>>)
      reads this`tables, tables.Values
    {
      map n | n in tables :: tables[n].View()
    }

    /** The tables were in step before. */
    ghost predicate WereInStep(op: Op<Row>, level: nat, before: map<string, seq<Op<Row>>>,
            views: map<string, Table<Row>>)
      reads this
    {
      forall n :: n in tables ==>
        n in before && n in views && Reached(views[n], copying, before[n]) && |views[n].stack| == level
    }

    lemma BackInStep(op: Op<Row>, level: nat, before: map<string, seq<Op<Row>>>)
      requires OnAll(op) && (op.Begin? || level > 0) && Between({}, op, level, before) &&
        transactionLevel == After(level, op)
      ensures Valid()
    {
      forall n | n in tables
        ensures TableAt(tables[n], n, transactionLevel, copying)
      {
        assert Stage(tables[n], n, true, op, level, before[n], copying);
      }
    }

    /** Once all tables have been through the operation, each has made that one step. */
    lemma AllStepped(op: Op<Row>, level: nat, before: map<string, seq<Op<Row>>>, views: map<string, Table<Row>>)
      requires OnAll(op) && (op.Begin? || level > 0) && Between({}, op, level, before) &&
        WereInStep(op, level, before, views)
      ensures forall n :: n in tables ==> Stepped(views[n], tables[n].View(), copying, op)
    {
      forall n | n in tables
        ensures Stepped(views[n], tables[n].View(), copying, op)
      {
        assert Stage(tables[n], n, true, op, level, before[n], copying);
        HistoryStep(views[n], tables[n].View(), copying, before[n], op);
      }
    }

    static ghost predicate Holds(t: ConcreteTable, content: Content)
      reads t
    {
      WfRows(t.View().rows) && ContentOf(t.View()) == content
    }

    /** The rollback of the innermost transaction is the last thing that was done to the table, which was
        this before it. */
    static ghost predicate WentBack(was: Table<Row>, t: ConcreteTable, copying: bool)
      reads t
    {
      && Back(was, t.View(), copying)
      && t.history != []
      && (var n := |t.history| - 1; t.history[n] == Op.Rollback(false) && Reached(was, copying, t.history[..n]))
    }

    lemma AllWentBack(level: nat, before: map<string, seq<Op<Row>>>, views: map<string, Table<Row>>)
      requires level > 0 && Between({}, Op.Rollback(false), level, before) &&
        WereInStep(Op.Rollback(false), level, before, views)
      ensures forall n :: n in tables ==> WentBack(views[n], tables[n], copying)
    {
      forall n | n in tables
        ensures WentBack(views[n], tables[n], copying)
      {
        assert Stage(tables[n], n, true, Op.Rollback(false), level, before[n], copying);
        HistoryBack(views[n], tables[n].View(), copying, before[n]);
      }
    }

    /** `begin` */
    method Begin()
      requires Valid()
      modifies this`transactionLevel, repr
      ensures Valid() && transactionLevel == old(transactionLevel) + 1
      ensures forall n :: n in tables ==> Stepped(old(Views())[n], tables[n].View(), copying, Op.Begin)
    {
      hide Reached;
      ghost var level, before, views := transactionLevel, Histories(), Views();
      assert WereInStep(Op.Begin, level, before, views);
      transactionLevel := transactionLevel + 1;
      OnEach(Op.Begin, level, before);
      AllStepped(Op.Begin, level, before, views);
      BackInStep(Op.Begin, level, before);
    }

    /** `commit`; a caller must have begun. */
    method Commit()
      requires Valid() && transactionLevel > 0
      modifies this`transactionLevel, repr
      ensures Valid() && transactionLevel == old(transactionLevel) - 1
      ensures forall n :: n in tables ==> Stepped(old(Views())[n], tables[n].View(), copying, Op.Commit(false))
    {
      hide Reached;
      ghost var level, before, views := transactionLevel, Histories(), Views();
      assert WereInStep(Op.Commit(false), level, before, views);
      transactionLevel := transactionLevel - 1;
      OnEach(Op.Commit(false), level, before);
      AllStepped(Op.Commit(false), level, before, views);
      BackInStep(Op.Commit(false), level, before);
    }

    /** `rollback`; a caller must have begun. */
    method Rollback()
      requires Valid() && transactionLevel > 0
      modifies this`transactionLevel, repr
      ensures Valid() && transactionLevel == old(transactionLevel) - 1
      ensures forall n :: n in tables ==> WentBack(old(Views())[n], tables[n], copying)
    {
      hide Reached;
      ghost var level, before, views := transactionLevel, Histories(), Views();
      assert WereInStep(Op.Rollback(false), level, before, views);
      transactionLevel := transactionLevel - 1;
      OnEach(Op.Rollback(false), level, before);
      AllWentBack(level, before, views);
      BackInStep(Op.Rollback(false), level, before);
    }

    // ----- Statements that work on one table.

    ghost function Marks(): (r: map<string, seq<Mark>>)
      reads this`tables, tables.Values
      ensures r.Keys == tables.Keys && forall n :: n in tables ==> r[n] == tables[n].marks
    {
      map n | n in tables :: tables[n].marks
    }

    // ----- What the tables hold.

    static ghost predicate HasFile(t: ConcreteTable, f: File)
      reads t, t.cells.Keys
    {
      t.Valid() && t.columnNames == f.columns && t.Seen() == f.rows
    }

    static ghost predicate RowsIn(t: ConcreteTable, repr: set<object>)
      reads t`cells
    {
      forall a :: a in t.cells ==> a in repr
    }

    /** Every table has the columns and rows that stand under its name. */
    static ghost predicate Holding(tables: map<string, ConcreteTable>, repr: set<object>, files: map<string, File>)
      reads repr
    {
      forall n :: n in tables ==>
        tables[n] in repr && RowsIn(tables[n], repr) && n in files && HasFile(tables[n], files[n])
    }

    /** This is what the database holds. */
    ghost predicate Hold(files: map<string, File>)
      reads this`tables, this`repr, repr
    {
      tables.Keys == files.Keys && Holding(tables, repr, files)
    }

    lemma Held(files: map<string, File>, n: string)
      requires Valid() && Hold(files) && n in files
      ensures n in tables && tables[n] in repr && HasFile(tables[n], files[n])
      ensures |tables[n].transactionStack| == transactionLevel && |tables[n].rowSet| == |files[n].rows|
    {
      assert TableAt(tables[n], n, transactionLevel, copying);
    }

    ghost function Files(): (files: map<string, File>)
      requires Valid()
      reads this`tables, this`transactionLevel, this`repr, this`owner, repr
      ensures Hold(files)
    {
      map n | n in tables :: File(tables[n].columnNames, tables[n].Seen())
    }

    /** What belongs to the other tables. */
    static ghost function Others(t: ConcreteTable, repr: set<object>): set<object>
      reads t`cells
    {
      repr - {t} - t.cells.Keys
    }

    /** The other tables have nothing of this one. */
    static lemma Apart(tables: map<string, ConcreteTable>, owner: map<Row, ConcreteTable>, repr: set<object>,
            level: int, copying: bool, files: map<string, File>, n: string)
      requires InStep(tables, owner, repr, level, copying) && Holding(tables, repr, files) && n in tables
      ensures InStep(tables - {n}, owner, Others(tables[n], repr), level, copying)
      ensures Holding(tables - {n}, Others(tables[n], repr), files)
      ensures tables[n] in repr && Owned(tables[n], owner, repr) && n in files
      ensures TableAt(tables[n], n, level, copying) && HasFile(tables[n], files[n])
    {
      var t, others := tables[n], Others(tables[n], repr);
      forall m | m in tables && m != n
        ensures tables[m] in others && Owned(tables[m], owner, others) && RowsIn(tables[m], others)
      {
        assert TableAt(tables[m], m, level, copying) && TableAt(t, n, level, copying);
        assert Owned(tables[m], owner, repr) && Owned(t, owner, repr);
      }
    }

    static lemma InRepr(tables: map<string, ConcreteTable>, owner: map<Row, ConcreteTable>, repr: set<object>,
            level: int, copying: bool, n: string)
      requires InStep(tables, owner, repr, level, copying) && n in tables
      ensures tables[n] in repr && Owned(tables[n], owner, repr)
    {
    }

    /** This table and the others are all tables. */
    static lemma Together(tables: map<string, ConcreteTable>, owner: map<Row, ConcreteTable>, others: set<object>,
            repr: set<object>, level: int, copying: bool, files: map<string, File>, n: string, f: File)
      requires n in tables && others <= repr && tables[n] in repr
      requires InStep(tables - {n}, owner, others, level, copying) && Holding(tables - {n}, others, files)
      requires TableAt(tables[n], n, level, copying) && HasFile(tables[n], f)
      requires forall a :: a in tables[n].cells && a in owner ==> owner[a] == tables[n]
      ensures var rows := tables[n].cells.Keys;
              && InStep(tables, Claimed(owner, rows, tables[n]), repr + rows, level, copying)
              && Holding(tables, repr + rows, files[n := f])
    {
      var t, rows := tables[n], tables[n].cells.Keys;
      forall m | m in tables
        ensures tables[m] in repr && TableAt(tables[m], m, level, copying)
        ensures Owned(tables[m], Claimed(owner, rows, t), repr + rows) && RowsIn(tables[m], repr + rows)
        ensures m != n ==> HasFile(tables[m], files[m])
      {
        if m != n {
          assert (tables - {n})[m] == tables[m];
          assert Owned(tables[m], owner, others) && TableAt(tables[m], m, level, copying);
        }
      }
    }

    /** The rows that a table has made since are its own. */
    ghost method Claim(n: string, others: set<object>, files: map<string, File>, f: File)
      requires n in tables && others <= repr && tables[n] in repr && this !in repr && transactionLevel >= 0
      requires InStep(tables - {n}, owner, others, transactionLevel, copying) && Holding(tables - {n}, others, files)
      requires TableAt(tables[n], n, transactionLevel, copying) && HasFile(tables[n], f)
      requires forall a :: a in tables[n].cells && a in owner ==> owner[a] == tables[n]
      requires tables.Keys == files.Keys
      modifies this`owner, this`repr
      ensures Valid() && Hold(files[n := f]) && repr == old(repr) + tables[n].cells.Keys
    {
      hide InStep, Holding;
      var rows := tables[n].cells.Keys;
      Together(tables, owner, others, repr, transactionLevel, copying, files, n, f);
      var owner1, repr1 := Claimed(owner, rows, tables[n]), repr + rows;
      assert this !in repr1;
      owner, repr := owner1, repr1;
      assert InStep(tables, owner1, repr1, transactionLevel, copying) == true;
      assert Holding(tables, repr1, files[n := f]) == true;
    }

    /** `t.update(selector)`, for a table in the map. */
    method UpdateTable(n: string, where: Selector, columnName: string, ghost files: map<string, File>)
      returns (result: Outcome)
      requires Valid() && Hold(files) && n in tables
      modifies this`owner, this`repr, tables[n], tables[n].cells.Keys
      ensures Valid() && repr >= old(repr) && fresh(repr - old(repr))
      ensures forall m :: m in tables ==> tables[m].marks == old(tables[m].marks)
      ensures var f := files[n];
              var (outcome, rows) := UpdateFrom(copying, where, IndexOf(f.columns, columnName), f.rows, 0, 0);
              result == outcome && Hold(files[n := File(f.columns, rows)])
    {
      hide InStep, Holding, ConcreteTable.Valid, ConcreteTable.Seen, UpdateFrom, DeleteFrom, Step;
      var t := tables[n];
      ghost var others := Others(t, repr);
      Apart(tables, owner, repr, transactionLevel, copying, files, n);
      result := t.Update(where, columnName);
      Claim(n, others, files, File(t.columnNames, t.Seen()));
    }

    /** `t.delete(selector)`, for a table in the map. */
    method DeleteFromTable(n: string, where: Selector, ghost files: map<string, File>) returns (result: Outcome)
      requires Valid() && Hold(files) && n in tables
      modifies this`owner, this`repr, tables[n]
      ensures Valid() && repr >= old(repr) && fresh(repr - old(repr))
      ensures forall m :: m in tables ==> tables[m].marks == old(tables[m].marks)
      ensures LogsGrow(old(tables[n].transactionStack), tables[n].transactionStack)
      ensures var f := files[n];
              var (outcome, _, rows) := DeleteFrom(where, old(tables[n].rowSet), f.rows, 0, 0, 0);
              result == outcome && Hold(files[n := File(f.columns, rows)])
    {
      hide InStep, Holding, ConcreteTable.Valid, ConcreteTable.Seen, UpdateFrom, DeleteFrom, Step;
      var t := tables[n];
      ghost var others := Others(t, repr);
      Apart(tables, owner, repr, transactionLevel, copying, files, n);
      result := t.Delete(where);
      Claim(n, others, files, File(t.columnNames, t.Seen()));
    }

    /** `t.insert(values)`, for a table in the map. */
    method InsertIntoTable(n: string, values: seq<Cell>, ghost files: map<string, File>) returns (ghost row: Row)
      requires Valid() && Hold(files) && n in tables && |values| == |tables[n].columnNames|
      modifies this`owner, this`repr, tables[n]
      ensures Valid() && repr >= old(repr) && fresh(repr - old(repr))
      ensures forall m :: m in tables ==> tables[m].marks == old(tables[m].marks)
      ensures Hold(files[n := File(files[n].columns, files[n].rows + [values])])
      ensures fresh(row) && tables[n].View() == Step(old(tables[n].View()), copying, Op.Insert(row, values))
    {
      hide InStep, Holding, ConcreteTable.Valid, ConcreteTable.Seen, UpdateFrom, DeleteFrom, Step;
      var t := tables[n];
      ghost var others := Others(t, repr);
      Apart(tables, owner, repr, transactionLevel, copying, files, n);
      row := t.Insert(values);
      Claim(n, others, files, File(t.columnNames, t.Seen()));
    }

    /** `t.insert(columns, values)`, for a table in the map. */
    method InsertColumns(n: string, columns: seq<string>, values: seq<Cell>, ghost files: map<string, File>)
      returns (ok: bool)
      requires Valid() && Hold(files) && n in tables && |columns| == |values|
      modifies this`owner, this`repr, tables[n]
      ensures Valid() && repr >= old(repr) && fresh(repr - old(repr))
      ensures forall m :: m in tables ==> tables[m].marks == old(tables[m].marks)
      ensures ok == (forall i :: 0 <= i < |columns| ==> columns[i] in files[n].columns)
      ensures var f := files[n];
              Hold(if ok then files[n := File(f.columns, f.rows + [Spread(f.columns, columns, values)])] else files)
    {
      hide InStep, Holding, ConcreteTable.Valid, ConcreteTable.Seen, UpdateFrom, DeleteFrom, Step;
      var t := tables[n];
      ghost var others := Others(t, repr);
      Apart(tables, owner, repr, transactionLevel, copying, files, n);
      ok := t.InsertInto(columns, values);
      Claim(n, others, files, File(t.columnNames, t.Seen()));
      assert !ok ==> files[n := files[n]] == files;
    }

    /** A table with these rows, from a file or from a select; it is in no transaction. */
    method NewTable(name: string, file: File) returns (t: ConcreteTable)
      requires WellShaped(file)
      ensures fresh(t) && fresh(t.cells.Keys) && t.Valid() && t.transactionStack == [] && t.tableName == name
      ensures t.copying == copying && t.columnNames == file.columns && t.Seen() == file.rows
    {
      t := new ConcreteTable(name, file.columns, copying);
      var i := 0;
      while i < |file.rows|
        invariant 0 <= i <= |file.rows| && fresh(t) && fresh(t.cells.Keys) && t.Valid() && t.transactionStack == []
        invariant t.tableName == name && t.Seen() == file.rows[..i]
        modifies t
      {
        assert file.rows[..i + 1] == file.rows[..i] + [file.rows[i]];
        assert WellShaped(file) && file.rows[i] in file.rows;
        var row := t.Insert(file.rows[i]);
        i := i + 1;
      }
      assert file.rows[..i] == file.rows;
    }

    /** `TableMap.put`: a table that is added joins every open transaction. */
    method Put(key: string, value: ConcreteTable, ghost files: map<string, File>, ghost file: File)
      requires Valid() && value.Valid() && value.transactionStack == [] && value.copying == copying &&
        value.tableName == key
      requires value !in repr && owner.Keys !! value.cells.Keys
      requires Hold(files) && HasFile(value, file)
      modifies this`tables, this`owner, this`repr, value`transactionStack, value`marks, value`history
      ensures Valid() && tables == old(tables)[key := value] && |value.marks| == transactionLevel
      ensures forall k :: 0 <= k < transactionLevel ==> value.marks[k].begun == ContentOf(value.View())
      ensures owner.Keys == old(owner.Keys) + value.cells.Keys && repr == old(repr) + {value} + value.cells.Keys
      ensures Hold(files[key := file])
    {
      hide InStep, Holding, ConcreteTable.Valid, ConcreteTable.Seen;
      Join(value, transactionLevel);
      OneMore(tables, repr, files, key, value, file);
      ghost var after, repr1 := tables[key := value], repr + {value} + value.cells.Keys;
      Add(key, value);
      assert Holding(after, repr1, files[key := file]) == true;
    }

    static lemma OneMore(tables: map<string, ConcreteTable>, repr: set<object>, files: map<string, File>, name: string,
            t: ConcreteTable, file: File)
      requires Holding(tables, repr, files) && HasFile(t, file)
      ensures Holding(tables[name := t], repr + {t} + t.cells.Keys, files[name := file])
    {
    }

    /** A new table with these rows is put into the map: CREATE TABLE, a lazy load, SELECT INTO. */
    method PutNew(name: string, file: File, ghost files: map<string, File>)
      requires Valid() && Hold(files) && WellShaped(file)
      modifies this`tables, this`owner, this`repr
      ensures Valid() && repr >= old(repr) && fresh(repr - old(repr)) && Hold(files[name := file])
      ensures name in tables && tables == old(tables)[name := tables[name]] && fresh(tables[name])
      ensures Marked(tables[name], false, [], transactionLevel, multiset(file.rows))
    {
      hide Holding, InStep;
      var t := NewTable(name, file);
      ContentsAsBag(t.View().rows);
      ghost var before := tables;
      Put(name, t, files, file);
    }

    // ----- Whole statements.

    /** The table has the open transactions it had, or it was added when it held this. */
    static ghost predicate Marked(t: ConcreteTable, kept: bool, was: seq<Mark>, level: int, content: Content)
      reads t
    {
      if kept then t.marks == was
      else |t.marks| == level && forall k :: 0 <= k < level ==> t.marks[k].begun == content
    }

    /** Every table was there before, with the same open transactions, or was added by the statement. */
    ghost predicate Since(before: map<string, ConcreteTable>, marks: map<string, seq<Mark>>,
            added: map<string, Content>)
      reads this`tables, this`transactionLevel, tables.Values
    {
      before.Keys <= marks.Keys && forall n :: n in tables ==>
        if n in before && tables[n] == before[n] then Marked(tables[n], true, marks[n], transactionLevel, multiset{})
        else n in added && Marked(tables[n], false, [], transactionLevel, added[n])
    }

    lemma SinceNow(added: map<string, Content>)
      ensures Since(tables, Marks(), added)
    {
    }

    /** A table that is loaded from the disk, on behalf of a statement. */
    method Load(name: string, disk: map<string, File>, ghost before: map<string, ConcreteTable>,
            ghost marks: map<string, seq<Mark>>, ghost added: map<string, Content>, ghost files: map<string, File>)
      requires Valid() && OnDisk(disk) && Loads(disk, added) && before.Keys <= tables.Keys
      requires Since(before, marks, added) && Hold(files) && name !in tables && name in disk
      modifies this`tables, this`owner, this`repr
      ensures Valid() && Since(before, marks, added) && Hold(files[name := disk[name]])
      ensures name in tables && tables == old(tables)[name := tables[name]]
      ensures repr >= old(repr) && fresh(repr - old(repr))
    {
      hide Holding, InStep, ConcreteTable.Valid, ConcreteTable.Seen;
      PutNew(name, disk[name], files);
    }

    /** `TableMap.get`: the table in the map, or the one on the disk, or a RuntimeException (false). */
    method Get(name: string, disk: map<string, File>, ghost before: map<string, ConcreteTable>,
            ghost marks: map<string, seq<Mark>>, ghost added: map<string, Content>, ghost files: map<string, File>)
      returns (ok: bool)
      requires Valid() && OnDisk(disk) && Loads(disk, added) && before.Keys <= tables.Keys
      requires Since(before, marks, added) && Hold(files)
      modifies this`tables, this`owner, this`repr
      ensures Valid() && Since(before, marks, added) && Hold(Loaded(files, name, disk))
      ensures ok == (name in files || name in disk)
      ensures name in old(tables) || !ok ==> tables == old(tables)
      ensures name !in old(tables) && ok ==>
        name in tables && tables == old(tables)[name := tables[name]]
      ensures repr >= old(repr) && fresh(repr - old(repr))
    {
      if name in tables {
        return true;
      } else if name in disk {
        Load(name, disk, before, marks, added, files);
        return true;
      }
      return false;
    }

    static ghost predicate StillThere(before: map<string, ConcreteTable>, after: map<string, ConcreteTable>) {
      forall n :: n in before ==> n in after && after[n] == before[n]
    }

    static lemma StaysThere(before: map<string, ConcreteTable>, tables: map<string, ConcreteTable>,
            after: map<string, ConcreteTable>, name: string)
      requires StillThere(before, tables)
      requires after == tables || (name !in tables && name in after && after == tables[name := after[name]])
      ensures StillThere(before, after)
    {
    }

    lemma ThereNow()
      ensures StillThere(tables, tables)
    {
    }

    /** The tables of a SELECT are looked up one after the other, and loaded if need be. */
    method Lookup(names: seq<string>, disk: map<string, File>, ghost added: map<string, Content>,
            ghost files: map<string, File>)
      returns (ok: bool)
      requires Valid() && OnDisk(disk) && Loads(disk, added) && Hold(files)
      modifies this`tables, this`owner, this`repr
      ensures Valid() && Since(old(tables), old(Marks()), added) && Hold(LoadedAll(files, names, disk))
      ensures StillThere(old(tables), tables)
      ensures ok == AllFound(files, names, disk)
      ensures fresh(repr - old(repr))
    {
      hide InStep, Holding, ConcreteTable.Valid, Since, Loads, OnDisk, Marks, Files, ConcreteTable.Seen, StillThere;
      ghost var before, marks, now := tables, Marks(), files;
      var i := 0;
      assert names[0..] == names;
      ThereNow();
      SinceNow(added);
      while i < |names|
        invariant 0 <= i <= |names| && Valid() && before.Keys <= tables.Keys && Since(before, marks, added)
        invariant StillThere(before, tables)
        invariant Hold(now) && LoadedAll(now, names[i..], disk) == LoadedAll(files, names, disk)
        invariant AllFound(now, names[i..], disk) == AllFound(files, names, disk)
        invariant fresh(repr - old(repr))
      {
        assert names[i..][0] == names[i] && names[i..][1..] == names[i + 1..];
        ghost var tables0 := tables;
        ok := Get(names[i], disk, before, marks, added, now);
        StaysThere(before, tables0, tables, names[i]);
        if !ok {
          return;
        }
        now := Loaded(now, names[i], disk);
        i := i + 1;
      }
      return true;
    }

    method InsertEvaluated(n: string, listed: Option<seq<string>>, values: Evaluated<seq<Cell>>,
            ghost files: map<string, File>)
      returns (result: Result)
      requires Valid() && Hold(files) && n in tables
      modifies this`owner, this`repr, tables[n]
      ensures Valid() && repr >= old(repr) && fresh(repr - old(repr))
      ensures forall m :: m in tables ==> tables[m].marks == old(tables[m].marks)
      ensures result == InsertVerdict(files[n].columns, listed, values)
      ensures Hold(files[n := AfterInsert(files[n], listed, values)])
    {
      hide InStep, Holding, ConcreteTable.Valid, ConcreteTable.Seen;
      assert files[n := files[n]] == files;
      Held(files, n);
      if values.Throws? {
        return ResultOf(Failed(values.failure));
      }
      if listed.None? {
        if |values.value| != |tables[n].columnNames| {
          return AssertionError;
        }
        ghost var row := InsertIntoTable(n, values.value, files);
        return Completed(1);
      }
      if |listed.value| != |values.value| {
        return ParseError;
      }
      var ok := InsertColumns(n, listed.value, values.value, files);
      return if ok then Completed(1) else RuntimeError;
    }

    /** `doUpdate`, `doDelete` and `doInsert`, once the table is there. */
    method Change(st: Statement, ghost files: map<string, File>) returns (result: Result)
      requires Valid() && Hold(files) && IsChange(st) && st.name in tables
      modifies this`owner, this`repr, tables[st.name], tables[st.name].cells.Keys
      ensures Valid() && repr >= old(repr) && fresh(repr - old(repr))
      ensures forall m :: m in tables ==> tables[m].marks == old(tables[m].marks)
      ensures result == ChangeVerdict(st, files[st.name])
      ensures result == ParseError <==> FailsToParse(st, files, map[])
      ensures result == RuntimeError <==> FailsAtRuntime(st, files, map[])
      ensures Hold(files[st.name := Changed(st, files[st.name], copying)])
    {
      hide InStep, Holding, ConcreteTable.Valid, ConcreteTable.Seen, FailsToParse, FailsAtRuntime;
      Held(files, st.name);
      ChangeVerdictMeans(st, files, map[], files[st.name]);
      match st
      case UpdateRows(n, column, where) =>
        UpdateMeans(copying, where, IndexOf(files[n].columns, column), files[n].rows);
        var outcome := UpdateTable(n, where, column, files);
        result := ResultOf(outcome);
      case DeleteRows(n, where) =>
        DeleteMeans(where, tables[n].rowSet, files[n].rows);
        var outcome := DeleteFromTable(n, where, files);
        result := ResultOf(outcome);
      case InsertValues(n, listed, values) =>
        result := InsertEvaluated(n, listed, values, files);
    }

    /** No open transaction of a table is touched by these changes. */
    method ChangeSince(st: Statement, ghost before: map<string, ConcreteTable>, ghost marks: map<string, seq<Mark>>,
            ghost added: map<string, Content>, ghost files: map<string, File>)
      returns (result: Result)
      requires Valid() && Hold(files) && IsChange(st) && st.name in tables
      requires Since(before, marks, added)
      modifies this`owner, this`repr, tables[st.name], tables[st.name].cells.Keys
      ensures Valid() && repr >= old(repr) && fresh(repr - old(repr))
      ensures Since(before, marks, added)
      ensures result == ChangeVerdict(st, files[st.name])
      ensures Hold(files[st.name := Changed(st, files[st.name], copying)])
    {
      hide InStep, Holding, ConcreteTable.Valid, ChangeVerdict, Changed;
      result := Change(st, files);
    }

    /** `createTable`, and the closing parenthesis after it. */
    method DoCreate(st: Statement, disk: map<string, File>, ghost files: map<string, File>) returns (result: Result)
      requires Valid() && Hold(files) && st.CreateTable?
      modifies this`tables, this`owner, this`repr
      ensures Valid() && Since(old(tables), old(Marks()), Added(st, disk))
      ensures SameTables(st, old(tables), tables)
      ensures result == TableVerdict(st, files, disk) && Hold(FilesAfter(st, files, disk, copying))
      ensures fresh(repr - old(repr))
    {
      hide InStep, Holding;
      PutNew(st.name, File(st.columns, []), files);
      return if st.closed then Completed(0) else ParseError;
    }

    static lemma OneLess(tables: map<string, ConcreteTable>, owner: map<Row, ConcreteTable>, repr: set<object>,
            level: int, copying: bool, files: map<string, File>, name: string)
      requires InStep(tables, owner, repr, level, copying) && Holding(tables, repr, files)
      ensures InStep(tables - {name}, owner, repr, level, copying) && Holding(tables - {name}, repr, files - {name})
    {
      hide ConcreteTable.Valid, ConcreteTable.Seen;
    }

    /** `dropTable`: the table leaves the map before the file is looked for. */
    method DoDrop(st: Statement, disk: map<string, File>, ghost files: map<string, File>) returns (result: Result)
      requires Valid() && Hold(files) && st.DropTable?
      modifies this`tables
      ensures Valid() && Since(old(tables), old(Marks()), Added(st, disk))
      ensures SameTables(st, old(tables), tables)
      ensures result == TableVerdict(st, files, disk) && Hold(FilesAfter(st, files, disk, copying))
    {
      hide InStep, Holding, ConcreteTable.Valid, ConcreteTable.Seen;
      OneLess(tables, owner, repr, transactionLevel, copying, files, st.name);
      tables := tables - {st.name};
      return if st.onDisk then Completed(0) else RuntimeError;
    }

    /** `commit` or `rollback` at level 0 without the assertion: the level drops below zero, and the first
        table, if there is one, throws an IllegalStateException. */
    method Slip(st: Statement) returns (result: Result)
      requires Valid() && transactionLevel == 0 && (st.CommitWork? || st.RollbackWork?)
      modifies this`transactionLevel, repr
      ensures transactionLevel == -1 && forall n :: n in tables ==> tables[n].View() == old(tables[n].View())
      ensures result == if tables == map[] then Completed(0) else RuntimeError
    {
      hide ConcreteTable.Valid;
      transactionLevel := transactionLevel - 1;
      if tables == map[] {
        return Completed(0);
      }
      assert tables.Keys != {};
      var n :| n in tables;
      var ok;
      if st.CommitWork? {
        ok := tables[n].Commit(false);
      } else {
        ok := tables[n].Rollback(false);
      }
      assert !ok;
      return RuntimeError;
    }

    /** Every table has made the step of the statement. */
    ghost predicate Moved(st: Statement, views: map<string, Table<Row>>)
      reads this`tables, tables.Values
    {
      forall n :: n in tables ==>
        && n in views
        && (st.BeginWork? ==> Stepped(views[n], tables[n].View(), copying, Op.Begin))
        && (st.CommitWork? ==> Stepped(views[n], tables[n].View(), copying, Op.Commit(false)))
        && (st.RollbackWork? ==> WentBack(views[n], tables[n], copying))
    }

    /** The statements about transactions. */
    method DoTransaction(st: Statement, ghost added: map<string, Content>) returns (result: Result)
      requires Valid() && IsTransaction(st)
      modifies this`transactionLevel, repr
      ensures Valid() <==> !Slips(st, asserting, old(transactionLevel))
      ensures transactionLevel == LevelAfter(st, asserting, result, old(transactionLevel))
      ensures result == TransactionVerdict(st, old(transactionLevel), asserting, tables == map[])
      ensures !result.Completed? && Valid() ==> Since(old(tables), old(Marks()), added)
      ensures st.BeginWork? || old(transactionLevel) > 0 ==> Moved(st, old(Views()))
      ensures !st.BeginWork? && old(transactionLevel) == 0 ==>
        forall n :: n in tables ==> tables[n].View() == old(tables[n].View())
    {
      hide InStep, Holding, Since;
      if st.BeginWork? {
        Begin();
      } else if transactionLevel == 0 {
        if asserting {
          SinceNow(added);
          return AssertionError;
        }
        result := Slip(st);
        return;
      } else if st.CommitWork? {
        Commit();
      } else {
        Rollback();
      }
      return Completed(0);
    }

    /** INSERT, UPDATE and DELETE. */
    method DoChange(st: Statement, disk: map<string, File>, ghost files: map<string, File>) returns (result: Result)
      requires Valid() && OnDisk(disk) && Hold(files) && IsChange(st)
      modifies this`tables, this`owner, this`repr, repr
      ensures Valid() && Since(old(tables), old(Marks()), Added(st, disk))
      ensures tables == old(tables)
        || (st.name !in old(tables) && st.name in tables && tables == old(tables)[st.name := tables[st.name]])
      ensures result == TableVerdict(st, files, disk) && Hold(FilesAfter(st, files, disk, copying))
      ensures fresh(repr - old(repr))
    {
      hide InStep, Holding, Since, Changed, ChangeVerdict, ConcreteTable.Valid;
      ghost var before, marks, added := tables, Marks(), Added(st, disk);
      SinceNow(added);
      var ok := Get(st.name, disk, before, marks, added, files);
      if ok {
        InRepr(tables, owner, repr, transactionLevel, copying, st.name);
        result := ChangeSince(st, before, marks, added, Loaded(files, st.name, disk));
      } else {
        result := RuntimeError;
      }
    }

    /** `doSelect`: the result may become a table. */
    method DoSelect(st: Statement, disk: map<string, File>, ghost files: map<string, File>) returns (result: Result)
      requires Valid() && OnDisk(disk) && Hold(files) && st.SelectRows? && WellFound(st)
      modifies this`tables, this`owner, this`repr
      ensures Valid() && (!result.Completed? ==> Since(old(tables), old(Marks()), Added(st, disk)))
      ensures SameTables(st, old(tables), tables)
      ensures result == TableVerdict(st, files, disk) && Hold(FilesAfter(st, files, disk, copying))
      ensures fresh(repr - old(repr))
    {
      hide InStep, Holding, AllFound, LoadedAll, Since, Marks, Files;
      var ok := Lookup(st.sources, disk, Added(st, disk), files);
      if !ok {
        return RuntimeError;
      }
      if st.found.Throws? {
        return ResultOf(Failed(st.found.failure));
      }
      if st.into.Some? {
        PutNew(st.into.value, st.found.value, LoadedAll(files, st.sources, disk));
      }
      return Completed(0);
    }

    /** The statements about tables and rows. */
    method DoTables(st: Statement, disk: map<string, File>, ghost files: map<string, File>) returns (result: Result)
      requires Valid() && OnDisk(disk) && Hold(files) && WellFound(st) && IsAboutTables(st)
      modifies this`tables, this`owner, this`repr, repr
      ensures Valid() && (!result.Completed? ==> Since(old(tables), old(Marks()), Added(st, disk)))
      ensures SameTables(st, old(tables), tables)
      ensures result == TableVerdict(st, files, disk) && Hold(FilesAfter(st, files, disk, copying))
      ensures fresh(repr - old(repr))
    {
      hide InStep, Holding, Since, TableVerdict, FilesAfter, Marks, Files;
      if st.CreateTable? {
        result := DoCreate(st, disk, files);
      } else if st.DropTable? {
        result := DoDrop(st, disk, files);
      } else if st.SelectRows? {
        result := DoSelect(st, disk, files);
      } else {
        result := DoChange(st, disk, files);
      }
    }

    /** `statement`, but for the count of affected rows. */
    method Dispatch(st: Statement, disk: map<string, File>, ghost files: map<string, File>) returns (result: Result)
      requires Valid() && OnDisk(disk) && Hold(files) && WellFound(st)
      modifies this`tables, this`transactionLevel, this`owner, this`repr, repr
      ensures Valid() <==> !Slips(st, asserting, old(transactionLevel))
      ensures transactionLevel == LevelAfter(st, asserting, result, old(transactionLevel))
      ensures SameTables(st, old(tables), tables)
      ensures result == Verdict(st, old(transactionLevel), asserting, files, disk)
      ensures !result.Completed? && Valid() ==> Since(old(tables), old(Marks()), Added(st, disk))
      ensures !IsTransaction(st) ==> Hold(FilesAfter(st, files, disk, copying))
      ensures IsTransaction(st) && (st.BeginWork? || old(transactionLevel) > 0) ==> Moved(st, old(Views()))
      ensures st.Garbled? ==> tables == old(tables) && repr == old(repr) && unchanged(old(repr))
      ensures fresh(repr - old(repr))
    {
      hide InStep, Holding, Since, TableVerdict, FilesAfter, Moved;
      SinceNow(Added(st, disk));
      assert tables == map[] <==> files == map[];
      if st.Garbled? {
        return ParseError;
      } else if st.NoFileAccess? {
        return IOError;
      } else if IsTransaction(st) {
        result := DoTransaction(st, Added(st, disk));
      } else {
        result := DoTables(st, disk, files);
      }
    }

    /** `statement` */
    method DoStatement(st: Statement, disk: map<string, File>, ghost files: map<string, File>) returns (result: Result)
      requires Valid() && OnDisk(disk) && Hold(files) && WellFound(st)
      modifies this, repr
      ensures Valid() <==> !Slips(st, asserting, old(transactionLevel))
      ensures transactionLevel == LevelAfter(st, asserting, result, old(transactionLevel))
      ensures SameTables(st, old(tables), tables)
      ensures result == Verdict(st, old(transactionLevel), asserting, files, disk)
      ensures !IsTransaction(st) ==>
        && (result == ParseError <==> FailsToParse(st, files, disk))
        && (result == IOError <==> st.NoFileAccess?)
        && (result == RuntimeError <==> FailsAtRuntime(st, files, disk))
      ensures affectedRows == if result.Completed? then result.affected else 0
      ensures !result.Completed? && Valid() ==> Since(old(tables), old(Marks()), Added(st, disk))
      ensures !IsTransaction(st) ==> Hold(FilesAfter(st, files, disk, copying))
      ensures IsTransaction(st) && (st.BeginWork? || old(transactionLevel) > 0) ==> Moved(st, old(Views()))
      ensures st.Garbled? ==> tables == old(tables) && repr == old(repr) && unchanged(old(repr))
      ensures fresh(repr - old(repr))
    {
      hide InStep, Holding, Since, Verdict, FilesAfter, Moved, LevelAfter, Slips, SameTables, TakenBack,
        ConcreteTable.Valid, ConcreteTable.Seen, FailsToParse, FailsAtRuntime, Affects;
      VerdictMeans(st, transactionLevel, asserting, files, disk);
      affectedRows := 0;
      result := Dispatch(st, disk, files);
      if result.Completed? {
        affectedRows := result.affected;
      }
    }

    /** What the table under a name is due to hold after a failed statement: what it held at the
        latest `begin`, or what it was added with. */
    static function Due(n: string, kept: bool, marks: map<string, seq<Mark>>, level: int, added: map<string, Content>)
      : Content
    {
      if kept && n in marks && 0 < level <= |marks[n]| then marks[n][level - 1].begun
      else if n in added then added[n]
      else multiset{}
    }

    ghost function AllDue(before: map<string, ConcreteTable>, marks: map<string, seq<Mark>>, level: int,
            added: map<string, Content>)
      : (due: map<string, Content>)
      reads this`tables
    {
      map n | n in tables :: Due(n, n in before && tables[n] == before[n], marks, level, added)
    }

    lemma MarksAreDue(before: map<string, ConcreteTable>, marks: map<string, seq<Mark>>, added: map<string, Content>)
      requires Valid() && transactionLevel > 0 && Since(before, marks, added)
      ensures forall n :: n in tables ==> Last(tables[n].View(), AllDue(before, marks, transactionLevel, added)[n])
    {
    }

    /** Every table has been rolled back, from what it was to what it is; and when it holds what is due. */
    ghost predicate TakenBack(due: map<string, Content>, broken: map<string, Table<Row>>)
      reads this`tables, tables.Values
    {
      forall n :: n in tables ==>
        && n in due && n in broken
        && Last(broken[n], due[n]) && WentBack(broken[n], tables[n], copying)
        && (Holds(tables[n], due[n]) <==> !copying || C.Restores(broken[n], false))
    }

    method RollBackTo(ghost due: map<string, Content>) returns (ghost broken: map<string, Table<Row>>)
      requires Valid() && transactionLevel > 0 && forall n :: n in tables ==> n in due && Last(tables[n].View(), due[n])
      modifies this`transactionLevel, repr
      ensures Valid() && transactionLevel == old(transactionLevel) - 1
      ensures broken == old(Views()) && TakenBack(due, broken)
    {
      broken := Views();
      assert forall n :: n in tables ==> Last(broken[n], due[n]);
      Rollback();
    }

    /** The rollback after a statement that failed. */
    method TakeBack(ghost before: map<string, ConcreteTable>, ghost marks: map<string, seq<Mark>>,
            ghost added: map<string, Content>)
      returns (ghost broken: map<string, Table<Row>>)
      requires Valid() && transactionLevel > 0 && Since(before, marks, added)
      modifies this`transactionLevel, repr
      ensures Valid() && transactionLevel == old(transactionLevel) - 1
      ensures broken == old(Views()) && TakenBack(AllDue(before, marks, old(transactionLevel), added), broken)
    {
      hide InStep, ConcreteTable.Valid, TakenBack, Since;
      MarksAreDue(before, marks, added);
      ghost var due := AllDue(before, marks, transactionLevel, added);
      broken := RollBackTo(due);
      assert due == AllDue(before, marks, old(transactionLevel), added);
    }

    /** `execute`: inside a transaction, a statement that comes to a ParseFailure or an IOException takes the
        transaction back on every table that is still in the map; no other statement does, and a runtime
        exception leaves what the statement has done so far and the transaction open.  A table that is rolled
        back is due to hold what it held at the latest `begin`, or when the statement added it.  With the
        stored row in the cursor it does.  With the copy it does exactly when, as the table was before the
        rollback, the rows inserted in the transaction are all still there and no inner rollback has left a
        row behind. */
    method Execute(st: Statement, disk: map<string, File>)
      returns (result: Result, ghost broken: map<string, Table<Row>>)
      requires Valid() && OnDisk(disk) && WellFound(st)
      modifies this, repr
      ensures Valid() <==> !Slips(st, asserting, old(transactionLevel))
      ensures SameTables(st, old(tables), tables)
      ensures result == Verdict(st, old(transactionLevel), asserting, old(Files()), disk)
      ensures transactionLevel ==
        if IsCaught(result) && old(transactionLevel) > 0 then old(transactionLevel) - 1
        else LevelAfter(st, asserting, result, old(transactionLevel))
      ensures IsCaught(result) && old(transactionLevel) > 0 ==>
        TakenBack(AllDue(old(tables), old(Marks()), old(transactionLevel), Added(st, disk)), broken)
      ensures !(IsCaught(result) && old(transactionLevel) > 0) && !IsTransaction(st) ==>
        Hold(FilesAfter(st, old(Files()), disk, copying))
      ensures !(IsCaught(result) && old(transactionLevel) > 0) && !result.Completed? && Valid() ==>
        Since(old(tables), old(Marks()), Added(st, disk))
      ensures IsTransaction(st) && (st.BeginWork? || old(transactionLevel) > 0) ==> Moved(st, old(Views()))
      ensures st.Garbled? ==> tables == old(tables)
      ensures st.Garbled? && old(transactionLevel) > 0 ==> broken == old(Views())
      ensures !IsTransaction(st) ==>
        && (result == ParseError <==> FailsToParse(st, old(Files()), disk))
        && (result == IOError <==> st.NoFileAccess?)
        && (result == RuntimeError <==> FailsAtRuntime(st, old(Files()), disk))
        && (result.Completed? ==> Affects(st, old(Files()), disk, result.affected))
      ensures (FailsToParse(st, old(Files()), disk) || st.NoFileAccess?) && old(transactionLevel) > 0 ==>
        && transactionLevel == old(transactionLevel) - 1
        && TakenBack(AllDue(old(tables), old(Marks()), old(transactionLevel), Added(st, disk)), broken)
      ensures FailsAtRuntime(st, old(Files()), disk) ==>
        transactionLevel == old(transactionLevel) && Since(old(tables), old(Marks()), Added(st, disk))
      ensures !IsTransaction(st) && !FailsToParse(st, old(Files()), disk) && !st.NoFileAccess? ==>
        && transactionLevel == old(transactionLevel)
        && exists after :: Hold(after) && Effect(st, old(Files()), disk, copying, result.Completed?, after)
      ensures st.CreateTable? && st.closed ==> Hold(old(Files())[st.name := File(st.columns, [])])
      ensures st.DropTable? ==> Hold(old(Files()) - {st.name})
      ensures st.BeginWork? ==> transactionLevel == old(transactionLevel) + 1
      ensures (st.CommitWork? || st.RollbackWork?) && (old(transactionLevel) > 0 || !asserting) ==>
        transactionLevel == old(transactionLevel) - 1
      ensures (st.CommitWork? || st.RollbackWork?) && old(transactionLevel) <= 0 && asserting ==>
        transactionLevel == old(transactionLevel) && result == AssertionError
    {
      hide InStep, Holding, Since, TableVerdict, FilesAfter, TakenBack, Moved, ConcreteTable.Valid, ConcreteTable.Seen,
        FailsToParse, FailsAtRuntime, Affects, Effect, SameTables, Verdict, LevelAfter, Slips, Added, Files, Views,
        Marks;
      VerdictMeans(st, transactionLevel, asserting, Files(), disk);
      AboutTables(st, transactionLevel, asserting, Files(), disk, copying);
      ghost var before, marks, views, added, files := tables, Marks(), Views(), Added(st, disk), Files();
      result := DoStatement(st, disk, files);
      broken := map[];
      if IsCaught(result) && transactionLevel > 0 {
        assert st.Garbled? ==> Views() == views;
        broken := TakeBack(before, marks, added);
      }
    }
  }

  /** CREATE TABLE on a new database, as the code runs it. */
  method NewDatabase(name: string, columns: seq<string>) returns (db: Database)
    ensures fresh(db) && fresh(db.repr) && db.Valid() && db.copying && db.transactionLevel == 0 && name in db.tables
    ensures db.tables[name].columnNames == columns && db.tables[name].rowSet == []
  {
    db := new Database(true, true);
    db.PutNew(name, File(columns, []), map[]);
    assert |db.tables[name].Seen()| == 0;
  }

  /** CREATE TABLE and BEGIN. */
  method BegunDatabase(name: string, columns: seq<string>) returns (db: Database)
    ensures fresh(db) && fresh(db.repr) && db.Valid() && db.copying && db.transactionLevel == 1 && name in db.tables
    ensures db.tables[name].columnNames == columns
    ensures var t := db.tables[name].View();
            Wf(t) && Begun(t) && t.rows.ids == [] && t.stack == [[]]
  {
    db := NewDatabase(name, columns);
    ghost var before := db.tables[name].View();
    db.Begin();
    OnlyBegin(before);
  }

  lemma OnlyBegin<Id>(t: Table<Id>)
    requires Wf(t) && t.rows.ids == [] && t.stack == []
    ensures var r := Step(t, true, Op<Id>.Begin);
            Wf(r) && Begun(r) && r.rows.ids == [] && r.stack == [[]]
  {
    StepWf(t, true, Op<Id>.Begin);
    assert t.marks == [];
  }

  /** CREATE TABLE, BEGIN and INSERT. */
  method WithOneRow(name: string, values: seq<Cell>) returns (db: Database, ghost row: Row)
    ensures fresh(db) && fresh(db.repr) && db.Valid() && db.copying && db.transactionLevel == 1 && name in db.tables
    ensures var t := db.tables[name].View();
            Begun(t) && t.rows.ids == [row] && t.stack == [[UndoInsert(row)]]
    ensures db.tables[name].columnNames == seq(|values|, _ => "column") && db.tables[name].Seen() == [values]
  {
    hide Database.InStep, Database.Holding, ConcreteTable.Seen, ConcreteTable.Valid, Step;
    db := BegunDatabase(name, seq(|values|, _ => "column"));
    ghost var before, files := db.tables[name].View(), db.Files();
    db.Held(files, name);
    assert |files[name].rows| == 0;
    row := db.InsertIntoTable(name, values, files);
    OnlyInsert(before, row, values);
    assert files[name].rows + [values] == [values];
    db.Held(files[name := File(files[name].columns, [values])], name);
  }

  lemma OnlyInsert<Id>(t: Table<Id>, row: Id, values: seq<Cell>)
    requires Wf(t) && t.rows.ids == [] && t.stack == [[]] && row !in t.rows.cells
    ensures var r := Step(t, true, Op.Insert(row, values));
            r.rows.ids == [row] && r.stack == [[UndoInsert(row)]] && r.marks == t.marks
  {
    RegisterOnly<Id>([], UndoInsert(row));
    var log: Log<Id> := [UndoInsert(row)];
    assert [] + [UndoInsert(row)] == log && t.rows.ids + [row] == [row];
  }

  function EveryRow(): Selector {
    Selector((i, row) => Yes, (i, row) => Null)
  }

  lemma OnlyDelete<Id>(row: Id, seen: seq<seq<Cell>>)
    requires |seen| == 1
    ensures DeleteFrom(EveryRow(), [row], seen, 0, 0, 0) == (Done(1), [], [])
  {
    assert EveryRow().approve(0, seen[0]) == Yes;
    assert RemoveAt([row], 0) == [] && RemoveAt(seen, 0) == [];
  }

  /** The inserted row is logged, and it is not in the list any more. */
  lemma InsertedIsGone<Id>(before: Table<Id>, t: Table<Id>, row: Id)
    requires Begun(before) && before.stack == [[UndoInsert(row)]]
    requires t.marks == before.marks && LogsGrow(before.stack, t.stack) && t.rows.ids == []
    ensures Begun(t) && !C.Restores(t, false)
  {
    assert [[UndoInsert(row)]][0] <= t.stack[0];
    assert t.stack[0][0] == UndoInsert(row);
  }

  /** One transaction is open, and the table was empty when it began. */
  ghost predicate Begun<Id>(t: Table<Id>) {
    |t.stack| == 1 && t.marks == [Mark(multiset{}, multiset{})]
  }

  /** DELETE of the row that the transaction inserted. */
  method DeleteEveryRow(db: Database, name: string, ghost row: Row)
    requires db.Valid() && name in db.tables
    requires var t := db.tables[name].View();
             Begun(t) && t.rows.ids == [row] && t.stack == [[UndoInsert(row)]]
    modifies db`owner, db`repr, db.tables[name]
    ensures db.Valid() && db.repr >= old(db.repr) && fresh(db.repr - old(db.repr))
    ensures Begun(db.tables[name].View()) && !C.Restores(db.tables[name].View(), false)
  {
    OnlyDelete(row, db.tables[name].Seen());
    ghost var before := db.tables[name].View();
    var outcome := db.DeleteFromTable(name, EveryRow(), db.Files());
    assert |db.tables[name].Seen()| == 0;
    InsertedIsGone(before, db.tables[name].View(), row);
  }

  /** BEGIN, INSERT, DELETE and a statement that does not parse, as the code runs them: the table was empty
      at the BEGIN, and after the rollback it is not. */
  method DeletedInsertComesBack(name: string, values: seq<Cell>) returns (db: Database)
    ensures fresh(db) && db.Valid() && db.copying && db.transactionLevel == 0
    ensures name in db.tables && !Database.Holds(db.tables[name], multiset{})
  {
    hide Database.Holding, Database.Since, FailsToParse, FailsAtRuntime, Affects, Effect;
    ghost var row;
    db, row := WithOneRow(name, values);
    DeleteEveryRow(db, name, row);
    ghost var before := db.tables[name].View();
    var result, broken := db.Execute(Garbled, map[]);
    assert broken[name] == before;
  }

  /** INSERT INTO name (missing) VALUES (null) */
  function MissingColumn(name: string): Statement {
    InsertValues(name, Some(["missing"]), Values([None]))
  }

  lemma MissingColumnFails(name: string, files: map<string, File>, copying: bool)
    requires name in files && "missing" !in files[name].columns
    ensures TableVerdict(MissingColumn(name), files, map[]) == RuntimeError
    ensures FilesAfter(MissingColumn(name), files, map[], copying) == files
  {
    assert ["missing"][0] !in files[name].columns;
    assert files[name := files[name]] == files;
  }

  lemma OtherColumns(n: nat)
    ensures "missing" !in seq(n, _ => "column")
  {
    assert |"missing"| == 7 && |"column"| == 6;
  }

  /** BEGIN, INSERT, and an INSERT for a column that does not exist: the runtime exception passes through
      `execute`, the transaction stays open, and the row of the first INSERT is still there. */
  method RuntimeErrorIsNotCaught(name: string, values: seq<Cell>) returns (db: Database, result: Result)
    ensures result == RuntimeError && fresh(db) && db.Valid() && db.transactionLevel == 1 && name in db.tables
    ensures |db.tables[name].transactionStack| == 1 && db.tables[name].Seen() == [values]
  {
    hide Database.InStep, Database.Holding, Database.Since, TableVerdict, FilesAfter, FailsToParse, FailsAtRuntime,
      Affects, Effect, Database.TakenBack, Database.AllDue;
    ghost var row;
    db, row := WithOneRow(name, values);
    ghost var files := db.Files();
    db.Held(files, name);
    OtherColumns(|values|);
    MissingColumnFails(name, files, true);
    ghost var broken;
    result, broken := db.Execute(MissingColumn(name), map[]);
    db.Held(files, name);
  }

  /** UPDATE with a new value for the first row, and one that throws a ParseFailure at the second. */
  function ThrowsAtSecond(): Selector {
    Selector((i, row) => Yes, (i, row) => if i == 0 then Text("changed") else Fails(ParseFailure))
  }

  lemma SecondRowRaises(name: string, file: File, files: map<string, File>)
    requires name in files && files[name] == file
    requires |file.rows| == 2 && file.columns != [] && |file.rows[0]| > 0
    ensures FailsToParse(UpdateRows(name, file.columns[0], ThrowsAtSecond()), files, map[])
  {
    var where, column := ThrowsAtSecond(), file.columns[0];
    assert IsCell(file.columns, column, file.rows[0], 0);
    assert IsTable(files, map[], name, file);
    assert UpdateStopsAt(where, file.columns, column, file.rows, 1, ParseFailure);
  }

  lemma BeginKeeps<Id>(t: Table<Id>, r: Table<Id>, copying: bool)
    requires Stepped(t, r, copying, Op.Begin) && t.marks == []
    ensures WfRows(t.rows) && r.rows == t.rows && r.marks == [Mark(multiset(RowContents(t.rows)), multiset{})]
  {
    ContentsAsBag(t.rows);
  }

  /** A database with one table. */
  method DatabaseWith(copying: bool, name: string, file: File) returns (db: Database)
    requires WellShaped(file)
    ensures fresh(db) && fresh(db.repr) && db.Valid() && db.copying == copying && db.transactionLevel == 0
    ensures name in db.tables && db.tables[name].columnNames == file.columns && db.tables[name].Seen() == file.rows
    ensures db.tables[name].marks == []
  {
    hide Database.InStep, Reached;
    db := new Database(copying, true);
    db.PutNew(name, file, map[]);
    db.Held(map[name := file], name);
  }

  /** And BEGIN. */
  method BegunWith(copying: bool, name: string, file: File) returns (db: Database)
    requires WellShaped(file)
    ensures fresh(db) && fresh(db.repr) && db.Valid() && db.copying == copying && db.transactionLevel == 1
    ensures name in db.tables && db.tables[name].columnNames == file.columns && db.tables[name].Seen() == file.rows
    ensures db.tables[name].marks == [Mark(multiset(file.rows), multiset{})]
  {
    hide Step, Reached;
    db := DatabaseWith(copying, name, file);
    ghost var t := db.tables[name].View();
    db.Begin();
    BeginKeeps(t, db.tables[name].View(), copying);
  }

  /** CREATE TABLE, two rows, BEGIN, and an UPDATE that fails at the second row with a ParseFailure: the
      statement fails with it, the transaction is taken back, and with the stored rows in the cursor, where
      the first row had been changed by then, the table holds what it held at the BEGIN. */
  method UpdateFailsAtSecondRow(copying: bool, name: string, file: File) returns (db: Database, result: Result)
    requires WellShaped(file) && |file.rows| == 2 && file.columns != []
    ensures fresh(db) && db.Valid() && db.copying == copying
    ensures result == ParseError && db.transactionLevel == 0 && name in db.tables
    ensures !copying ==> Database.Holds(db.tables[name], multiset(file.rows))
  {
    hide Database.InStep, Database.Holding, Database.Since, TableVerdict, FilesAfter, ConcreteTable.Seen,
      ConcreteTable.Valid, FailsToParse, Database.TakenBack, Database.AllDue, Effect, FailsAtRuntime, Verdict,
      Database.Holds;
    db := BegunWith(copying, name, file);
    var st := UpdateRows(name, file.columns[0], ThrowsAtSecond());
    ghost var before, marks := db.tables, db.Marks();
    assert |file.rows[0]| > 0;
    SecondRowRaises(name, file, db.Files());
    ghost var broken;
    result, broken := db.Execute(st, map[]);
    assert Spares(st, name);
    if !copying {
      TookBack(db, before, marks, Added(st, map[]), broken, name, multiset(file.rows));
    }
  }

  /** A table that was there before the statement holds again what it held at the `begin`. */
  lemma TookBack(db: Database, before: map<string, ConcreteTable>, marks: map<string, seq<Mark>>,
                 added: map<string, Content>, broken: map<string, Table<Row>>, name: string, content: Content)
    requires db.TakenBack(db.AllDue(before, marks, 1, added), broken) && !db.copying
    requires name in db.tables && name in before && db.tables[name] == before[name]
    requires name in marks && |marks[name]| == 1 && marks[name][0].begun == content
    ensures Database.Holds(db.tables[name], content)
  {
  }

  /** The statement makes or drops no table of this name. */
  predicate Spares(st: Statement, n: string) {
    && !(st.CreateTable? && st.name == n)
    && !(st.DropTable? && st.name == n)
    && !(st.SelectRows? && st.into == Some(n))
  }

  /** The tables that were in the map are still there, but for those the statement makes or drops. */
  ghost predicate SameTables(st: Statement, before: map<string, ConcreteTable>, after: map<string, ConcreteTable>) {
    forall n :: n in before && Spares(st, n) ==> n in after && after[n] == before[n]
  }

  predicate IsTransaction(st: Statement) {
    st.BeginWork? || st.CommitWork? || st.RollbackWork?
  }

  predicate IsChange(st: Statement) {
    st.InsertValues? || st.UpdateRows? || st.DeleteRows?
  }

  predicate IsAboutTables(st: Statement) {
    st.CreateTable? || st.DropTable? || st.SelectRows? || IsChange(st)
  }

  /** What a SELECT has found has the right number of columns. */
  predicate WellFound(st: Statement) {
    st.SelectRows? && st.found.Values? ==> WellShaped(st.found.value)
  }

  /** The two kinds of failure that `execute` catches. */
  predicate IsCaught(result: Result) {
    result.ParseError? || result.IOError?
  }

  // ----- What a statement comes to, and what it makes of the tables.

  function InsertVerdict(names: seq<string>, listed: Option<seq<string>>, values: Evaluated<seq<Cell>>): Result {
    match values
    case Throws(f) => ResultOf(Failed(f))
    case Values(cells) =>
      if listed.None? then (if |cells| != |names| then AssertionError else Completed(1))
      else if |listed.value| != |cells| then ParseError
      else if forall i :: 0 <= i < |listed.value| ==> listed.value[i] in names then Completed(1)
      else RuntimeError
  }

  function AfterInsert(f: File, listed: Option<seq<string>>, values: Evaluated<seq<Cell>>): File {
    if !InsertVerdict(f.columns, listed, values).Completed? then f
    else if listed.None? then File(f.columns, f.rows + [values.value])
    else File(f.columns, f.rows + [Spread(f.columns, listed.value, values.value)])
  }

  /** The visits of the rows by an UPDATE or DELETE. */
  function VisitsTo(st: Statement, f: File): (visits: seq<Visit>)
    requires st.UpdateRows? || st.DeleteRows?
    ensures |visits| == |f.rows|
  {
    if st.UpdateRows? then UpdateVisits(st.where, IndexOf(f.columns, st.column), f.rows)
    else DeleteVisits(st.where, f.rows)
  }

  /** An INSERT, UPDATE or DELETE fails with the first row that throws. */
  function ChangeVerdict(st: Statement, f: File): Result
    requires IsChange(st)
  {
    if st.InsertValues? then InsertVerdict(f.columns, st.listed, st.values) else ResultOf(OutcomeOf(VisitsTo(st, f)))
  }

  /** What it has done to the rows by then stays. */
  function Changed(st: Statement, f: File, copying: bool): File
    requires IsChange(st)
  {
    if st.InsertValues? then AfterInsert(f, st.listed, st.values)
    else
      var visits := VisitsTo(st, f);
      var n := StopAt(visits);
      if st.UpdateRows? then File(f.columns, Updated(copying, f.rows, IndexOf(f.columns, st.column), visits, n))
      else File(f.columns, Kept(f.rows, visits, n) + f.rows[n..])
  }

  predicate IsFound(files: map<string, File>, name: string, disk: map<string, File>) {
    name in files || name in disk
  }

  /** The tables once this one has been asked for. */
  function Loaded(files: map<string, File>, name: string, disk: map<string, File>): (r: map<string, File>)
    ensures IsFound(files, name, disk) ==> name in r
  {
    if name in files || name !in disk then files else files[name := disk[name]]
  }

  predicate AllFound(files: map<string, File>, names: seq<string>, disk: map<string, File>)
    decreases |names|
  {
    names == [] || (IsFound(files, names[0], disk) && AllFound(Loaded(files, names[0], disk), names[1..], disk))
  }

  /** And once these have been, up to the first that is nowhere. */
  function LoadedAll(files: map<string, File>, names: seq<string>, disk: map<string, File>): map<string, File>
    decreases |names|
  {
    if names == [] || !IsFound(files, names[0], disk) then files
    else LoadedAll(Loaded(files, names[0], disk), names[1..], disk)
  }

  function TransactionVerdict(st: Statement, level: int, asserting: bool, empty: bool): Result
    requires IsTransaction(st)
  {
    if st.BeginWork? || level > 0 then Completed(0)
    else if asserting then AssertionError
    else if empty then Completed(0) else RuntimeError
  }

  function TableVerdict(st: Statement, files: map<string, File>, disk: map<string, File>): Result
    requires IsAboutTables(st)
  {
    if st.CreateTable? then if st.closed then Completed(0) else ParseError
    else if st.DropTable? then if st.onDisk then Completed(0) else RuntimeError
    else if st.SelectRows? then
      if !AllFound(files, st.sources, disk) then RuntimeError
      else if st.found.Throws? then ResultOf(Failed(st.found.failure)) else Completed(0)
    else if IsFound(files, st.name, disk) then ChangeVerdict(st, Loaded(files, st.name, disk)[st.name])
    else RuntimeError
  }

  /** What a statement comes to, by the tables and the disk as they are before it. */
  function Verdict(st: Statement, level: int, asserting: bool, files: map<string, File>, disk: map<string, File>)
    : Result
  {
    if st.Garbled? then ParseError
    else if st.NoFileAccess? then IOError
    else if IsTransaction(st) then TransactionVerdict(st, level, asserting, files == map[])
    else TableVerdict(st, files, disk)
  }

  /** What the tables hold after a statement that is not about transactions, completed or not. */
  function FilesAfter(st: Statement, files: map<string, File>, disk: map<string, File>, copying: bool)
    : (after: map<string, File>)
    ensures !IsAboutTables(st) ==> after == files
  {
    if st.CreateTable? then files[st.name := File(st.columns, [])]
    else if st.DropTable? then files - {st.name}
    else if st.SelectRows? then
      var loaded := LoadedAll(files, st.sources, disk);
      if TableVerdict(st, files, disk).Completed? && st.into.Some? then loaded[st.into.value := st.found.value]
      else loaded
    else if IsChange(st) && IsFound(files, st.name, disk) then
      var loaded := Loaded(files, st.name, disk);
      loaded[st.name := Changed(st, loaded[st.name], copying)]
    else files
  }

  // ----- The same in plain terms, by the tables, the disk and the answers of the expressions alone.

  /** The table of this name: the one in the map, or else the one on the disk. */
  ghost predicate IsTable(files: map<string, File>, disk: map<string, File>, name: string, f: File) {
    if name in files then f == files[name] else name in disk && f == disk[name]
  }

  predicate IsThere(files: map<string, File>, disk: map<string, File>, name: string) {
    name in files || name in disk
  }

  /** An expression of the statement throws this, at the first row at which one throws. */
  ghost predicate Raises(st: Statement, files: map<string, File>, disk: map<string, File>, failure: Failure) {
    match st
    case InsertValues(name, _, values) => IsThere(files, disk, name) && values == Throws(failure)
    case UpdateRows(name, column, where) =>
      exists f, n :: IsTable(files, disk, name, f) && UpdateStopsAt(where, f.columns, column, f.rows, n, failure)
    case DeleteRows(name, where) =>
      exists f, n :: IsTable(files, disk, name, f) && DeleteStopsAt(where, f.rows, n, failure)
    case SelectRows(sources, _, found) =>
      (forall k :: 0 <= k < |sources| ==> IsThere(files, disk, sources[k])) && found == Throws(failure)
    case _ => false
  }

  /** The statement comes to a ParseFailure: it does not parse, an expression throws one, or an INSERT lists as
      many columns as it does not give values. */
  ghost predicate FailsToParse(st: Statement, files: map<string, File>, disk: map<string, File>) {
    || st.Garbled?
    || (st.CreateTable? && !st.closed)
    || Raises(st, files, disk, ParseFailure)
    || (st.InsertValues? && IsThere(files, disk, st.name) && st.values.Values? && st.listed.Some?
        && |st.listed.value| != |st.values.value|)
  }

  /** It comes to a runtime exception: there is no such table, file or column, or an expression throws one. */
  ghost predicate FailsAtRuntime(st: Statement, files: map<string, File>, disk: map<string, File>) {
    || (st.DropTable? && !st.onDisk)
    || (IsChange(st) && !IsThere(files, disk, st.name))
    || (st.SelectRows? && exists k :: 0 <= k < |st.sources| && !IsThere(files, disk, st.sources[k]))
    || Raises(st, files, disk, RuntimeFailure)
    || (st.InsertValues? && st.values.Values? && st.listed.Some? && |st.listed.value| == |st.values.value|
        && exists f, k :: IsTable(files, disk, st.name, f) && 0 <= k < |st.listed.value|
                       && st.listed.value[k] !in f.columns)
  }

  /** An INSERT without a list of columns gives too few or too many values. */
  ghost predicate FailsAssertion(st: Statement, files: map<string, File>, disk: map<string, File>) {
    st.InsertValues? && st.values.Values? && st.listed.None?
    && exists f :: IsTable(files, disk, st.name, f) && |st.values.value| != |f.columns|
  }

  /** How many rows a statement that completes has inserted, updated or deleted. */
  ghost predicate Affects(st: Statement, files: map<string, File>, disk: map<string, File>, count: nat) {
    if st.InsertValues? then count == 1
    else if st.UpdateRows? || st.DeleteRows? then
      exists f :: IsTable(files, disk, st.name, f) && count == |Those(st.where, f.rows, f.rows, |f.rows|, Yes)|
    else count == 0
  }

  lemma TableIs(files: map<string, File>, name: string, disk: map<string, File>)
    ensures IsThere(files, disk, name) <==> IsFound(files, name, disk)
    ensures IsFound(files, name, disk) ==>
              forall f :: IsTable(files, disk, name, f) <==> f == Loaded(files, name, disk)[name]
    ensures !IsFound(files, name, disk) ==> forall f :: !IsTable(files, disk, name, f)
  {
  }

  lemma {:induction false} AllFoundMeans(files: map<string, File>, names: seq<string>, disk: map<string, File>)
    ensures AllFound(files, names, disk) <==> forall k :: 0 <= k < |names| ==> IsThere(files, disk, names[k])
    decreases |names|
  {
    if names != [] && IsFound(files, names[0], disk) {
      var loaded := Loaded(files, names[0], disk);
      AllFoundMeans(loaded, names[1..], disk);
      forall k | 1 <= k < |names|
        ensures IsThere(loaded, disk, names[1..][k - 1]) <==> IsThere(files, disk, names[k])
      {
      }
      if AllFound(files, names, disk) {
        forall k | 0 <= k < |names|
          ensures IsThere(files, disk, names[k])
        {
          assert k > 0 ==> names[k] == names[1..][k - 1];
        }
      }
    }
  }

  lemma UpdateOutcome(where: Selector, names: seq<string>, column: string, rows: seq<seq<Cell>>)
    ensures var r := OutcomeOf(UpdateVisits(where, IndexOf(names, column), rows));
            && (forall f :: r == Failed(f) <==> exists n :: UpdateStopsAt(where, names, column, rows, n, f))
            && (r.Done? ==> r.count == |Those(where, rows, rows, |rows|, Yes)|)
  {
    hide UpdateThrows;
    var index := IndexOf(names, column);
    UpdateMeans(false, where, index, rows);
    var n := UpdatePlainly(false, where, names, column, index, rows);
    var r := OutcomeOf(UpdateVisits(where, index, rows));
    if n < |rows| {
      forall m: nat, f | UpdateStopsAt(where, names, column, rows, m, f)
        ensures f == r.failure
      {
        UpdateStopsOnce(where, names, column, rows, n, r.failure, m, f);
      }
    }
  }

  lemma DeleteOutcome(where: Selector, rows: seq<seq<Cell>>)
    ensures var r := OutcomeOf(DeleteVisits(where, rows));
            && (forall f :: r == Failed(f) <==> exists n :: DeleteStopsAt(where, rows, n, f))
            && (r.Done? ==> r.count == |Those(where, rows, rows, |rows|, Yes)|)
  {
    DeleteMeans(where, rows, rows);
    var n := DeletePlainly(where, rows, rows);
    var r := OutcomeOf(DeleteVisits(where, rows));
    if n < |rows| {
      assert DeleteStopsAt(where, rows, n, r.failure);
    }
  }

  /** An update or delete fails with what an expression throws. */
  lemma ChangeRaises(st: Statement, files: map<string, File>, disk: map<string, File>, f: File, failure: Failure)
    requires (st.UpdateRows? || st.DeleteRows?) && IsTable(files, disk, st.name, f)
    ensures OutcomeOf(VisitsTo(st, f)) == Failed(failure) <==> Raises(st, files, disk, failure)
  {
    hide UpdateStopsAt, DeleteStopsAt, OutcomeOf, UpdateVisits, DeleteVisits, Those;
    TableIs(files, st.name, disk);
    if st.UpdateRows? {
      UpdateOutcome(st.where, f.columns, st.column, f.rows);
      if Raises(st, files, disk, failure) {
        var g, n :|
          IsTable(files, disk, st.name, g) && UpdateStopsAt(st.where, g.columns, st.column, g.rows, n, failure);
        assert g == f;
      }
    } else {
      DeleteOutcome(st.where, f.rows);
      if Raises(st, files, disk, failure) {
        var g, n :| IsTable(files, disk, st.name, g) && DeleteStopsAt(st.where, g.rows, n, failure);
        assert g == f;
      }
    }
  }

  lemma ChangeVerdictMeans(st: Statement, files: map<string, File>, disk: map<string, File>, f: File)
    requires IsChange(st) && IsTable(files, disk, st.name, f)
    ensures var r := ChangeVerdict(st, f);
            && (r == ParseError <==> FailsToParse(st, files, disk))
            && (r == RuntimeError <==> FailsAtRuntime(st, files, disk))
            && (r == AssertionError <==> FailsAssertion(st, files, disk))
            && r != IOError
            && (r.Completed? ==> Affects(st, files, disk, r.affected))
  {
    hide UpdateVisits, DeleteVisits, OutcomeOf, UpdateStopsAt, DeleteStopsAt, Those;
    TableIs(files, st.name, disk);
    if !st.InsertValues? {
      hide VisitsTo, Raises;
      ChangeRaises(st, files, disk, f, ParseFailure);
      ChangeRaises(st, files, disk, f, RuntimeFailure);
      ChangeCounts(st, files, disk, f);
    }
  }

  lemma ChangeCounts(st: Statement, files: map<string, File>, disk: map<string, File>, f: File)
    requires (st.UpdateRows? || st.DeleteRows?) && IsTable(files, disk, st.name, f)
    ensures OutcomeOf(VisitsTo(st, f)).Done? ==> Affects(st, files, disk, OutcomeOf(VisitsTo(st, f)).count)
  {
    hide UpdateStopsAt, DeleteStopsAt, OutcomeOf, UpdateVisits, DeleteVisits, Those;
    if st.UpdateRows? {
      UpdateOutcome(st.where, f.columns, st.column, f.rows);
    } else {
      DeleteOutcome(st.where, f.rows);
    }
  }

  /** What a statement about tables comes to. */
  lemma TableVerdictMeans(st: Statement, files: map<string, File>, disk: map<string, File>)
    requires IsAboutTables(st)
    ensures var r := TableVerdict(st, files, disk);
            && (r == ParseError <==> FailsToParse(st, files, disk))
            && (r == RuntimeError <==> FailsAtRuntime(st, files, disk))
            && (r == AssertionError <==> FailsAssertion(st, files, disk))
            && r != IOError
            && (r.Completed? ==> Affects(st, files, disk, r.affected))
  {
    hide UpdateVisits, DeleteVisits, OutcomeOf, UpdateStopsAt, DeleteStopsAt, Those;
    if st.SelectRows? {
      AllFoundMeans(files, st.sources, disk);
    } else if IsChange(st) {
      TableIs(files, st.name, disk);
      if IsFound(files, st.name, disk) {
        ChangeVerdictMeans(st, files, disk, Loaded(files, st.name, disk)[st.name]);
      }
    }
  }

  /** What a statement comes to. */
  lemma VerdictMeans(st: Statement, level: int, asserting: bool, files: map<string, File>, disk: map<string, File>)
    ensures var r := Verdict(st, level, asserting, files, disk);
            && (!IsTransaction(st) ==>
                  && (r == ParseError <==> FailsToParse(st, files, disk))
                  && (r == IOError <==> st.NoFileAccess?)
                  && (r == RuntimeError <==> FailsAtRuntime(st, files, disk))
                  && (r == AssertionError <==> FailsAssertion(st, files, disk))
                  && (r.Completed? ==> Affects(st, files, disk, r.affected)))
            && (IsTransaction(st) && (st.BeginWork? || level > 0) ==> r == Completed(0))
            && (IsTransaction(st) && !st.BeginWork? && level <= 0 ==>
                  r == if asserting then AssertionError else if files == map[] then Completed(0) else RuntimeError)
  {
    if IsAboutTables(st) {
      hide TableVerdict;
      TableVerdictMeans(st, files, disk);
    }
  }

  /** What the tables hold after a statement that is not about transactions, completed or not. */
  ghost predicate Effect(st: Statement, files: map<string, File>, disk: map<string, File>, copying: bool,
                         completed: bool, after: map<string, File>) {
    match st
    case CreateTable(name, columns, _) => after == files[name := File(columns, [])]
    case DropTable(name, _) => after == files - {name}
    case SelectRows(sources, into, found) =>
      && (completed && into.Some? ==> found.Values? && into.value in after && after[into.value] == found.value)
      && (forall n :: n in files && !(completed && into == Some(n)) ==> n in after && after[n] == files[n])
      && (forall n :: n in after && n !in files && !(completed && into == Some(n)) ==>
            n in sources && n in disk && after[n] == disk[n])
      && (completed ==> forall k :: 0 <= k < |sources| ==> sources[k] in after)
    case Garbled => after == files
    case NoFileAccess => after == files
    case _ =>
      if !IsChange(st) then true
      else if !IsThere(files, disk, st.name) then after == files
      else
        exists f, rows ::
          && IsTable(files, disk, st.name, f) && after == files[st.name := File(f.columns, rows)]
          && RowsAfter(st, f, copying, completed, rows)
  }

  /** What an INSERT, UPDATE or DELETE makes of the rows of its table. */
  ghost predicate RowsAfter(st: Statement, f: File, copying: bool, completed: bool, rows: seq<seq<Cell>>)
    requires IsChange(st)
  {
    match st
    case InsertValues(_, listed, values) =>
      if !completed then rows == f.rows
      else
        && values.Values? && rows != [] && rows[..|rows| - 1] == f.rows
        && (listed.None? ==> rows[|rows| - 1] == values.value)
        && (listed.Some? ==>
              |listed.value| == |values.value| && SpreadsTo(f.columns, listed.value, values.value, rows[|rows| - 1]))
    case UpdateRows(_, column, where) =>
      exists n, outcome: Outcome ::
        outcome.Done? == completed && UpdateDoes(copying, where, f.columns, column, f.rows, n, outcome, rows)
    case DeleteRows(_, where) =>
      exists n, outcome: Outcome :: outcome.Done? == completed && DeleteDoes(where, f.rows, f.rows, n, outcome, rows)
    case _ => true
  }

  lemma {:induction false} LoadedAllMeans(files: map<string, File>, names: seq<string>, disk: map<string, File>)
    ensures var r := LoadedAll(files, names, disk);
            && (forall n :: n in files ==> n in r && r[n] == files[n])
            && (forall n :: n in r && n !in files ==> n in names && n in disk && r[n] == disk[n])
            && (AllFound(files, names, disk) ==> forall k :: 0 <= k < |names| ==> names[k] in r)
    decreases |names|
  {
    if names != [] && IsFound(files, names[0], disk) {
      var loaded := Loaded(files, names[0], disk);
      LoadedAllMeans(loaded, names[1..], disk);
      assert names[0] in loaded;
      forall k | 1 <= k < |names|
        ensures names[k] == names[1..][k - 1]
      {
      }
    }
  }

  /** What an UPDATE, DELETE or INSERT makes of its table. */
  lemma ChangedMeans(st: Statement, f: File, copying: bool)
    requires IsChange(st)
    ensures Changed(st, f, copying).columns == f.columns
    ensures RowsAfter(st, f, copying, ChangeVerdict(st, f).Completed?, Changed(st, f, copying).rows)
  {
    match st
    case InsertValues(_, listed, values) =>
      if listed.Some? && values.Values? && |listed.value| == |values.value| {
        SpreadMeans(f.columns, listed.value, values.value);
      }
    case UpdateRows(_, column, where) =>
      hide UpdateVisits, OutcomeOf, UpdateDoes, Updated, StopAt;
      var index := IndexOf(f.columns, column);
      UpdateMeans(copying, where, index, f.rows);
      var n := UpdatePlainly(copying, where, f.columns, column, index, f.rows);
    case DeleteRows(_, where) =>
      hide DeleteVisits, OutcomeOf, DeleteDoes, Kept, StopAt;
      DeleteMeans(where, f.rows, f.rows);
      var n := DeletePlainly(where, f.rows, f.rows);
  }

  /** What the tables hold after a statement. */
  lemma FilesAfterMean(st: Statement, level: int, asserting: bool, files: map<string, File>, disk: map<string, File>,
                       copying: bool)
    requires !IsTransaction(st)
    ensures Effect(st, files, disk, copying, Verdict(st, level, asserting, files, disk).Completed?,
                   FilesAfter(st, files, disk, copying))
  {
    hide ChangeVerdict, Changed, LoadedAll, AllFound, RowsAfter;
    if st.SelectRows? {
      LoadedAllMeans(files, st.sources, disk);
    } else if IsChange(st) {
      TableIs(files, st.name, disk);
      if IsFound(files, st.name, disk) {
        var f := Loaded(files, st.name, disk)[st.name];
        ChangedMeans(st, f, copying);
        assert Loaded(files, st.name, disk)[st.name := Changed(st, f, copying)]
            == files[st.name := Changed(st, f, copying)];
      }
    }
  }

  /** What `execute` needs of all this. */
  lemma AboutTables(st: Statement, level: int, asserting: bool, files: map<string, File>, disk: map<string, File>,
                    copying: bool)
    ensures !IsTransaction(st) ==>
              Effect(st, files, disk, copying, Verdict(st, level, asserting, files, disk).Completed?,
                     FilesAfter(st, files, disk, copying))
    ensures FailsToParse(st, files, disk) || st.NoFileAccess? || FailsAtRuntime(st, files, disk) ==> !IsTransaction(st)
    ensures st.CreateTable? ==> FilesAfter(st, files, disk, copying) == files[st.name := File(st.columns, [])]
    ensures st.CreateTable? && st.closed ==> Verdict(st, level, asserting, files, disk) == Completed(0)
    ensures st.DropTable? ==> FilesAfter(st, files, disk, copying) == files - {st.name}
    ensures st.DropTable? ==> !FailsToParse(st, files, disk)
    ensures var r := Verdict(st, level, asserting, files, disk);
            && (!IsTransaction(st) ==> LevelAfter(st, asserting, r, level) == level && !Slips(st, asserting, level))
            && (st.Garbled? ==> r == ParseError)
            && (st.BeginWork? ==> LevelAfter(st, asserting, r, level) == level + 1 && !IsCaught(r))
            && (st.CommitWork? || st.RollbackWork? ==>
                  && !IsCaught(r)
                  && (level > 0 || !asserting ==> LevelAfter(st, asserting, r, level) == level - 1)
                  && (level <= 0 && asserting ==>
                        LevelAfter(st, asserting, r, level) == level && r == AssertionError))
  {
    hide Effect, FilesAfter;
    FilesOfCreateAndDrop(st, files, disk, copying);
    if !IsTransaction(st) {
      FilesAfterMean(st, level, asserting, files, disk, copying);
    }
  }

  lemma FilesOfCreateAndDrop(st: Statement, files: map<string, File>, disk: map<string, File>, copying: bool)
    ensures st.CreateTable? ==> FilesAfter(st, files, disk, copying) == files[st.name := File(st.columns, [])]
    ensures st.DropTable? ==> FilesAfter(st, files, disk, copying) == files - {st.name}
  {
  }

  /** COMMIT or ROLLBACK without a BEGIN, where no assertion stops it. */
  predicate Slips(st: Statement, asserting: bool, level: int) {
    !asserting && level <= 0 && (st.CommitWork? || st.RollbackWork?)
  }

  /** The level moves with a BEGIN, COMMIT or ROLLBACK that completes, and with one that slips. */
  function LevelAfter(st: Statement, asserting: bool, result: Result, level: int): int {
    if result.Completed? && st.BeginWork? then level + 1
    else if (result.Completed? && (st.CommitWork? || st.RollbackWork?)) || Slips(st, asserting, level) then level - 1
    else level
  }

  /** The outcome of the expressions of an INSERT or of a SELECT. */
  datatype Evaluated<T> = Values(value: T) | Throws(failure: Failure)

  datatype Statement =
    | Garbled
    | NoFileAccess
    | BeginWork
    | CommitWork
    | RollbackWork
    | CreateTable(name: string, columns: seq<string>, closed: bool)
    | DropTable(name: string, onDisk: bool)
    | InsertValues(name: string, listed: Option<seq<string>>, values: Evaluated<seq<Cell>>)
    | UpdateRows(name: string, column: string, where: Selector)
    | DeleteRows(name: string, where: Selector)
    | SelectRows(sources: seq<string>, into: Option<string>, found: Evaluated<File>)

  datatype Result = Completed(affected: nat) | ParseError | IOError | RuntimeError | AssertionError

  function ResultOf(outcome: Outcome): Result {
    match outcome
    case Done(n) => Completed(n)
    case Failed(ParseFailure) => ParseError
    case Failed(RuntimeFailure) => RuntimeError
  }

  /** What tables hold when a statement that fails adds them: nothing for CREATE TABLE, otherwise
      what is on the disk. */
  function Added(st: Statement, disk: map<string, File>): map<string, Content> {
    if st.CreateTable? then map[st.name := multiset{}] else map n | n in disk :: multiset(disk[n].rows)
  }

  ghost predicate Loads(disk: map<string, File>, added: map<string, Content>) {
    forall n :: n in disk ==> n in added && added[n] == multiset(disk[n].rows)
  }

  /** The columns and rows of a table on the disk, or of a select. */
  datatype File = File(columns: seq<string>, rows: seq<seq<Cell>>)

  predicate OnDisk(disk: map<string, File>) {
    forall n :: n in disk ==> WellShaped(disk[n])
  }

  predicate WellShaped(file: File) {
    forall row :: row in file.rows ==> |row| == |file.columns|
  }

  /** One operation leads from one value of a table to the other. */
  ghost predicate Stepped<Id>(t: Table<Id>, r: Table<Id>, copying: bool, op: Op<Id>) {
    Wf(t) && Enabled(t, copying, op) && r == Step(t, copying, op)
  }

  /** What the table held at the latest `begin`. */
  ghost predicate Last<Id>(t: Table<Id>, begun: Content) {
    t.marks != [] && t.marks[|t.marks| - 1].begun == begun
  }

  /** The table was this before a rollback of its innermost transaction, and is that.  With the stored
      row in the cursor it holds what it held at the `begin`; with a copy in the cursor it does exactly
      when no row that the transaction inserted is gone and no inner rollback left a row behind. */
  ghost predicate Back<Id>(was: Table<Id>, t: Table<Id>, copying: bool) {
    was.stack != [] && |was.marks| == |was.stack| && WfRows(t.rows) &&
    (ContentOf(t) == was.marks[|was.marks| - 1].begun <==> !copying || C.Restores(was, false))
  }

  lemma HistoryBack<Id>(t: Table<Id>, r: Table<Id>, copying: bool, ops: seq<Op<Id>>)
    requires Reached(t, copying, ops) && t.stack != [] && Reached(r, copying, ops + [Op.Rollback(false)])
    ensures Back(t, r, copying)
  {
    HistoryStep(t, r, copying, ops, Op.Rollback(false));
    RollbackContent(t, copying, ops, false);
  }
}
