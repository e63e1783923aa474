/** The undo subsystem of ConcreteTable.java on values: rows are identities with contents, and a
    stack of logs says how to take back what was done since each open `begin`. */
module UndoLog {
  import opened Options

  /** A cell is a string or null. */
  type Cell = Option<string>

  datatype Undo<Id> =
    | UndoInsert(row: Id)
    | UndoDelete(row: Id)
    | UndoUpdate(row: Id, cell: nat, oldContents: Cell)

  type Log<Id> = seq<Undo<Id>>

  /** The row list, in order, and what every row that was ever made holds now. */
  datatype Rows<Id> = Rows(ids: seq<Id>, cells: map<Id, seq<Cell>>)

  /** `rowSet.remove(row)`: the first occurrence, by identity; nothing when there is none. */
  function RemoveFirst<Id(==)>(s: seq<Id>, x: Id): (r: seq<Id>)
    ensures multiset(r) == multiset(s) - multiset{x}
  {
    if s == [] then []
    else if s[0] == x then assert s == [x] + s[1..]; s[1..]
    else assert s == [s[0]] + s[1..]; [s[0]] + RemoveFirst(s[1..], x)
  }

  /** The contents of the rows in the list, with repetitions. */
  function Contents<Id(==)>(ids: seq<Id>, cells: map<Id, seq<Cell>>): multiset<seq<Cell>>
    requires forall x :: x in ids ==> x in cells
  {
    if ids == [] then multiset{} else multiset{cells[ids[0]]} + Contents(ids[1..], cells)
  }

  /** An undo entry names a row that exists, and a cell that it has. */
  predicate Names<Id(==)>(u: Undo<Id>, cells: map<Id, seq<Cell>>) {
    u.row in cells && (u.UndoUpdate? ==> u.cell < |cells[u.row]|)
  }

  predicate WfRows<Id(==)>(st: Rows<Id>) {
    forall x :: x in st.ids ==> x in st.cells
  }

  predicate WfLog<Id(==)>(st: Rows<Id>, log: Log<Id>) {
    forall u :: u in log ==> Names(u, st.cells)
  }

  function Execute<Id(==)>(u: Undo<Id>, st: Rows<Id>): (r: Rows<Id>)
    requires WfRows(st) && Names(u, st.cells)
    ensures WfRows(r) && r.cells.Keys == st.cells.Keys
    ensures forall x :: x in st.cells ==> |r.cells[x]| == |st.cells[x]|
  {
    match u
    case UndoInsert(row) =>
      RemoveFirstIn(st.ids, row);
      st.(ids := RemoveFirst(st.ids, row))
    case UndoDelete(row) => st.(ids := st.ids + [row])
    case UndoUpdate(row, cell, was) => st.(cells := st.cells[row := st.cells[row][cell := was]])
  }

  lemma {:induction false} RemoveFirstIn<Id>(s: seq<Id>, x: Id)
    ensures forall y :: y in RemoveFirst(s, x) ==> y in s
  {
    if s != [] && s[0] != x {
      RemoveFirstIn(s[1..], x);
    }
  }

  /** `while (!log.isEmpty()) log.removeLast().execute()` */
  function UndoAll<Id(==)>(log: Log<Id>, st: Rows<Id>): (r: Rows<Id>)
    requires WfRows(st) && WfLog(st, log)
    ensures WfRows(r) && r.cells.Keys == st.cells.Keys
    ensures forall x :: x in st.cells ==> |r.cells[x]| == |st.cells[x]|
    decreases |log|
  {
    if log == [] then st
    else
      var n := |log| - 1;
      var st1 := Execute(log[n], st);
      PrefixNamed(log, n, st, st1);
      UndoAll(log[..n], st1)
  }

  /** Undoing an entry leaves the rows and their widths as they are, so the other entries still
      name what they named. */
  lemma PrefixNamed<Id>(log: Log<Id>, n: nat, st: Rows<Id>, st1: Rows<Id>)
    requires n <= |log| && WfLog(st, log)
    requires st1.cells.Keys == st.cells.Keys
    requires forall x :: x in st.cells ==> |st1.cells[x]| == |st.cells[x]|
    ensures WfLog(st1, log) && WfLog(st1, log[..n])
  {
    forall u | u in log
      ensures Names(u, st1.cells)
    {
      assert Names(u, st.cells);
    }
    forall u | u in log[..n]
      ensures u in log
    {
    }
  }

  lemma {:induction false} UndoAllAppend<Id>(a: Log<Id>, b: Log<Id>, st: Rows<Id>)
    requires WfRows(st) && WfLog(st, a) && WfLog(st, b)
    ensures WfLog(st, a + b) && WfLog(UndoAll(b, st), a)
    ensures UndoAll(a + b, st) == UndoAll(a, UndoAll(b, st))
    decreases |b|
  {
    if b == [] {
      assert a + b == a;
    } else {
      var n := |b| - 1;
      var st1 := Execute(b[n], st);
      assert (a + b)[..|a + b| - 1] == a + b[..n];
      PrefixNamed(b, n, st, st1);
      PrefixNamed(a, 0, st, st1);
      UndoAllAppend(a, b[..n], st1);
      assert WfLog(st, a + b);
    }
  }

  // ----- Rows up to order, and up to rows that nothing refers to.

  lemma {:induction false} ContentsAppend<Id>(a: seq<Id>, b: seq<Id>, cells: map<Id, seq<Cell>>)
    requires forall x :: x in a + b ==> x in cells
    ensures (forall x :: x in a ==> x in cells) && (forall x :: x in b ==> x in cells)
    ensures Contents(a + b, cells) == Contents(a, cells) + Contents(b, cells)
  {
    forall x | x in a || x in b
      ensures x in a + b
    {
    }
    if a == [] {
      assert a + b == b;
    } else {
      assert (a + b)[1..] == a[1..] + b;
      ContentsAppend(a[1..], b, cells);
    }
  }

  lemma ContentsFirst<Id>(s: seq<Id>, cells: map<Id, seq<Cell>>)
    requires s != [] && forall y :: y in s ==> y in cells
    ensures forall y :: y in s[1..] ==> y in cells
    ensures Contents(s, cells) == multiset{cells[s[0]]} + Contents(s[1..], cells)
    ensures multiset(s[1..]) == multiset(s) - multiset{s[0]}
  {
    assert s == [s[0]] + s[1..];
  }

  lemma {:induction false} ContentsRemove<Id>(s: seq<Id>, x: Id, cells: map<Id, seq<Cell>>)
    requires (forall y :: y in s ==> y in cells) && x in s
    ensures forall y :: y in RemoveFirst(s, x) ==> y in cells
    ensures Contents(s, cells) == Contents(RemoveFirst(s, x), cells) + multiset{cells[x]}
  {
    RemoveFirstIn(s, x);
    ContentsFirst(s, cells);
    if s[0] != x {
      ContentsRemove(s[1..], x, cells);
      var r := RemoveFirst(s, x);
      assert r[0] == s[0] && r[1..] == RemoveFirst(s[1..], x);
      assert Contents(r, cells) == multiset{cells[s[0]]} + Contents(RemoveFirst(s[1..], x), cells);
    }
  }

  lemma {:induction false} RemoveAbsent<Id>(s: seq<Id>, x: Id)
    requires x !in s
    ensures RemoveFirst(s, x) == s
  {
    if s != [] {
      RemoveAbsent(s[1..], x);
    }
  }

  /** The same rows in any order, each with the same contents; `b` may know more rows. */
  ghost predicate Similar<Id>(a: Rows<Id>, b: Rows<Id>) {
    && multiset(a.ids) == multiset(b.ids)
    && forall x :: x in a.cells ==> x in b.cells && b.cells[x] == a.cells[x]
  }

  lemma {:induction false} SimilarContents<Id>(a: Rows<Id>, b: Rows<Id>)
    requires WfRows(a) && WfRows(b) && Similar(a, b)
    ensures Contents(a.ids, a.cells) == Contents(b.ids, b.cells)
    decreases |a.ids|
  {
    if a.ids == [] {
      assert |b.ids| == |multiset(b.ids)| == 0;
    } else {
      var x := a.ids[0];
      assert x in multiset(a.ids);
      ContentsFirst(a.ids, a.cells);
      ContentsRemove(b.ids, x, b.cells);
      SimilarContents(Rows(a.ids[1..], a.cells), Rows(RemoveFirst(b.ids, x), b.cells));
    }
  }

  lemma SimilarExecute<Id>(u: Undo<Id>, a: Rows<Id>, b: Rows<Id>)
    requires WfRows(a) && WfRows(b) && Similar(a, b) && Names(u, a.cells)
    ensures Names(u, b.cells) && Similar(Execute(u, a), Execute(u, b))
  {
  }

  lemma {:induction false} SimilarUndo<Id>(log: Log<Id>, a: Rows<Id>, b: Rows<Id>)
    requires WfRows(a) && WfRows(b) && Similar(a, b) && WfLog(a, log)
    ensures WfLog(b, log) && Similar(UndoAll(log, a), UndoAll(log, b))
    decreases |log|
  {
    if log != [] {
      var n := |log| - 1;
      forall u | u in log
        ensures Names(u, b.cells)
      {
        assert Names(u, a.cells);
      }
      SimilarExecute(log[n], a, b);
      PrefixNamed(log, n, a, Execute(log[n], a));
      PrefixNamed(log, n, b, Execute(log[n], b));
      SimilarUndo(log[..n], Execute(log[n], a), Execute(log[n], b));
    }
  }
}
