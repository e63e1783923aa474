/** Rollback when the cursor copies the row it advances to, as `Results.advance` does.  Deleting a
    row then logs the copy, and the row a transaction inserted and deleted is not found again. */
module CopiedRowRollback {
  import opened UndoLog
  import opened TableModel
  import opened StackFacts

  ghost predicate NoRepeats<Id>(ids: seq<Id>) {
    forall x {:trigger multiset(ids)[x]} :: x in ids ==> multiset(ids)[x] <= 1
  }

  /** Every entry names a row of its own, and only an inserted row can be in the list. */
  ghost predicate Tidy<Id>(ids: seq<Id>, log: Log<Id>) {
    && NoRepeats(ids)
    && (forall i, j :: 0 <= i < j < |log| ==> log[i].row != log[j].row)
    && (forall i :: 0 <= i < |log| && !log[i].UndoInsert? ==> log[i].row !in ids)
  }

  lemma {:induction false} ContentsFrame<Id>(ids: seq<Id>, a: map<Id, seq<Cell>>, b: map<Id, seq<Cell>>)
    requires forall x :: x in ids ==> x in a && x in b && a[x] == b[x]
    ensures Contents(ids, a) == Contents(ids, b)
  {
    if ids != [] {
      ContentsFrame(ids[1..], a, b);
    }
  }

  lemma {:induction false} TallyFrame<Id>(log: Log<Id>, k1: Kind<Id>, k2: Kind<Id>, a: map<Id, seq<Cell>>,
          b: map<Id, seq<Cell>>)
    requires forall u :: u in log ==> u.row in a && u.row in b && Counts(u, k1) == Counts(u, k2)
    requires forall u :: u in log && Counts(u, k1) ==> a[u.row] == b[u.row]
    ensures Tally(log, k1, a) == Tally(log, k2, b)
    decreases |log|
  {
    if log != [] {
      var n := |log| - 1;
      assert log[n] in log;
      forall u | u in log[..n]
        ensures u in log
      {
      }
      TallyFrame(log[..n], k1, k2, a, b);
    }
  }

  lemma {:induction false} TallyAppend<Id>(a: Log<Id>, b: Log<Id>, kind: Kind<Id>, cells: map<Id, seq<Cell>>)
    requires (forall u :: u in a ==> u.row in cells) && (forall u :: u in b ==> u.row in cells)
    ensures forall u :: u in a + b ==> u.row in cells
    ensures Tally(a + b, kind, cells) == Tally(a, kind, cells) + Tally(b, kind, cells)
    decreases |b|
  {
    if b == [] {
      assert a + b == a;
    } else {
      var n := |b| - 1;
      assert (a + b)[..|a + b| - 1] == a + b[..n];
      forall u | u in b[..n]
        ensures u in b
      {
      }
      TallyAppend(a, b[..n], kind, cells);
      assert (a + b)[|a + b| - 1] == b[n];
      var last := if Counts(b[n], kind) then multiset{cells[b[n].row]} else multiset{};
      assert Tally(a + b, kind, cells) == Tally(a + b[..n], kind, cells) + last;
      assert Tally(b, kind, cells) == Tally(b[..n], kind, cells) + last;
    }
  }

  /** What a log has inserted is still there or is missing. */
  lemma {:induction false} TallySplit<Id>(log: Log<Id>, ids: seq<Id>, cells: map<Id, seq<Cell>>)
    requires forall u :: u in log ==> u.row in cells
    ensures Tally(log, Inserted, cells) == Tally(log, Present(ids), cells) + Tally(log, Missing(ids), cells)
    decreases |log|
  {
    if log != [] {
      var n := |log| - 1;
      forall u | u in log[..n]
        ensures u in log
      {
      }
      TallySplit(log[..n], ids, cells);
    }
  }

  lemma {:induction false} TallyEmpty<Id>(log: Log<Id>, kind: Kind<Id>, cells: map<Id, seq<Cell>>)
    requires forall u :: u in log ==> u.row in cells
    ensures Tally(log, kind, cells) == multiset{} <==> forall u :: u in log ==> !Counts(u, kind)
    decreases |log|
  {
    if log != [] {
      var n := |log| - 1;
      assert log == log[..n] + [log[n]];
      forall u | u in log[..n]
        ensures u in log
      {
      }
      TallyEmpty(log[..n], kind, cells);
      if Counts(log[n], kind) {
        assert cells[log[n].row] in Tally(log, kind, cells);
        assert log[n] in log;
      }
    }
  }

  lemma RemoveOnly<Id>(s: seq<Id>, x: Id)
    requires NoRepeats(s)
    ensures NoRepeats(RemoveFirst(s, x))
    ensures forall y :: y in RemoveFirst(s, x) <==> y in s && y != x
  {
    forall y
      ensures y in RemoveFirst(s, x) <==> y in s && y != x
    {
      assert y in RemoveFirst(s, x) <==> y in multiset(RemoveFirst(s, x));
      assert y in s <==> y in multiset(s);
    }
  }

  /** Executing one entry, as far as the rows in the list are concerned. */
  lemma ExecuteOne<Id>(u: Undo<Id>, st: Rows<Id>)
    requires WfRows(st) && Names(u, st.cells) && NoRepeats(st.ids) && (!u.UndoInsert? ==> u.row !in st.ids)
    ensures var r := Execute(u, st);
            && NoRepeats(r.ids)
            && (forall x :: x != u.row ==> (x in r.ids <==> x in st.ids))
            && (u.row in r.ids <==> u.UndoDelete?)
            && (forall x :: x in st.cells && (x != u.row || !u.UndoUpdate?) ==> r.cells[x] == st.cells[x])
            && Contents(r.ids, r.cells)
                 + (if u.UndoInsert? && u.row in st.ids then multiset{st.cells[u.row]} else multiset{})
               == Contents(st.ids, st.cells) + (if u.UndoDelete? then multiset{st.cells[u.row]} else multiset{})
  {
    match u
    case UndoInsert(row) =>
      RemoveOnly(st.ids, row);
      if row in st.ids {
        ContentsRemove(st.ids, row, st.cells);
      } else {
        RemoveAbsent(st.ids, row);
      }
    case UndoDelete(row) =>
      ContentsAppend(st.ids, [row], st.cells);
      assert Contents([row], st.cells) == multiset{st.cells[row]} + Contents([], st.cells) by {
        assert [row][1..] == [];
      }
    case UndoUpdate(row, _, _) =>
      ContentsFrame(st.ids, st.cells, Execute(u, st).cells);
  }

  lemma TidyPrefix<Id>(ids: seq<Id>, log: Log<Id>, u: Undo<Id>, ids1: seq<Id>)
    requires log != [] && Tidy(ids, log) && u == log[|log| - 1] && NoRepeats(ids1)
    requires forall x :: x != u.row ==> (x in ids1 <==> x in ids)
    ensures Tidy(ids1, log[..|log| - 1])
    ensures forall v :: v in log[..|log| - 1] ==> v.row != u.row && v in log
  {
  }

  /** One entry undone, and what is left to undo. */
  lemma UndoLast<Id>(log: Log<Id>, st: Rows<Id>) returns (u: Undo<Id>, before: Log<Id>, st1: Rows<Id>)
    requires log != [] && WfRows(st) && WfLog(st, log) && Tidy(st.ids, log)
    ensures log == before + [u] && u == log[|log| - 1] && before == log[..|log| - 1]
    ensures Names(u, st.cells) && st1 == Execute(u, st) && NoRepeats(st1.ids)
    ensures Tidy(st1.ids, before) && WfLog(st1, before) && UndoAll(log, st) == UndoAll(before, st1)
    ensures !u.UndoInsert? ==> u.row !in st.ids
    ensures forall v :: v in before ==> v.row != u.row && v in log
  {
    var n := |log| - 1;
    u, before := log[n], log[..n];
    assert log == before + [u] && u in log;
    ExecuteOne(u, st);
    st1 := Execute(u, st);
    TidyPrefix(st.ids, log, u, st1.ids);
    PrefixNamed(log, n, st, st1);
  }

  /** Undoing a whole log: the deleted rows are back as copies, and the inserted rows are gone. */
  lemma {:induction false} UndoneRows<Id>(log: Log<Id>, st: Rows<Id>)
    requires WfRows(st) && WfLog(st, log) && Tidy(st.ids, log)
    ensures NoRepeats(UndoAll(log, st).ids)
    ensures forall x :: x in UndoAll(log, st).ids <==> (x in st.ids && UndoInsert(x) !in log) || UndoDelete(x) in log
    decreases |log|
  {
    if log != [] {
      var u, before, st1 := UndoLast(log, st);
      ExecuteOne(u, st);
      UndoneRows(before, st1);
      UndoneMembers(before, u, st.ids, st1.ids, UndoAll(before, st1).ids);
    }
  }

  /** Only the copies that were updated change. */
  lemma {:induction false} UndoneCells<Id>(log: Log<Id>, st: Rows<Id>, x: Id)
    requires WfRows(st) && WfLog(st, log) && Tidy(st.ids, log) && x in st.cells
    requires forall u :: u in log && u.UndoUpdate? ==> u.row != x
    ensures UndoAll(log, st).cells[x] == st.cells[x]
    decreases |log|
  {
    if log != [] {
      var u, before, st1 := UndoLast(log, st);
      ExecuteOne(u, st);
      UndoneCells(before, st1, x);
    }
  }

  lemma {:induction false} UndoneContents<Id>(log: Log<Id>, st: Rows<Id>)
    requires WfRows(st) && WfLog(st, log) && Tidy(st.ids, log)
    ensures forall u :: u in log ==> u.row in st.cells
    ensures var r := UndoAll(log, st);
            Contents(r.ids, r.cells) + Tally(log, Present(st.ids), st.cells)
              == Contents(st.ids, st.cells) + Tally(log, Deleted, st.cells)
    decreases |log|
  {
    LogNamed(st, log);
    if log != [] {
      var u, before, st1 := UndoLast(log, st);
      ExecuteOne(u, st);
      UndoneContents(before, st1);
      TallyFrame(before, Present(st1.ids), Present(st.ids), st1.cells, st.cells);
      TallyFrame(before, Deleted, Deleted, st1.cells, st.cells);
      var r := UndoAll(log, st);
      var none: Content := multiset{};
      var one := multiset{st.cells[u.row]};
      AddUp(Contents(r.ids, r.cells), Contents(st1.ids, st1.cells), Contents(st.ids, st.cells),
            Tally(before, Present(st.ids), st.cells), Tally(before, Deleted, st.cells),
            if u.UndoInsert? && u.row in st.ids then one else none,
            if u.UndoDelete? then one else none);
    }
  }

  lemma AddUp(r: Content, c1: Content, c: Content, p1: Content, d1: Content, x: Content, y: Content)
    requires r + p1 == c1 + d1 && c1 + x == c + y
    ensures r + (p1 + x) == c + (d1 + y)
  {
    assert r + (p1 + x) == (r + p1) + x;
    assert (c1 + d1) + x == d1 + (c1 + x);
    assert d1 + (c + y) == c + (d1 + y);
  }

  lemma LogNamed<Id>(st: Rows<Id>, log: Log<Id>)
    requires WfLog(st, log)
    ensures forall u :: u in log ==> u.row in st.cells
  {
    forall u | u in log
      ensures u.row in st.cells
    {
      assert Names(u, st.cells);
    }
  }

  /** Which rows are in the list after one more entry. */
  lemma UndoneMembers<Id>(before: Log<Id>, u: Undo<Id>, ids: seq<Id>, ids1: seq<Id>, result: seq<Id>)
    requires forall v :: v in before ==> v.row != u.row
    requires forall x :: x != u.row ==> (x in ids1 <==> x in ids)
    requires u.row in ids1 <==> u.UndoDelete?
    requires !u.UndoInsert? ==> u.row !in ids
    requires forall x :: x in result <==> (x in ids1 && UndoInsert(x) !in before) || UndoDelete(x) in before
    ensures forall x :: x in result <==> (x in ids && UndoInsert(x) !in before + [u]) || UndoDelete(x) in before + [u]
  {
    forall x
      ensures x in result <==> (x in ids && UndoInsert(x) !in before + [u]) || UndoDelete(x) in before + [u]
    {
      assert UndoInsert(x) in before + [u] <==> UndoInsert(x) in before || UndoInsert(x) == u;
      assert UndoDelete(x) in before + [u] <==> UndoDelete(x) in before || UndoDelete(x) == u;
    }
  }

  // ----- The balance of every open level.

  /** What is in the table and what the logs since the k-th `begin` have deleted make up what was
      there at the `begin`, what the logs have inserted, and what inner rollbacks left behind. */
  ghost predicate Balance<Id>(t: Table<Id>, k: nat)
    requires Wf(t) && k < |t.stack|
  {
    WfFlat(t.rows, t.stack[k..]);
    LogNamed(t.rows, Flat(t.stack[k..]));
    var log := Flat(t.stack[k..]);
    ContentOf(t) + Tally(log, Deleted, t.rows.cells)
      == t.marks[k].begun + Tally(log, Inserted, t.rows.cells) + t.marks[k].leak
  }

  ghost predicate Balanced<Id>(t: Table<Id>) {
    && Wf(t)
    && Tidy(t.rows.ids, Flat(t.stack))
    && forall k :: 0 <= k < |t.stack| ==> Balance(t, k)
  }

  // ----- Every operation keeps the balance.

  /** The contents change by the row that the entry names. */
  ghost predicate ChangedBy<Id>(st: Rows<Id>, st1: Rows<Id>, u: Undo<Id>)
    requires WfRows(st)
  {
    && WfRows(st1) && u.row !in st.cells && u.row in st1.cells
    && (forall x :: x in st.cells ==> x in st1.cells && st1.cells[x] == st.cells[x])
    && NoRepeats(st1.ids)
    && (forall x :: x in st1.ids ==> x in st.ids || (u.UndoInsert? && x == u.row))
    && Contents(st1.ids, st1.cells) + (if u.UndoDelete? then multiset{st1.cells[u.row]} else multiset{})
       == Contents(st.ids, st.cells) + (if u.UndoInsert? then multiset{st1.cells[u.row]} else multiset{})
  }

  /** An operation that logs names a row that did not exist before. */
  ghost predicate LoggedFresh<Id>(t: Table<Id>, r: Table<Id>, u: Undo<Id>)
    requires WfRows(t.rows)
  {
    Logged(t, r, u) && ChangedBy(t.rows, r.rows, u)
  }

  lemma FreshRow<Id>(t: Table<Id>, op: Op<Id>) returns (u: Undo<Id>)
    requires Wf(t) && Enabled(t, true, op) && (op.Insert? || op.Update? || op.Delete?)
    requires NoRepeats(t.rows.ids)
    ensures LoggedFresh(t, Step(t, true, op), u)
  {
    u := StepLogs(t, true, op);
    match op
    case Insert(id, values) => InsertRows(t.rows, id, values);
    case Update(at, cell, v, copy) => UpdateRows(t.rows, at, cell, v, copy, u);
    case Delete(at, copy) => DeleteRows(t.rows, at, copy);
  }

  lemma InsertRows<Id>(st: Rows<Id>, id: Id, values: seq<Cell>)
    requires WfRows(st) && NoRepeats(st.ids) && id !in st.cells
    ensures ChangedBy(st, Rows(st.ids + [id], st.cells[id := values]), UndoInsert(id))
  {
    AppendFresh(st.ids, id);
    InsertContents(st, id, values);
  }

  lemma AppendFresh<Id>(ids: seq<Id>, id: Id)
    requires NoRepeats(ids) && id !in ids
    ensures NoRepeats(ids + [id])
    ensures forall x :: x in ids + [id] <==> x in ids || x == id
  {
    assert multiset(ids + [id]) == multiset(ids) + multiset{id};
    assert multiset(ids)[id] == 0;
  }

  lemma InsertContents<Id>(st: Rows<Id>, id: Id, values: seq<Cell>)
    requires WfRows(st) && id !in st.cells
    ensures forall x :: x in st.ids + [id] ==> x in st.cells[id := values]
    ensures Contents(st.ids + [id], st.cells[id := values]) == Contents(st.ids, st.cells) + multiset{values}
  {
    var cells := st.cells[id := values];
    forall x | x in st.ids + [id]
      ensures x in cells
    {
    }
    ContentsAppend(st.ids, [id], cells);
    assert [id][1..] == [];
    ContentsFrame(st.ids, st.cells, cells);
  }

  lemma UpdateRows<Id>(st: Rows<Id>, at: nat, cell: nat, v: Cell, copy: Id, u: Undo<Id>)
    requires WfRows(st) && NoRepeats(st.ids) && copy !in st.cells
    requires at < |st.ids| && cell < |st.cells[st.ids[at]]| && u.UndoUpdate? && u.row == copy
    ensures var cells := st.cells[copy := st.cells[st.ids[at]]];
            ChangedBy(st, Rows(st.ids, cells[copy := cells[copy][cell := v]]), u)
  {
    var cells := st.cells[copy := st.cells[st.ids[at]]];
    ContentsFrame(st.ids, st.cells, cells[copy := cells[copy][cell := v]]);
  }

  lemma DeleteRows<Id>(st: Rows<Id>, at: nat, copy: Id)
    requires WfRows(st) && NoRepeats(st.ids) && copy !in st.cells && at < |st.ids|
    ensures var cells := st.cells[copy := st.cells[st.ids[at]]];
            ChangedBy(st, Rows(st.ids[..at] + st.ids[at + 1..], cells), UndoDelete(copy))
  {
    var cells := st.cells[copy := st.cells[st.ids[at]]];
    var rest := st.ids[..at] + st.ids[at + 1..];
    ContentsWithout(st.ids, at, st.cells);
    MultisetWithout(st.ids, at);
    ContentsFrame(rest, st.cells, cells);
    StillNoRepeats(rest, st.ids[at], st.ids);
  }

  lemma StillNoRepeats<Id>(rest: seq<Id>, x: Id, ids: seq<Id>)
    requires multiset(rest) + multiset{x} == multiset(ids) && NoRepeats(ids)
    ensures NoRepeats(rest)
  {
    forall y
      ensures multiset(rest)[y] <= 1
    {
      assert multiset(ids)[y] <= 1;
    }
  }

  lemma MultisetWithout<Id>(ids: seq<Id>, at: nat)
    requires at < |ids|
    ensures multiset(ids[..at] + ids[at + 1..]) + multiset{ids[at]} == multiset(ids)
    ensures forall x :: x in ids[..at] + ids[at + 1..] ==> x in ids
  {
    assert ids == ids[..at] + ([ids[at]] + ids[at + 1..]);
  }

  lemma ContentsWithout<Id>(ids: seq<Id>, at: nat, cells: map<Id, seq<Cell>>)
    requires at < |ids| && forall x :: x in ids ==> x in cells
    ensures var rest := ids[..at] + ids[at + 1..];
            && (forall x :: x in rest ==> x in cells)
            && Contents(rest, cells) + multiset{cells[ids[at]]} == Contents(ids, cells)
  {
    MultisetWithout(ids, at);
    var a, b := ids[..at], ids[at..];
    assert ids == a + b;
    ContentsAppend(a, b, cells);
    assert b[0] == ids[at] && b[1..] == ids[at + 1..];
    ContentsAppend(a, ids[at + 1..], cells);
  }

  lemma TidyLogged<Id>(ids: seq<Id>, ids1: seq<Id>, log: Log<Id>, u: Undo<Id>, cells: map<Id, seq<Cell>>)
    requires Tidy(ids, log) && NoRepeats(ids1)
    requires (forall v :: v in log ==> v.row in cells) && (forall x :: x in ids ==> x in cells) && u.row !in cells
    requires forall x :: x in ids1 ==> x in ids || (u.UndoInsert? && x == u.row)
    ensures Tidy(ids1, log + [u]) && Tidy(ids1, log)
  {
    var all := log + [u];
    forall i, j | 0 <= i < j < |all|
      ensures all[i].row != all[j].row
    {
      assert log[i] in log;
    }
    forall i | 0 <= i < |all| && !all[i].UndoInsert?
      ensures all[i].row !in ids1
    {
      if i < |log| {
        assert log[i] in log;
      }
    }
    assert forall i :: 0 <= i < |log| ==> log[i] == all[i];
  }

  lemma BalanceLogged<Id>(t: Table<Id>, r: Table<Id>, u: Undo<Id>, k: nat)
    requires Wf(t) && Wf(r) && k < |t.stack| && Balance(t, k) && LoggedFresh(t, r, u)
    ensures Balance(r, k)
  {
    var log := Flat(t.stack[k..]);
    var cells := r.rows.cells;
    RegisterFrom(t.stack, u, k);
    FlatRegister(t.stack[k..], u);
    WfFlat(t.rows, t.stack[k..]);
    LogNamed(t.rows, log);
    WfFlat(r.rows, r.stack[k..]);
    LogNamed(r.rows, log + [u]);
    TallyFrame(log, Deleted, Deleted, t.rows.cells, cells);
    TallyFrame(log, Inserted, Inserted, t.rows.cells, cells);
    var x := if u.UndoDelete? then multiset{cells[u.row]} else multiset{};
    var y := if u.UndoInsert? then multiset{cells[u.row]} else multiset{};
    TallyOne(log, u, Deleted, cells);
    TallyOne(log, u, Inserted, cells);
    Rebalance(ContentOf(t), ContentOf(r), Tally(log, Deleted, cells), x, t.marks[k].begun,
              Tally(log, Inserted, cells), y, t.marks[k].leak);
  }

  lemma TallyOne<Id>(log: Log<Id>, u: Undo<Id>, kind: Kind<Id>, cells: map<Id, seq<Cell>>)
    requires forall v :: v in log + [u] ==> v.row in cells
    ensures (forall v :: v in log ==> v.row in cells) && u.row in cells
    ensures Tally(log + [u], kind, cells)
         == Tally(log, kind, cells) + (if Counts(u, kind) then multiset{cells[u.row]} else multiset{})
  {
    forall v | v in log || v == u
      ensures v in log + [u]
    {
    }
    assert (log + [u])[..|log|] == log && (log + [u])[|log|] == u;
  }

  lemma Rebalance(c: Content, c1: Content, d: Content, x: Content, b: Content, i: Content, y: Content, leak: Content)
    requires c + d == b + i + leak && c1 + x == c + y
    ensures c1 + (d + x) == b + (i + y) + leak
  {
    assert c1 + (d + x) == (c1 + x) + d;
    assert (c + y) + d == (c + d) + y;
    assert (b + i + leak) + y == b + (i + y) + leak;
  }

  lemma LoggedBalanced<Id>(t: Table<Id>, op: Op<Id>)
    requires Balanced(t) && Enabled(t, true, op) && (op.Insert? || op.Update? || op.Delete?)
    ensures Balanced(Step(t, true, op))
  {
    var u := FreshRow(t, op);
    var r := Step(t, true, op);
    LoggedWf(t, r, u);
    WfFlat(t.rows, t.stack);
    LogNamed(t.rows, Flat(t.stack));
    TidyLogged(t.rows.ids, r.rows.ids, Flat(t.stack), u, t.rows.cells);
    if t.stack != [] {
      FlatRegister(t.stack, u);
    }
    forall k | 0 <= k < |r.stack|
      ensures Balance(r, k)
    {
      assert Balance(t, k);
      BalanceLogged(t, r, u, k);
    }
  }

  lemma BeginBalanced<Id>(t: Table<Id>)
    requires Balanced(t)
    ensures Balanced(Step(t, true, Begin))
  {
    var r := Step(t, true, Begin);
    StepWf(t, true, Begin);
    assert r.stack[..|t.stack|] == t.stack;
    assert Flat(r.stack) == Flat(t.stack) + [] == Flat(t.stack);
    forall k | 0 <= k < |r.stack|
      ensures Balance(r, k)
    {
      if k == |t.stack| {
        assert r.stack[k..] == [[]] && r.stack[k..][..0] == [];
        assert Flat(r.stack[k..]) == [];
      } else {
        assert Balance(t, k);
        assert r.stack[k..][..|r.stack[k..]| - 1] == t.stack[k..];
        assert Flat(r.stack[k..]) == Flat(t.stack[k..]) + [] == Flat(t.stack[k..]);
      }
    }
  }

  lemma CommitTopBalanced<Id>(t: Table<Id>)
    requires Balanced(t) && t.stack != []
    ensures Balanced(t.(stack := CommitTop(t.stack), marks := t.marks[..|t.marks| - 1]))
  {
    var r := t.(stack := CommitTop(t.stack), marks := t.marks[..|t.marks| - 1]);
    CommitTopNamed(t.rows, t.stack);
    if |t.stack| > 1 {
      FlatCommit(t.stack);
    }
    forall k | 0 <= k < |r.stack|
      ensures Balance(r, k)
    {
      assert Balance(t, k);
      CommitFrom(t.stack, k);
      FlatCommit(t.stack[k..]);
    }
  }

  lemma {:induction false} CommitBalanced<Id>(t: Table<Id>, all: bool)
    requires Balanced(t) && t.stack != []
    ensures Balanced(CommitLevels(t, all))
    decreases |t.stack|
  {
    CommitTopBalanced(t);
    var one := t.(stack := CommitTop(t.stack), marks := t.marks[..|t.marks| - 1]);
    if all && one.stack != [] {
      CommitBalanced(one, all);
    }
  }

  lemma Settle(c: Content, c1: Content, present: Content, missing: Content, d: Content, d1: Content,
               begun: Content, i: Content, i1: Content, leak: Content)
    requires c1 + present == c + d1
    requires c + (d + d1) == begun + (i + i1) + leak
    requires i1 == present + missing
    ensures c1 + d == begun + i + (leak + missing)
  {
    assert (c1 + d) + present == (c1 + present) + d;
    assert (c + d1) + d == c + (d + d1);
    assert begun + (i + (present + missing)) + leak == (begun + i + (leak + missing)) + present;
    Cancel(c1 + d, begun + i + (leak + missing), present);
  }

  lemma Cancel(a: Content, b: Content, c: Content)
    requires a + c == b + c
    ensures a == b
  {
    assert a == (a + c) - c;
    assert b == (b + c) - c;
  }

  /** The entries of one log, and those of the levels below it. */
  lemma BelowTop<Id>(t: Table<Id>, k: nat) returns (below: Log<Id>)
    requires Wf(t) && t.stack != [] && k <= |t.stack| - 1
    ensures below == Flat(t.stack[..|t.stack| - 1][k..])
    ensures Flat(t.stack[k..]) == below + t.stack[|t.stack| - 1]
    ensures WfLog(t.rows, below)
  {
    var n := |t.stack| - 1;
    assert t.stack[k..][..n - k] == t.stack[..n][k..];
    below := Flat(t.stack[..n][k..]);
    WfFlat(t.rows, t.stack[..n][k..]);
  }

  /** Entries of different levels name different rows. */
  lemma LevelsApart<Id>(ids: seq<Id>, below: Log<Id>, top: Log<Id>)
    requires Tidy(ids, below + top)
    ensures Tidy(ids, below) && Tidy(ids, top)
    ensures forall u, v :: u in below && v in top ==> u.row != v.row
  {
    var all := below + top;
    assert forall i :: 0 <= i < |below| ==> below[i] == all[i];
    assert forall j :: 0 <= j < |top| ==> top[j] == all[|below| + j];
  }

  lemma RollbackTidy<Id>(t: Table<Id>)
    requires Balanced(t) && t.stack != []
    ensures Tidy(RollbackTop(t).rows.ids, Flat(RollbackTop(t).stack))
  {
    var n := |t.stack| - 1;
    var top := t.stack[n];
    var below := BelowTop(t, 0);
    assert t.stack[0..] == t.stack && t.stack[..n][0..] == t.stack[..n];
    LevelsApart(t.rows.ids, below, top);
    UndoneRows(top, t.rows);
    var ids := RollbackTop(t).rows.ids;
    forall i | 0 <= i < |below| && !below[i].UndoInsert?
      ensures below[i].row !in ids
    {
      assert below[i] in below;
    }
  }

  /** The balance of a level, with its innermost log apart. */
  lemma BalanceSplit<Id>(t: Table<Id>, k: nat) returns (below: Log<Id>)
    requires Wf(t) && k < |t.stack| && Balance(t, k)
    ensures below == Flat(t.stack[..|t.stack| - 1][k..]) && WfLog(t.rows, below)
    ensures (forall u :: u in below ==> u.row in t.rows.cells)
         && (forall u :: u in t.stack[|t.stack| - 1] ==> u.row in t.rows.cells)
    ensures var top := t.stack[|t.stack| - 1];
            var cells := t.rows.cells;
            ContentOf(t) + (Tally(below, Deleted, cells) + Tally(top, Deleted, cells))
              == t.marks[k].begun + (Tally(below, Inserted, cells) + Tally(top, Inserted, cells)) + t.marks[k].leak
  {
    var top := t.stack[|t.stack| - 1];
    below := BelowTop(t, k);
    LogNamed(t.rows, below);
    LogNamed(t.rows, top);
    TallyAppend(below, top, Deleted, t.rows.cells);
    TallyAppend(below, top, Inserted, t.rows.cells);
  }

  /** The rows that the other levels name keep their contents. */
  lemma BelowUnchanged<Id>(t: Table<Id>, k: nat, below: Log<Id>)
    requires Balanced(t) && t.stack != [] && k < |t.stack|
    requires below == Flat(t.stack[..|t.stack| - 1][k..]) && WfLog(t.rows, below)
    ensures forall u :: u in below ==>
      u.row in t.rows.cells && u.row in RollbackTop(t).rows.cells
      && RollbackTop(t).rows.cells[u.row] == t.rows.cells[u.row]
  {
    var n := |t.stack| - 1;
    var top := t.stack[n];
    var all := BelowTop(t, 0);
    assert t.stack[0..] == t.stack && t.stack[..n][0..] == t.stack[..n];
    LevelsApart(t.rows.ids, all, top);
    FlatFrom(t.stack[..n], k);
    LogNamed(t.rows, below);
    forall u | u in below
      ensures RollbackTop(t).rows.cells[u.row] == t.rows.cells[u.row]
    {
      UndoneCells(top, t.rows, u.row);
    }
  }

  /** What the innermost rollback does to the contents. */
  lemma TopExchanged<Id>(t: Table<Id>)
    requires Balanced(t) && t.stack != []
    ensures forall u :: u in t.stack[|t.stack| - 1] ==> u.row in t.rows.cells
    ensures var top := t.stack[|t.stack| - 1];
            var cells := t.rows.cells;
            && ContentOf(RollbackTop(t)) + Tally(top, Present(t.rows.ids), cells) ==
              ContentOf(t) + Tally(top, Deleted, cells)
            && Tally(top, Inserted, cells) ==
              Tally(top, Present(t.rows.ids), cells) + Tally(top, Missing(t.rows.ids), cells)
  {
    var top := t.stack[|t.stack| - 1];
    TopTidy(t);
    UndoneContents(top, t.rows);
    TallySplit(top, t.rows.ids, t.rows.cells);
  }

  /** The sum of one level after the rollback. */
  lemma LevelSettles<Id>(t: Table<Id>, k: nat) returns (below: Log<Id>)
    requires Balanced(t) && t.stack != [] && k < |t.stack|
    ensures below == Flat(t.stack[..|t.stack| - 1][k..]) && WfLog(t.rows, below)
    ensures forall u :: u in t.stack[|t.stack| - 1] ==> u.row in t.rows.cells
    ensures forall u :: u in below ==> u.row in t.rows.cells
    ensures var top := t.stack[|t.stack| - 1];
            var cells := t.rows.cells;
            ContentOf(RollbackTop(t)) + Tally(below, Deleted, cells)
              == t.marks[k].begun + Tally(below, Inserted, cells)
                 + (t.marks[k].leak + Tally(top, Missing(t.rows.ids), cells))
  {
    var top := t.stack[|t.stack| - 1];
    var cells := t.rows.cells;
    assert Balance(t, k);
    below := BalanceSplit(t, k);
    TopExchanged(t);
    Settle(ContentOf(t), ContentOf(RollbackTop(t)), Tally(top, Present(t.rows.ids), cells),
      Tally(top, Missing(t.rows.ids), cells),
           Tally(below, Deleted, cells), Tally(top, Deleted, cells), t.marks[k].begun,
           Tally(below, Inserted, cells), Tally(top, Inserted, cells), t.marks[k].leak);
  }

  /** The same sum, over the contents as the rollback leaves them. */
  lemma LevelAfter<Id>(t: Table<Id>, k: nat) returns (below: Log<Id>)
    requires Balanced(t) && t.stack != [] && k < |t.stack| - 1
    ensures below == Flat(t.stack[..|t.stack| - 1][k..]) && WfLog(t.rows, below)
    ensures forall u :: u in t.stack[|t.stack| - 1] ==> u.row in t.rows.cells
    ensures forall u :: u in below ==> u.row in RollbackTop(t).rows.cells
    ensures var missing := Tally(t.stack[|t.stack| - 1], Missing(t.rows.ids), t.rows.cells);
            var cells := RollbackTop(t).rows.cells;
            ContentOf(RollbackTop(t)) + Tally(below, Deleted, cells)
              == t.marks[k].begun + Tally(below, Inserted, cells) + (t.marks[k].leak + missing)
  {
    below := LevelSettles(t, k);
    BelowUnchanged(t, k, below);
    TallyFrame(below, Deleted, Deleted, t.rows.cells, RollbackTop(t).rows.cells);
    TallyFrame(below, Inserted, Inserted, t.rows.cells, RollbackTop(t).rows.cells);
  }

  lemma RollbackBalance<Id>(t: Table<Id>, k: nat)
    requires Balanced(t) && t.stack != [] && k < |t.stack| - 1
    ensures Balance(RollbackTop(t), k)
  {
    var below := LevelAfter(t, k);
    RollbackMark(t, k);
    BalanceOf(RollbackTop(t), k, below, t.marks[k].begun,
              t.marks[k].leak + Tally(t.stack[|t.stack| - 1], Missing(t.rows.ids), t.rows.cells));
  }

  lemma RollbackMark<Id>(t: Table<Id>, k: nat)
    requires Wf(t) && t.stack != [] && k < |t.stack| - 1
    ensures var top := t.stack[|t.stack| - 1];
            && (forall u :: u in top ==> u.row in t.rows.cells)
            && RollbackTop(t).stack == t.stack[..|t.stack| - 1]
            && RollbackTop(t).marks[k]
                 == Mark(t.marks[k].begun, t.marks[k].leak + Tally(top, Missing(t.rows.ids), t.rows.cells))
  {
  }

  lemma BalanceOf<Id>(t: Table<Id>, k: nat, log: Log<Id>, begun: Content, leak: Content)
    requires Wf(t) && k < |t.stack| && log == Flat(t.stack[k..]) && t.marks[k] == Mark(begun, leak)
    requires forall u :: u in log ==> u.row in t.rows.cells
    requires ContentOf(t) + Tally(log, Deleted, t.rows.cells) == begun + Tally(log, Inserted, t.rows.cells) + leak
    ensures Balance(t, k)
  {
  }

  lemma {:induction false} FlatFrom<Id>(stack: seq<Log<Id>>, k: nat)
    requires k <= |stack|
    ensures forall u :: u in Flat(stack[k..]) ==> u in Flat(stack)
    decreases |stack|
  {
    var n := |stack| - 1;
    if k < |stack| {
      FlatFrom(stack[..n], k);
      assert stack[k..][..n - k] == stack[..n][k..];
      forall u | u in Flat(stack[k..])
        ensures u in Flat(stack)
      {
        assert u in Flat(stack[..n][k..]) || u in stack[n];
      }
    }
  }

  /** One level back, as the code does it: what was there at the `begin`, what inner rollbacks had
      left behind, and the rows this transaction inserted that are not in the table any more. */
  lemma RollbackTopExact<Id>(t: Table<Id>)
    requires Balanced(t) && t.stack != []
    ensures Balanced(RollbackTop(t))
    ensures var m := t.marks[|t.marks| - 1];
            ContentOf(RollbackTop(t))
              == m.begun + m.leak + Tally(t.stack[|t.stack| - 1], Missing(t.rows.ids), t.rows.cells)
  {
    var n := |t.stack| - 1;
    var top := t.stack[n];
    RollbackTidy(t);
    forall k | 0 <= k < n
      ensures Balance(RollbackTop(t), k)
    {
      RollbackBalance(t, k);
    }
    TopContent(t);
  }

  lemma TopContent<Id>(t: Table<Id>)
    requires Balanced(t) && t.stack != []
    ensures var m := t.marks[|t.marks| - 1];
            ContentOf(RollbackTop(t))
              == m.begun + m.leak + Tally(t.stack[|t.stack| - 1], Missing(t.rows.ids), t.rows.cells)
  {
    var n := |t.stack| - 1;
    var below := LevelSettles(t, n);
    assert t.stack[..n][n..] == [];
    assert below == [];
    var m := t.marks[n];
    var missing := Tally(t.stack[n], Missing(t.rows.ids), t.rows.cells);
    assert ContentOf(RollbackTop(t)) + multiset{} == ContentOf(RollbackTop(t));
    assert m.begun + multiset{} + (m.leak + missing) == m.begun + m.leak + missing;
  }

  lemma TopTidy<Id>(t: Table<Id>)
    requires Balanced(t) && t.stack != []
    ensures Tidy(t.rows.ids, t.stack[|t.stack| - 1])
  {
    var below := BelowTop(t, 0);
    assert t.stack[0..] == t.stack;
    LevelsApart(t.rows.ids, below, t.stack[|t.stack| - 1]);
  }

  ghost predicate AllThere<Id>(ids: seq<Id>, log: Log<Id>) {
    forall u :: u in log && u.UndoInsert? ==> u.row in ids
  }

  /** The rows this transaction inserted are all still in the table: what a caller can check. */
  ghost predicate InsertedStillThere<Id>(t: Table<Id>)
    requires t.stack != []
  {
    AllThere(t.rows.ids, t.stack[|t.stack| - 1])
  }

  lemma NoneMissing<Id>(ids: seq<Id>, log: Log<Id>, cells: map<Id, seq<Cell>>)
    requires forall u :: u in log ==> u.row in cells
    ensures Tally(log, Missing(ids), cells) == multiset{} <==> AllThere(ids, log)
  {
    TallyEmpty(log, Missing(ids), cells);
  }

  /** Rolling back the innermost transaction restores the table exactly when no row it inserted has
      been deleted since, and no inner rollback had left a row behind. */
  lemma RollbackRestoresIff<Id>(t: Table<Id>)
    requires Balanced(t) && t.stack != []
    ensures var m := t.marks[|t.marks| - 1];
            ContentOf(RollbackTop(t)) == m.begun <==> m.leak == multiset{} && InsertedStillThere(t)
  {
    var m := t.marks[|t.marks| - 1];
    var top := t.stack[|t.stack| - 1];
    var missing := Tally(top, Missing(t.rows.ids), t.rows.cells);
    RollbackTopExact(t);
    LogNamed(t.rows, top);
    NoneMissing(t.rows.ids, top, t.rows.cells);
    if m.begun + m.leak + missing == m.begun {
      assert |m.begun + m.leak + missing| == |m.begun| + |m.leak| + |missing|;
      assert |m.leak| == 0 && |missing| == 0;
    }
  }

  /** The rows inserted on any open level are all still in the table. */
  ghost predicate AllInsertedStillThere<Id>(t: Table<Id>) {
    AllThere(t.rows.ids, Flat(t.stack))
  }

  /** What was inserted on the outer levels is there after an inner rollback exactly when it was before. */
  lemma OuterStillThere<Id>(t: Table<Id>)
    requires Balanced(t) && t.stack != []
    ensures AllInsertedStillThere(t) <==> InsertedStillThere(t) && AllInsertedStillThere(RollbackTop(t))
  {
    var top := t.stack[|t.stack| - 1];
    var below := BelowTop(t, 0);
    assert t.stack[0..] == t.stack && t.stack[..|t.stack| - 1][0..] == t.stack[..|t.stack| - 1];
    LevelsApart(t.rows.ids, below, top);
    UndoneRows(top, t.rows);
    assert forall u :: u in Flat(t.stack) <==> u in below || u in top;
    assert forall u :: u in below ==> UndoInsert(u.row) !in top && UndoDelete(u.row) !in top;
  }

  lemma LeakAdds<Id>(t: Table<Id>)
    requires Wf(t) && |t.stack| >= 2
    ensures RollbackTop(t).marks[0].begun == t.marks[0].begun
    ensures RollbackTop(t).marks[0].leak == multiset{} <==> t.marks[0].leak == multiset{} && InsertedStillThere(t)
  {
    var top := t.stack[|t.stack| - 1];
    RollbackMark(t, 0);
    NoneMissing(t.rows.ids, top, t.rows.cells);
    assert InsertedStillThere(t) <==> AllThere(t.rows.ids, top);
    SumEmpty(t.marks[0].leak, Tally(top, Missing(t.rows.ids), t.rows.cells));
  }

  lemma SumEmpty(a: Content, b: Content)
    ensures a + b == multiset{} <==> a == multiset{} && b == multiset{}
  {
    assert |a + b| == |a| + |b|;
  }

  /** Rolling back all levels restores what was there at the outermost `begin` exactly when no row inserted
      on any level has been deleted since, and no rollback before had left a row behind. */
  lemma {:induction false} RollbackAllRestoresIff<Id>(t: Table<Id>)
    requires Balanced(t) && t.stack != []
    ensures var m := t.marks[0];
            ContentOf(RollbackLevels(t, true)) == m.begun <==> m.leak == multiset{} && AllInsertedStillThere(t)
    decreases |t.stack|
  {
    OuterStillThere(t);
    if |t.stack| == 1 {
      RollbackRestoresIff(t);
      assert RollbackTop(t).stack == [];
    } else {
      RollbackTopExact(t);
      LeakAdds(t);
      RollbackAllRestoresIff(RollbackTop(t));
    }
  }

  /** When a rollback of the innermost level, or of all levels, restores the table. */
  ghost predicate Restores<Id>(t: Table<Id>, all: bool)
    requires t.stack != [] && |t.marks| == |t.stack|
  {
    if all then t.marks[0].leak == multiset{} && AllInsertedStillThere(t)
    else t.marks[|t.marks| - 1].leak == multiset{} && InsertedStillThere(t)
  }

  lemma {:induction false} RollbackBalanced<Id>(t: Table<Id>, all: bool)
    requires Balanced(t) && t.stack != []
    ensures Balanced(RollbackLevels(t, all))
    decreases |t.stack|
  {
    RollbackTopExact(t);
    if all && RollbackTop(t).stack != [] {
      RollbackBalanced(RollbackTop(t), all);
    }
  }

  lemma StepBalanced<Id>(t: Table<Id>, op: Op<Id>)
    requires Balanced(t) && Enabled(t, true, op)
    ensures Balanced(Step(t, true, op))
  {
    match op {
      case Begin => BeginBalanced(t);
      case Commit(all) => CommitBalanced(t, all);
      case Rollback(all) => RollbackBalanced(t, all);
      case _ => LoggedBalanced(t, op);
    }
  }
}
