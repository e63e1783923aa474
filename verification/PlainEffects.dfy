/** What an update, a delete and an insert for some columns do to the rows, by the answers of the selector alone. */
module PlainEffects {
  import opened Options
  import opened UndoLog
  import opened Selectors

  /** The first column of this name, and the cell of the row in it. */
  predicate IsCell(names: seq<string>, column: string, row: seq<Cell>, k: nat) {
    k < |names| && k < |row| && names[k] == column && column !in names[..k]
  }

  /** A visit throws: the approval, the new value, or the replacement, for a column that is not there, for
      the object that the cell holds, or for null in the place of null. */
  ghost predicate UpdateThrows(where: Selector, names: seq<string>, column: string, i: nat, row: seq<Cell>,
                               failure: Failure) {
    || where.approve(i, row) == Refuses(failure)
    || (where.approve(i, row) == Yes &&
        (|| where.value(i, row) == Fails(failure)
         || (failure == RuntimeFailure && !where.value(i, row).Fails? &&
             (|| where.value(i, row) == Itself
              || (forall k: nat :: !IsCell(names, column, row, k))
              || (where.value(i, row) == Null && exists k: nat :: IsCell(names, column, row, k) && row[k] == None)))))
  }

  /** The first row at which an update throws, and what. */
  ghost predicate UpdateStopsAt(where: Selector, names: seq<string>, column: string, rows: seq<seq<Cell>>, n: nat,
                                failure: Failure) {
    && n < |rows| && UpdateThrows(where, names, column, n, rows[n], failure)
    && forall i, f :: 0 <= i < n ==> !UpdateThrows(where, names, column, i, rows[i], f)
  }

  /** The first row that the selector refuses. */
  ghost predicate DeleteStopsAt(where: Selector, rows: seq<seq<Cell>>, n: nat, failure: Failure) {
    && n < |rows| && where.approve(n, rows[n]) == Refuses(failure)
    && forall i :: 0 <= i < n ==> !where.approve(i, rows[i]).Refuses?
  }

  /** Those of the first n items whose rows get this answer, in order. */
  function Those<T>(where: Selector, rows: seq<seq<Cell>>, items: seq<T>, n: nat, answer: Answer): seq<T>
    requires n <= |rows| == |items|
  {
    if n == 0 then []
    else
      Those(where, rows, items, n - 1, answer)
      + (if where.approve(n - 1, rows[n - 1]) == answer then [items[n - 1]] else [])
  }

  /** The row with a new value in the cell of the column. */
  ghost predicate IsReplaced(names: seq<string>, column: string, row: seq<Cell>, v: NewValue, r: seq<Cell>) {
    && |r| == |row|
    && forall k :: 0 <= k < |row| ==>
         r[k] == if !IsCell(names, column, row, k) then row[k] else if v.Text? then Some(v.s) else None
  }

  lemma UpdateStopsOnce(where: Selector, names: seq<string>, column: string, rows: seq<seq<Cell>>, n: nat, f: Failure,
                        m: nat, g: Failure)
    requires UpdateStopsAt(where, names, column, rows, n, f) && UpdateStopsAt(where, names, column, rows, m, g)
    ensures n == m && f == g
  {
  }

  /** An update of all rows before the n-th: with the stored rows in the cursor each approved one has the new
      value, with copies none has.  It has counted the approved ones, or the n-th row threw. */
  ghost predicate UpdateDoes(copying: bool, where: Selector, names: seq<string>, column: string,
                             rows: seq<seq<Cell>>, n: nat, result: Outcome, after: seq<seq<Cell>>) {
    && n <= |rows| == |after|
    && (if n < |rows| then result.Failed? && UpdateStopsAt(where, names, column, rows, n, result.failure)
        else result == Done(|Those(where, rows, rows, n, Yes)|)
             && forall i, f :: 0 <= i < n ==> !UpdateThrows(where, names, column, i, rows[i], f))
    && forall i :: 0 <= i < |rows| ==>
         if !copying && i < n && where.approve(i, rows[i]) == Yes
         then IsReplaced(names, column, rows[i], where.value(i, rows[i]), after[i])
         else after[i] == rows[i]
  }

  /** A delete of all rows before the n-th: those it does not approve are left, in order, and all from the n-th
      on.  It has counted the approved ones, or the n-th row was refused. */
  ghost predicate DeleteDoes<T>(where: Selector, rows: seq<seq<Cell>>, items: seq<T>, n: nat, result: Outcome,
                                after: seq<T>) {
    && n <= |rows| == |items|
    && (if n < |rows| then result.Failed? && DeleteStopsAt(where, rows, n, result.failure)
        else result == Done(|Those(where, rows, items, n, Yes)|)
             && forall i :: 0 <= i < n ==> !where.approve(i, rows[i]).Refuses?)
    && after == Those(where, rows, items, n, No) + items[n..]
  }

  lemma {:induction false} KeptAreThose<T>(where: Selector, rows: seq<seq<Cell>>, items: seq<T>, n: nat)
    requires |rows| == |items| && n <= StopAt(DeleteVisits(where, rows))
    ensures Kept(items, DeleteVisits(where, rows), n) == Those(where, rows, items, n, No)
    ensures Hits(DeleteVisits(where, rows), n) == |Those(where, rows, items, n, Yes)|
  {
    if n > 0 {
      KeptAreThose(where, rows, items, n - 1);
      NoStopBefore(DeleteVisits(where, rows), 0);
      assert DeleteVisits(where, rows)[n - 1] == DeleteVisit(where, n - 1, rows[n - 1]);
    }
  }

  /** What the walk down the list leaves. */
  lemma DeletePlainly<T>(where: Selector, items: seq<T>, rows: seq<seq<Cell>>) returns (n: nat)
    requires |rows| == |items|
    ensures var (result, left, seen) := DeleteFrom(where, items, rows, 0, 0, 0);
            DeleteDoes(where, rows, items, n, result, left) && DeleteDoes(where, rows, rows, n, result, seen)
  {
    var visits := DeleteVisits(where, rows);
    n := StopAt(visits);
    DeleteMeans(where, items, rows);
    KeptAreThose(where, rows, items, n);
    KeptAreThose(where, rows, rows, n);
    NoStopBefore(visits, 0);
    forall i | 0 <= i < n
      ensures !where.approve(i, rows[i]).Refuses?
    {
      assert visits[i] == DeleteVisit(where, i, rows[i]);
    }
  }

  /** The column is the first one of its name, if any. */
  ghost predicate IsIndex(names: seq<string>, name: string, index: Option<nat>) {
    match index
    case None => name !in names
    case Some(k) => k < |names| && names[k] == name && name !in names[..k]
  }

  lemma CellIs(names: seq<string>, column: string, row: seq<Cell>, index: Option<nat>)
    requires IsIndex(names, column, index)
    ensures forall k: nat :: IsCell(names, column, row, k) <==> index == Some(k) && k < |row|
  {
    forall k: nat | IsCell(names, column, row, k)
      ensures index == Some(k)
    {
      assert names[k] in names;
    }
  }

  lemma VisitThrows(where: Selector, names: seq<string>, column: string, index: Option<nat>, i: nat, row: seq<Cell>)
    requires IsIndex(names, column, index)
    ensures forall f :: UpdateThrows(where, names, column, i, row, f) <==> UpdateVisit(where, index, i, row) == Stop(f)
  {
    CellIs(names, column, row, index);
    if index.Some? && index.value < |row| {
      assert IsCell(names, column, row, index.value);
    }
  }

  lemma {:induction false} HitsAreThose(where: Selector, index: Option<nat>, rows: seq<seq<Cell>>, n: nat)
    requires n <= StopAt(UpdateVisits(where, index, rows))
    ensures Hits(UpdateVisits(where, index, rows), n) == |Those(where, rows, rows, n, Yes)|
  {
    if n > 0 {
      HitsAreThose(where, index, rows, n - 1);
      NoStopBefore(UpdateVisits(where, index, rows), 0);
      assert UpdateVisits(where, index, rows)[n - 1] == UpdateVisit(where, index, n - 1, rows[n - 1]);
    }
  }

  lemma VisitReplaces(where: Selector, names: seq<string>, column: string, index: Option<nat>, i: nat,
                      row: seq<Cell>)
    requires IsIndex(names, column, index) && !UpdateVisit(where, index, i, row).Stop?
    ensures var r := PutIn(row, index, UpdateVisit(where, index, i, row));
            if where.approve(i, row) == Yes then IsReplaced(names, column, row, where.value(i, row), r) else r == row
  {
    CellIs(names, column, row, index);
  }

  /** What the loop over the rows does. */
  lemma UpdatePlainly(copying: bool, where: Selector, names: seq<string>, column: string, index: Option<nat>,
                      rows: seq<seq<Cell>>)
      returns (n: nat)
    requires IsIndex(names, column, index)
    ensures var (result, after) := UpdateFrom(copying, where, index, rows, 0, 0);
            UpdateDoes(copying, where, names, column, rows, n, result, after)
  {
    hide IsIndex, IsReplaced, UpdateThrows;
    var visits := UpdateVisits(where, index, rows);
    n := StopAt(visits);
    UpdateMeans(copying, where, index, rows);
    HitsAreThose(where, index, rows, n);
    NoStopBefore(visits, 0);
    forall i | 0 <= i < |rows|
      ensures forall f :: UpdateThrows(where, names, column, i, rows[i], f) <==> visits[i] == Stop(f)
      ensures i < n ==>
                var r := PutIn(rows[i], index, visits[i]);
                if where.approve(i, rows[i]) == Yes
                then IsReplaced(names, column, rows[i], where.value(i, rows[i]), r) else r == rows[i]
    {
      assert visits[i] == UpdateVisit(where, index, i, rows[i]);
      VisitThrows(where, names, column, index, i, rows[i]);
      if i < n {
        VisitReplaces(where, names, column, index, i, rows[i]);
      }
    }
  }

  /** The values go to the columns of their names, the last one that is listed for a column to it; a column
      for which none is listed, or that comes after another of its name, is null. */
  ghost predicate SpreadsTo(names: seq<string>, columns: seq<string>, values: seq<Cell>, row: seq<Cell>)
    requires |columns| == |values|
  {
    && |row| == |names|
    && (forall c, k :: 0 <= c < |names| && 0 <= k < |columns| && columns[k] == names[c] ==>
          (names[c] !in names[..c] && names[c] !in columns[k + 1..] ==> row[c] == values[k]))
    && (forall c :: 0 <= c < |names| && (names[c] !in columns || names[c] in names[..c]) ==> row[c] == None)
  }
}
