/** What a Selector sees and answers, and what a visit to a row then does (Selector.java, and the
    loops of ConcreteTable.java). */
module Selectors {
  import opened Options
  import opened UndoLog

  /** A ParseFailure (which travels in a ThrowableContainer), or any RuntimeException. */
  datatype Failure = ParseFailure | RuntimeFailure

  datatype Answer = Yes | No | Refuses(failure: Failure)

  /** The new value of a cell: a text, null, the very object the cell holds, or an exception. */
  datatype NewValue = Text(s: string) | Null | Itself | Fails(failure: Failure)

  /** Both functions see how many rows came before, and the contents of the current row. */
  datatype Selector = Selector(approve: (nat, seq<Cell>) -> Answer, value: (nat, seq<Cell>) -> NewValue)

  datatype Outcome = Done(count: nat) | Failed(failure: Failure)

  /** What a visit to one row leads to. */
  datatype Visit = Skip | Put(v: Cell) | Take | Stop(failure: Failure)

  /** A visit of an update: approval first, then the value, then the column, and a cell may not be
      replaced with the object it holds. */
  function UpdateVisit(where: Selector, column: Option<nat>, i: nat, row: seq<Cell>): Visit {
    match where.approve(i, row)
    case No => Skip
    case Refuses(f) => Stop(f)
    case Yes =>
      var nv := where.value(i, row);
      if nv.Fails? then Stop(nv.failure)
      else if column.None? || |row| <= column.value || nv.Itself? || (nv.Null? && row[column.value].None?) then
        Stop(RuntimeFailure)
      else Put(if nv.Null? then None else Some(nv.s))
  }

  function UpdateVisits(where: Selector, column: Option<nat>, rows: seq<seq<Cell>>): (r: seq<Visit>)
    ensures |r| == |rows| && forall i :: 0 <= i < |r| ==> r[i] == UpdateVisit(where, column, i, rows[i])
  {
    seq(|rows|, i requires 0 <= i < |rows| => UpdateVisit(where, column, i, rows[i]))
  }

  /** The row after one visit, when the visit reaches the stored row. */
  function PutIn(row: seq<Cell>, column: Option<nat>, visit: Visit): (r: seq<Cell>)
    ensures |r| == |row|
  {
    if visit.Put? && column.Some? && column.value < |row| then row[column.value := visit.v] else row
  }

  /** The contents after the first n visits of an update. */
  function Updated(copying: bool, rows: seq<seq<Cell>>, column: Option<nat>, visits: seq<Visit>, n: nat)
    : (r: seq<seq<Cell>>)
    requires n <= |visits| <= |rows|
    ensures |r| == |rows|
  {
    seq(|rows|, i requires 0 <= i < |rows| => if !copying && i < n then PutIn(rows[i], column, visits[i]) else rows[i])
  }

  /** The contents after one visit. */
  function PutAt(copying: bool, rows: seq<seq<Cell>>, column: Option<nat>, visit: Visit, i: nat): (r: seq<seq<Cell>>)
    requires i < |rows|
    ensures |r| == |rows|
  {
    if copying || !visit.Put? then rows else rows[i := PutIn(rows[i], column, visit)]
  }

  /** The loop of `update` from the i-th row on. */
  function UpdateFrom(copying: bool, where: Selector, column: Option<nat>, rows: seq<seq<Cell>>, i: nat, count: nat)
    : (Outcome, seq<seq<Cell>>)
    requires i <= |rows|
    decreases |rows| - i
  {
    if i == |rows| then (Done(count), rows)
    else
      var visit := UpdateVisit(where, column, i, rows[i]);
      if visit.Stop? then (Failed(visit.failure), rows)
      else
        UpdateFrom(copying, where, column, PutAt(copying, rows, column, visit, i), i + 1,
                   if visit.Put? then count + 1 else count)
  }

  /** The visits are those of an update of these rows. */
  ghost predicate VisitsOf(where: Selector, column: Option<nat>, rows: seq<seq<Cell>>, visits: seq<Visit>) {
    |visits| == |rows|
    && forall k {:trigger UpdateVisit(where, column, k, rows[k])} :: 0 <= k < |rows| ==>
      visits[k] == UpdateVisit(where, column, k, rows[k])
  }

  /** The loop of `update` after its first i visits. */
  lemma {:induction false} UpdateFromPrefix(copying: bool, where: Selector, column: Option<nat>, rows: seq<seq<Cell>>,
                                            visits: seq<Visit>, i: nat)
    requires VisitsOf(where, column, rows, visits) && i <= StopAt(visits)
    ensures UpdateFrom(copying, where, column, rows, 0, 0)
      == UpdateFrom(copying, where, column, Updated(copying, rows, column, visits, i), i, Hits(visits, i))
  {
    if i == 0 {
      assert Updated(copying, rows, column, visits, 0) == rows;
    } else {
      UpdateFromPrefix(copying, where, column, rows, visits, i - 1);
      NoStopBefore(visits, 0);
      UpdatedNext(copying, rows, column, visits, i - 1);
      UpdateFromNext(copying, where, column, Updated(copying, rows, column, visits, i - 1), i - 1, Hits(visits, i - 1),
        visits[i - 1]);
    }
  }

  lemma UpdateFromNext(copying: bool, where: Selector, column: Option<nat>, rows: seq<seq<Cell>>, i: nat, count: nat,
          visit: Visit)
    requires i < |rows| && visit == UpdateVisit(where, column, i, rows[i])
    ensures UpdateFrom(copying, where, column, rows, i, count) ==
      if visit.Stop? then (Failed(visit.failure), rows)
      else UpdateFrom(copying, where, column, PutAt(copying, rows, column, visit, i), i + 1,
                      count + (if visit.Put? then 1 else 0))
    ensures !visit.Take?
  {
  }

  lemma UpdatedNext(copying: bool, rows: seq<seq<Cell>>, column: Option<nat>, visits: seq<Visit>, i: nat)
    requires i < |visits| <= |rows|
    ensures Updated(copying, rows, column, visits, i)[i] == rows[i]
    ensures Updated(copying, rows, column, visits, i + 1)
      == PutAt(copying, Updated(copying, rows, column, visits, i), column, visits[i], i)
  {
  }

  /** Every row is judged by what it held before the update, and the rows before the first one
      that throws are changed. */
  lemma UpdateMeans(copying: bool, where: Selector, column: Option<nat>, rows: seq<seq<Cell>>)
    ensures var visits := UpdateVisits(where, column, rows);
            UpdateFrom(copying, where, column, rows, 0, 0)
              == (OutcomeOf(visits), Updated(copying, rows, column, visits, StopAt(visits)))
  {
    var visits := UpdateVisits(where, column, rows);
    var n := StopAt(visits);
    UpdateFromPrefix(copying, where, column, rows, visits, n);
    if n < |rows| {
      UpdatedNext(copying, rows, column, visits, n);
      UpdateFromNext(copying, where, column, Updated(copying, rows, column, visits, n), n, Hits(visits, n), visits[n]);
    }
  }

  function DeleteVisit(where: Selector, i: nat, row: seq<Cell>): Visit {
    match where.approve(i, row)
    case No => Skip
    case Refuses(f) => Stop(f)
    case Yes => Take
  }

  function DeleteVisits(where: Selector, rows: seq<seq<Cell>>): (r: seq<Visit>)
    ensures |r| == |rows| && forall i :: 0 <= i < |r| ==> r[i] == DeleteVisit(where, i, rows[i])
  {
    seq(|rows|, i requires 0 <= i < |rows| => DeleteVisit(where, i, rows[i]))
  }

  /** The first visit from here on that stops the loop, or the number of visits. */
  function StopFrom(visits: seq<Visit>, i: nat): (n: nat)
    requires i <= |visits|
    ensures i <= n <= |visits| && (n < |visits| ==> visits[n].Stop?)
    decreases |visits| - i
  {
    if i == |visits| || visits[i].Stop? then i else StopFrom(visits, i + 1)
  }

  function StopAt(visits: seq<Visit>): (n: nat)
    ensures n <= |visits| && (n < |visits| ==> visits[n].Stop?)
  {
    StopFrom(visits, 0)
  }

  lemma {:induction false} NoStopBefore(visits: seq<Visit>, i: nat)
    requires i <= |visits|
    ensures forall k :: i <= k < StopFrom(visits, i) ==> !visits[k].Stop?
    decreases |visits| - i
  {
    if i < |visits| && !visits[i].Stop? {
      NoStopBefore(visits, i + 1);
    }
  }

  /** How many rows the first n visits change or take away. */
  function Hits(visits: seq<Visit>, n: nat): nat
    requires n <= |visits|
  {
    if n == 0 then 0 else Hits(visits, n - 1) + (if visits[n - 1].Put? || visits[n - 1].Take? then 1 else 0)
  }

  function OutcomeOf(visits: seq<Visit>): Outcome {
    var n := StopAt(visits);
    if n < |visits| then Failed(visits[n].failure) else Done(Hits(visits, n))
  }

  /** The first n rows, without those that are taken away. */
  function Kept<T>(rows: seq<T>, visits: seq<Visit>, n: nat): (r: seq<T>)
    requires n <= |rows| && n <= |visits|
  {
    if n == 0 then [] else Kept(rows, visits, n - 1) + (if visits[n - 1].Take? then [] else [rows[n - 1]])
  }

  function RemoveAt<T>(s: seq<T>, at: nat): seq<T>
    requires at < |s|
  {
    s[..at] + s[at + 1..]
  }

  /** The loop of `delete`, from a position in the list; i rows have been visited. */
  function DeleteFrom<T>(where: Selector, list: seq<T>, seen: seq<seq<Cell>>, at: nat, i: nat, count: nat)
    : (r: (Outcome, seq<T>, seq<seq<Cell>>))
    requires at <= |list| == |seen|
    ensures |r.1| == |r.2|
    decreases |list| - at
  {
    if at == |list| then (Done(count), list, seen)
    else
      var visit := DeleteVisit(where, i, seen[at]);
      if visit.Stop? then (Failed(visit.failure), list, seen)
      else if visit.Take? then DeleteFrom(where, RemoveAt(list, at), RemoveAt(seen, at), at, i + 1, count + 1)
      else DeleteFrom(where, list, seen, at + 1, i + 1, count)
  }

  /** The loop of `delete` after its first i visits: the rows it kept, and the rows it has not seen. */
  lemma {:induction false} DeleteFromPrefix<T>(where: Selector, rows: seq<T>, seen: seq<seq<Cell>>, visits: seq<Visit>,
          i: nat)
    requires |rows| == |seen| == |visits| && i <= StopAt(visits)
    requires forall k {:trigger DeleteVisit(where, k, seen[k])} :: 0 <= k < |seen| ==>
      visits[k] == DeleteVisit(where, k, seen[k])
    ensures |Kept(rows, visits, i)| == |Kept(seen, visits, i)|
    ensures DeleteFrom(where, rows, seen, 0, 0, 0) ==
      DeleteFrom(where, Kept(rows, visits, i) + rows[i..], Kept(seen, visits, i) + seen[i..],
                 |Kept(rows, visits, i)|, i, Hits(visits, i))
  {
    if i == 0 {
      assert Kept(rows, visits, 0) + rows[0..] == rows && Kept(seen, visits, 0) + seen[0..] == seen;
    } else {
      DeleteFromPrefix(where, rows, seen, visits, i - 1);
      NoStopBefore(visits, 0);
      var kept, left := Kept(rows, visits, i - 1), Kept(seen, visits, i - 1);
      DeleteRest(where, kept, rows, left, seen, i - 1, Hits(visits, i - 1), visits[i - 1]);
      assert kept + [] == kept && left + [] == left;
    }
  }

  lemma DeleteFromNext<T>(where: Selector, list: seq<T>, seen: seq<seq<Cell>>, at: nat, i: nat, count: nat,
          visit: Visit)
    requires at < |list| == |seen| && visit == DeleteVisit(where, i, seen[at])
    ensures DeleteFrom(where, list, seen, at, i, count) ==
      if visit.Stop? then (Failed(visit.failure), list, seen)
      else if visit.Take? then DeleteFrom(where, RemoveAt(list, at), RemoveAt(seen, at), at, i + 1, count + 1)
      else DeleteFrom(where, list, seen, at + 1, i + 1, count)
    ensures !visit.Put?
  {
  }

  /** One visit, with the rows that were kept and the rows that are left apart. */
  lemma DeleteRest<T>(where: Selector, kept: seq<T>, rows: seq<T>, left: seq<seq<Cell>>, seen: seq<seq<Cell>>,
                      i: nat, count: nat, visit: Visit)
    requires |kept| == |left| && i < |rows| == |seen| && visit == DeleteVisit(where, i, seen[i])
    ensures DeleteFrom(where, kept + rows[i..], left + seen[i..], |kept|, i, count) ==
      if visit.Stop? then (Failed(visit.failure), kept + rows[i..], left + seen[i..])
      else if visit.Take? then DeleteFrom(where, kept + rows[i + 1..], left + seen[i + 1..], |kept|, i + 1, count + 1)
      else
        DeleteFrom(where, (kept + [rows[i]]) + rows[i + 1..], (left + [seen[i]]) + seen[i + 1..],
                   |kept| + 1, i + 1, count)
    ensures !visit.Put?
  {
    RestNext(kept, rows, i);
    RestNext(left, seen, i);
    DeleteFromNext(where, kept + rows[i..], left + seen[i..], |kept|, i, count, visit);
  }

  /** Taking the first of the rest out, or keeping it. */
  lemma RestNext<T>(kept: seq<T>, rows: seq<T>, i: nat)
    requires i < |rows|
    ensures (kept + rows[i..])[|kept|] == rows[i]
    ensures RemoveAt(kept + rows[i..], |kept|) == kept + rows[i + 1..]
    ensures kept + rows[i..] == (kept + [rows[i]]) + rows[i + 1..]
  {
    assert rows[i..] == [rows[i]] + rows[i + 1..];
  }

  /** Walking down the list and taking rows out judges every row by what it holds, once, and leaves
      the others in their order. */
  lemma DeleteMeans<T>(where: Selector, rows: seq<T>, seen: seq<seq<Cell>>)
    requires |rows| == |seen|
    ensures var visits := DeleteVisits(where, seen);
            var n := StopAt(visits);
            DeleteFrom(where, rows, seen, 0, 0, 0)
              == (OutcomeOf(visits), Kept(rows, visits, n) + rows[n..], Kept(seen, visits, n) + seen[n..])
  {
    var visits := DeleteVisits(where, seen);
    var n := StopAt(visits);
    DeleteFromPrefix(where, rows, seen, visits, n);
    var kept, left := Kept(rows, visits, n), Kept(seen, visits, n);
    if n < |rows| {
      DeleteRest(where, kept, rows, left, seen, n, Hits(visits, n), visits[n]);
    } else {
      assert rows[n..] == [] && seen[n..] == [];
    }
  }
}
