/** selectFromCartesianProduct and insertApprovedRows of ConcreteTable.java. */
module Joins {
  import opened Options
  import opened UndoLog
  import opened Selectors
  import opened ConcreteTables
  import opened Products

  /** The selector of a join sees the current rows of all tables. */
  type JoinSelector = Tuple -> Answer

  /** The cell that a column of the result gets: from the first table that has the column, or null. */
  function Lookup(tuple: Tuple, ts: seq<Source>, column: string): Cell
    requires Fits(tuple, ts)
  {
    if ts == [] then None
    else
      match IndexOf(ts[0].columns, column)
      case Some(i) => tuple[0][i]
      case None => Lookup(tuple[1..], ts[1..], column)
  }

  function Project(tuple: Tuple, ts: seq<Source>, columns: seq<string>): (r: seq<Cell>)
    requires Fits(tuple, ts)
    ensures |r| == |columns|
  {
    seq(|columns|, i requires 0 <= i < |columns| => Lookup(tuple, ts, columns[i]))
  }

  /** The k-th table is the first that has the column. */
  predicate FirstWith(ts: seq<Source>, k: nat, column: string)
    requires k < |ts|
  {
    column in ts[k].columns && forall j :: 0 <= j < k ==> column !in ts[j].columns
  }

  /** Which table a column is taken from. */
  lemma {:induction false} LookupMeans(tuple: Tuple, ts: seq<Source>, column: string)
    requires Fits(tuple, ts)
    ensures (forall k :: 0 <= k < |ts| ==> column !in ts[k].columns) ==> Lookup(tuple, ts, column) == None
    ensures forall k :: 0 <= k < |ts| && FirstWith(ts, k, column) ==>
      && IndexOf(ts[k].columns, column).Some?
      && Lookup(tuple, ts, column) == tuple[k][IndexOf(ts[k].columns, column).value]
    decreases |ts|
  {
    if ts != [] {
      if IndexOf(ts[0].columns, column).None? {
        LookupMeans(tuple[1..], ts[1..], column);
        assert forall k :: 1 <= k < |ts| ==> ts[1..][k - 1] == ts[k] && tuple[1..][k - 1] == tuple[k];
      }
      assert column in ts[0].columns ==> IndexOf(ts[0].columns, column).Some?;
    }
  }

  datatype Joined = Joined(rows: seq<seq<Cell>>, failure: Option<Failure>)

  /** The selector is asked about every tuple in order, until it throws. */
  function Select(where: JoinSelector, ts: seq<Source>, columns: seq<string>, tuples: seq<Tuple>): Joined
    requires AllFit(tuples, ts)
  {
    if tuples == [] then Joined([], None)
    else
      match where(tuples[0])
      case Refuses(f) => Joined([], Some(f))
      case No => Select(where, ts, columns, tuples[1..])
      case Yes =>
        var rest := Select(where, ts, columns, tuples[1..]);
        Joined([Project(tuples[0], ts, columns)] + rest.rows, rest.failure)
  }

  /** One part of the tuples, and then another. */
  function Then(a: Joined, b: Joined): Joined {
    if a.failure.Some? then a else Joined(a.rows + b.rows, b.failure)
  }

  lemma {:induction false} SelectAppend(where: JoinSelector, ts: seq<Source>, columns: seq<string>, a: seq<Tuple>,
          b: seq<Tuple>)
    requires AllFit(a, ts) && AllFit(b, ts)
    ensures AllFit(a + b, ts)
    ensures Select(where, ts, columns, a + b) == Then(Select(where, ts, columns, a), Select(where, ts, columns, b))
    decreases |a|
  {
    if a == [] {
      assert a + b == b;
      var s := Select(where, ts, columns, b);
      assert [] + s.rows == s.rows;
    } else {
      assert (a + b)[1..] == a[1..] + b && (a + b)[0] == a[0];
      SelectAppend(where, ts, columns, a[1..], b);
      var rest := Select(where, ts, columns, a[1..]);
      var more := Select(where, ts, columns, b);
      assert ([Project(a[0], ts, columns)] + rest.rows) + more.rows ==
        [Project(a[0], ts, columns)] + (rest.rows + more.rows);
    }
  }

  // ----- Which rows a join returns, when the selector never throws

  /** The places of the approved tuples. */
  function Approved(where: JoinSelector, tuples: seq<Tuple>): (r: seq<nat>)
    ensures forall k :: 0 <= k < |r| ==> r[k] < |tuples| && where(tuples[r[k]]) == Yes
  {
    if tuples == [] then []
    else
      var n := |tuples| - 1;
      Approved(where, tuples[..n]) + (if where(tuples[n]) == Yes then [n] else [])
  }

  /** The approved tuples, all of them and in order. */
  lemma {:induction false} ApprovedMeans(where: JoinSelector, tuples: seq<Tuple>)
    ensures var r := Approved(where, tuples);
            && (forall j, k :: 0 <= j < k < |r| ==> r[j] < r[k])
            && (forall i: nat :: i < |tuples| && where(tuples[i]) == Yes ==> i in r)
  {
    if tuples != [] {
      var n := |tuples| - 1;
      ApprovedMeans(where, tuples[..n]);
      forall i: nat | i < |tuples| && where(tuples[i]) == Yes
        ensures i in Approved(where, tuples)
      {
        if i < n {
          assert tuples[..n][i] == tuples[i];
        }
      }
    }
  }

  /** Without an exception, the rows of the join are the projections of the approved tuples. */
  lemma {:induction false} SelectMeans(where: JoinSelector, ts: seq<Source>, columns: seq<string>, tuples: seq<Tuple>)
    requires AllFit(tuples, ts)
    ensures var s := Select(where, ts, columns, tuples);
            var r := Approved(where, tuples);
            && (s.failure.None? <==> forall k :: 0 <= k < |tuples| ==> !where(tuples[k]).Refuses?)
            && (s.failure.None? ==>
                  |s.rows| == |r| && forall k :: 0 <= k < |r| ==> s.rows[k] == Project(tuples[r[k]], ts, columns))
    decreases |tuples|
  {
    if tuples != [] {
      var n := |tuples| - 1;
      var front, last := tuples[..n], [tuples[n]];
      assert tuples == front + last;
      SelectMeans(where, ts, columns, front);
      SelectAppend(where, ts, columns, front, last);
      assert last[1..] == [];
      assert forall k :: 0 <= k < n ==> tuples[k] == front[k];
    }
  }

  // ----- The recursion over the tables

  predicate PrefixFits(prefix: Tuple, ts: seq<Source>) {
    |prefix| <= |ts| && forall k :: 0 <= k < |prefix| ==> |prefix[k]| == |ts[k].columns|
  }

  lemma {:induction false} ExtendFits(prefix: Tuple, ts: seq<Source>)
    requires AllRegular(ts) && PrefixFits(prefix, ts)
    ensures AllFit(Extend(prefix, ts[|prefix|..]), ts)
    decreases |ts| - |prefix|, 0
  {
    if |prefix| < |ts| {
      var rest := ts[|prefix|..];
      assert rest[0] == ts[|prefix|] && rest[1..] == ts[|prefix| + 1..];
      RowsFit(prefix, rest[0].rows, ts);
    }
  }

  lemma {:induction false} RowsFit(prefix: Tuple, rows: seq<seq<Cell>>, ts: seq<Source>)
    requires AllRegular(ts) && PrefixFits(prefix, ts) && |prefix| < |ts|
    requires forall k :: 0 <= k < |rows| ==> |rows[k]| == |ts[|prefix|].columns|
    ensures AllFit(ExtendRows(prefix, rows, ts[|prefix| + 1..]), ts)
    decreases |ts| - |prefix| - 1, |rows| + 1
  {
    if rows != [] {
      ExtendFits(prefix + [rows[0]], ts);
      RowsFit(prefix, rows[1..], ts);
    }
  }

  /** What comes of the tuples that begin with these rows. */
  function SelectFrom(where: JoinSelector, ts: seq<Source>, columns: seq<string>, prefix: Tuple): Joined
    requires AllRegular(ts) && PrefixFits(prefix, ts)
  {
    ExtendFits(prefix, ts);
    Select(where, ts, columns, Extend(prefix, ts[|prefix|..]))
  }

  /** And of those that go on with some rows of the next table. */
  function SelectRows(where: JoinSelector, ts: seq<Source>, columns: seq<string>, prefix: Tuple,
          rows: seq<seq<Cell>>): Joined
    requires AllRegular(ts) && PrefixFits(prefix, ts) && |prefix| < |ts|
    requires forall k :: 0 <= k < |rows| ==> |rows[k]| == |ts[|prefix|].columns|
  {
    RowsFit(prefix, rows, ts);
    Select(where, ts, columns, ExtendRows(prefix, rows, ts[|prefix| + 1..]))
  }

  lemma SelectNext(where: JoinSelector, ts: seq<Source>, columns: seq<string>, prefix: Tuple, rows: seq<seq<Cell>>)
    requires AllRegular(ts) && PrefixFits(prefix, ts) && |prefix| < |ts|
    requires forall k :: 0 <= k < |rows| ==> |rows[k]| == |ts[|prefix|].columns|
    ensures rows == [] ==> SelectRows(where, ts, columns, prefix, rows) == Joined([], None)
    ensures rows != [] ==>
      SelectRows(where, ts, columns, prefix, rows)
        == Then(SelectFrom(where, ts, columns, prefix + [rows[0]]), SelectRows(where, ts, columns, prefix, rows[1..]))
  {
    if rows != [] {
      ExtendFits(prefix + [rows[0]], ts);
      RowsFit(prefix, rows[1..], ts);
      SelectAppend(where, ts, columns, Extend(prefix + [rows[0]], ts[|prefix| + 1..]),
                   ExtendRows(prefix, rows[1..], ts[|prefix| + 1..]));
    }
  }

  /** The next row, and the rows after it. */
  lemma RowByRow(where: JoinSelector, ts: seq<Source>, columns: seq<string>, prefix: Tuple, rows: seq<seq<Cell>>,
          i: nat, done: seq<seq<Cell>>)
    requires AllRegular(ts) && PrefixFits(prefix, ts) && |prefix| < |ts| && i < |rows|
    requires forall k :: 0 <= k < |rows| ==> |rows[k]| == |ts[|prefix|].columns|
    ensures PrefixFits(prefix + [rows[i]], ts)
    ensures var one := SelectFrom(where, ts, columns, prefix + [rows[i]]);
            var here := SelectRows(where, ts, columns, prefix, rows[i..]);
            var rest := SelectRows(where, ts, columns, prefix, rows[i + 1..]);
            if one.failure.Some? then done + one.rows == done + here.rows && one.failure == here.failure
            else (done + one.rows) + rest.rows == done + here.rows && rest.failure == here.failure
  {
    SelectNext(where, ts, columns, prefix, rows[i..]);
    assert rows[i..][1..] == rows[i + 1..];
  }

  lemma SelectOne(where: JoinSelector, ts: seq<Source>, columns: seq<string>, tuple: Tuple)
    requires Fits(tuple, ts)
    ensures Select(where, ts, columns, [tuple]) ==
      match where(tuple)
      case Refuses(f) => Joined([], Some(f))
      case No => Joined([], None)
      case Yes => Joined([Project(tuple, ts, columns)], None)
  {
    assert [tuple][1..] == [] && [tuple][0] == tuple;
    var rest := Select(where, ts, columns, [tuple][1..]);
    assert rest == Joined([], None);
  }

  lemma SelectLeaf(where: JoinSelector, ts: seq<Source>, columns: seq<string>, tuple: Tuple)
    requires AllRegular(ts) && Fits(tuple, ts)
    ensures SelectFrom(where, ts, columns, tuple) ==
      match where(tuple)
      case Refuses(f) => Joined([], Some(f))
      case No => Joined([], None)
      case Yes => Joined([Project(tuple, ts, columns)], None)
  {
    assert ts[|tuple|..] == [];
    assert Extend(tuple, ts[|tuple|..]) == [tuple];
    SelectOne(where, ts, columns, tuple);
  }

  /** The table that the join fills. */
  class ResultTable {
    const columnNames: seq<string>
    var rows: seq<seq<Cell>>

    constructor (columnNames: seq<string>)
      ensures this.columnNames == columnNames && rows == []
    {
      this.columnNames := columnNames;
      rows := [];
    }

    method Insert(row: seq<Cell>)
      requires |row| == |columnNames|
      modifies this
      ensures rows == old(rows) + [row]
    {
      rows := rows + [row];
    }
  }

  /** `insertApprovedRows` */
  method InsertApprovedRow(result: ResultTable, columns: seq<string>, ts: seq<Source>, envelope: array<seq<Cell>>)
    requires Fits(envelope[..], ts) && result.columnNames == columns
    modifies result
    ensures result.rows == old(result.rows) + [Project(envelope[..], ts, columns)]
  {
    var resultRow := new Cell[|columns|](_ => None);
    var i := 0;
    while i < |columns|
      invariant i <= |columns|
      invariant forall k :: 0 <= k < i ==> resultRow[k] == Lookup(envelope[..], ts, columns[k])
      invariant forall k :: i <= k < |columns| ==> resultRow[k] == None
      modifies resultRow
    {
      var table := 0;
      while table < |ts|
        invariant table <= |ts| && resultRow[i] == None
        invariant Lookup(envelope[..][table..], ts[table..], columns[i]) == Lookup(envelope[..], ts, columns[i])
      {
        assert envelope[..][table..][0] == envelope[table] && envelope[..][table..][1..] == envelope[..][table + 1..];
        assert ts[table..][0] == ts[table] && ts[table..][1..] == ts[table + 1..];
        var index := IndexOf(ts[table].columns, columns[i]);
        if index.Some? {
          resultRow[i] := envelope[table][index.value];
          break;
        }
        table := table + 1;
      }
      i := i + 1;
    }
    assert resultRow[..] == Project(envelope[..], ts, columns);
    result.Insert(resultRow[..]);
  }

  /** `selectFromCartesianProduct`: the cursor of this level walks down its table, and the cursors of
      the levels below it start again at every row. */
  method SelectFromCartesianProduct(level: nat, where: JoinSelector, columns: seq<string>, ts: seq<Source>,
                                    envelope: array<seq<Cell>>, result: ResultTable)
    returns (failure: Option<Failure>)
    requires level < |ts| == envelope.Length && AllRegular(ts) && result.columnNames == columns
    requires PrefixFits(envelope[..level], ts)
    modifies envelope, result
    ensures envelope[..level] == old(envelope[..level])
    ensures var s := SelectFrom(where, ts, columns, old(envelope[..level]));
            result.rows == old(result.rows) + s.rows && failure == s.failure
    decreases |ts| - level, 0
  {
    ghost var prefix := envelope[..level];
    ghost var total := SelectFrom(where, ts, columns, prefix);
    var rows := ts[level].rows;
    assert ts[level..][0] == ts[level] && ts[level..][1..] == ts[level + 1..];
    assert total == SelectRows(where, ts, columns, prefix, rows[0..]) by {
      assert rows[0..] == rows;
    }
    var i := 0;
    while i < |rows|
      invariant i <= |rows| && envelope[..level] == prefix
      invariant result.rows + SelectRows(where, ts, columns, prefix, rows[i..]).rows == old(result.rows) + total.rows
      invariant SelectRows(where, ts, columns, prefix, rows[i..]).failure == total.failure
    {
      RowByRow(where, ts, columns, prefix, rows, i, result.rows);
      envelope[level] := rows[i];
      assert envelope[..level + 1] == prefix + [rows[i]];
      failure := SelectRow(level, where, columns, ts, envelope, result);
      if failure.Some? {
        return;
      }
      i := i + 1;
    }
    SelectNext(where, ts, columns, prefix, rows[i..]);
    failure := None;
  }

  /** What the loop does at a row: the next table, or at the last table the question to the selector. */
  method SelectRow(level: nat, where: JoinSelector, columns: seq<string>, ts: seq<Source>,
                   envelope: array<seq<Cell>>, result: ResultTable)
    returns (failure: Option<Failure>)
    requires level < |ts| == envelope.Length && AllRegular(ts) && result.columnNames == columns
    requires PrefixFits(envelope[..level + 1], ts)
    modifies envelope, result
    ensures envelope[..level + 1] == old(envelope[..level + 1])
    ensures var s := SelectFrom(where, ts, columns, old(envelope[..level + 1]));
            result.rows == old(result.rows) + s.rows && failure == s.failure
    decreases |ts| - level - 1, 1
  {
    if level < |ts| - 1 {
      failure := SelectFromCartesianProduct(level + 1, where, columns, ts, envelope, result);
      return;
    }
    assert envelope[..level + 1] == envelope[..];
    SelectLeaf(where, ts, columns, envelope[..]);
    match where(envelope[..])
    case Refuses(f) =>
      assert result.rows + [] == result.rows;
      return Some(f);
    case No =>
      assert result.rows + [] == result.rows;
      return None;
    case Yes =>
      InsertApprovedRow(result, columns, ts, envelope);
      return None;
  }

  /** The choice at every approved place, in order. */
  lemma ApprovedChoices(where: JoinSelector, ts: seq<Source>) returns (choices: seq<seq<nat>>)
    ensures var r := Approved(where, Product(ts));
            && |choices| == |r|
            && forall k {:trigger choices[k]} :: 0 <= k < |r| ==>
              InRange(choices[k], ts) && Rank(choices[k], ts) == r[k] && Product(ts)[r[k]] == TupleOf(choices[k], ts)
  {
    var r := Approved(where, Product(ts));
    ExtendSize([], ts);
    choices := [];
    while |choices| < |r|
      invariant |choices| <= |r|
      invariant forall k {:trigger choices[k]} :: 0 <= k < |choices| ==>
        InRange(choices[k], ts) && Rank(choices[k], ts) == r[k] && Product(ts)[r[k]] == TupleOf(choices[k], ts)
    {
      var v := RankOnto(r[|choices|], ts);
      ChoiceStands(ts, v);
      choices := choices + [v];
    }
  }

  /** These are the combinations of rows that the selector approves, all of them, once each, in
      lexicographic order of the row numbers. */
  ghost predicate AreApproved(choices: seq<seq<nat>>, where: JoinSelector, ts: seq<Source>) {
    && (forall k :: 0 <= k < |choices| ==> InRange(choices[k], ts))
    && (forall j, k :: 0 <= j < k < |choices| ==> Before(choices[j], choices[k]))
    && (forall v :: InRange(v, ts) ==> (v in choices <==> where(TupleOf(v, ts)) == Yes))
  }

  ghost predicate NeverRefuses(where: JoinSelector, ts: seq<Source>) {
    forall v :: InRange(v, ts) ==> !where(TupleOf(v, ts)).Refuses?
  }

  /** The rows are the projections of these combinations. */
  ghost predicate AreProjections(rows: seq<seq<Cell>>, choices: seq<seq<nat>>, ts: seq<Source>, columns: seq<string>)
    requires AllRegular(ts) && forall k :: 0 <= k < |choices| ==> InRange(choices[k], ts)
  {
    |rows| == |choices| && forall k :: 0 <= k < |choices| ==> rows[k] == Project(TupleOf(choices[k], ts), ts, columns)
  }

  lemma ChoicesAreApproved(where: JoinSelector, ts: seq<Source>, r: seq<nat>, choices: seq<seq<nat>>)
    requires r == Approved(where, Product(ts)) && |choices| == |r|
    requires forall k {:trigger choices[k]} :: 0 <= k < |r| ==>
      InRange(choices[k], ts) && Rank(choices[k], ts) == r[k] && Product(ts)[r[k]] == TupleOf(choices[k], ts)
    ensures AreApproved(choices, where, ts)
  {
    ApprovedMeans(where, Product(ts));
    forall j, k | 0 <= j < k < |choices|
      ensures Before(choices[j], choices[k])
    {
      OneInOrder(choices[j], choices[k], ts);
    }
    forall v | InRange(v, ts)
      ensures v in choices <==> where(TupleOf(v, ts)) == Yes
    {
      ChoiceStands(ts, v);
      if where(TupleOf(v, ts)) == Yes {
        var k :| 0 <= k < |r| && r[k] == Rank(v, ts);
        SameRank(choices[k], v, ts);
      }
    }
  }

  lemma TuplesAreChoices(where: JoinSelector, ts: seq<Source>)
    ensures NeverRefuses(where, ts) <==> forall i :: 0 <= i < |Product(ts)| ==> !where(Product(ts)[i]).Refuses?
  {
    forall i | 0 <= i < |Product(ts)|
      ensures exists v :: InRange(v, ts) && Product(ts)[i] == TupleOf(v, ts)
    {
      ProductMeans(ts);
      assert ChoiceAt(ts, i);
    }
    forall v | InRange(v, ts)
      ensures exists i :: 0 <= i < |Product(ts)| && Product(ts)[i] == TupleOf(v, ts)
    {
      ChoiceStands(ts, v);
    }
  }

  /** What selecting from the whole product comes to. */
  lemma JoinMeans(where: JoinSelector, columns: seq<string>, ts: seq<Source>) returns (choices: seq<seq<nat>>)
    requires AllRegular(ts)
    ensures AllFit(Product(ts), ts) && AreApproved(choices, where, ts)
    ensures var s := Select(where, ts, columns, Product(ts));
            && (s.failure.None? <==> NeverRefuses(where, ts))
            && (s.failure.None? ==> AreProjections(s.rows, choices, ts, columns))
  {
    assert ts[0..] == ts;
    ExtendFits([], ts);
    choices := ApprovedChoices(where, ts);
    ChoicesAreApproved(where, ts, Approved(where, Product(ts)), choices);
    SelectMeans(where, ts, columns, Product(ts));
    TuplesAreChoices(where, ts);
  }

  lemma OneInOrder(v: seq<nat>, w: seq<nat>, ts: seq<Source>)
    requires InRange(v, ts) && InRange(w, ts) && Rank(v, ts) < Rank(w, ts)
    ensures Before(v, w)
  {
    OneComesFirst(v, w);
    if Before(w, v) {
      RankOrder(w, v, ts);
    }
  }

  lemma SameRank(v: seq<nat>, w: seq<nat>, ts: seq<Source>)
    requires InRange(v, ts) && InRange(w, ts) && Rank(v, ts) == Rank(w, ts)
    ensures v == w
  {
    OneComesFirst(v, w);
    if Before(v, w) {
      RankOrder(v, w, ts);
    }
    if Before(w, v) {
      RankOrder(w, v, ts);
    }
  }

  /** `select` of several tables, with the columns that are asked for: the projections of the approved
      combinations of rows, in order, unless the selector throws.  A single table goes another way. */
  method Join(where: JoinSelector, columns: seq<string>, ts: seq<Source>)
    returns (result: ResultTable, failure: Option<Failure>, ghost choices: seq<seq<nat>>)
    requires |ts| >= 2 && AllRegular(ts)
    ensures fresh(result) && result.columnNames == columns
    ensures AreApproved(choices, where, ts) && (failure.None? <==> NeverRefuses(where, ts))
    ensures failure.None? ==> AreProjections(result.rows, choices, ts, columns)
  {
    result := new ResultTable(columns);
    var envelope := new seq<Cell>[|ts|](_ => []);
    assert ts[0..] == ts;
    ExtendFits([], ts);
    assert envelope[..0] == [];
    failure := SelectFromCartesianProduct(0, where, columns, ts, envelope, result);
    choices := JoinMeans(where, columns, ts);
    assert [] + Select(where, ts, columns, Product(ts)).rows == Select(where, ts, columns, Product(ts)).rows;
  }
}
