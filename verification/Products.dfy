/** The lexicographic product of tables, and what a join takes from it. */
module Products {
  import opened Arithmetic
  import opened UndoLog

  /** A table as a join sees it. */
  datatype Source = Source(columns: seq<string>, rows: seq<seq<Cell>>)

  type Tuple = seq<seq<Cell>>

  predicate Regular(s: Source) {
    forall i :: 0 <= i < |s.rows| ==> |s.rows[i]| == |s.columns|
  }

  predicate AllRegular(ts: seq<Source>) {
    forall k :: 0 <= k < |ts| ==> Regular(ts[k])
  }

  /** One row of every table. */
  predicate Fits(tuple: Tuple, ts: seq<Source>) {
    |tuple| == |ts| && forall k :: 0 <= k < |ts| ==> |tuple[k]| == |ts[k].columns|
  }

  predicate AllFit(tuples: seq<Tuple>, ts: seq<Source>) {
    forall k :: 0 <= k < |tuples| ==> Fits(tuples[k], ts)
  }

  /** The rows of the first tables, and then every combination of rows of the others, the last table
      moving fastest. */
  function Extend(prefix: Tuple, ts: seq<Source>): seq<Tuple>
    decreases |ts|, 0
  {
    if ts == [] then [prefix] else ExtendRows(prefix, ts[0].rows, ts[1..])
  }

  function ExtendRows(prefix: Tuple, rows: seq<seq<Cell>>, rest: seq<Source>): seq<Tuple>
    decreases |rest|, |rows| + 1
  {
    if rows == [] then [] else Extend(prefix + [rows[0]], rest) + ExtendRows(prefix, rows[1..], rest)
  }

  function Product(ts: seq<Source>): seq<Tuple> {
    Extend([], ts)
  }

  // ----- What the product is, by row numbers

  function Size(ts: seq<Source>): nat {
    if ts == [] then 1 else Times(|ts[0].rows|, Size(ts[1..]))
  }

  /** A choice of one row number in every table. */
  predicate InRange(v: seq<nat>, ts: seq<Source>) {
    |v| == |ts| && forall k :: 0 <= k < |v| ==> v[k] < |ts[k].rows|
  }

  function TupleOf(v: seq<nat>, ts: seq<Source>): (tuple: Tuple)
    requires InRange(v, ts)
    ensures AllRegular(ts) ==> Fits(tuple, ts)
  {
    seq(|v|, k requires 0 <= k < |v| => ts[k].rows[v[k]])
  }

  /** Two choices differ only if one comes first. */
  lemma {:induction false} OneComesFirst(v: seq<nat>, w: seq<nat>)
    requires |v| == |w|
    ensures v == w || Before(v, w) || Before(w, v)
  {
    if v != [] {
      OneComesFirst(v[1..], w[1..]);
      assert v[1..] == w[1..] && v[0] == w[0] ==> v == w by {
        assert v == [v[0]] + v[1..] && w == [w[0]] + w[1..];
      }
    }
  }

  /** The place of a choice in the lexicographic order. */
  function Rank(v: seq<nat>, ts: seq<Source>): nat
    requires InRange(v, ts)
  {
    if ts == [] then 0 else Times(v[0], Size(ts[1..])) + Rank(v[1..], ts[1..])
  }

  ghost predicate Before(v: seq<nat>, w: seq<nat>) {
    |v| == |w| && v != [] && (v[0] < w[0] || (v[0] == w[0] && Before(v[1..], w[1..])))
  }

  lemma {:induction false} RankBelow(v: seq<nat>, ts: seq<Source>)
    requires InRange(v, ts)
    ensures Rank(v, ts) < Size(ts)
  {
    if ts != [] {
      RankBelow(v[1..], ts[1..]);
      Row(v[0], |ts[0].rows|, Size(ts[1..]));
    }
  }

  lemma Row(a: nat, n: nat, size: nat)
    requires a < n
    ensures a * size + size <= n * size
  {
    NotNegative(n - a - 1, size);
    assert n * size == a * size + size + (n - a - 1) * size;
  }

  /** Earlier choices come earlier. */
  lemma {:induction false} RankOrder(v: seq<nat>, w: seq<nat>, ts: seq<Source>)
    requires InRange(v, ts) && InRange(w, ts) && Before(v, w)
    ensures Rank(v, ts) < Rank(w, ts)
  {
    RankBelow(v[1..], ts[1..]);
    if v[0] < w[0] {
      Row(v[0], w[0], Size(ts[1..]));
    } else {
      RankOrder(v[1..], w[1..], ts[1..]);
    }
  }

  /** Every place in the order is the place of a choice. */
  lemma {:induction false} RankOnto(k: nat, ts: seq<Source>) returns (v: seq<nat>)
    requires k < Size(ts)
    ensures InRange(v, ts) && Rank(v, ts) == k
  {
    if ts == [] {
      v := [];
    } else {
      var size := Size(ts[1..]);
      Grows(0, |ts[0].rows|, size);
      var a := First(k, |ts[0].rows|, size);
      var rest := RankOnto(k - a * size, ts[1..]);
      v := [a] + rest;
      assert v[1..] == rest;
    }
  }

  lemma First(k: nat, n: nat, size: nat) returns (a: nat)
    requires k < n * size && size > 0
    ensures a < n && a * size <= k < a * size + size
  {
    a := k / size;
    Grows(a, n, size);
  }

  lemma Grows(a: nat, n: nat, size: nat)
    ensures a >= n ==> a * size >= n * size
    ensures size == 0 ==> n * size == 0
  {
    if a >= n {
      NotNegative(a - n, size);
      assert a * size == n * size + (a - n) * size;
    }
  }

  lemma {:induction false} ExtendSize(prefix: Tuple, ts: seq<Source>)
    ensures |Extend(prefix, ts)| == Size(ts)
    decreases |ts|, 0
  {
    if ts != [] {
      RowsSize(prefix, ts[0].rows, ts[1..]);
    }
  }

  lemma {:induction false} RowsSize(prefix: Tuple, rows: seq<seq<Cell>>, rest: seq<Source>)
    ensures |ExtendRows(prefix, rows, rest)| == |rows| * Size(rest)
    decreases |rest|, |rows| + 1
  {
    if rows != [] {
      ExtendSize(prefix + [rows[0]], rest);
      RowsSize(prefix, rows[1..], rest);
      assert |rows| * Size(rest) == Size(rest) + (|rows| - 1) * Size(rest);
    }
  }

  /** In the product, every choice stands at its place. */
  lemma {:induction false} ExtendAt(prefix: Tuple, ts: seq<Source>, v: seq<nat>)
    requires InRange(v, ts)
    ensures Rank(v, ts) < |Extend(prefix, ts)| && Extend(prefix, ts)[Rank(v, ts)] == prefix + TupleOf(v, ts)
    decreases |ts|, 0
  {
    RankBelow(v, ts);
    ExtendSize(prefix, ts);
    if ts == [] {
      assert prefix + [] == prefix;
    } else {
      RowsAt(prefix, ts[0].rows, ts[1..], v[0], v[1..]);
      assert prefix + TupleOf(v, ts) == (prefix + [ts[0].rows[v[0]]]) + TupleOf(v[1..], ts[1..]);
    }
  }

  lemma {:induction false} RowsAt(prefix: Tuple, rows: seq<seq<Cell>>, rest: seq<Source>, a: nat, w: seq<nat>)
    requires a < |rows| && InRange(w, rest)
    ensures var k := a * Size(rest) + Rank(w, rest);
            0 <= k < |ExtendRows(prefix, rows, rest)|
            && ExtendRows(prefix, rows, rest)[k] == (prefix + [rows[a]]) + TupleOf(w, rest)
    decreases |rest|, |rows| + 1
  {
    var size := Size(rest);
    RankBelow(w, rest);
    RowsSize(prefix, rows, rest);
    Row(a, |rows|, size);
    NotNegative(a, size);
    ExtendSize(prefix + [rows[0]], rest);
    if a == 0 {
      ExtendAt(prefix + [rows[0]], rest, w);
    } else {
      RowsAt(prefix, rows[1..], rest, a - 1, w);
      assert a * size == size + (a - 1) * size;
    }
  }

  /** The k-th tuple of the product is that of the k-th choice. */
  ghost predicate ChoiceAt(ts: seq<Source>, k: nat) {
    k < |Product(ts)| && exists v :: InRange(v, ts) && Rank(v, ts) == k && Product(ts)[k] == TupleOf(v, ts)
  }

  lemma ChoiceStands(ts: seq<Source>, v: seq<nat>)
    requires InRange(v, ts)
    ensures Rank(v, ts) < |Product(ts)| && Product(ts)[Rank(v, ts)] == TupleOf(v, ts)
  {
    ExtendAt([], ts, v);
    assert [] + TupleOf(v, ts) == TupleOf(v, ts);
  }

  /** The product has every combination of rows once, in lexicographic order of the row numbers. */
  lemma ProductMeans(ts: seq<Source>)
    ensures |Product(ts)| == Size(ts)
    ensures forall k: nat :: k < |Product(ts)| ==> ChoiceAt(ts, k)
    ensures forall v :: InRange(v, ts) ==> Rank(v, ts) < |Product(ts)| && Product(ts)[Rank(v, ts)] == TupleOf(v, ts)
    ensures forall v, w :: InRange(v, ts) && InRange(w, ts) && Before(v, w) ==> Rank(v, ts) < Rank(w, ts)
  {
    ExtendSize([], ts);
    forall k: nat | k < |Product(ts)|
      ensures ChoiceAt(ts, k)
    {
      var v := RankOnto(k, ts);
      ChoiceStands(ts, v);
    }
    forall v | InRange(v, ts)
      ensures Rank(v, ts) < |Product(ts)| && Product(ts)[Rank(v, ts)] == TupleOf(v, ts)
    {
      ChoiceStands(ts, v);
    }
    forall v, w | InRange(v, ts) && InRange(w, ts) && Before(v, w)
      ensures Rank(v, ts) < Rank(w, ts)
    {
      RankOrder(v, w, ts);
    }
  }
}
