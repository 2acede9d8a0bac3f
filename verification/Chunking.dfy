/**
 * A filter of a sequence computed in chunks: items that map to a row are buffered, a full chunk of `n`
 * rows is written out at once, and the items consumed since the last write are swept with it.
 * The types stay abstract; src/storage/parquet_exporter.rs uses it for keys and export rows.
 */
module Chunking {
  import opened Wrappers

  /** The rows of the items that have one, in order. */
  function Rows<K, R>(items: seq<K>, row: K -> Option<R>): (rows: seq<R>)
    ensures |rows| <= |items|
  {
    if items == [] then []
    else
      var last := row(items[|items| - 1]);
      Rows(items[..|items| - 1], row) + if last.Some? then [last.value] else []
  }

  /** Length of the shortest prefix that yields `m` rows; everything if there are fewer. */
  function Reach<K, R>(items: seq<K>, row: K -> Option<R>, m: nat): (c: nat)
    ensures c <= |items|
  {
    if items == [] || m == 0 then 0
    else if m <= |Rows(items[..|items| - 1], row)| then Reach(items[..|items| - 1], row, m)
    else |items|
  }

  lemma RowsStep<K, R>(items: seq<K>, row: K -> Option<R>, i: nat)
    requires i < |items|
    ensures Rows(items[..i + 1], row) ==
            Rows(items[..i], row) + if row(items[i]).Some? then [row(items[i]).value] else []
  {
    assert items[..i + 1][..i] == items[..i];
  }

  lemma {:induction false} RowsPrefix<K, R>(items: seq<K>, row: K -> Option<R>, i: nat)
    requires i <= |items|
    ensures Rows(items[..i], row) <= Rows(items, row)
    decreases |items|
  {
    if i < |items| {
      assert items[..|items| - 1][..i] == items[..i];
      RowsPrefix(items[..|items| - 1], row, i);
    } else {
      assert items[..i] == items;
    }
  }

  /** An item lies within reach of `m` rows exactly when fewer than `m` rows precede it. */
  lemma {:induction false} ReachIff<K, R>(items: seq<K>, row: K -> Option<R>, m: nat, j: nat)
    requires j < |items|
    ensures j < Reach(items, row, m) <==> |Rows(items[..j], row)| < m
    decreases |items|
  {
    var front := items[..|items| - 1];
    assert j < |front| ==> front[..j] == items[..j];
    if m > 0 && m <= |Rows(front, row)| {
      if j < |front| { ReachIff(front, row, m, j); } else { assert items[..j] == front; }
    } else if m > 0 {
      assert items[..j] == front[..j];
      RowsPrefix(front, row, j);
    }
  }

  /** The part of `d` that fills whole chunks of `n`. */
  function Whole(d: nat, n: nat): (w: nat)
    requires n > 0
    ensures w <= d < w + n
    ensures w == d <==> d % n == 0
  {
    assert d == n * (d / n) + d % n;
    n * (d / n)
  }

  /** Whole chunks are recognised by their remainder: `q` of them, with less than a chunk left. */
  lemma WholeIs(d: nat, q: nat, n: nat)
    requires n > 0 && n * q <= d < n * q + n
    ensures Whole(d, n) == n * q
  {
    var e := d / n;
    var w := Whole(d, n);
    assert w == n * e;
    if e < q {
      Distribute(n, e, q - e);
    } else if q < e {
      Distribute(n, q, e - q);
    }
  }

  lemma Distribute(n: nat, a: nat, b: nat)
    requires b > 0
    ensures n * (a + b) == n * a + n * b
    ensures n * b >= n
  {}

  /** After `i` items: the rows `written` are out and their items swept, the rest is buffered with its items. */
  ghost predicate State<K, R>(
    items: seq<K>, row: K -> Option<R>, i: nat, written: seq<R>, buffered: seq<R>, unswept: seq<K>)
  {
    && i <= |items|
    && written + buffered == Rows(items[..i], row)
    && Reach(items, row, |written|) <= i
    && unswept == items[Reach(items, row, |written|)..i]
  }

  lemma Take<K, R>(items: seq<K>, row: K -> Option<R>, i: nat, written: seq<R>, buffered: seq<R>, unswept: seq<K>)
    requires State(items, row, i, written, buffered, unswept) && i < |items|
    ensures var r := row(items[i]);
            State(items, row, i + 1, written, buffered + (if r.Some? then [r.value] else []), unswept + [items[i]])
  {
    RowsStep(items, row, i);
    var more := if row(items[i]).Some? then [row(items[i]).value] else [];
    assert written + (buffered + more) == (written + buffered) + more;
    var c := Reach(items, row, |written|);
    assert items[c..i + 1] == items[c..i] + [items[i]];
  }

  lemma Write<K, R>(items: seq<K>, row: K -> Option<R>, i: nat, written: seq<R>, buffered: seq<R>, unswept: seq<K>)
    requires State(items, row, i, written, buffered, unswept)
    requires i > 0 && row(items[i - 1]).Some?
    ensures Reach(items, row, |written + buffered|) == i
    ensures State(items, row, i, written + buffered, [], [])
  {
    var m := |written + buffered|;
    RowsStep(items, row, i - 1);
    ReachIff(items, row, m, i - 1);
    if i < |items| { ReachIff(items, row, m, i); }
    assert written + buffered + [] == written + buffered;
  }
}
