/**
 * The pass of `Compaction`, with all its faults, is a run of the step machine of `Delivery` in the order of the code:
 * what is proved there of errors and of repeated passes holds of the method.
 */
module Refinement {
  import opened Wrappers
  import opened Items
  import opened Samples
  import opened HotStore
  import opened Chunking
  import C = Compaction
  import opened PassLaws
  import D = Delivery

  type State = D.State<Key, Row>
  type Action = D.Action<Key, Row>
  type Pairs = seq<(Key, Row)>

  /** The state after these actions in the order of the code, if each of them is enabled in turn. */
  function After(n: nat, s: State, acts: seq<Action>): Option<State>
  {
    if acts == [] then Some(s)
    else
      match After(n, s, acts[..|acts| - 1])
      case None => None
      case Some(t) =>
        var a := acts[|acts| - 1];
        if D.Enabled(D.PurgePerChunk, n, t, a) then Some(D.Next(D.PurgePerChunk, n, t, a)) else None
  }

  lemma AfterSnoc(n: nat, s: State, acts: seq<Action>, a: Action, t: State)
    requires After(n, s, acts) == Some(t) && D.Enabled(D.PurgePerChunk, n, t, a)
    ensures After(n, s, acts + [a]) == Some(D.Next(D.PurgePerChunk, n, t, a))
  {
    assert (acts + [a])[..|acts|] == acts;
  }

  lemma {:induction false} AfterAppend(n: nat, s: State, a: seq<Action>, t: State, b: seq<Action>)
    requires After(n, s, a) == Some(t)
    ensures After(n, s, a + b) == After(n, t, b)
  {
    if b == [] {
      assert a + b == a;
    } else {
      assert (a + b)[..|a + b| - 1] == a + b[..|b| - 1];
      AfterAppend(n, s, a, t, b[..|b| - 1]);
    }
  }

  /** The actions are a run in the sense of `Delivery`, from `s` to `t`. */
  lemma {:induction false} AfterIsRun(n: nat, s: State, acts: seq<Action>, t: State) returns (states: seq<State>)
    requires After(n, s, acts) == Some(t)
    ensures |states| == |acts| + 1 && states[0] == s && states[|acts|] == t
    ensures forall i :: 0 <= i < |acts| ==> D.Step(D.PurgePerChunk, n, states[i], acts[i], states[i + 1])
  {
    if acts == [] {
      states := [s];
    } else {
      var m := |acts| - 1;
      states := AfterIsRun(n, s, acts[..m], After(n, s, acts[..m]).value);
      states := states + [t];
    }
  }

  // ----- one chunk

  /** Rows still in the store, none of them written yet. */
  ghost predicate Waiting(s: State, rows: Pairs)
  {
    && Distinct(Keys(rows))
    && forall i :: 0 <= i < |rows| ==>
         rows[i].0 in s.store && s.store[rows[i].0] == rows[i].1 && rows[i].0 !in Keys(s.written)
  }

  lemma {:induction false} BufferRun(n: nat, s: State, chunk: Pairs) returns (acts: seq<Action>)
    requires s.phase == D.Scanning && s.purge == [] && s.buffered == [] && |chunk| <= n && Waiting(s, chunk)
    ensures After(n, s, acts) == Some(s.(buffered := chunk))
  {
    if chunk == [] {
      acts := [];
    } else {
      var front, last := chunk[..|chunk| - 1], chunk[|chunk| - 1];
      assert chunk == front + [last];
      KeysAppend(front, [last]);
      DistinctParts(Keys(front), Keys([last]));
      acts := BufferRun(n, s, front);
      forall i | 0 <= i < |front| ensures front[i].0 != last.0 { assert Keys(chunk)[i] != Keys(chunk)[|front|]; }
      assert last.0 !in Keys(front);
      AfterSnoc(n, s, acts, D.Buffer(last.0), s.(buffered := front));
      acts := acts + [D.Buffer(last.0)];
    }
  }

  /** The rows left after removals of `keys`, some of which may be refused. */
  function Left(store: map<Key, Row>, keys: seq<Key>, fails: Key -> bool): map<Key, Row>
  {
    map k | k in store && (k in keys ==> fails(k)) :: store[k]
  }

  lemma LeftTwice(store: map<Key, Row>, a: seq<Key>, b: seq<Key>, fails: Key -> bool)
    ensures Left(Left(store, a, fails), b, fails) == Left(store, a + b, fails)
  {}

  /** What stays as it was while keys are removed. */
  ghost predicate SameFiles(s: State, t: State)
  {
    && t.arrived == s.arrived && t.phase == s.phase && t.buffered == s.buffered && t.written == s.written
    && t.published == s.published && t.interruptions == s.interruptions
  }

  lemma RemoveOne(n: nat, s: State, fails: Key -> bool)
    requires s.purge != [] && s.purge[0] in s.store
    ensures var a := D.Remove(!fails(s.purge[0]));
      && D.Enabled(D.PurgePerChunk, n, s, a)
      && var t := D.Next(D.PurgePerChunk, n, s, a);
         SameFiles(s, t) && t.purge == s.purge[1..] && t.store == Left(s.store, [s.purge[0]], fails)
  {}

  lemma {:induction false} RemoveRun(n: nat, s: State, fails: Key -> bool) returns (acts: seq<Action>, t: State)
    requires Distinct(s.purge) && forall k :: k in s.purge ==> k in s.store
    ensures After(n, s, acts) == Some(t) && SameFiles(s, t) && t.purge == []
    ensures t.store == Left(s.store, s.purge, fails)
    decreases |s.purge|
  {
    if s.purge == [] {
      acts, t := [], s;
      assert Left(s.store, [], fails) == s.store;
    } else {
      var a := D.Remove(!fails(s.purge[0]));
      RemoveOne(n, s, fails);
      var mid := D.Next(D.PurgePerChunk, n, s, a);
      assert After(n, s, []) == Some(s);
      AfterSnoc(n, s, [], a, s);
      var rest;
      rest, t := RemoveRun(n, mid, fails);
      AfterAppend(n, s, [] + [a], mid, rest);
      acts := [] + [a] + rest;
      LeftTwice(s.store, [s.purge[0]], s.purge[1..], fails);
      assert s.purge == [s.purge[0]] + s.purge[1..];
    }
  }

  /** Between chunks. */
  ghost predicate Ready(s: State) { s.phase == D.Scanning && s.purge == [] && s.buffered == [] }

  lemma ChunkRun(n: nat, s: State, chunk: Pairs, fails: Key -> bool) returns (acts: seq<Action>, t: State)
    requires Ready(s) && 0 < |chunk| <= n && Waiting(s, chunk)
    ensures After(n, s, acts) == Some(t) && Ready(t)
    ensures t.arrived == s.arrived && t.published == s.published && t.interruptions == s.interruptions
    ensures t.written == s.written + chunk && t.store == Left(s.store, Keys(chunk), fails)
  {
    acts := BufferRun(n, s, chunk);
    var full := s.(buffered := chunk);
    AfterSnoc(n, s, acts, D.Flush, full);
    acts := acts + [D.Flush];
    var flushed := D.Next(D.PurgePerChunk, n, full, D.Flush);
    var removals;
    removals, t := RemoveRun(n, flushed, fails);
    AfterAppend(n, s, acts, flushed, removals);
    acts := acts + removals;
  }

  // ----- the scan

  lemma WaitingRest(s: State, rows: Pairs, w: nat, t: State, fails: Key -> bool)
    requires Waiting(s, rows) && w <= |rows| && s.written == []
    requires t.written == rows[..w] && t.store == Left(s.store, Keys(rows[..w]), fails)
    ensures Waiting(t, rows[w..])
  {
    assert rows == rows[..w] + rows[w..];
    KeysAppend(rows[..w], rows[w..]);
    DistinctParts(Keys(rows[..w]), Keys(rows[w..]));
    forall i | 0 <= i < |rows| - w ensures rows[w..][i].0 !in Keys(rows[..w]) {
      forall j | 0 <= j < w ensures rows[j].0 != rows[w + i].0 { assert Keys(rows)[j] != Keys(rows)[w + i]; }
    }
  }

  lemma WaitingPart(s: State, rows: Pairs, m: nat)
    requires Waiting(s, rows) && m <= |rows|
    ensures Waiting(s, rows[..m])
  {
    assert rows == rows[..m] + rows[m..];
    KeysAppend(rows[..m], rows[m..]);
    DistinctParts(Keys(rows[..m]), Keys(rows[m..]));
  }

  /** One more chunk: rows `w` to `m`. */
  lemma NextChunk(store: map<Key, Row>, rows: Pairs, w: nat, m: nat, fails: Key -> bool)
    requires w <= m <= |rows|
    ensures rows[..w] + rows[w..][..m - w] == rows[..m]
    ensures Left(Left(store, Keys(rows[..w]), fails), Keys(rows[w..][..m - w]), fails) ==
            Left(store, Keys(rows[..m]), fails)
  {
    var chunk := rows[w..][..m - w];
    assert rows[..w] + chunk == rows[..m];
    KeysAppend(rows[..w], chunk);
    LeftTwice(store, Keys(rows[..w]), Keys(chunk), fails);
  }

  /** The first `m` rows go out in chunks of `n`, the last of which may be partial. */
  lemma {:induction false} ChunksRun(n: nat, s: State, rows: Pairs, m: nat, fails: Key -> bool)
    returns (acts: seq<Action>, t: State)
    requires n > 0 && Ready(s) && s.written == [] && Waiting(s, rows) && m <= |rows|
    ensures After(n, s, acts) == Some(t) && Ready(t)
    ensures t.arrived == s.arrived && t.published == s.published && t.interruptions == s.interruptions
    ensures t.written == rows[..m] && t.store == Left(s.store, Keys(rows[..m]), fails)
  {
    if m == 0 {
      acts, t := [], s;
      assert Left(s.store, Keys(rows[..0]), fails) == s.store;
    } else {
      var w := Whole(m - 1, n);
      var mid, more;
      acts, mid := ChunksRun(n, s, rows, w, fails);
      more, t := LastChunk(n, s, rows, w, m, mid, fails);
      AfterAppend(n, s, acts, mid, more);
      acts := acts + more;
    }
  }

  lemma LastChunk(n: nat, s: State, rows: Pairs, w: nat, m: nat, mid: State, fails: Key -> bool)
    returns (acts: seq<Action>, t: State)
    requires w < m <= |rows| && m - w <= n && s.written == [] && Waiting(s, rows) && Ready(mid)
    requires mid.written == rows[..w] && mid.store == Left(s.store, Keys(rows[..w]), fails)
    ensures After(n, mid, acts) == Some(t) && Ready(t)
    ensures t.arrived == mid.arrived && t.published == mid.published && t.interruptions == mid.interruptions
    ensures t.written == rows[..m] && t.store == Left(s.store, Keys(rows[..m]), fails)
  {
    WaitingRest(s, rows, w, mid, fails);
    WaitingPart(mid, rows[w..], m - w);
    acts, t := ChunkRun(n, mid, rows[w..][..m - w], fails);
    NextChunk(s.store, rows, w, m, fails);
  }

  // ----- a pass

  /** The rows of the decodable items, by key. */
  function Shows(store: Store): map<Key, Row>
  {
    map k | k in store && RowOf(k, store[k]).Some? :: RowOf(k, store[k]).value
  }

  /** The decodable items of a scan with their rows. */
  function Scanned(items: seq<Key>, f: Key -> Option<Row>): (rows: Pairs)
    ensures |rows| == |Rows(items, f)|
    ensures forall i :: 0 <= i < |rows| ==> rows[i].1 == Rows(items, f)[i]
    ensures forall i :: 0 <= i < |rows| ==> rows[i].0 in items && f(rows[i].0) == Some(rows[i].1)
  {
    if items == [] then []
    else
      var k := items[|items| - 1];
      Scanned(items[..|items| - 1], f) + if f(k).Some? then [(k, f(k).value)] else []
  }

  lemma {:induction false} ScannedAt(items: seq<Key>, f: Key -> Option<Row>, j: nat)
    requires j < |items| && f(items[j]).Some?
    ensures |Rows(items[..j], f)| < |Scanned(items, f)| && Scanned(items, f)[|Rows(items[..j], f)|].0 == items[j]
  {
    var n := |items| - 1;
    if j == n {
    } else {
      assert items[..n][..j] == items[..j];
      ScannedAt(items[..n], f, j);
      assert Scanned(items[..n], f) <= Scanned(items, f);
    }
  }

  lemma {:induction false} ScannedDistinct(items: seq<Key>, f: Key -> Option<Row>)
    requires Distinct(items)
    ensures Distinct(Keys(Scanned(items, f)))
  {
    if items == [] {
    } else {
      var n := |items| - 1;
      var front := items[..n];
      var before := Scanned(front, f);
      ScannedDistinct(front, f);
      forall i | 0 <= i < |before| ensures Keys(before)[i] != items[n] { assert Keys(before)[i] in front; }
      KeysAppend(before, Scanned(items, f)[|before|..]);
      assert Scanned(items, f) == before + Scanned(items, f)[|before|..];
    }
  }

  lemma ScannedWaits(items: seq<Key>, store: Store, bound: Key, s: State)
    requires IsScan(items, store, bound) && s.store == Shows(store) && s.written == []
    ensures Waiting(s, Scanned(items, C.RowIn(store)))
  {
    ScanDistinct(items, store, bound);
    ScannedDistinct(items, C.RowIn(store));
  }

  /** Item `j` is swept exactly when its row is among those written. */
  lemma SweptByPlace(items: seq<Key>, f: Key -> Option<Row>, n: nat, fault: C.Fault, j: nat)
    requires n > 0 && Distinct(items) && j < |items| && f(items[j]).Some?
    ensures var m := C.Flushed(fault, items, f, n);
      && m <= |Scanned(items, f)|
      && (items[j] in items[..C.Swept(fault, items, f, n)] <==> items[j] in Keys(Scanned(items, f))[..m])
  {
    var rows := Scanned(items, f);
    FlushedWithin(fault, items, f, n);
    ScannedAt(items, f, j);
    SweptRow(fault, items, f, n, j);
    ScannedDistinct(items, f);
    PlaceInPrefix(items, j, C.Swept(fault, items, f, n));
    PlaceInPrefix(Keys(rows), |Rows(items[..j], f)|, C.Flushed(fault, items, f, n));
  }

  lemma KeysPrefix(rows: Pairs, m: nat)
    requires m <= |rows|
    ensures Keys(rows)[..m] == Keys(rows[..m])
  {}

  lemma PlaceInPrefix(q: seq<Key>, j: nat, c: nat)
    requires Distinct(q) && j < |q| && c <= |q|
    ensures q[j] in q[..c] <==> j < c
  {
    if j < c { assert q[..c][j] == q[j]; }
  }

  lemma UnscannedStays(items: seq<Key>, f: Key -> Option<Row>, m: nat, c: nat, k: Key)
    requires m <= |Scanned(items, f)| && c <= |items| && k !in items
    ensures k !in C.Keys(items[..c]) && k !in Keys(Scanned(items, f)[..m])
  {
    assert forall i :: 0 <= i < m ==> Keys(Scanned(items, f)[..m])[i] in items;
  }

  /** A decodable key of the store is swept exactly when its row is written. */
  lemma LeavesIffWritten(items: seq<Key>, store: Store, bound: Key, n: nat, fault: C.Fault, k: Key)
    requires n > 0 && IsScan(items, store, bound) && k in store && RowOf(k, store[k]).Some?
    ensures var f := C.RowIn(store); var m := C.Flushed(fault, items, f, n);
      && m <= |Scanned(items, f)|
      && (k in C.Keys(items[..C.Swept(fault, items, f, n)]) <==> k in Keys(Scanned(items, f)[..m]))
  {
    var f := C.RowIn(store);
    var m, c := C.Flushed(fault, items, f, n), C.Swept(fault, items, f, n);
    FlushedWithin(fault, items, f, n);
    if k in items {
      ScanDistinct(items, store, bound);
      var j :| 0 <= j < |items| && items[j] == k;
      SweptByPlace(items, f, n, fault, j);
      KeysPrefix(Scanned(items, f), m);
    } else {
      UnscannedStays(items, f, m, c, k);
    }
  }

  lemma ShowsLeft(store: Store, swept: set<Key>, written: seq<Key>, fails: Key -> bool)
    requires forall k :: k in Shows(store) ==> (k in swept <==> k in written)
    ensures Shows(Without(store, swept, fails)) == Left(Shows(store), written, fails)
  {
    assert forall k :: k in Shows(Without(store, swept, fails)) <==> k in Shows(store) && (k in swept ==> fails(k));
  }

  /** What a pass leaves in the store, as the step machine sees it. */
  lemma StoreLeft(items: seq<Key>, store: Store, bound: Key, n: nat, fault: C.Fault, fails: Key -> bool)
    requires n > 0 && IsScan(items, store, bound)
    ensures var f := C.RowIn(store); var m := C.Flushed(fault, items, f, n);
      && m <= |Scanned(items, f)|
      && Shows(Without(store, C.Keys(items[..C.Swept(fault, items, f, n)]), fails))
         == Left(Shows(store), Keys(Scanned(items, f)[..m]), fails)
  {
    var f := C.RowIn(store);
    var m, c := C.Flushed(fault, items, f, n), C.Swept(fault, items, f, n);
    FlushedWithin(fault, items, f, n);
    forall k | k in Shows(store) ensures k in C.Keys(items[..c]) <==> k in Keys(Scanned(items, f)[..m]) {
      LeavesIffWritten(items, store, bound, n, fault, k);
    }
    ShowsLeft(store, C.Keys(items[..c]), Keys(Scanned(items, f)[..m]), fails);
  }

  /** How a pass ends: with the file published, with nothing to publish, or with an error. */
  function LastAction(ok: bool, rows: Pairs): Action
  {
    if !ok then D.Fail else if rows == [] then D.Finish(true) else D.Publish(true)
  }

  lemma EndRun(n: nat, mid: State, ok: bool, rows: Pairs)
    requires Ready(mid) && (ok ==> mid.written == rows)
    ensures var a := LastAction(ok, rows);
      && D.Enabled(D.PurgePerChunk, n, mid, a)
      && var t := D.Next(D.PurgePerChunk, n, mid, a);
         && t.phase == D.Idle && t.store == mid.store && t.arrived == mid.arrived
         && t.published == (if ok then mid.published + rows else mid.published)
         && t.interruptions == if ok then mid.interruptions else mid.interruptions + 1
  {
    if ok && rows == [] { assert mid.published + rows == mid.published; }
  }

  lemma BeginRun(n: nat, s: State)
    requires s.phase == D.Idle
    ensures After(n, s, [D.Begin]) == Some(s.(phase := D.Scanning))
  {
    var none: seq<Action> := [];
    assert After(n, s, none) == Some(s);
    AfterSnoc(n, s, none, D.Begin, s);
    assert none + [D.Begin] == [D.Begin];
  }

  /** The pass up to its end: the rows written are out and swept. */
  lemma SweepRun(
    items: seq<Key>, store: Store, bound: Key, n: nat, fault: C.Fault, fails: Key -> bool, s: State)
    returns (acts: seq<Action>, mid: State)
    requires n > 0 && IsScan(items, store, bound)
    requires s.phase == D.Idle && s.buffered == s.written == [] && s.purge == [] && s.store == Shows(store)
    ensures After(n, s, acts) == Some(mid) && Ready(mid)
    ensures mid.arrived == s.arrived && mid.published == s.published && mid.interruptions == s.interruptions
    ensures var f := C.RowIn(store); var m := C.Flushed(fault, items, f, n);
      m <= |Scanned(items, f)| && mid.written == Scanned(items, f)[..m]
    ensures mid.store == Shows(Without(store, C.Keys(items[..C.Swept(fault, items, C.RowIn(store), n)]), fails))
  {
    var f := C.RowIn(store);
    var rows, m := Scanned(items, f), C.Flushed(fault, items, f, n);
    var begun := s.(phase := D.Scanning);
    BeginRun(n, s);
    ScannedWaits(items, store, bound, begun);
    StoreLeft(items, store, bound, n, fault, fails);
    var chunks;
    chunks, mid := ChunksRun(n, begun, rows, m, fails);
    AfterAppend(n, s, [D.Begin], begun, chunks);
    acts := [D.Begin] + chunks;
  }

  lemma SuccessWritesAll(
    r: Result<nat, C.Fault>, items: seq<Key>, store: Store, hot: Store, n: nat, fault: C.Fault, fails: Key -> bool)
    requires n > 0 && C.PassDone(r, items, store, hot, n, fault, fails) && r.Ok?
    ensures C.Flushed(fault, items, C.RowIn(store), n) == |Rows(items, C.RowIn(store))|
  {}

  /**
   * Whatever its fault, a pass takes the step machine from an idle state that shows the store before to one that
   * shows the store after; it publishes the scanned rows if it succeeds, and is an interruption if it fails.
   */
  lemma PassIsDeliveryRun(
    r: Result<nat, C.Fault>, items: seq<Key>, store: Store, bound: Key, hot: Store, n: nat, fault: C.Fault,
    fails: Key -> bool, s: State)
    returns (states: seq<State>, acts: seq<Action>, t: State)
    requires n > 0 && IsScan(items, store, bound) && C.PassDone(r, items, store, hot, n, fault, fails)
    requires s.phase == D.Idle && s.buffered == s.written == [] && s.purge == [] && s.store == Shows(store)
    ensures |states| == |acts| + 1 && states[0] == s && states[|acts|] == t
    ensures forall i :: 0 <= i < |acts| ==> D.Step(D.PurgePerChunk, n, states[i], acts[i], states[i + 1])
    ensures t.phase == D.Idle && t.store == Shows(hot) && t.arrived == s.arrived
    ensures t.published == if r.Ok? then s.published + Scanned(items, C.RowIn(store)) else s.published
    ensures t.interruptions == if r.Ok? then s.interruptions else s.interruptions + 1
  {
    var rows := Scanned(items, C.RowIn(store));
    var mid;
    acts, mid := SweepRun(items, store, bound, n, fault, fails, s);
    if r.Ok? {
      SuccessWritesAll(r, items, store, hot, n, fault, fails);
      assert rows[..|rows|] == rows;
    }
    EndRun(n, mid, r.Ok?, rows);
    AfterSnoc(n, s, acts, LastAction(r.Ok?, rows), mid);
    t := D.Next(D.PurgePerChunk, n, mid, LastAction(r.Ok?, rows));
    acts := acts + [LastAction(r.Ok?, rows)];
    states := AfterIsRun(n, s, acts, t);
  }
}
