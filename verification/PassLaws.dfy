/** What one compaction pass means for the rows it meets: the filter it refines, and what a failed pass loses. */
module PassLaws {
  import opened Bytes
  import opened KeyCodec
  import opened Wrappers
  import opened Samples
  import opened HotStore
  import opened Chunking
  import opened Compaction

  // ----- the filter

  /** Each item with a row has it at the place given by the rows before it, so rows keep scan order and none repeats. */
  lemma {:induction false} RowAt<K, R>(items: seq<K>, f: K -> Option<R>, j: nat)
    requires j < |items| && f(items[j]).Some?
    ensures var r := |Rows(items[..j], f)|; r < |Rows(items, f)| && Rows(items, f)[r] == f(items[j]).value
  {
    RowsStep(items, f, j);
    RowsPrefix(items, f, j + 1);
  }

  /** Conversely, each row comes from an item. */
  lemma {:induction false} RowFrom<K, R>(items: seq<K>, f: K -> Option<R>, r: nat) returns (j: nat)
    requires r < |Rows(items, f)|
    ensures j < |items| && f(items[j]) == Some(Rows(items, f)[r]) && |Rows(items[..j], f)| == r
  {
    var n := |items| - 1;
    if r < |Rows(items[..n], f)| {
      j := RowFrom(items[..n], f, r);
      assert items[..n][..j] == items[..j];
    } else {
      j := n;
    }
  }

  lemma {:induction false} RowsMonotone<K, R>(items: seq<K>, f: K -> Option<R>, i: nat, j: nat)
    requires i <= j <= |items|
    ensures |Rows(items[..i], f)| <= |Rows(items[..j], f)|
  {
    RowsPrefix(items[..j], f, i);
    assert items[..j][..i] == items[..i];
  }

  /** No rows come after item `j` exactly when the rows before it are all there are. */
  lemma LastRow<K, R>(items: seq<K>, f: K -> Option<R>, j: nat)
    requires j < |items| && f(items[j]) == None
    ensures |Rows(items[..j], f)| == |Rows(items, f)| <==> forall i :: j < i < |items| ==> f(items[i]) == None
  {
    RowsPrefix(items, f, j);
    var r := |Rows(items[..j], f)|;
    if r < |Rows(items, f)| {
      var i := RowFrom(items, f, r);
      if i < j {
        RowsStep(items, f, i);
        RowsMonotone(items, f, i + 1, j);
      }
    } else {
      forall i | j < i < |items| ensures f(items[i]) == None {
        RowsMonotone(items, f, j, i);
        if f(items[i]).Some? { RowAt(items, f, i); }
      }
    }
  }

  /** Over a store the writer filled, the scan is exactly the expired samples, and all of it decodes. */
  lemma ScanIsExpiredSet(items: seq<Key>, store: Store, cutoff: u64, ts: u64, seqNo: u32, name: Utf8)
    requires IsScan(items, store, CutoffPrefix(cutoff)) && EncodeKey(ts, seqNo, name) in store
    ensures EncodeKey(ts, seqNo, name) in items <==> ts < cutoff
    ensures RowIn(store)(EncodeKey(ts, seqNo, name)).Some?
  {
    CutoffExact(ts, seqNo, name, cutoff);
    KeyRoundTrip(ts, seqNo, name);
  }

  /** A stored observation is scanned exactly when it was captured before the cutoff. */
  lemma ScanIsByCaptureTime(items: seq<Key>, store: Store, cutoff: u64, e: MetricEntry, seqNo: u32)
    requires IsScan(items, store, CutoffPrefix(cutoff)) && cutoff > 0
    requires EncodeKey(EntryMicros(e), seqNo, e.name) in store
    ensures EncodeKey(EntryMicros(e), seqNo, e.name) in items <==> e.timestamp < 1000 * cutoff
  {
    ScanIsExpiredSet(items, store, cutoff, EntryMicros(e), seqNo, e.name);
    MicrosKeepTime(e, e, cutoff);
  }

  // ----- which keys a pass sweeps

  lemma SweptByIndex(items: seq<Key>, store: Store, bound: Key, c: nat, fails: Key -> bool, j: nat)
    requires IsScan(items, store, bound) && c <= |items| && j < |items|
    ensures items[j] in Without(store, Keys(items[..c]), fails) <==> j >= c || fails(items[j])
  {
    ScanDistinct(items, store, bound);
    assert items[j] in items;
    assert j < c ==> items[..c][j] == items[j];
  }

  /** A decodable item is swept exactly when its row was among those written. */
  lemma SweptRow(fault: Fault, items: seq<Key>, f: Key -> Option<Row>, n: nat, j: nat)
    requires n > 0 && j < |items| && f(items[j]).Some?
    ensures j < Swept(fault, items, f, n) <==> |Rows(items[..j], f)| < Flushed(fault, items, f, n)
  {
    RowAt(items, f, j);
    ReachIff(items, f, Flushed(fault, items, f, n), j);
  }

  /** An item without a row is swept along with the rows that follow it, or with the partial last chunk. */
  lemma SweptUndecodable(items: seq<Key>, f: Key -> Option<Row>, n: nat, fault: Fault, j: nat)
    requires n > 0 && j < |items| && f(items[j]) == None && Flushed(fault, items, f, n) == |Rows(items, f)|
    ensures j >= Swept(fault, items, f, n) <==>
            && (forall i :: j < i < |items| ==> f(items[i]) == None)
            && Whole(|Rows(items[..j], f)|, n) == |Rows(items[..j], f)|
  {
    var all := |Rows(items, f)|;
    ReachIff(items, f, all, j);
    LastRow(items, f, j);
    RowsPrefix(items, f, j);
  }

  // ----- successful passes

  /** Nothing at or above the bound is touched, whatever happens to the pass. */
  lemma AboveBoundUntouched(items: seq<Key>, store: Store, bound: Key, c: nat, fails: Key -> bool, k: Key)
    requires IsScan(items, store, bound) && c <= |items| && k in store && !Less(k, bound)
    ensures k in Without(store, Keys(items[..c]), fails) && Without(store, Keys(items[..c]), fails)[k] == store[k]
  {}

  /**
   * After a successful pass, an undecodable key below the bound is still there exactly when no decodable
   * key follows it and those before it fill whole chunks, or when its removal was refused.
   */
  lemma UndecodableSurvives(
    items: seq<Key>, store: Store, bound: Key, n: nat, fault: Fault, fails: Key -> bool, after: Store, j: nat)
    requires n > 0 && IsScan(items, store, bound) && j < |items| && !Decodable(items[j])
    requires PassDone(Ok(|Rows(items, RowIn(store))|), items, store, after, n, fault, fails)
    ensures items[j] in after <==>
            || fails(items[j])
            || ((forall i :: j < i < |items| ==> !Decodable(items[i]))
                && |Rows(items[..j], RowIn(store))| % n == 0)
  {
    var f := RowIn(store);
    forall i | 0 <= i < |items| ensures f(items[i]).Some? <==> Decodable(items[i]) { assert items[i] in items; }
    SweptUndecodable(items, f, n, fault, j);
    SweptByIndex(items, store, bound, Swept(fault, items, f, n), fails, j);
  }

  /** The chunk size shows neither in the count nor in which decodable keys are left. */
  lemma ChunkSizeInvisible(
    items: seq<Key>, store: Store, bound: Key, fails: Key -> bool, k: Key,
    n1: nat, fault1: Fault, r1: Result<nat, Fault>, after1: Store,
    n2: nat, fault2: Fault, r2: Result<nat, Fault>, after2: Store)
    requires n1 > 0 && n2 > 0 && IsScan(items, store, bound) && Decodable(k)
    requires r1.Ok? && PassDone(r1, items, store, after1, n1, fault1, fails)
    requires r2.Ok? && PassDone(r2, items, store, after2, n2, fault2, fails)
    ensures r1 == r2
    ensures k in after1 <==> k in after2
    ensures k in after1 <==> k in store && (k in items ==> fails(k))
  {
    DecodableLeft(items, store, bound, fails, k, n1, fault1, r1, after1);
    DecodableLeft(items, store, bound, fails, k, n2, fault2, r2, after2);
  }

  lemma DecodableLeft(
    items: seq<Key>, store: Store, bound: Key, fails: Key -> bool, k: Key,
    n: nat, fault: Fault, r: Result<nat, Fault>, after: Store)
    requires n > 0 && IsScan(items, store, bound) && Decodable(k)
    requires r.Ok? && PassDone(r, items, store, after, n, fault, fails)
    ensures k in after <==> k in store && (k in items ==> fails(k))
  {
    var f := RowIn(store);
    var c := Swept(fault, items, f, n);
    if k in items {
      var j :| 0 <= j < |items| && items[j] == k;
      RowAt(items, f, j);
      SweptRow(fault, items, f, n, j);
      SweptByIndex(items, store, bound, c, fails, j);
    } else {
      assert k !in Keys(items[..c]);
    }
  }

  // ----- which faults fail a pass, and how far it got

  /**
   * A pass fails exactly if its fault is met: an error of the iterator at an item of the scan; an error on opening,
   * closing or renaming, if a decodable key is expired; an error on writing chunk `c`, if more than `c` chunks are due.
   */
  lemma FailsIff(
    r: Result<nat, Fault>, items: seq<Key>, store: Store, bound: Key, after: Store, n: nat, fault: Fault,
    fails: Key -> bool)
    requires n > 0 && IsScan(items, store, bound) && PassDone(r, items, store, after, n, fault, fails)
    ensures r.Err? <==>
            || (fault.ScanFault? && fault.at < |items|)
            || (fault.WriteFault? && n * fault.chunk < |Rows(items, RowIn(store))|)
            || (&& (fault == OpenFault || fault == CloseFault || fault == RenameFault)
                && exists k :: k in items && Decodable(k))
  {
    var f := RowIn(store);
    if k :| k in items && Decodable(k) {
      var j :| 0 <= j < |items| && items[j] == k;
      RowAt(items, f, j);
    }
    if Rows(items, f) != [] {
      var j := RowFrom(items, f, 0);
      assert items[j] in items;
    }
  }

  /** The rows a failed pass wrote: whole chunks before the fault, or all of them if it was met after the scan. */
  lemma WrittenBeforeFault(fault: Fault, items: seq<Key>, f: Key -> Option<Row>, n: nat)
    requires n > 0 && Strikes(fault, items, f, n)
    ensures var m := Flushed(fault, items, f, n);
      && (fault == OpenFault ==> m == 0)
      && (fault.ScanFault? ==> m == n * (|Rows(items[..fault.at], f)| / n))
      && (fault.WriteFault? ==> m == n * fault.chunk)
      && (fault == CloseFault || fault == RenameFault ==> m == |Rows(items, f)|)
  {}

  // ----- failed passes: at-least-once delivery and when it breaks

  /**
   * A failed pass publishes nothing; the expired rows it loses are exactly those written whose removal went
   * through.
   */
  lemma FailedPassLoses(
    items: seq<Key>, store: Store, bound: Key, n: nat, fault: Fault, fails: Key -> bool, after: Store, j: nat)
    requires n > 0 && IsScan(items, store, bound) && Strikes(fault, items, RowIn(store), n)
    requires PassDone(Err(fault), items, store, after, n, fault, fails)
    requires j < |items| && Decodable(items[j])
    ensures items[j] !in after <==>
            |Rows(items[..j], RowIn(store))| < Flushed(fault, items, RowIn(store), n) && !fails(items[j])
  {
    assert items[j] in items;
    SweptRow(fault, items, RowIn(store), n, j);
    SweptByIndex(items, store, bound, Swept(fault, items, RowIn(store), n), fails, j);
  }

  /**
   * The undecodable keys that a failed pass removes: those that some written row follows, and, once a partial last
   * chunk was written, all of them.
   */
  lemma FailedPassRemovesUndecodable(
    items: seq<Key>, store: Store, bound: Key, n: nat, fault: Fault, fails: Key -> bool, after: Store, j: nat)
    requires n > 0 && IsScan(items, store, bound) && Strikes(fault, items, RowIn(store), n)
    requires PassDone(Err(fault), items, store, after, n, fault, fails)
    requires j < |items| && !Decodable(items[j])
    ensures var m := Flushed(fault, items, RowIn(store), n);
      items[j] !in after <==>
      && !fails(items[j])
      && (|Rows(items[..j], RowIn(store))| < m || (m == |Rows(items, RowIn(store))| && m % n != 0))
  {
    var f := RowIn(store);
    assert items[j] in items;
    var m := Flushed(fault, items, f, n);
    ReachIff(items, f, m, j);
    SweptByIndex(items, store, bound, Swept(fault, items, f, n), fails, j);
  }

  /** The fault strikes before the first chunk has been written. */
  predicate BeforeFirstFlush(fault: Fault, items: seq<Key>, f: Key -> Option<Row>, n: nat)
  {
    match fault
    case NoFault => false
    case OpenFault => true
    case ScanFault(at) => at < |items| ==> |Rows(items[..at], f)| < n
    case WriteFault(chunk) => chunk == 0
    case _ => false
  }

  lemma FlushedNothingIff(fault: Fault, items: seq<Key>, f: Key -> Option<Row>, n: nat)
    requires n > 0 && Strikes(fault, items, f, n)
    ensures Flushed(fault, items, f, n) == 0 <==> BeforeFirstFlush(fault, items, f, n)
  {}

  /** Every expired row whose chunk was written still has its key, because the removal was refused. */
  ghost predicate WrittenAllRefused(fault: Fault, items: seq<Key>, f: Key -> Option<Row>, n: nat, fails: Key -> bool)
    requires n > 0
  {
    forall j :: 0 <= j < |items| && f(items[j]).Some? && |Rows(items[..j], f)| < Flushed(fault, items, f, n) ==>
      fails(items[j])
  }

  /**
   * The documentation promises that every expired row stays hot or reaches an export. The code removes
   * keys chunk by chunk before it renames, so a failed pass, which publishes nothing, keeps the promise if and only
   * if every row it wrote had its removal refused: without refusals, if it fails before its first chunk is written.
   */
  lemma AtLeastOnceIff(
    items: seq<Key>, store: Store, bound: Key, n: nat, fault: Fault, fails: Key -> bool, after: Store)
    requires n > 0 && IsScan(items, store, bound) && Strikes(fault, items, RowIn(store), n)
    requires PassDone(Err(fault), items, store, after, n, fault, fails)
    ensures (forall j :: 0 <= j < |items| && Decodable(items[j]) ==> items[j] in after) <==>
            WrittenAllRefused(fault, items, RowIn(store), n, fails)
    ensures (forall k :: k in items ==> !fails(k)) ==>
              (WrittenAllRefused(fault, items, RowIn(store), n, fails) <==>
               BeforeFirstFlush(fault, items, RowIn(store), n))
  {
    var f := RowIn(store);
    forall j | 0 <= j < |items|
      ensures Decodable(items[j]) <==> f(items[j]).Some?
      ensures Decodable(items[j]) ==>
                (items[j] !in after <==> |Rows(items[..j], f)| < Flushed(fault, items, f, n) && !fails(items[j]))
    {
      assert items[j] in items;
      if Decodable(items[j]) { FailedPassLoses(items, store, bound, n, fault, fails, after, j); }
    }
    if forall k :: k in items ==> !fails(k) { RefusedIffNothingWritten(items, f, n, fault, fails); }
  }

  lemma RefusedIffNothingWritten(items: seq<Key>, f: Key -> Option<Row>, n: nat, fault: Fault, fails: Key -> bool)
    requires n > 0 && Strikes(fault, items, f, n) && forall k :: k in items ==> !fails(k)
    ensures WrittenAllRefused(fault, items, f, n, fails) <==> BeforeFirstFlush(fault, items, f, n)
  {
    FlushedNothingIff(fault, items, f, n);
    if Flushed(fault, items, f, n) > 0 {
      FlushedWithin(fault, items, f, n);
      var j := RowFrom(items, f, 0);
      assert items[j] in items;
    }
  }

  lemma FlushedWithin(fault: Fault, items: seq<Key>, f: Key -> Option<Row>, n: nat)
    requires n > 0
    ensures Flushed(fault, items, f, n) <= |Rows(items, f)|
  {
    if fault.ScanFault? && fault.at < |items| { RowsPrefix(items, f, fault.at); }
  }

  // ----- memory held by a pass

  lemma {:induction false} RowsOfAll<K, R>(items: seq<K>, f: K -> Option<R>)
    ensures |Rows(items, f)| == |items| <==> forall k :: k in items ==> f(k).Some?
  {
    if items == [] {
    } else {
      var n := |items| - 1;
      assert items == items[..n] + [items[n]];
      RowsOfAll(items[..n], f);
    }
  }

  lemma {:induction false} RowsAppend<K, R>(a: seq<K>, b: seq<K>, f: K -> Option<R>)
    ensures Rows(a + b, f) == Rows(a, f) + Rows(b, f)
  {
    if b == [] {
      assert a + b == a;
    } else {
      assert (a + b)[..|a + b| - 1] == a + b[..|b| - 1];
      RowsAppend(a, b[..|b| - 1], f);
    }
  }

  lemma {:induction false} RowsWithinReach<K, R>(items: seq<K>, f: K -> Option<R>, m: nat)
    requires m <= |Rows(items, f)|
    ensures |Rows(items[..Reach(items, f, m)], f)| == m
  {
    if items != [] && m > 0 {
      var front := items[..|items| - 1];
      if m <= |Rows(front, f)| {
        RowsWithinReach(front, f, m);
        assert front[..Reach(front, f, m)] == items[..Reach(front, f, m)];
      } else {
        assert items[..|items|] == items;
      }
    }
  }

  /**
   * The keys waiting for removal include those of the buffered rows, and are just those exactly when all of them
   * decode.
   */
  lemma KeysHeld<K, R>(
    items: seq<K>, f: K -> Option<R>, i: nat, written: seq<R>, buffered: seq<R>, unswept: seq<K>)
    requires State(items, f, i, written, buffered, unswept)
    ensures |Rows(unswept, f)| == |buffered| <= |unswept|
    ensures |unswept| == |buffered| <==> forall k :: k in unswept ==> f(k).Some?
  {
    var c := Reach(items, f, |written|);
    RowsPrefix(items, f, i);
    RowsWithinReach(items, f, |written|);
    assert items[..i] == items[..c] + items[c..i];
    RowsAppend(items[..c], items[c..i], f);
    RowsOfAll(unswept, f);
  }

  /** Rows that a pass in chunks of `n` buffers after `i` items. */
  function RowsHeldAt<K, R>(items: seq<K>, f: K -> Option<R>, n: nat, i: nat): (rows: nat)
    requires n > 0 && i <= |items|
    ensures rows < n
  {
    |Rows(items[..i], f)| - Whole(|Rows(items[..i], f)|, n)
  }

  /** Keys that it holds for removal at that point. */
  function KeysHeldAt<K, R>(items: seq<K>, f: K -> Option<R>, n: nat, i: nat): int
    requires n > 0 && i <= |items|
  {
    i - Reach(items, f, Whole(|Rows(items[..i], f)|, n))
  }

  /** A running pass holds that many rows and keys. */
  lemma RunningHolds(
    items: seq<Key>, base: Store, f: Key -> Option<Row>, i: nat, pending: PendingBatch, written: seq<Row>,
    partition: Partition, n: nat, fault: Fault, chunk: nat, started: bool)
    requires n > 0 && Running(items, base, f, i, pending, written, partition)
    requires Progress(items, f, n, fault, i, chunk, |written|, pending.Len(), started)
    ensures pending.Len() == RowsHeldAt(items, f, n, i) && |pending.removals| == KeysHeldAt(items, f, n, i)
  {
    WholeIs(|Rows(items[..i], f)|, chunk, n);
  }

  lemma StateAt<K, R>(items: seq<K>, f: K -> Option<R>, n: nat, i: nat)
    returns (written: seq<R>, buffered: seq<R>, unswept: seq<K>)
    requires n > 0 && i <= |items|
    ensures State(items, f, i, written, buffered, unswept)
    ensures |buffered| == RowsHeldAt(items, f, n, i) && |unswept| == KeysHeldAt(items, f, n, i)
  {
    var rows := Rows(items[..i], f);
    var w := Whole(|rows|, n);
    if i < |items| { ReachIff(items, f, w, i); }
    written, buffered, unswept := rows[..w], rows[w..], items[Reach(items, f, w)..i];
  }

  /**
   * The documentation bounds the memory of a pass by one chunk. Rows keep to that. Keys keep to the rows at every
   * point of the scan if and only if every scanned key decodes.
   */
  lemma KeysKeepToRowsIff<K, R>(items: seq<K>, f: K -> Option<R>, n: nat)
    requires n > 0
    ensures forall i :: 0 <= i <= |items| ==> RowsHeldAt(items, f, n, i) < n
    ensures (forall i :: 0 <= i <= |items| ==> KeysHeldAt(items, f, n, i) == RowsHeldAt(items, f, n, i)) <==>
            forall k :: k in items ==> f(k).Some?
  {
    if k :| k in items && f(k) == None {
      var j :| 0 <= j < |items| && items[j] == k;
      UndecodableIsHeld(items, f, n, j);
    } else {
      forall i | 0 <= i <= |items| ensures KeysHeldAt(items, f, n, i) == RowsHeldAt(items, f, n, i) {
        var written, buffered, unswept := StateAt(items, f, n, i);
        KeysHeld(items, f, i, written, buffered, unswept);
      }
    }
  }

  lemma UndecodableIsHeld<K, R>(items: seq<K>, f: K -> Option<R>, n: nat, j: nat)
    requires n > 0 && j < |items| && f(items[j]) == None
    ensures KeysHeldAt(items, f, n, j + 1) > RowsHeldAt(items, f, n, j + 1)
  {
    var written, buffered, unswept := StateAt(items, f, n, j + 1);
    KeysHeld(items, f, j + 1, written, buffered, unswept);
    RowsStep(items, f, j);
    var w := Whole(|Rows(items[..j + 1], f)|, n);
    ReachIff(items, f, w, j);
    assert unswept[j - Reach(items, f, w)] == items[j];
  }

  /** A key without any separator, made of `i + 1` zero bytes. */
  function ZeroKey(i: nat): Key { seq(i + 1, k => 0) }

  lemma {:induction false} ZeroKeysAscend(i: nat, j: nat)
    requires i < j
    ensures Less(ZeroKey(i), ZeroKey(j))
  {
    if i == 0 {
      assert ZeroKey(0)[1..] == [];
    } else {
      assert ZeroKey(i)[1..] == ZeroKey(i - 1) && ZeroKey(j)[1..] == ZeroKey(j - 1);
      ZeroKeysAscend(i - 1, j - 1);
    }
  }

  lemma {:induction false} NoRows<K, R>(items: seq<K>, f: K -> Option<R>)
    requires forall k :: k in items ==> f(k) == None
    ensures Rows(items, f) == []
  {
    if items == [] {
    } else {
      assert items == items[..|items| - 1] + [items[|items| - 1]];
      NoRows(items[..|items| - 1], f);
    }
  }

  function ZeroKeys(m: nat): (items: seq<Key>)
    ensures |items| == m && forall i :: 0 <= i < m ==> items[i] == ZeroKey(i)
  {
    seq(m, i requires 0 <= i < m => ZeroKey(i))
  }

  function Filled(items: seq<Key>, v: Payload): Store { map k | k in items :: v }

  lemma ZeroKeysScan(m: nat, v: Payload)
    ensures IsScan(ZeroKeys(m), Filled(ZeroKeys(m), v), CutoffPrefix(1))
    ensures forall k :: k in ZeroKeys(m) ==> RowIn(Filled(ZeroKeys(m), v))(k) == None
  {
    var items := ZeroKeys(m);
    forall i, j | 0 <= i < j < m ensures Less(items[i], items[j]) { ZeroKeysAscend(i, j); }
    forall k | k in items ensures Less(k, CutoffPrefix(1)) && !Decodable(k) {
      var i :| 0 <= i < m && items[i] == k;
      ZeroKeyIsUndecodable(i);
    }
  }

  /** So the memory has no bound: for every `m` there is a store over which a pass comes to hold `m` keys and no row. */
  lemma KeysWithoutBound(m: nat, v: Payload, n: nat) returns (items: seq<Key>, store: Store)
    requires n > 0
    ensures IsScan(items, store, CutoffPrefix(1)) && |items| == m
    ensures KeysHeldAt(items, RowIn(store), n, m) == m && RowsHeldAt(items, RowIn(store), n, m) == 0
  {
    items, store := ZeroKeys(m), Filled(ZeroKeys(m), v);
    ZeroKeysScan(m, v);
    NothingWritten(items, RowIn(store), n);
  }

  lemma NothingWritten<K, R>(items: seq<K>, f: K -> Option<R>, n: nat)
    requires n > 0 && forall k :: k in items ==> f(k) == None
    ensures KeysHeldAt(items, f, n, |items|) == |items| && RowsHeldAt(items, f, n, |items|) == 0
  {
    NoRows(items, f);
    assert items[..|items|] == items;
  }

  lemma ZeroKeyIsUndecodable(i: nat)
    ensures !Decodable(ZeroKey(i)) && Less(ZeroKey(i), CutoffPrefix(1))
  {
    Widths();
    HexReadsBack(1, 16);
    assert DigitValue(CutoffPrefix(1)[0]).Some?;
    assert COLON !in ZeroKey(i);
    assert Find(ZeroKey(i), COLON) == |ZeroKey(i)|;
  }

  /** The same single key shows that an undecodable key can outlive every pass. */
  lemma UndecodableOutlives(v: Payload, n: nat, fails: Key -> bool)
    requires n > 0
    ensures var k := ZeroKey(0); var store: Store := map[k := v];
      && !Decodable(k) && IsScan([k], store, CutoffPrefix(1))
      && PassDone(Ok(0), [k], store, store, n, NoFault, fails)
  {
    var k := ZeroKey(0);
    var store: Store := map[k := v];
    ZeroKeyIsUndecodable(0);
    NoRows([k], RowIn(store));
    assert Keys([k][..0]) == {};
    assert Without(store, {}, fails) == store;
  }
}
