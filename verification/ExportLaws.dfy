/**
 * At-least-once delivery of a whole pass, exports included: which rows of the hot store and of earlier exports
 * are still somewhere after it (src/storage/parquet_exporter.rs). Export names have a resolution of one second.
 */
module ExportLaws {
  import opened Bytes
  import opened KeyCodec
  import opened Wrappers
  import opened Samples
  import opened HotStore
  import opened Chunking
  import opened Compaction
  import opened PassLaws
  import opened ColdFiles

  type Files = map<FileName, seq<Row>>

  /** A finished export holds the row. */
  ghost predicate InExport(files: Files, row: Row)
  {
    exists g :: g in files && Eligible(g) && row in files[g]
  }

  /** The pass publishes rows under the name of an earlier export. */
  predicate Clobbers(ok: bool, before: Files, final: FileName, rows: seq<Row>)
  {
    ok && rows != [] && final in before
  }

  // ----- earlier exports

  /** An earlier export is still there, unchanged, unless a successful pass gave its name to other rows. */
  lemma EarlierExportKeptIff(
    ok: bool, before: Files, after: Files, tmp: FileName, final: FileName, rows: seq<Row>, g: FileName)
    requires DirAfter(ok, before, after, tmp, final, rows) && g in before && g != tmp
    ensures (g in after && after[g] == before[g]) <==>
            !(Clobbers(ok, before, final, rows) && g == final && before[g] != rows)
  {
    assert g in after - {tmp} <==> g in after;
  }

  /** In terms of the clock: the only export at risk is one stamped in the second in which this pass ends. */
  lemma EarlierStampKept(
    ok: bool, before: Files, after: Files, started: Time, closed: Time, rows: seq<Row>, earlier: Time)
    requires started.Valid() && closed.Valid() && earlier.Valid() && FinalName(Stamp(earlier)) in before
    requires DirAfter(ok, before, after, TempName(Stamp(started)), FinalName(Stamp(closed)), rows)
    ensures var g := FinalName(Stamp(earlier));
      (g in after && after[g] == before[g]) <==> !(ok && rows != [] && earlier == closed && before[g] != rows)
  {
    var g := FinalName(Stamp(earlier));
    NamesSortByTime(earlier, closed);
    TempIsHidden(Stamp(started));
    FinalIsEligible(Stamp(earlier));
    EarlierExportKeptIff(ok, before, after, TempName(Stamp(started)), FinalName(Stamp(closed)), rows, g);
  }

  /** A row already exported stays exported unless its only copies were in a replaced file. */
  lemma EarlierRowKeptIff(
    ok: bool, before: Files, after: Files, tmp: FileName, final: FileName, rows: seq<Row>, row: Row)
    requires DirAfter(ok, before, after, tmp, final, rows) && !Eligible(tmp) && Eligible(final)
    requires InExport(before, row)
    ensures InExport(after, row) <==>
            !Clobbers(ok, before, final, rows) || row in rows || InExport(before - {final}, row)
  {
    var g :| g in before && Eligible(g) && row in before[g];
    EarlierExportKeptIff(ok, before, after, tmp, final, rows, g);
    if Clobbers(ok, before, final, rows) {
      assert after == (before - {tmp})[final := rows];
      forall h | h in after && h != final ensures h in before - {final} && (before - {final})[h] == after[h] {}
      forall h | h in before - {final} && Eligible(h) ensures h in after && after[h] == before[h] {}
    } else if g == final {
      assert g in after && after[g] == before[g];
    }
  }

  // ----- the whole promise

  /** The expired row of item `j` is still in the store, or this pass published it. */
  ghost predicate RowKept(ok: bool, items: seq<Key>, store: Store, hot: Store, files: Files, final: FileName, j: nat)
    requires j < |items|
  {
    var row := RowIn(store)(items[j]);
    items[j] in hot || (ok && final in files && row.Some? && row.value in files[final])
  }

  /** Every expired row and every earlier export is still there after the pass. */
  ghost predicate AllKept(
    ok: bool, items: seq<Key>, store: Store, hot: Store, before: Files, after: Files, tmp: FileName, final: FileName)
  {
    && (forall j: nat :: j < |items| && Decodable(items[j]) ==> RowKept(ok, items, store, hot, after, final, j))
    && (forall g :: g in before && g != tmp ==> g in after && after[g] == before[g])
  }

  lemma PublishedRow(items: seq<Key>, store: Store, bound: Key, j: nat)
    requires IsScan(items, store, bound) && j < |items| && Decodable(items[j])
    ensures var f := RowIn(store); f(items[j]).Some? && f(items[j]).value in Rows(items, f)
  {
    assert items[j] in items;
    RowAt(items, RowIn(store), j);
  }

  lemma SuccessKeepsRows(
    items: seq<Key>, store: Store, bound: Key, hot: Store, before: Files, after: Files, tmp: FileName, final: FileName)
    requires IsScan(items, store, bound) && Published(before, after, tmp, final, Rows(items, RowIn(store)))
    ensures forall j: nat :: j < |items| && Decodable(items[j]) ==> RowKept(true, items, store, hot, after, final, j)
  {
    forall j: nat | j < |items| && Decodable(items[j]) ensures RowKept(true, items, store, hot, after, final, j) {
      PublishedRow(items, store, bound, j);
    }
  }

  /**
   * When a pass delivers at least once. A successful one does if and only if it replaces no earlier export (of other
   * rows); a failed one if and only if every row it wrote had its removal refused. Refusals and successful passes
   * included.
   */
  lemma PassDeliversIff(
    r: Result<nat, Fault>, items: seq<Key>, store: Store, bound: Key, hot: Store, n: nat, fault: Fault,
    fails: Key -> bool, before: Files, after: Files, tmp: FileName, final: FileName)
    requires n > 0 && IsScan(items, store, bound) && PassDone(r, items, store, hot, n, fault, fails) && tmp != final
    requires DirAfter(r.Ok?, before, after, tmp, final, Rows(items, RowIn(store)))
    ensures var rows := Rows(items, RowIn(store));
      AllKept(r.Ok?, items, store, hot, before, after, tmp, final) <==>
      if r.Ok? then Clobbers(true, before, final, rows) ==> before[final] == rows
      else WrittenAllRefused(fault, items, RowIn(store), n, fails)
  {
    var rows := Rows(items, RowIn(store));
    forall g | g in before && g != tmp
      ensures (g in after && after[g] == before[g]) <==>
              !(Clobbers(r.Ok?, before, final, rows) && g == final && before[g] != rows)
    {
      EarlierExportKeptIff(r.Ok?, before, after, tmp, final, rows, g);
    }
    if r.Ok? {
      SuccessKeepsRows(items, store, bound, hot, before, after, tmp, final);
    } else {
      AtLeastOnceIff(items, store, bound, n, fault, fails, hot);
    }
  }

  // ----- runs that lose a row

  lemma SingleScan(k: Key, v: Payload, bound: Key)
    requires Less(k, bound)
    ensures IsScan([k], map[k := v], bound)
  {}

  lemma SingleRow(k: Key, f: Key -> Option<Row>, n: nat)
    requires n > 0 && f(k).Some?
    ensures Rows([k], f) == [f(k).value] && Swept(NoFault, [k], f, n) == 1
  {
    assert [k][..0] == [] && [k][..1] == [k];
    RowsStep([k], f, 0);
    ReachIff([k], f, 1, 0);
  }

  /** A pass over one expired sample exports it and empties the store. */
  lemma SinglePass(k: Key, v: Payload, n: nat)
    requires n > 0 && RowOf(k, v).Some?
    ensures var store: Store := map[k := v];
      && Rows([k], RowIn(store)) == [RowOf(k, v).value]
      && PassDone(Ok(1), [k], store, map[], n, NoFault, k => false)
  {
    var store: Store := map[k := v];
    SingleRow(k, RowIn(store), n);
    assert k in Keys([k][..1]) by { assert [k][..1][0] == k; }
    assert Without(store, Keys([k][..1]), k => false) == map[];
  }

  /**
   * Two successful passes that end in one second: the sample of the first is then in no export, nor in the store.
   * `e` and `d` are any two observations of different names captured before the cutoff.
   */
  lemma OneSecondLosesARow(e: MetricEntry, d: MetricEntry, q: u32, cutoff: u64, n: nat, started: Time, closed: Time)
    requires n > 0 && started.Valid() && closed.Valid() && e.name != d.name
    requires EntryMicros(e) < cutoff && EntryMicros(d) < cutoff
    ensures
      var k1, k2 := EncodeKey(EntryMicros(e), q, e.name), EncodeKey(EntryMicros(d), q, d.name);
      var v1, v2 := EncodeValue(e), EncodeValue(d);
      var r1, r2 := RowOf(k1, v1), RowOf(k2, v2);
      var tmp, final := TempName(Stamp(started)), FinalName(Stamp(closed));
      && r1.Some? && r2.Some?
      && IsScan([k1], map[k1 := v1], CutoffPrefix(cutoff)) && IsScan([k2], map[k2 := v2], CutoffPrefix(cutoff))
      && PassDone(Ok(1), [k1], map[k1 := v1], map[], n, NoFault, k => false)
      && PassDone(Ok(1), [k2], map[k2 := v2], map[], n, NoFault, k => false)
      && DirAfter(true, map[], map[final := [r1.value]], tmp, final, Rows([k1], RowIn(map[k1 := v1])))
      && DirAfter(
           true, map[final := [r1.value]], map[final := [r2.value]], tmp, final, Rows([k2], RowIn(map[k2 := v2])))
      && InExport(map[final := [r1.value]], r1.value) && !InExport(map[final := [r2.value]], r1.value)
  {
    var k1, k2 := EncodeKey(EntryMicros(e), q, e.name), EncodeKey(EntryMicros(d), q, d.name);
    var v1, v2 := EncodeValue(e), EncodeValue(d);
    var first := RowOfStoredEntry(e, q, k1, v1);
    var second := RowOfStoredEntry(d, q, k2, v2);
    CutoffExact(EntryMicros(e), q, e.name, cutoff);
    CutoffExact(EntryMicros(d), q, d.name, cutoff);
    SingleScan(k1, v1, CutoffPrefix(cutoff));
    SingleScan(k2, v2, CutoffPrefix(cutoff));
    SinglePass(k1, v1, n);
    SinglePass(k2, v2, n);
    ReplacedFile(TempName(Stamp(started)), Stamp(closed), RowOf(k1, v1).value, RowOf(k2, v2).value, started);
  }

  lemma ReplacedFile(tmp: FileName, stamp: Bytestring, r1: Row, r2: Row, started: Time)
    requires started.Valid() && tmp == TempName(Stamp(started)) && r1 != r2
    ensures var final := FinalName(stamp);
      && DirAfter(true, map[], map[final := [r1]], tmp, final, [r1])
      && DirAfter(true, map[final := [r1]], map[final := [r2]], tmp, final, [r2])
      && InExport(map[final := [r1]], r1) && !InExport(map[final := [r2]], r1)
  {
    var final := FinalName(stamp);
    TempIsHidden(Stamp(started));
    FinalIsEligible(stamp);
    var first: Files, second: Files := map[final := [r1]], map[final := [r2]];
    assert (map[] - {tmp})[final := [r1]] == first;
    assert (first - {tmp})[final := [r2]] == second;
    assert final in first && r1 in first[final];
  }

  /** One expired sample and a failing close: afterwards its key is gone and no export holds its row. */
  lemma CloseFaultLosesARow(
    store: Store, cutoff: u64, ts: u64, seqNo: u32, name: Utf8, n: nat,
    before: Files, after: Files, stamp: Bytestring, final: FileName, rows: seq<Row>)
    returns (items: seq<Key>, hot: Store)
    requires n > 0 && ts < cutoff && EncodeKey(ts, seqNo, name) in store
    requires DirAfter(false, before, after, TempName(stamp), final, rows)
    ensures IsScan(items, store, CutoffPrefix(cutoff))
    ensures PassDone(Err(CloseFault), items, store, hot, n, CloseFault, k => false)
    ensures var k := EncodeKey(ts, seqNo, name);
      k in items && k !in hot && forall row :: InExport(after, row) ==> InExport(before, row)
  {
    var k, f := EncodeKey(ts, seqNo, name), RowIn(store);
    items := ScanExists(store, CutoffPrefix(cutoff));
    ScanIsExpiredSet(items, store, cutoff, ts, seqNo, name);
    var j :| 0 <= j < |items| && items[j] == k;
    RowAt(items, f, j);
    hot := Without(store, Keys(items[..Swept(CloseFault, items, f, n)]), k => false);
    FailedPassLoses(items, store, CutoffPrefix(cutoff), n, CloseFault, k => false, hot, j);
    TempIsHidden(stamp);
    forall row | InExport(after, row) ensures InExport(before, row) {
      var g :| g in after && Eligible(g) && row in after[g];
      assert g in after - {TempName(stamp)};
    }
  }
}
