/** One hot-to-cold pass: `run_compaction_once_blocking` and `PendingBatch` of src/storage/parquet_exporter.rs. */
module Compaction {
  import opened Bytes
  import opened KeyCodec
  import opened Wrappers
  import opened Names
  import opened Samples
  import opened HotStore
  import opened Chunking

  /** The step of a pass that fails, if one does. `WriteFault(c)` strikes the `c`-th chunk written. */
  datatype Fault = NoFault | ScanFault(at: nat) | OpenFault | WriteFault(chunk: nat) | CloseFault | RenameFault

  type FileName = Bytestring

  /** The cold directory. */
  class ColdDir {
    var files: map<FileName, seq<Row>>

    constructor (files: map<FileName, seq<Row>>)
      ensures this.files == files
    {
      this.files := files;
    }
  }

  /** An open export: the rows handed so far to the Parquet writer of the temporary file `tmp`. */
  datatype Export = Export(tmp: FileName, rows: seq<Row>)

  function Written(target: Option<Export>): seq<Row> { if target.Some? then target.value.rows else [] }

  function TempName(stamp: Bytestring): FileName
  {
    Ascii(".metrics_cold_") + stamp + Ascii(".parquet.tmp")
  }

  function FinalName(stamp: Bytestring): FileName
  {
    Ascii("metrics_cold_") + stamp + Ascii(".parquet")
  }

  ghost function Keys(items: seq<Key>): set<Key> { set k | k in items }

  /** Column builders of the current chunk, and the keys to remove once it is written. */
  class PendingBatch {
    var ts: seq<nat>
    var names: seq<Utf8>
    var values: seq<real>
    var kinds: seq<Bytestring>
    var labels: seq<map<Bytestring, Json>>
    var removals: seq<Key>

    ghost predicate Valid()
      reads this
    {
      |names| == |ts| && |values| == |ts| && |kinds| == |ts| && |labels| == |ts|
    }

    function Rows(): (rows: seq<Row>)
      reads this
      requires Valid()
      ensures |rows| == |ts|
    {
      seq(|ts|, i requires 0 <= i < |ts| && Valid() reads this => Row(ts[i], names[i], values[i], kinds[i], labels[i]))
    }

    constructor ()
      ensures Valid() && Rows() == [] && removals == []
    {
      ts, names, values, kinds, labels, removals := [], [], [], [], [], [];
    }

    function Len(): nat
      reads this
    {
      |ts|
    }

    method Push(rowTs: nat, name: Utf8, value: real, kind: Bytestring, rowLabels: map<Bytestring, Json>, key: Key)
      requires Valid()
      modifies this
      ensures Valid() && removals == old(removals) + [key]
      ensures Rows() == old(Rows()) + [Exported(Row(rowTs, name, value, kind, rowLabels))]
    {
      ts := ts + [ColumnTime(rowTs)];
      names := names + [name];
      values := values + [value];
      kinds := kinds + [kind];
      labels := labels + [rowLabels];
      removals := removals + [key];
    }

    /** Write the chunk, then remove its keys. Keys gathered without any row are forgotten, not removed. */
    method Flush(
      target: Option<Export>, partition: Partition, writeOk: bool)
      returns (r: Result<nat, ()>, after: Option<Export>)
      requires Valid()
      modifies this, partition`content
      ensures Valid() && Rows() == []
      ensures r == if old(Len()) == 0 || (target.Some? && writeOk) then Ok(old(Len())) else Err(())
      ensures r.Ok? ==> removals == [] && Written(after) == Written(target) + old(Rows())
      ensures after.Some? <==> target.Some?
      ensures after.Some? ==> after.value.tmp == target.value.tmp
      ensures r.Err? ==> after == target
      ensures partition.content ==
              if old(Len()) > 0 && r.Ok?
              then Without(old(partition.content), Keys(old(removals)), partition.removeFails)
              else old(partition.content)
    {
      after := target;
      if Len() == 0 {
        removals := [];
        r := Ok(0);
        return;
      }
      var batch := Rows();
      ts, names, values, kinds, labels := [], [], [], [], [];
      if target == None || !writeOk {
        r := Err(());
        return;
      }
      after := Some(target.value.(rows := target.value.rows + batch));
      RemoveAll(partition);
      r := Ok(|batch|);
    }

    method RemoveAll(partition: Partition)
      modifies this`removals, partition`content
      ensures removals == []
      ensures partition.content == Without(old(partition.content), Keys(old(removals)), partition.removeFails)
    {
      ghost var before := partition.content;
      for j := 0 to |removals|
        modifies partition`content
        invariant partition.content == Without(before, Keys(removals[..j]), partition.removeFails)
      {
        partition.Remove(removals[j]);
        WithoutTwice(before, Keys(removals[..j]), {removals[j]}, partition.removeFails);
        assert Keys(removals[..j + 1]) == Keys(removals[..j]) + {removals[j]};
      }
      assert removals[..|removals|] == removals;
      removals := [];
    }
  }

  lemma WithoutTwice(store: Store, a: set<Key>, b: set<Key>, fails: Key -> bool)
    ensures Without(Without(store, a, fails), b, fails) == Without(store, a + b, fails)
  {}

  // ----- what a pass does, as functions of the scanned keys

  /** The export row of a key of `store`, if it decodes. */
  function RowIn(store: Store): Key -> Option<Row>
  {
    k => if k in store then RowOf(k, store[k]) else None
  }

  /** Whether a pass over `items` meets its fault. */
  predicate Strikes(fault: Fault, items: seq<Key>, f: Key -> Option<Row>, n: nat)
  {
    match fault
    case NoFault => false
    case ScanFault(at) => at < |items|
    case WriteFault(chunk) => n * chunk < |Rows(items, f)|
    case _ => Rows(items, f) != []
  }

  /** Rows written by the time the pass ends. */
  function Flushed(fault: Fault, items: seq<Key>, f: Key -> Option<Row>, n: nat): nat
    requires n > 0
  {
    var all := |Rows(items, f)|;
    match fault
    case OpenFault => 0
    case ScanFault(at) => if at < |items| then Whole(|Rows(items[..at], f)|, n) else all
    case WriteFault(chunk) => if n * chunk < all then n * chunk else all
    case _ => all
  }

  /**
   * How far into the scan the removals reached: past the last chunk written, or to the end once a partial last
   * chunk is.
   */
  function Swept(fault: Fault, items: seq<Key>, f: Key -> Option<Row>, n: nat): (c: nat)
    requires n > 0
    ensures c <= |items|
  {
    var m := Flushed(fault, items, f, n);
    if m == |Rows(items, f)| && Whole(m, n) < m then |items| else Reach(items, f, m)
  }

  /** A pass with rows replaces its temporary file by the final one; a pass without any creates no file. */
  ghost predicate Published(
    before: map<FileName, seq<Row>>, after: map<FileName, seq<Row>>, tmp: FileName, final: FileName, rows: seq<Row>)
  {
    after == if rows == [] then before else (before - {tmp})[final := rows]
  }

  // ----- progress of the scan, on values

  /** After `i` items the fault has not struck, `chunk` chunks are written and `buffered` rows wait. */
  ghost predicate Progress(
    items: seq<Key>, f: Key -> Option<Row>, n: nat, fault: Fault, i: nat, chunk: nat, written: nat, buffered: nat,
    started: bool)
  {
    && i <= |items| && buffered < n && written == n * chunk
    && |Rows(items[..i], f)| == written + buffered
    && (started <==> Rows(items[..i], f) != [])
    && (fault.ScanFault? ==> i <= fault.at)
    && (fault.OpenFault? ==> !started)
    && (fault.WriteFault? ==> chunk <= fault.chunk)
  }

  /** What is known when the scan stops at a fault: only whole chunks were swept. */
  ghost predicate Stopped(items: seq<Key>, f: Key -> Option<Row>, n: nat, fault: Fault, written: nat)
    requires n > 0
  {
    Strikes(fault, items, f, n) && Swept(fault, items, f, n) == Reach(items, f, written)
  }

  /** Whether the fault strikes at item `i`. */
  predicate StrikesHere(fault: Fault, i: nat, row: bool, started: bool, full: bool, chunk: nat)
  {
    fault == ScanFault(i) || (row && !started && fault == OpenFault) || (row && full && fault == WriteFault(chunk))
  }

  lemma Stop(
    items: seq<Key>, f: Key -> Option<Row>, n: nat, fault: Fault, i: nat, chunk: nat, written: nat, buffered: nat,
    started: bool)
    requires Progress(items, f, n, fault, i, chunk, written, buffered, started) && i < |items|
    requires StrikesHere(fault, i, f(items[i]).Some?, started, buffered + 1 == n, chunk)
    ensures Stopped(items, f, n, fault, written)
  {
    RowsStep(items, f, i);
    RowsPrefix(items, f, i + 1);
    WholeIs(written, chunk, n);
    if fault.ScanFault? { WholeIs(written + buffered, chunk, n); }
  }

  lemma Advance(
    items: seq<Key>, f: Key -> Option<Row>, n: nat, fault: Fault, i: nat, chunk: nat, written: nat, buffered: nat,
    started: bool)
    requires Progress(items, f, n, fault, i, chunk, written, buffered, started) && i < |items|
    requires !StrikesHere(fault, i, f(items[i]).Some?, started, buffered + 1 == n, chunk)
    ensures var row := f(items[i]).Some?;
            if row && buffered + 1 == n then Progress(items, f, n, fault, i + 1, chunk + 1, written + n, 0, true)
            else Progress(items, f, n, fault, i + 1, chunk, written, buffered + (if row then 1 else 0), started || row)
  {
    RowsStep(items, f, i);
    assert n * (chunk + 1) == n * chunk + n;
  }

  lemma Turn(
    items: seq<Key>, f: Key -> Option<Row>, n: nat, fault: Fault, i: nat, chunk: nat, written: nat, buffered: nat,
    started: bool)
    requires Progress(items, f, n, fault, i, chunk, written, buffered, started) && i < |items|
    ensures var row := f(items[i]).Some?;
            var full := row && buffered + 1 == n;
            if StrikesHere(fault, i, row, started, full, chunk) then Stopped(items, f, n, fault, written)
            else if full then Progress(items, f, n, fault, i + 1, chunk + 1, written + n, 0, true)
            else Progress(items, f, n, fault, i + 1, chunk, written, buffered + (if row then 1 else 0), started || row)
  {
    if StrikesHere(fault, i, f(items[i]).Some?, started, buffered + 1 == n, chunk) {
      Stop(items, f, n, fault, i, chunk, written, buffered, started);
    } else {
      Advance(items, f, n, fault, i, chunk, written, buffered, started);
    }
  }

  // ----- removals

  /** Sweeping a stretch of the scan continues the sweep of what comes before it. */
  lemma SweepOn(items: seq<Key>, base: Store, c: nat, i: nat, fails: Key -> bool)
    requires c <= i <= |items|
    ensures Without(Without(base, Keys(items[..c]), fails), Keys(items[c..i]), fails) ==
            Without(base, Keys(items[..i]), fails)
  {}

  // ----- the main loop

  /** The objects of a running pass stand for the abstract state. */
  ghost predicate Running(
    items: seq<Key>, base: Store, f: Key -> Option<Row>, i: nat, pending: PendingBatch, written: seq<Row>,
    partition: Partition)
    reads pending, partition
  {
    && pending.Valid()
    && State(items, f, i, written, pending.Rows(), pending.removals)
    && partition.content == Without(base, Keys(items[..Reach(items, f, |written|)]), partition.removeFails)
  }

  /** How a pass reads a stored item. The loop does not look inside it. */
  type Decoder = (Key, Payload) -> Option<Row>

  /** `f` gives the export rows of the items of `base` that `decode` reads. */
  ghost predicate Reads(f: Key -> Option<Row>, base: Store, decode: Decoder)
  {
    forall k :: k in base ==> f(k) == ExportOf(decode(k, base[k]))
  }

  /** One scanned item: an undecodable key joins the removals, a row is buffered and a full chunk flushed. */
  method ScanItem(
    ghost items: seq<Key>, ghost base: Store, ghost f: Key -> Option<Row>, ghost i: nat,
    key: Key, item: Option<Row>, n: nat, writeOk: bool,
    pending: PendingBatch, target: Option<Export>, partition: Partition)
    returns (r: Result<nat, ()>, after: Option<Export>)
    requires i < |items| && Running(items, base, f, i, pending, Written(target), partition) && pending.Len() < n
    requires key == items[i] && f(key) == ExportOf(item)
    requires item.Some? ==> target.Some?
    modifies pending, partition`content
    ensures var full := item.Some? && old(pending.Len()) + 1 == n;
            && r == (if full && !writeOk then Err(()) else Ok(if full then n else 0))
            && (r.Ok? ==>
                  && Running(items, base, f, i + 1, pending, Written(after), partition)
                  && |Written(after)| == |Written(target)| + r.value
                  && pending.Len() == (if full then 0 else old(pending.Len()) + if item.Some? then 1 else 0))
            && (r.Err? ==> partition.content == old(partition.content))
    ensures after.Some? <==> target.Some?
    ensures after.Some? ==> after.value.tmp == target.value.tmp
  {
    Take(items, f, i, Written(target), pending.Rows(), pending.removals);
    after := target;
    if item == None {
      pending.removals := pending.removals + [key];
      r := Ok(0);
      return;
    }
    var row := item.value;
    pending.Push(row.ts, row.name, row.value, row.kind, row.labels, key);
    if pending.Len() < n {
      r := Ok(0);
      return;
    }
    FlushStep(items, base, f, i + 1, pending, Written(target), partition);
    r, after := pending.Flush(target, partition, writeOk);
  }

  /** What a flush right after a decodable item amounts to. */
  lemma FlushStep(
    items: seq<Key>, base: Store, f: Key -> Option<Row>, i: nat, pending: PendingBatch, written: seq<Row>,
    partition: Partition)
    requires Running(items, base, f, i, pending, written, partition)
    requires i > 0 && f(items[i - 1]).Some?
    ensures State(items, f, i, written + pending.Rows(), [], [])
    ensures Without(partition.content, Keys(pending.removals), partition.removeFails) ==
            Without(base, Keys(items[..Reach(items, f, |written + pending.Rows()|)]), partition.removeFails)
  {
    Write(items, f, i, written, pending.Rows(), pending.removals);
    SweepOn(items, base, Reach(items, f, |written|), i, partition.removeFails);
  }

  /** Nothing scanned but not yet swept has left the store. */
  lemma StillThere(items: seq<Key>, base: Store, bound: Key, c: nat, i: nat, fails: Key -> bool)
    requires IsScan(items, base, bound) && c <= i < |items|
    ensures items[i] in base && items[i] in Without(base, Keys(items[..c]), fails)
    ensures Without(base, Keys(items[..c]), fails)[items[i]] == base[items[i]]
  {
    ScanDistinct(items, base, bound);
    assert items[i] in items;
  }

  /** Create the temporary file when the first row turns up. */
  method OpenIfFirst(
    dir: ColdDir, tmp: FileName, target: Option<Export>, row: bool, fault: Fault)
    returns (ok: bool, after: Option<Export>)
    requires target.Some? ==> target.value.tmp == tmp
    modifies dir
    ensures ok <==> !(row && target == None && fault == OpenFault)
    ensures Written(after) == Written(target)
    ensures after.Some? <==> target.Some? || (row && ok)
    ensures after.Some? ==> after.value.tmp == tmp
    ensures dir.files == if after.Some? && target == None then old(dir.files)[tmp := []] else old(dir.files)
  {
    ok, after := true, target;
    if row && target == None {
      if fault == OpenFault {
        ok := false;
        return;
      }
      dir.files := dir.files[tmp := []];
      after := Some(Export(tmp, []));
    }
  }

  /** The iterator's next item: nothing the pass did so far has touched it. */
  method ReadItem(
    partition: Partition, items: seq<Key>, ghost base: Store, ghost f: Key -> Option<Row>, ghost bound: Key, i: nat,
    decode: Decoder,
    ghost pending: PendingBatch, ghost written: seq<Row>)
    returns (item: Option<Row>)
    requires IsScan(items, base, bound) && i < |items| && Running(items, base, f, i, pending, written, partition)
    requires Reads(f, base, decode)
    ensures f(items[i]) == ExportOf(item)
  {
    StillThere(items, base, bound, Reach(items, f, |written|), i, partition.removeFails);
    item := decode(items[i], partition.content[items[i]]);
  }

  /** The rest of a turn, once the file is open where one is needed. */
  method ScanCounted(
    partition: Partition, items: seq<Key>, ghost base: Store, ghost f: Key -> Option<Row>, i: nat, item: Option<Row>,
    n: nat, fault: Fault, pending: PendingBatch, target: Option<Export>, chunk: nat, ghost started: bool)
    returns (ok: bool, after: Option<Export>, chunks: nat, moved: nat)
    requires i < |items| && Running(items, base, f, i, pending, Written(target), partition)
    requires Progress(items, f, n, fault, i, chunk, |Written(target)|, pending.Len(), started)
    requires f(items[i]) == ExportOf(item) && (item.Some? ==> target.Some?)
    requires fault != ScanFault(i) && !(item.Some? && !started && fault == OpenFault)
    modifies partition`content, pending
    ensures ok ==> Running(items, base, f, i + 1, pending, Written(after), partition)
    ensures ok ==> Progress(items, f, n, fault, i + 1, chunks, |Written(after)|, pending.Len(), started || item.Some?)
    ensures !ok ==> Stopped(items, f, n, fault, |Written(target)|) && partition.content == old(partition.content)
    ensures ok ==> |Written(after)| == |Written(target)| + moved
    ensures after.Some? <==> target.Some?
    ensures after.Some? ==> after.value.tmp == target.value.tmp
  {
    Turn(items, f, n, fault, i, chunk, |Written(target)|, pending.Len(), started);
    var r;
    r, after := ScanItem(items, base, f, i, items[i], item, n, fault != WriteFault(chunk), pending, target, partition);
    ok, chunks, moved := r.Ok?, chunk, 0;
    if ok {
      moved := r.value;
      if moved > 0 { chunks := chunk + 1; }
    }
  }

  /** One turn of the scan loop, past the iterator's own fault. */
  method ScanStep(
    partition: Partition, items: seq<Key>, ghost base: Store, ghost f: Key -> Option<Row>, ghost bound: Key, i: nat,
    dir: ColdDir, tmp: FileName, decode: Decoder, n: nat, fault: Fault, pending: PendingBatch, target: Option<Export>,
    chunk: nat)
    returns (ok: bool, after: Option<Export>, chunks: nat, moved: nat)
    requires IsScan(items, base, bound) && i < |items| && Reads(f, base, decode)
    requires Running(items, base, f, i, pending, Written(target), partition)
    requires Progress(items, f, n, fault, i, chunk, |Written(target)|, pending.Len(), target.Some?)
    requires fault != ScanFault(i) && (target.Some? ==> target.value.tmp == tmp)
    modifies partition`content, dir, pending
    ensures ok ==> Running(items, base, f, i + 1, pending, Written(after), partition)
    ensures ok ==> Progress(items, f, n, fault, i + 1, chunks, |Written(after)|, pending.Len(), after.Some?)
    ensures !ok ==> Stopped(items, f, n, fault, |Written(target)|) && partition.content == old(partition.content)
    ensures ok ==> |Written(after)| == |Written(target)| + moved
    ensures target.Some? ==> after.Some?
    ensures after.Some? ==> after.value.tmp == tmp
    ensures dir.files == if after.Some? && target == None then old(dir.files)[tmp := []] else old(dir.files)
  {
    chunks, moved := chunk, 0;
    var item := ReadItem(partition, items, base, f, bound, i, decode, pending, Written(target));
    ok, after := OpenIfFirst(dir, tmp, target, item.Some?, fault);
    if !ok {
      Stop(items, f, n, fault, i, chunk, |Written(target)|, pending.Len(), target.Some?);
      return;
    }
    ok, after, chunks, moved :=
      ScanCounted(partition, items, base, f, i, item, n, fault, pending, after, chunk, target.Some?);
  }

  /** The scan loop. It ends with less than a chunk buffered, or where the fault struck. */
  method ScanAll(
    partition: Partition, items: seq<Key>, ghost base: Store, ghost f: Key -> Option<Row>, ghost bound: Key,
    dir: ColdDir, tmp: FileName, decode: Decoder, n: nat, fault: Fault, pending: PendingBatch)
    returns (ok: bool, target: Option<Export>, chunk: nat, moved: nat)
    requires n > 0 && IsScan(items, base, bound) && partition.content == base && Reads(f, base, decode)
    requires pending.Valid() && pending.Rows() == [] && pending.removals == []
    modifies partition`content, dir, pending
    ensures ok ==> Running(items, base, f, |items|, pending, Written(target), partition)
    ensures ok ==> moved == |Written(target)|
    ensures target.Some? ==> target.value.tmp == tmp
    ensures ok ==> Progress(items, f, n, fault, |items|, chunk, |Written(target)|, pending.Len(), target.Some?)
    ensures !ok ==>
              && Strikes(fault, items, f, n)
              && partition.content == Without(base, Keys(items[..Swept(fault, items, f, n)]), partition.removeFails)
    ensures dir.files == if target.Some? then old(dir.files)[tmp := []] else old(dir.files)
  {
    ok, target, chunk, moved := true, None, 0, 0;
    for i := 0 to |items|
      invariant Running(items, base, f, i, pending, Written(target), partition)
      invariant Progress(items, f, n, fault, i, chunk, |Written(target)|, pending.Len(), target.Some?)
      invariant moved == |Written(target)| && (target.Some? ==> target.value.tmp == tmp)
      invariant dir.files == if target.Some? then old(dir.files)[tmp := []] else old(dir.files)
    {
      if fault == ScanFault(i) {
        Turn(items, f, n, fault, i, chunk, |Written(target)|, pending.Len(), target.Some?);
        ok := false;
        return;
      }
      var more;
      ok, target, chunk, more := ScanStep(partition, items, base, f, bound, i, dir, tmp, decode, n, fault, pending,
      target, chunk);
      if !ok { return; }
      moved := moved + more;
    }
  }

  /** The rest of a pass whose scan reached the end. */
  lemma LastFlush(
    items: seq<Key>, f: Key -> Option<Row>, n: nat, fault: Fault, chunk: nat, written: nat, buffered: nat,
    started: bool)
    requires Progress(items, f, n, fault, |items|, chunk, written, buffered, started)
    ensures buffered > 0 && fault == WriteFault(chunk) ==> Stopped(items, f, n, fault, written)
    ensures !(buffered > 0 && fault == WriteFault(chunk)) ==>
              && Flushed(fault, items, f, n) == |Rows(items, f)| == written + buffered
              && Swept(fault, items, f, n) == (if buffered > 0 then |items| else Reach(items, f, written))
              && (Strikes(fault, items, f, n) <==> started && (fault.CloseFault? || fault.RenameFault?))
  {
    assert items[..|items|] == items;
    WholeIs(written, chunk, n);
    WholeIs(written + buffered, chunk, n);
    if fault.WriteFault? && chunk < fault.chunk {
      Distribute(n, chunk, fault.chunk - chunk);
    }
  }

  lemma TempVanishes(files: map<FileName, seq<Row>>, tmp: FileName, rows: seq<Row>)
    ensures files[tmp := rows] - {tmp} == files - {tmp}
  {}

  /** `finalize_export`: close the temporary file, then rename it over whatever bears the final name. */
  method FinalizeExport(dir: ColdDir, e: Export, final: FileName, fault: Fault) returns (ok: bool)
    modifies dir
    ensures ok <==> fault != CloseFault && fault != RenameFault
    ensures ok ==> dir.files == (old(dir.files) - {e.tmp})[final := e.rows]
    ensures !ok ==> dir.files - {e.tmp} == old(dir.files) - {e.tmp}
  {
    if fault == CloseFault { return false; }
    dir.files := dir.files[e.tmp := e.rows];
    if fault == RenameFault { return false; }
    dir.files := (dir.files - {e.tmp})[final := e.rows];
    ok := true;
  }

  /** Publish the export, if the pass opened one. */
  method Publish(
    dir: ColdDir, target: Option<Export>, ghost files: map<FileName, seq<Row>>, tmp: FileName, final: FileName,
    fault: Fault)
    returns (ok: bool)
    requires dir.files == if target.Some? then files[tmp := []] else files
    requires target.Some? ==> target.value.tmp == tmp && target.value.rows != []
    modifies dir
    ensures ok <==> !(target.Some? && (fault.CloseFault? || fault.RenameFault?))
    ensures ok ==> Published(files, dir.files, tmp, final, Written(target))
    ensures !ok ==> dir.files - {tmp} == files - {tmp}
  {
    TempVanishes(files, tmp, []);
    ok := true;
    if target.Some? {
      ok := FinalizeExport(dir, target.value, final, fault);
    }
  }

  /** What a whole pass amounts to: `f` gives the row of a key of the store `before`, if it decodes. */
  ghost predicate PassDone(
    r: Result<nat, Fault>, items: seq<Key>, before: Store, after: Store, n: nat, fault: Fault, fails: Key -> bool)
    requires n > 0
  {
    var f := RowIn(before);
    && r == (if Strikes(fault, items, f, n) then Err(fault) else Ok(|Rows(items, f)|))
    && after == Without(before, Keys(items[..Swept(fault, items, f, n)]), fails)
  }

  /** The flush after the scan. */
  method FlushRest(
    partition: Partition, items: seq<Key>, ghost base: Store, ghost f: Key -> Option<Row>, n: nat, fault: Fault,
    pending: PendingBatch, target: Option<Export>, chunk: nat)
    returns (r: Result<nat, ()>, after: Option<Export>)
    requires Running(items, base, f, |items|, pending, Written(target), partition)
    requires Progress(items, f, n, fault, |items|, chunk, |Written(target)|, pending.Len(), target.Some?)
    modifies partition`content, pending
    ensures r.Err? ==> Strikes(fault, items, f, n)
    ensures r.Ok? ==>
              && Written(after) == Rows(items, f)
              && r.value == |Rows(items, f)| - |Written(target)|
              && (Strikes(fault, items, f, n) <==> after.Some? && (fault.CloseFault? || fault.RenameFault?))
    ensures after.Some? <==> target.Some?
    ensures after.Some? ==> after.value.tmp == target.value.tmp && Rows(items, f) != []
    ensures partition.content == Without(base, Keys(items[..Swept(fault, items, f, n)]), partition.removeFails)
  {
    LastFlush(items, f, n, fault, chunk, |Written(target)|, pending.Len(), target.Some?);
    SweepOn(items, base, Reach(items, f, |Written(target)|), |items|, partition.removeFails);
    assert items[..|items|] == items;
    r, after := pending.Flush(target, partition, fault != WriteFault(chunk));
  }

  /** The cold directory after a pass: the whole export under its final name, or at most a leftover temporary file. */
  ghost predicate DirAfter(
    ok: bool, before: map<FileName, seq<Row>>, after: map<FileName, seq<Row>>, tmp: FileName, final: FileName,
    rows: seq<Row>)
  {
    if ok then Published(before, after, tmp, final, rows) else after - {tmp} == before - {tmp}
  }

  /** Everything after the scan loop. */
  method EndPass(
    partition: Partition, items: seq<Key>, ghost base: Store, ghost f: Key -> Option<Row>, dir: ColdDir,
    ghost files: map<FileName, seq<Row>>,
    tmp: FileName, final: FileName, n: nat, fault: Fault, pending: PendingBatch, target: Option<Export>, chunk: nat,
    moved: nat)
    returns (r: Result<nat, Fault>)
    requires Running(items, base, f, |items|, pending, Written(target), partition)
    requires Progress(items, f, n, fault, |items|, chunk, |Written(target)|, pending.Len(), target.Some?)
    requires moved == |Written(target)| && (target.Some? ==> target.value.tmp == tmp)
    requires dir.files == if target.Some? then files[tmp := []] else files
    modifies partition`content, pending, dir
    ensures r == if Strikes(fault, items, f, n) then Err(fault) else Ok(|Rows(items, f)|)
    ensures partition.content == Without(base, Keys(items[..Swept(fault, items, f, n)]), partition.removeFails)
    ensures DirAfter(r.Ok?, files, dir.files, tmp, final, Rows(items, f))
  {
    TempVanishes(files, tmp, []);
    var last, whole := FlushRest(partition, items, base, f, n, fault, pending, target, chunk);
    if last.Err? {
      r := Err(fault);
      return;
    }
    var done := Publish(dir, whole, files, tmp, final, fault);
    r := if done then Ok(moved + last.value) else Err(fault);
  }

  /**
   * A pass over the keys below the cutoff, with nothing else touching that range.
   * A successful pass publishes the plain filter of the scan, and counts it. A failed one publishes
   * nothing, yet has already removed the keys of the chunks it wrote.
   */
  method RunCompactionOnce(
    partition: Partition, items: seq<Key>, ghost cutoff: u64, dir: ColdDir, tmp: FileName, final: FileName, n: nat,
    fault: Fault)
    returns (r: Result<nat, Fault>)
    requires n > 0 && IsScan(items, partition.content, CutoffPrefix(cutoff))
    modifies partition`content, dir
    ensures PassDone(r, items, old(partition.content), partition.content, n, fault, partition.removeFails)
    ensures DirAfter(r.Ok?, old(dir.files), dir.files, tmp, final, Rows(items, RowIn(old(partition.content))))
  {
    ghost var base, f, files := partition.content, RowIn(partition.content), dir.files;
    var pending := new PendingBatch();
    var ok, target, chunk, moved := ScanAll(
      partition, items, base, f, CutoffPrefix(cutoff), dir, tmp, DecodeItem, n, fault, pending);
    if ok {
      r := EndPass(partition, items, base, f, dir, files, tmp, final, n, fault, pending, target, chunk, moved);
    } else {
      TempVanishes(files, tmp, []);
      r := Err(fault);
    }
  }
}
