/** The writer thread: `writer_loop` and `flush_batch` of src/storage/fjall_engine.rs. */
module Writer {
  import opened Bytes
  import opened KeyCodec
  import opened Wrappers
  import opened Samples
  import opened HotStore

  datatype Msg = Metric(entry: MetricEntry) | Shutdown

  /**
   * The receiving end of the channel: `queue` is everything that will still arrive, in order, after
   * which the channel is closed. `TryRecv` may find nothing at any moment.
   */
  class Receiver {
    var queue: seq<Msg>

    constructor (queue: seq<Msg>)
      ensures this.queue == queue
    {
      this.queue := queue;
    }

    method BlockingRecv() returns (m: Option<Msg>)
      modifies this
      ensures old(queue) == [] ==> m == None && queue == []
      ensures old(queue) != [] ==> m == Some(old(queue)[0]) && queue == old(queue)[1..]
    {
      if queue == [] { return None; }
      m := Some(queue[0]);
      queue := queue[1..];
    }

    method TryRecv() returns (m: Option<Msg>)
      modifies this
      ensures m == None ==> queue == old(queue)
      ensures m.Some? ==> old(queue) != [] && m.value == old(queue)[0] && queue == old(queue)[1..]
    {
      if * { return None; }
      m := BlockingRecv();
    }
  }

  // ----- specification: one insertion per metric, in arrival order

  /** How an entry and its sequence number become a stored item. The loops below do not look inside it. */
  type Encoder = (MetricEntry, u32) -> (Key, Payload)

  /** The writer's own encoder: `encode_key` and `encode_value`. */
  function EncodeEntry(e: MetricEntry, seqNo: u32): (Key, Payload)
  {
    (EncodeKey(EntryMicros(e), seqNo, e.name), EncodeValue(e))
  }

  /** What the `i`-th insert of a run stores; the sequence field wraps at 32 bits. */
  type Numbering = (MetricEntry, nat) -> (Key, Payload)

  function Numbered(encode: Encoder): Numbering { (e, i) => encode(e, i % U32) }

  /** The store after inserting `entries` one at a time from insert number 0. */
  function InsertAll(store: Store, entries: seq<MetricEntry>, item: Numbering, fails: nat -> bool): Store
  {
    if entries == [] then store
    else
      var i := |entries| - 1;
      var before := InsertAll(store, entries[..i], item, fails);
      var (key, value) := item(entries[i], i);
      if fails(i) then before else before[key := value]
  }

  lemma InsertAllSnoc(store: Store, entries: seq<MetricEntry>, e: MetricEntry, item: Numbering, fails: nat -> bool)
    ensures var before := InsertAll(store, entries, item, fails);
            var (key, value) := item(e, |entries|);
            InsertAll(store, entries + [e], item, fails) == if fails(|entries|) then before else before[key := value]
  {}

  /** The metrics ahead of the first shutdown message. */
  function Ahead(msgs: seq<Msg>): seq<MetricEntry>
  {
    if msgs == [] || msgs[0].Shutdown? then [] else [msgs[0].entry] + Ahead(msgs[1..])
  }

  /** The messages behind the first shutdown message. */
  function Behind(msgs: seq<Msg>): seq<Msg>
  {
    if msgs == [] then [] else if msgs[0].Shutdown? then msgs[1..] else Behind(msgs[1..])
  }

  /** No sentinel among the first `i + 1` messages. */
  predicate BeforeSentinel(msgs: seq<Msg>, i: nat)
  {
    i < |msgs| && forall j :: 0 <= j <= i ==> msgs[j].Metric?
  }

  /** The metrics ahead of the sentinel are all of them, each at its own position. */
  lemma {:induction false} AheadIsAll(msgs: seq<Msg>, i: nat)
    ensures i < |Ahead(msgs)| <==> BeforeSentinel(msgs, i)
    ensures i < |Ahead(msgs)| ==> msgs[i] == Metric(Ahead(msgs)[i])
  {
    if msgs == [] || msgs[0].Shutdown? {
    } else if i > 0 {
      AheadIsAll(msgs[1..], i - 1);
      assert BeforeSentinel(msgs, i) ==> forall j :: 0 <= j < i ==> msgs[1..][j] == msgs[j + 1];
      assert BeforeSentinel(msgs[1..], i - 1) ==> forall j :: 0 < j <= i ==> msgs[j] == msgs[1..][j - 1];
    }
  }

  /**
   * With a sentinel, the metrics ahead of it, itself and what is behind make up the messages; without one, nothing
   * is behind.
   */
  lemma {:induction false} BehindIsRest(msgs: seq<Msg>)
    ensures var c := |Ahead(msgs)|;
      && c <= |msgs|
      && (c < |msgs| ==> msgs[c] == Shutdown && Behind(msgs) == msgs[c + 1..])
      && (c == |msgs| ==> Behind(msgs) == [])
  {
    if msgs == [] || msgs[0].Shutdown? {
    } else {
      BehindIsRest(msgs[1..]);
    }
  }

  lemma Associative(a: seq<MetricEntry>, b: seq<MetricEntry>, c: seq<MetricEntry>)
    ensures a + (b + c) == (a + b) + c
  {}

  /** `bursts` cuts `all` into pieces of at most `batchRows`. */
  predicate Cuts(bursts: seq<seq<MetricEntry>>, all: seq<MetricEntry>, batchRows: nat)
  {
    if bursts == [] then all == []
    else
      var n := |bursts| - 1;
      |bursts[n]| <= batchRows && |bursts[n]| <= |all| && all[|all| - |bursts[n]|..] == bursts[n]
      && Cuts(bursts[..n], all[..|all| - |bursts[n]|], batchRows)
  }

  lemma CutsSnoc(bursts: seq<seq<MetricEntry>>, all: seq<MetricEntry>, batchRows: nat, batch: seq<MetricEntry>)
    requires Cuts(bursts, all, batchRows) && |batch| <= batchRows
    ensures Cuts(bursts + [batch], all + batch, batchRows)
  {}

  // ----- the loop

  /** `u32::wrapping_add(1)`. */
  function WrappingAdd1(n: u32): u32 { if n == U32 - 1 then 0 else n + 1 }

  lemma WrapStep(i: nat)
    ensures WrappingAdd1(i % U32) == (i + 1) % U32
  {}

  method FlushBatch(
    partition: Partition, batch: seq<MetricEntry>, encode: Encoder, seqNo: u32, ghost base: Store,
    ghost done: seq<MetricEntry>)
    returns (next: u32)
    requires partition.inserts == |done| && seqNo == |done| % U32
    requires partition.content == InsertAll(base, done, Numbered(encode), partition.insertFails)
    modifies partition
    ensures partition.inserts == |done + batch| && next == |done + batch| % U32
    ensures partition.content == InsertAll(base, done + batch, Numbered(encode), partition.insertFails)
  {
    next := seqNo;
    ghost var prefix := done;
    for i := 0 to |batch|
      invariant prefix == done + batch[..i]
      invariant partition.inserts == |prefix| && next == |prefix| % U32
      invariant partition.content == InsertAll(base, prefix, Numbered(encode), partition.insertFails)
    {
      InsertAllSnoc(base, prefix, batch[i], Numbered(encode), partition.insertFails);
      var (key, value) := encode(batch[i], next);
      WrapStep(|prefix|);
      next := WrappingAdd1(next);
      partition.Insert(key, value);
      prefix := prefix + [batch[i]];
    }
    assert prefix == done + batch;
  }

  /** The inner loop: fill the burst without waiting. `finished` reports that the sentinel was met. */
  method Drain(rx: Receiver, first: MetricEntry, batchRows: nat)
    returns (batch: seq<MetricEntry>, finished: bool)
    requires batchRows > 0
    modifies rx
    ensures 1 <= |batch| <= batchRows && |rx.queue| <= old(|rx.queue|)
    ensures [first] + Ahead(old(rx.queue)) == if finished then batch else batch + Ahead(rx.queue)
    ensures Behind(old(rx.queue)) == if finished then rx.queue else Behind(rx.queue)
  {
    batch, finished := [first], false;
    while |batch| < batchRows
      invariant 1 <= |batch| <= batchRows && |rx.queue| <= old(|rx.queue|)
      invariant batch + Ahead(rx.queue) == [first] + Ahead(old(rx.queue)) && Behind(rx.queue) == Behind(old(rx.queue))
    {
      var m := rx.TryRecv();
      if m == None { return; }
      if m.value.Shutdown? {
        finished := true;
        assert batch + [] == batch;
        return;
      }
      batch := batch + [m.value.entry];
    }
  }

  /**
   * One turn of the outer loop: wait for a message, drain a burst, insert it. `exit` reports the sentinel or a
   * closed channel.
   */
  method Burst(
    rx: Receiver, partition: Partition, encode: Encoder, batchRows: nat, seqNo: u32, ghost base: Store,
    ghost done: seq<MetricEntry>)
    returns (exit: bool, next: u32, ghost batch: seq<MetricEntry>)
    requires batchRows > 0 && partition.inserts == |done| && seqNo == |done| % U32
    requires partition.content == InsertAll(base, done, Numbered(encode), partition.insertFails)
    modifies rx, partition
    ensures partition.inserts == |done + batch| && next == |done + batch| % U32
    ensures partition.content == InsertAll(base, done + batch, Numbered(encode), partition.insertFails)
    ensures Ahead(old(rx.queue)) == if exit then batch else batch + Ahead(rx.queue)
    ensures Behind(old(rx.queue)) == if exit then rx.queue else Behind(rx.queue)
    ensures |batch| <= batchRows && (!exit ==> batch != [] && |rx.queue| < old(|rx.queue|))
  {
    var m := rx.BlockingRecv();
    if m == None || m.value.Shutdown? {
      exit, next, batch := true, seqNo, [];
      assert done + batch == done;
      return;
    }
    var received;
    received, exit := Drain(rx, m.value.entry, batchRows);
    batch := received;
    next := FlushBatch(partition, received, encode, seqNo, base, done);
  }

  /**
   * Whatever the burst size and whenever the drain finds the channel empty, the store ends as if
   * each metric ahead of the sentinel had been inserted alone, in order; what is behind it is untouched.
   */
  method WriterLoop(rx: Receiver, partition: Partition, encode: Encoder, batchRows: nat)
    returns (seqNo: u32, ghost bursts: seq<seq<MetricEntry>>)
    requires batchRows > 0 && partition.inserts == 0
    modifies rx, partition
    ensures partition.content ==
            InsertAll(old(partition.content), Ahead(old(rx.queue)), Numbered(encode), partition.insertFails)
    ensures partition.inserts == |Ahead(old(rx.queue))| && seqNo == |Ahead(old(rx.queue))| % U32
    ensures rx.queue == Behind(old(rx.queue))
    ensures Cuts(bursts, Ahead(old(rx.queue)), batchRows)
  {
    ghost var base, all, behind := partition.content, Ahead(rx.queue), Behind(rx.queue);
    ghost var done: seq<MetricEntry> := [];
    seqNo, bursts := 0, [];
    var exit := false;
    while !exit
      invariant all == if exit then done else done + Ahead(rx.queue)
      invariant behind == if exit then rx.queue else Behind(rx.queue)
      invariant partition.inserts == |done| && seqNo == |done| % U32
      invariant partition.content == InsertAll(base, done, Numbered(encode), partition.insertFails)
      invariant Cuts(bursts, done, batchRows)
      decreases !exit, |rx.queue|
    {
      ghost var batch;
      exit, seqNo, batch := Burst(rx, partition, encode, batchRows, seqNo, base, done);
      Associative(done, batch, Ahead(rx.queue));
      CutsSnoc(bursts, done, batchRows, batch);
      done := done + batch;
      bursts := bursts + [batch];
    }
  }

  // ----- what the loop means for the store

  /** The key the writer gives the `i`-th insert of a run. */
  function KeyAt(e: MetricEntry, i: nat): Key { EncodeEntry(e, i % U32).0 }

  /** Two inserts of one run share a key exactly when they share timestamp and name and lie a multiple of 2^32 apart. */
  lemma KeysCollide(a: MetricEntry, i: nat, b: MetricEntry, j: nat)
    ensures KeyAt(a, i) == KeyAt(b, j) <==>
            EntryMicros(a) == EntryMicros(b) && a.name == b.name && i % 0x1_0000_0000 == j % 0x1_0000_0000
  {
    if KeyAt(a, i) == KeyAt(b, j) {
      EncodeInjective(EntryMicros(a), i % U32, a.name, EntryMicros(b), j % U32, b.name);
    }
  }

  /** Any 2^32 consecutive inserts of a run have distinct keys, however they are cut into bursts. */
  lemma ConsecutiveKeysDistinct(a: MetricEntry, i: nat, b: MetricEntry, j: nat)
    requires i < j < i + 0x1_0000_0000
    ensures KeyAt(a, i) != KeyAt(b, j)
  {
    KeysCollide(a, i, b, j);
  }

  /** Insert `i` is the one whose value key `k` ends with: it succeeded and no later success has its key. */
  predicate WritesLast(entries: seq<MetricEntry>, item: Numbering, fails: nat -> bool, k: Key, i: nat)
  {
    && i < |entries| && !fails(i) && item(entries[i], i).0 == k
    && forall j :: i < j < |entries| && !fails(j) ==> item(entries[j], j).0 != k
  }

  /** No insert of the run that succeeded has key `k`. */
  predicate NeverWrites(entries: seq<MetricEntry>, item: Numbering, fails: nat -> bool, k: Key)
  {
    forall i :: 0 <= i < |entries| && !fails(i) ==> item(entries[i], i).0 != k
  }

  lemma {:induction false} LastInsertWins(
    store: Store, entries: seq<MetricEntry>, item: Numbering, fails: nat -> bool, k: Key, i: nat)
    requires WritesLast(entries, item, fails, k, i)
    ensures var after := InsertAll(store, entries, item, fails);
            k in after && after[k] == item(entries[i], i).1
  {
    var n := |entries| - 1;
    if i < n {
      var before := entries[..n];
      assert forall j :: 0 <= j < n ==> before[j] == entries[j];
      LastInsertWins(store, before, item, fails, k, i);
    }
  }

  lemma {:induction false} UnwrittenKeyKept(
    store: Store, entries: seq<MetricEntry>, item: Numbering, fails: nat -> bool, k: Key)
    requires NeverWrites(entries, item, fails, k)
    ensures var after := InsertAll(store, entries, item, fails);
            (k in after <==> k in store) && (k in store ==> after[k] == store[k])
  {
    if entries == [] {
    } else {
      var before := entries[..|entries| - 1];
      assert forall j :: 0 <= j < |before| ==> before[j] == entries[j];
      UnwrittenKeyKept(store, before, item, fails, k);
    }
  }

  /** Every key is either never written by a run, or written last by one of its inserts. */
  lemma {:induction false} SomeInsertIsLast(
    entries: seq<MetricEntry>, item: Numbering, fails: nat -> bool, k: Key) returns (i: nat)
    ensures NeverWrites(entries, item, fails, k) || WritesLast(entries, item, fails, k, i)
  {
    if entries == [] {
      i := 0;
    } else {
      var n := |entries| - 1;
      var before := entries[..n];
      assert forall j :: 0 <= j < n ==> before[j] == entries[j];
      i := SomeInsertIsLast(before, item, fails, k);
      if !fails(n) && item(entries[n], n).0 == k { i := n; }
    }
  }

  /** The content after a run, key by key: what the last successful insert of the key left, or what was there before. */
  lemma InsertedLookup(store: Store, entries: seq<MetricEntry>, item: Numbering, fails: nat -> bool, k: Key)
    ensures var after := InsertAll(store, entries, item, fails);
            if NeverWrites(entries, item, fails, k)
            then (k in after <==> k in store) && (k in store ==> after[k] == store[k])
            else exists i: nat ::
              WritesLast(entries, item, fails, k, i) && k in after && after[k] == item(entries[i], i).1
  {
    if NeverWrites(entries, item, fails, k) {
      UnwrittenKeyKept(store, entries, item, fails, k);
    } else {
      var i := SomeInsertIsLast(entries, item, fails, k);
      LastInsertWins(store, entries, item, fails, k, i);
    }
  }

  /** Up to 2^32 inserts, none refused: every one of them can be read back, and decodes to its own time and name. */
  lemma EveryInsertSurvives(store: Store, entries: seq<MetricEntry>, fails: nat -> bool, i: nat)
    requires i < |entries| <= 0x1_0000_0000
    requires forall j :: 0 <= j < |entries| ==> !fails(j)
    ensures var k := KeyAt(entries[i], i); var after := InsertAll(store, entries, Numbered(EncodeEntry), fails);
            && k in after && after[k] == EncodeValue(entries[i])
            && DecodeKey(k) == Some((EntryMicros(entries[i]), entries[i].name))
  {
    var k, item := KeyAt(entries[i], i), Numbered(EncodeEntry);
    forall j | i < j < |entries| ensures item(entries[j], j).0 != k {
      ConsecutiveKeysDistinct(entries[i], i, entries[j], j);
    }
    assert WritesLast(entries, item, fails, k, i);
    LastInsertWins(store, entries, item, fails, k, i);
    KeyRoundTrip(EntryMicros(entries[i]), i % U32, entries[i].name);
  }

  /**
   * After the loop, up to 2^32 metrics and no refused insert: each metric received ahead of the sentinel is in the
   * store, under a key that decodes to its time and name.
   */
  lemma EveryMetricIsStored(store: Store, msgs: seq<Msg>, fails: nat -> bool, i: nat)
    requires |Ahead(msgs)| <= 0x1_0000_0000 && forall j :: 0 <= j < |Ahead(msgs)| ==> !fails(j)
    requires i < |msgs| && forall j :: 0 <= j <= i ==> msgs[j].Metric?
    ensures var after := InsertAll(store, Ahead(msgs), Numbered(EncodeEntry), fails);
      var e := msgs[i].entry; var k := EncodeKey(EntryMicros(e), i % 0x1_0000_0000, e.name);
      k in after && after[k] == EncodeValue(e) && DecodeKey(k) == Some((EntryMicros(e), e.name))
  {
    AheadIsAll(msgs, i);
    EveryInsertSurvives(store, Ahead(msgs), fails, i);
  }

  /** Each metric ahead of the sentinel is stored, under its time, its position and its name. */
  ghost predicate AllStored(msgs: seq<Msg>, after: Store)
  {
    forall i: nat :: BeforeSentinel(msgs, i) ==>
      var e := msgs[i].entry;
      var k := EncodeKey(EntryMicros(e), i % U32, e.name);
      k in after && after[k] == EncodeValue(e)
  }

  /** The writer thread, with its own encoder. */
  method RunWriter(rx: Receiver, partition: Partition, batchRows: nat) returns (seqNo: u32)
    requires batchRows > 0 && partition.inserts == 0
    modifies rx, partition
    ensures var metrics := Ahead(old(rx.queue));
      && partition.content == InsertAll(old(partition.content), metrics, Numbered(EncodeEntry), partition.insertFails)
      && seqNo == |metrics| % 0x1_0000_0000
      && (|metrics| <= 0x1_0000_0000 && (forall j :: 0 <= j < |metrics| ==> !partition.insertFails(j)) ==>
            AllStored(old(rx.queue), partition.content))
    ensures rx.queue == Behind(old(rx.queue))
  {
    ghost var store, msgs := partition.content, rx.queue;
    ghost var bursts;
    seqNo, bursts := WriterLoop(rx, partition, EncodeEntry, batchRows);
    if |Ahead(msgs)| <= U32 && forall j :: 0 <= j < |Ahead(msgs)| ==> !partition.insertFails(j) {
      forall i: nat | BeforeSentinel(msgs, i)
        ensures var e := msgs[i].entry; var k := EncodeKey(EntryMicros(e), i % U32, e.name);
          k in partition.content && partition.content[k] == EncodeValue(e)
      {
        EveryMetricIsStored(store, msgs, partition.insertFails, i);
      }
    }
  }
}
