/**
 * The whole pipeline: `record` calls, channel, writer and `shutdown` (Ingest) beside the hot store and
 * the compactor (Backend), joined where the writer inserts. The ledger of samples holds over every interleaving.
 */
module Pipeline {
  import opened Bytes
  import opened KeyCodec
  import opened Samples
  import opened Bags
  import opened HotStore
  import Writer
  import Ingest
  import Backend
  import Items

  type Sample<E> = Ingest.Sample<E>

  datatype Config<!E, !K> = Config(front: Ingest.Config, back: Backend.Config<K, Sample<E>>)

  datatype State<E(==), K, F> = State(front: Ingest.State<E>, back: Backend.State<K, Sample<E>, F>)

  /** `InsertOne` is the writer's insert of the next sample of its batch. */
  datatype Action<E, K, F> =
    | Front(a: Ingest.Action<E>)
    | Back(b: Backend.Action<K, Sample<E>, F>)
    | InsertOne

  ghost predicate Step<E, K(!new), F>(c: Config<E, K>, s: State<E, K, F>, a: Action<E, K, F>, t: State<E, K, F>)
  {
    match a
    case Front(f) => !f.Insert? && Ingest.Step(c.front, s.front, f, t.front) && t.back == s.back
    case Back(b) => !b.Insert? && Backend.Step(c.back, s.back, b, t.back) && t.front == s.front
    case InsertOne =>
      && Ingest.Step(c.front, s.front, Ingest.Insert, t.front)
      && Backend.Step(c.back, s.back, Backend.Insert(s.front.batch[0]), t.back)
  }

  /** A run over a store and a cold directory left by earlier processes. */
  ghost predicate IsRun<E, K(!new), F>(
    c: Config<E, K>, store: map<K, Sample<E>>, cold: map<F, seq<Sample<E>>>,
    states: seq<State<E, K, F>>, acts: seq<Action<E, K, F>>)
  {
    && |states| == |acts| + 1 && states[0] == State(Ingest.Init(), Backend.Init(store, cold))
    && forall i :: 0 <= i < |acts| ==> Step(c, states[i], acts[i], states[i + 1])
  }

  /** No insert has hit a used key and no export an existing file. */
  predicate Clean<E, K, F>(s: State<E, K, F>) { s.back.collisions == 0 && s.back.clobbers == 0 }

  ghost predicate WellFormed<E, K(!new)>(c: Config<E, K>)
  {
    c.front.batchRows > 0 && c.back.rowsPerBatch > 0 && Backend.TotalOrder(c.back.less)
  }

  /** What the back end holds or has lost is what it started with and what was inserted. */
  ghost predicate Conserved<E, K(!new), F(!new)>(
    start: Backend.State<K, Sample<E>, F>, b: Backend.State<K, Sample<E>, F>)
  {
    Backend.Held(b) + Backend.Gone(b) == Backend.Held(start) + multiset(b.inserted)
  }

  ghost predicate BackInv<E, K(!new), F(!new)>(
    c: Config<E, K>, start: Backend.State<K, Sample<E>, F>, b: Backend.State<K, Sample<E>, F>)
  {
    && Backend.Inv(c.back, b) && Backend.Complete(c.back, b)
    && Backend.KeysTracked(c.back, start.used, b) && Conserved(start, b)
  }

  ghost predicate Inv<E, K(!new), F(!new)>(
    c: Config<E, K>, start: Backend.State<K, Sample<E>, F>, s: State<E, K, F>)
  {
    Ingest.Inv(c.front, s.front) && BackInv(c, start, s.back) && s.back.inserted == s.front.inserted
  }

  lemma InvFront<E, K(!new), F(!new)>(
    c: Config<E, K>, start: Backend.State<K, Sample<E>, F>, s: State<E, K, F>, f: Ingest.Action<E>, t: State<E, K, F>)
    requires WellFormed(c) && Inv(c, start, s) && !f.Insert? && t.back == s.back
    requires Ingest.Step(c.front, s.front, f, t.front)
    ensures Inv(c, start, t)
  {
    Ingest.InvStep(c.front, s.front, f, t.front);
    KeepsInserted(c.front, s.front, f, t.front);
  }

  lemma InvStep<E, K(!new), F(!new)>(
    c: Config<E, K>, start: Backend.State<K, Sample<E>, F>, s: State<E, K, F>, a: Action<E, K, F>, t: State<E, K, F>)
    requires WellFormed(c) && Inv(c, start, s) && Step(c, s, a, t)
    ensures Inv(c, start, t)
  {
    match a
    case Front(f) => InvFront(c, start, s, f, t);
    case Back(b) => BackStep(c, start, s.back, b, t.back);
    case InsertOne =>
      Ingest.InvStep(c.front, s.front, Ingest.Insert, t.front);
      BackStep(c, start, s.back, Backend.Insert(s.front.batch[0]), t.back);
  }

  lemma KeepsInserted<E>(c: Ingest.Config, s: Ingest.State<E>, a: Ingest.Action<E>, t: Ingest.State<E>)
    requires Ingest.Step(c, s, a, t) && !a.Insert?
    ensures t.inserted == s.inserted
  {}

  lemma InsertedGrows<K(!new), S, F>(
    c: Backend.Config<K, S>, s: Backend.State<K, S, F>, b: Backend.Action<K, S, F>, t: Backend.State<K, S, F>)
    requires Backend.Step(c, s, b, t)
    ensures t.inserted == s.inserted + if b.Insert? then [b.s] else []
  {}

  lemma ConservedStep<E, K(!new), F(!new)>(
    c: Config<E, K>, start: Backend.State<K, Sample<E>, F>, s: Backend.State<K, Sample<E>, F>,
    b: Backend.Action<K, Sample<E>, F>, t: Backend.State<K, Sample<E>, F>)
    requires WellFormed(c) && Backend.Inv(c.back, s) && Conserved(start, s) && Backend.Step(c.back, s, b, t)
    ensures Conserved(start, t)
  {
    Backend.HeldStep(c.back, s, b, t);
    InsertedGrows(c.back, s, b, t);
    var more := if b.Insert? then [b.s] else [];
    assert multiset(s.inserted + more) == multiset(s.inserted) + multiset(more);
  }

  lemma BackStep<E, K(!new), F(!new)>(
    c: Config<E, K>, start: Backend.State<K, Sample<E>, F>, s: Backend.State<K, Sample<E>, F>,
    b: Backend.Action<K, Sample<E>, F>, t: Backend.State<K, Sample<E>, F>)
    requires WellFormed(c) && BackInv(c, start, s) && Backend.Step(c.back, s, b, t)
    ensures BackInv(c, start, t)
    ensures t.inserted == s.inserted + if b.Insert? then [b.s] else []
  {
    Backend.InvStep(c.back, s, b, t);
    Backend.CompleteStep(c.back, s, b, t);
    Backend.KeysTrackedStep(c.back, start.used, s, b, t);
    ConservedStep(c, start, s, b, t);
    InsertedGrows(c.back, s, b, t);
  }

  lemma InvInit<E, K(!new), F(!new)>(c: Config<E, K>, store: map<K, Sample<E>>, cold: map<F, seq<Sample<E>>>)
    ensures Inv(c, Backend.Init(store, cold), State(Ingest.Init(), Backend.Init(store, cold)))
  {}

  lemma {:induction false} InvRun<E, K(!new), F(!new)>(
    c: Config<E, K>, store: map<K, Sample<E>>, cold: map<F, seq<Sample<E>>>,
    states: seq<State<E, K, F>>, acts: seq<Action<E, K, F>>, i: nat)
    requires WellFormed(c) && IsRun(c, store, cold, states, acts) && i < |states|
    ensures Inv(c, Backend.Init(store, cold), states[i])
  {
    if i == 0 {
      InvInit(c, store, cold);
    } else {
      InvRun(c, store, cold, states, acts, i - 1);
      assert Step(c, states[i - 1], acts[i - 1], states[i]);
      InvStep(c, Backend.Init(store, cold), states[i - 1], acts[i - 1], states[i]);
    }
  }

  // ----- the ledger

  /**
   * Everything a sample can be in: channel, writer batch, hot store, open export, published files, abandoned behind
   * the sentinel.
   */
  ghost function Buckets<E, K(!new), F(!new)>(s: State<E, K, F>): multiset<Sample<E>>
  {
    multiset(Ingest.Metrics(s.front.queue)) + multiset(s.front.batch)
    + Backend.Held(s.back)
    + multiset(s.front.abandoned)
  }

  /** What a run started with. */
  ghost function AtStart<E, K(!new), F(!new)>(
    store: map<K, Sample<E>>, cold: map<F, seq<Sample<E>>>): multiset<Sample<E>>
  {
    Total(store, One) + Total(cold, Many)
  }

  /**
   * In every reachable state, the buckets and the two kinds of loss (overwritten by an insert, replaced by a
   * rename) hold exactly the accepted samples and what the run started with; and the calls past the flag are the
   * accepted, the counted drops and those under way.
   */
  lemma Ledger<E, K(!new), F(!new)>(
    c: Config<E, K>, store: map<K, Sample<E>>, cold: map<F, seq<Sample<E>>>,
    states: seq<State<E, K, F>>, acts: seq<Action<E, K, F>>, i: nat)
    requires WellFormed(c) && IsRun(c, store, cold, states, acts) && i < |states|
    ensures var s := states[i];
      && Buckets(s) + s.back.overwritten + s.back.replaced == AtStart(store, cold) + multiset(s.front.accepted)
      && s.front.passed == |s.front.accepted| + s.front.dropped + |s.front.inflight|
      && (Clean(s) ==> s.back.overwritten == s.back.replaced == multiset{})
  {
    InvRun(c, store, cold, states, acts, i);
    var f, b := states[i].front, states[i].back;
    AcceptedBag(f);
    HeldAtStart(store, cold);
    Balance(
      multiset(Ingest.Metrics(f.queue)), multiset(f.batch), Backend.Held(b), multiset(f.abandoned),
      b.overwritten, b.replaced, AtStart(store, cold), multiset(f.inserted), multiset(f.accepted));
  }

  lemma AcceptedBag<E>(f: Ingest.State<E>)
    requires Ingest.Fifo(f)
    ensures multiset(f.accepted) ==
            multiset(f.inserted) + multiset(f.batch) + multiset(Ingest.Metrics(f.queue)) + multiset(f.abandoned)
  {}

  lemma Balance<T>(
    q: multiset<T>, b: multiset<T>, h: multiset<T>, z: multiset<T>, lost: multiset<T>, gone: multiset<T>,
    base: multiset<T>, ins: multiset<T>, acc: multiset<T>)
    requires acc == ins + b + q + z && h + (lost + gone) == base + ins
    ensures q + b + h + z + lost + gone == base + acc
  {
    assert q + b + h + z + lost + gone == (h + (lost + gone)) + b + q + z;
    assert base + acc == (base + ins) + b + q + z;
  }

  lemma HeldAtStart<E, K(!new), F(!new)>(store: map<K, Sample<E>>, cold: map<F, seq<Sample<E>>>)
    ensures Backend.Held(Backend.Init(store, cold)) == AtStart(store, cold)
  {
    var s := Backend.Init(store, cold);
    assert Backend.Staying(store, Backend.Leaving(s)) == store;
    assert Backend.Samples(s.written) == [] && Backend.Samples(s.buffered) == [];
  }

  /**
   * Each accepted sample the run did not start with is in exactly one bucket or lost, once; in a clean run, in a
   * bucket.
   */
  lemma ExactlyOneBucket<E, K(!new), F(!new)>(
    c: Config<E, K>, store: map<K, Sample<E>>, cold: map<F, seq<Sample<E>>>,
    states: seq<State<E, K, F>>, acts: seq<Action<E, K, F>>, i: nat, x: Sample<E>)
    requires WellFormed(c) && IsRun(c, store, cold, states, acts) && i < |states| && x !in AtStart(store, cold)
    ensures var s := states[i]; var once := if x in s.front.accepted then 1 else 0;
      && Buckets(s)[x] + s.back.overwritten[x] + s.back.replaced[x] == once
      && (Clean(s) ==> Buckets(s)[x] == once)
  {
    Ledger(c, store, cold, states, acts, i);
    InvRun(c, store, cold, states, acts, i);
    var s := states[i];
    AcceptedOnce(s.front.accepted, x);
    var all := Buckets(s) + s.back.overwritten + s.back.replaced;
    assert all[x] == (AtStart(store, cold) + multiset(s.front.accepted))[x];
  }

  lemma {:induction false} AcceptedOnce<E>(q: seq<Sample<E>>, x: Sample<E>)
    requires forall i, j :: 0 <= i < j < |q| ==> q[i].call != q[j].call
    ensures multiset(q)[x] == if x in q then 1 else 0
  {
    if q == [] {
    } else {
      var n := |q| - 1;
      assert q == q[..n] + [q[n]];
      AcceptedOnce(q[..n], x);
    }
  }

  lemma PassStep<K(!new), S, F>(
    c: Backend.Config<K, S>, s: Backend.State<K, S, F>, b: Backend.Action<K, S, F>, t: Backend.State<K, S, F>)
    requires Backend.Step(c, s, b, t) && !t.pass.Idle?
    ensures if b.StartPass? then t.pass.bound == b.bound && t.pass.snapshot == s.store.Keys
            else !s.pass.Idle? && t.pass.bound == s.pass.bound && t.pass.snapshot == s.pass.snapshot
  {}

  /** Where the pass under way began, and what it remembers of that moment. */
  lemma {:induction false} PassBegan<E, K(!new), F(!new)>(
    c: Config<E, K>, store: map<K, Sample<E>>, cold: map<F, seq<Sample<E>>>,
    states: seq<State<E, K, F>>, acts: seq<Action<E, K, F>>, i: nat) returns (k: nat)
    requires IsRun(c, store, cold, states, acts) && i < |states| && !states[i].back.pass.Idle?
    ensures k < i && acts[k] == Back(Backend.StartPass(states[i].back.pass.bound))
    ensures states[i].back.pass.snapshot == states[k].back.store.Keys
  {
    assert i > 0;
    var s, a, t := states[i - 1], acts[i - 1], states[i];
    assert Step(c, s, a, t);
    if a.Back? {
      PassStep(c.back, s.back, a.b, t.back);
    } else if a.InsertOne? {
      PassStep(c.back, s.back, Backend.Insert(s.front.batch[0]), t.back);
    }
    if a.Back? && a.b.StartPass? {
      k := i - 1;
    } else {
      k := PassBegan(c, store, cold, states, acts, i - 1);
    }
  }

  /**
   * Whatever is inserted meanwhile, a pass that publishes has written every key below its bound that the store held
   * when it began, and none from the bound on; and its file holds exactly what it wrote.
   */
  lemma PublishedPassIsComplete<E, K(!new), F(!new)>(
    c: Config<E, K>, store: map<K, Sample<E>>, cold: map<F, seq<Sample<E>>>,
    states: seq<State<E, K, F>>, acts: seq<Action<E, K, F>>, i: nat, file: F) returns (k: nat, bound: K)
    requires WellFormed(c) && IsRun(c, store, cold, states, acts)
    requires i < |acts| && acts[i] == Back(Backend.Publish(file))
    ensures k < i && acts[k] == Back(Backend.StartPass(bound))
    ensures forall x :: x in states[k].back.store && c.back.less(x, bound) ==> x in Items.Keys(states[i].back.written)
    ensures forall x :: x in Items.Keys(states[i].back.written) ==> c.back.less(x, bound)
    ensures var rows := states[i].back.written; var after := states[i + 1].back.cold;
      rows != [] ==>
        && file in after && |after[file]| == |rows|
        && forall j :: 0 <= j < |rows| ==> after[file][j] == rows[j].1
    ensures states[i].back.written == [] ==> states[i + 1].back.cold == states[i].back.cold
  {
    InvRun(c, store, cold, states, acts, i);
    assert Step(c, states[i], acts[i], states[i + 1]);
    assert states[i].back.pass.Ending?;
    k := PassBegan(c, store, cold, states, acts, i);
    bound := states[i].back.pass.bound;
    Backend.PublishStep(c.back, states[i].back, file, states[i + 1].back);
  }

  // ----- runs without a replaced export

  lemma ColdStep<K(!new), S, F>(
    c: Backend.Config<K, S>, s: Backend.State<K, S, F>, b: Backend.Action<K, S, F>, t: Backend.State<K, S, F>)
    requires Backend.Step(c, s, b, t)
    ensures t.cold.Keys <= s.cold.Keys + if b.Publish? then {b.file} else {}
    ensures t.clobbers == s.clobbers || (b.Publish? && b.file in s.cold)
  {}

  /** No pass before step `i` publishes under the name of an export that was there or published before. */
  ghost predicate FreshNames<E, K, F>(cold: map<F, seq<Sample<E>>>, acts: seq<Action<E, K, F>>, i: nat)
    requires i <= |acts|
  {
    forall j :: 0 <= j < i && acts[j].Back? && acts[j].b.Publish? ==>
      acts[j].b.file !in cold && forall k :: 0 <= k < j ==> acts[k] != acts[j]
  }

  /** Then no export is ever replaced. */
  lemma {:induction false} NoClobbers<E, K(!new), F(!new)>(
    c: Config<E, K>, store: map<K, Sample<E>>, cold: map<F, seq<Sample<E>>>,
    states: seq<State<E, K, F>>, acts: seq<Action<E, K, F>>, i: nat)
    requires IsRun(c, store, cold, states, acts) && i < |states| && FreshNames(cold, acts, i)
    ensures states[i].back.clobbers == 0
    ensures forall f :: f in states[i].back.cold ==>
              f in cold || exists j :: 0 <= j < i && acts[j] == Back(Backend.Publish(f))
  {
    if i == 0 {
    } else {
      var s, a, t := states[i - 1], acts[i - 1], states[i];
      NoClobbers(c, store, cold, states, acts, i - 1);
      assert Step(c, s, a, t);
      if a.Back? {
        ColdStep(c.back, s.back, a.b, t.back);
      } else if a.InsertOne? {
        ColdStep(c.back, s.back, Backend.Insert(s.front.batch[0]), t.back);
      }
      forall f | f in t.back.cold
        ensures f in cold || exists j :: 0 <= j < i && acts[j] == Back(Backend.Publish(f))
      {
        if f !in s.back.cold { assert acts[i - 1] == Back(Backend.Publish(f)); }
      }
    }
  }

  // ----- after shutdown

  /**
   * Once `shutdown` has returned, each sample accepted before the sentinel is in the store, the open export or a
   * published file, once, unless it was overwritten or replaced; each later one was abandoned and is nowhere else.
   */
  lemma ShutdownDelivers<E, K(!new), F(!new)>(
    c: Config<E, K>, store: map<K, Sample<E>>, cold: map<F, seq<Sample<E>>>,
    states: seq<State<E, K, F>>, acts: seq<Action<E, K, F>>, i: nat, j: nat)
    requires WellFormed(c) && IsRun(c, store, cold, states, acts) && i < |states|
    requires states[i].front.shutdown == Ingest.Done && j < |states[i].front.accepted|
    requires states[i].front.accepted[j] !in AtStart(store, cold)
    ensures var s := states[i]; var x := s.front.accepted[j];
      && Backend.Held(s.back)[x] + Backend.Gone(s.back)[x] == (if j < s.front.cut then 1 else 0)
      && (Clean(s) ==> Backend.Held(s.back)[x] == if j < s.front.cut then 1 else 0)
      && (x in s.front.abandoned <==> j >= s.front.cut)
  {
    InvRun(c, store, cold, states, acts, i);
    var s := states[i];
    var x := s.front.accepted[j];
    Ingest.ExitedIsDrained(c.front, s.front);
    ExactlyOneBucket(c, store, cold, states, acts, i, x);
    Parted(s.front.accepted, s.front.cut, j);
    AbandonedOnce(s.front, x);
    assert multiset(Ingest.Metrics(s.front.queue))[x] == 0 && multiset(s.front.batch)[x] == 0;
  }

  lemma Parted<E>(q: seq<Sample<E>>, cut: nat, j: nat)
    requires cut <= |q| && j < |q|
    requires forall i, k :: 0 <= i < k < |q| ==> q[i].call != q[k].call
    ensures q[j] in q[cut..] <==> j >= cut
  {
    if j >= cut { assert q[cut..][j - cut] == q[j]; }
  }

  lemma AbandonedOnce<E>(f: Ingest.State<E>, x: Sample<E>)
    requires Ingest.CallsInv(f) && Ingest.DrainedState(f)
    ensures multiset(f.abandoned)[x] == if x in f.abandoned then 1 else 0
  {
    assert forall i :: 0 <= i < |f.abandoned| ==> f.abandoned[i] == f.accepted[f.cut + i];
    AcceptedOnce(f.abandoned, x);
  }

  // ----- the writer's own keys

  type EntrySample = Sample<MetricEntry>

  /** The pipeline as configured: keys of the writer, scanned in byte order. */
  function WriterConfig(front: Ingest.Config, rowsPerBatch: nat): Config<MetricEntry, Key>
  {
    Config(front, Backend.Config(rowsPerBatch, Less, (s: EntrySample, i: nat) => Writer.KeyAt(s.entry, i)))
  }

  lemma ByteOrderIsTotal()
    ensures Backend.TotalOrder(Less)
  {
    forall a: Key ensures !Less(a, a) { LessIrreflexive(a); }
    forall a: Key, b: Key, c: Key | Less(a, b) && Less(b, c) ensures Less(a, c) { LessTransitive(a, b, c); }
    forall a: Key, b: Key ensures a == b || Less(a, b) || Less(b, a) { LessTotal(a, b); }
  }

  /**
   * A run from an empty store has no key collision within its first 2^32 inserts, whatever the entries and bursts
   * are.
   */
  lemma NoCollisions<F(!new)>(
    front: Ingest.Config, rowsPerBatch: nat, cold: map<F, seq<EntrySample>>,
    states: seq<State<MetricEntry, Key, F>>, acts: seq<Action<MetricEntry, Key, F>>, i: nat)
    requires front.batchRows > 0 && rowsPerBatch > 0 && i < |states|
    requires IsRun(WriterConfig(front, rowsPerBatch), map[], cold, states, acts)
    requires |states[i].back.inserted| <= U32
    ensures states[i].back.collisions == 0
  {
    var c := WriterConfig(front, rowsPerBatch);
    ByteOrderIsTotal();
    InvRun(c, map[], cold, states, acts, i);
    var ins := states[i].back.inserted;
    var start: State<MetricEntry, Key, F> := states[0];
    assert start.back.used == {};
    forall j: nat | j < |ins| ensures !Backend.Clash(c.back, start.back.used, ins, j) {
      forall k: nat | k < j ensures c.back.key(ins[..j][k], k) != c.back.key(ins[j], j) {
        Writer.ConsecutiveKeysDistinct(ins[k].entry, k, ins[j].entry, j);
      }
    }
  }
}
