/**
 * Runs of compaction passes with errors and crashes, step by step, for the order of the code
 * (src/storage/parquet_exporter.rs: keys are removed chunk by chunk, then the file is renamed) and for
 * the documented order (rename, then purge).
 * Keys are never reused and file names never clash; scanning order does not matter here.
 */
module Delivery {
  import opened Items

  datatype Order = PurgePerChunk | RenameThenPurge

  datatype Phase = Idle | Scanning | Purging

  datatype State<K, R> = State(
    arrived: map<K, R>,       // every row ever inserted
    store: map<K, R>,         // the hot store
    phase: Phase,
    buffered: seq<(K, R)>,    // rows of the current chunk
    written: seq<(K, R)>,     // rows in the temporary file
    purge: seq<K>,            // keys still to be removed
    volatile: map<K, R>,      // removals a crash may undo
    published: seq<(K, R)>,   // rows of all renamed files
    interruptions: nat,
    refusals: nat)

  datatype Action<K, R> =
    | Arrive(k: K, r: R)
    | Begin
    | Buffer(k: K)
    | Flush
    | Remove(ok: bool)
    | Publish(persisted: bool)
    | Finish(persisted: bool)
    | Fail
    | Crash(kept: set<K>)     // the volatile removals of `kept` come undone

  predicate Enabled<K(==), R(==)>(order: Order, n: nat, s: State<K, R>, a: Action<K, R>)
  {
    match a
    case Arrive(k, _) => k !in s.arrived
    case Begin => s.phase == Idle
    case Buffer(k) =>
      && s.phase == Scanning && s.purge == [] && |s.buffered| < n
      && k in s.store && k !in Keys(s.buffered) && k !in Keys(s.written)
    case Flush => s.phase == Scanning && s.purge == [] && s.buffered != []
    case Remove(_) => s.purge != []
    case Publish(_) => s.phase == Scanning && s.purge == [] && s.buffered == [] && s.written != []
    case Finish(_) =>
      s.purge == [] && (s.phase == Purging || (s.phase == Scanning && s.buffered == [] && s.written == []))
    case Fail => s.phase != Idle
    case Crash(kept) => kept <= s.volatile.Keys
  }

  function Settled<K, R>(s: State<K, R>, persisted: bool): State<K, R>
  {
    if persisted then s.(volatile := map[]) else s
  }

  function Dropped<K, R>(s: State<K, R>): State<K, R>
  {
    s.(phase := Idle, buffered := [], written := [], purge := [], interruptions := s.interruptions + 1)
  }

  function Next<K(==), R(==)>(order: Order, n: nat, s: State<K, R>, a: Action<K, R>): State<K, R>
    requires Enabled(order, n, s, a)
  {
    match a
    case Arrive(k, r) => s.(arrived := s.arrived[k := r], store := s.store[k := r])
    case Begin => s.(phase := Scanning)
    case Buffer(k) => s.(buffered := s.buffered + [(k, s.store[k])])
    case Flush =>
      s.(written := s.written + s.buffered, buffered := [],
         purge := if order == PurgePerChunk then Keys(s.buffered) else [])
    case Remove(ok) =>
      var k := s.purge[0];
      if ok && k in s.store then
        s.(store := s.store - {k}, volatile := s.volatile[k := s.store[k]], purge := s.purge[1..])
      else
        s.(purge := s.purge[1..], refusals := s.refusals + 1)
    case Publish(persisted) =>
      var t := s.(published := s.published + s.written, written := []);
      if order == PurgePerChunk then Settled(t.(phase := Idle), persisted)
      else t.(phase := Purging, purge := Keys(s.written))
    case Finish(persisted) => Settled(s.(phase := Idle), persisted)
    case Fail => Dropped(s)
    case Crash(kept) =>
      Dropped(s).(store := s.store + (map k | k in s.volatile && k in kept :: s.volatile[k]), volatile := map[])
  }

  function Init<K, R>(): State<K, R> { State(map[], map[], Idle, [], [], [], map[], [], 0, 0) }

  ghost predicate Step<K, R>(order: Order, n: nat, s: State<K, R>, a: Action<K, R>, t: State<K, R>)
  {
    Enabled(order, n, s, a) && t == Next(order, n, s, a)
  }

  /** A run: the states passed through, and the actions between them. */
  ghost predicate IsRun<K, R>(order: Order, n: nat, states: seq<State<K, R>>, acts: seq<Action<K, R>>)
  {
    && |states| == |acts| + 1 && states[0] == Init()
    && forall i :: 0 <= i < |acts| ==> Step(order, n, states[i], acts[i], states[i + 1])
  }

  // ----- what every step keeps

  ghost predicate FromArrivals<K, R>(items: seq<(K, R)>, arrived: map<K, R>)
  {
    forall i :: 0 <= i < |items| ==> items[i].0 in arrived && arrived[items[i].0] == items[i].1
  }

  ghost predicate In<K, R>(items: seq<(K, R)>, k: K) { exists i :: 0 <= i < |items| && items[i].0 == k }

  ghost predicate AllStored<K, R>(items: seq<(K, R)>, store: map<K, R>)
  {
    forall i :: 0 <= i < |items| ==> items[i].0 in store
  }

  ghost predicate Inv<K, R>(order: Order, s: State<K, R>)
  {
    && (forall k :: k in s.store ==> k in s.arrived && s.store[k] == s.arrived[k])
    && (forall k :: k in s.volatile ==> k !in s.store && k in s.arrived && s.volatile[k] == s.arrived[k])
    && FromArrivals(s.buffered, s.arrived) && FromArrivals(s.written, s.arrived) && FromArrivals(s.published, s.arrived)
    && Distinct(Keys(s.written + s.buffered)) && AllStored(s.buffered, s.store)
    && Distinct(s.purge) && (forall k :: k in s.purge ==> k in s.store) && (s.purge != [] ==> s.buffered == [])
    && (s.phase == Idle ==> s.buffered == [] && s.written == [] && s.purge == [])
    && (s.phase == Purging ==> order == RenameThenPurge && s.buffered == [] && s.written == [])
    && (order == PurgePerChunk ==> forall k :: k in s.purge ==> In(s.written, k))
    && (order == RenameThenPurge ==>
          && AllStored(s.written, s.store)
          && (s.phase == Scanning ==> s.purge == [])
          && (forall k :: k in s.purge ==> In(s.published, k))
          && (forall k :: k in s.arrived ==> k in s.store || In(s.published, k)))
  }

  lemma KeysIn<K, R>(items: seq<(K, R)>, k: K)
    ensures k in Keys(items) <==> In(items, k)
  {
    if In(items, k) {
      var i :| 0 <= i < |items| && items[i].0 == k;
      assert Keys(items)[i] == k;
    }
  }

  lemma InAppend<K, R>(a: seq<(K, R)>, b: seq<(K, R)>, k: K)
    ensures In(a + b, k) <==> In(a, k) || In(b, k)
  {
    if In(a, k) {
      var i :| 0 <= i < |a| && a[i].0 == k;
      assert (a + b)[i].0 == k;
    }
    if In(b, k) {
      var i :| 0 <= i < |b| && b[i].0 == k;
      assert (a + b)[|a| + i].0 == k;
    }
  }

  lemma InvBuffer<K, R>(order: Order, n: nat, s: State<K, R>, a: Action<K, R>, t: State<K, R>)
    requires Inv(order, s) && Step(order, n, s, a, t) && a.Buffer?
    ensures Inv(order, t)
  {
    assert t.written + t.buffered == (s.written + s.buffered) + [(a.k, s.store[a.k])];
    KeysAppend(s.written, s.buffered);
    KeysAppend(s.written + s.buffered, [(a.k, s.store[a.k])]);
  }

  lemma InvFlush<K, R>(order: Order, n: nat, s: State<K, R>, a: Action<K, R>, t: State<K, R>)
    requires Inv(order, s) && Step(order, n, s, a, t) && a.Flush?
    ensures Inv(order, t)
  {
    assert t.written + t.buffered == s.written + s.buffered;
    KeysAppend(s.written, s.buffered);
    DistinctParts(Keys(s.written), Keys(s.buffered));
    forall k ensures In(t.written, k) <==> In(s.written, k) || In(s.buffered, k) { InAppend(s.written, s.buffered, k); }
    forall k ensures k in Keys(s.buffered) <==> In(s.buffered, k) { KeysIn(s.buffered, k); }
  }

  lemma InvPublish<K, R>(order: Order, n: nat, s: State<K, R>, a: Action<K, R>, t: State<K, R>)
    requires Inv(order, s) && Step(order, n, s, a, t) && a.Publish?
    ensures Inv(order, t)
  {
    KeysAppend(s.written, s.buffered);
    DistinctParts(Keys(s.written), Keys(s.buffered));
    forall k ensures In(t.published, k) <==> In(s.published, k) || In(s.written, k) {
      InAppend(s.published, s.written, k);
    }
    forall k ensures k in Keys(s.written) <==> In(s.written, k) { KeysIn(s.written, k); }
  }

  lemma InvRemove<K, R>(order: Order, n: nat, s: State<K, R>, a: Action<K, R>, t: State<K, R>)
    requires Inv(order, s) && Step(order, n, s, a, t) && a.Remove?
    ensures Inv(order, t)
  {}

  lemma InvCrash<K, R>(order: Order, n: nat, s: State<K, R>, a: Action<K, R>, t: State<K, R>)
    requires Inv(order, s) && Step(order, n, s, a, t) && a.Crash?
    ensures Inv(order, t)
  {}

  lemma InvStep<K, R>(order: Order, n: nat, s: State<K, R>, a: Action<K, R>, t: State<K, R>)
    requires Inv(order, s) && Step(order, n, s, a, t)
    ensures Inv(order, t)
  {
    match a
    case Buffer(_) => InvBuffer(order, n, s, a, t);
    case Flush => InvFlush(order, n, s, a, t);
    case Remove(_) => InvRemove(order, n, s, a, t);
    case Publish(_) => InvPublish(order, n, s, a, t);
    case Crash(_) => InvCrash(order, n, s, a, t);
    case _ =>
  }

  lemma {:induction false} InvRun<K, R>(order: Order, n: nat, states: seq<State<K, R>>, acts: seq<Action<K, R>>, i: nat)
    requires IsRun(order, n, states, acts) && i < |states|
    ensures Inv(order, states[i])
  {
    if i == 0 {
    } else {
      InvRun(order, n, states, acts, i - 1);
      InvStep(order, n, states[i - 1], acts[i - 1], states[i]);
    }
  }

  // ----- which rows are lost

  /** A row in neither the store, nor a published file, nor the file being written. */
  ghost predicate Lost<K, R>(s: State<K, R>, k: K)
  {
    k in s.arrived && k !in s.store && !In(s.published, k) && !In(s.written, k)
  }

  /** A row written to the unpublished file whose key has already been removed. */
  ghost predicate Exposed<K, R>(s: State<K, R>, k: K)
  {
    k in s.arrived && k !in s.store && !In(s.published, k) && In(s.written, k)
  }

  /**
   * The exact loss of every step, in either order: an error loses the exposed rows; a crash loses them too,
   * except where it undoes the removal (and so may even bring back rows lost before); no other step loses any.
   */
  lemma LossStep<K, R>(order: Order, n: nat, s: State<K, R>, a: Action<K, R>, t: State<K, R>, k: K)
    requires Inv(order, s) && Step(order, n, s, a, t)
    ensures Lost(t, k) <==>
            match a
            case Fail => Lost(s, k) || Exposed(s, k)
            case Crash(kept) => (Lost(s, k) || Exposed(s, k)) && k !in kept
            case _ => Lost(s, k)
    ensures (a.Fail? || a.Crash?) && k in s.store ==> k in t.store && t.store[k] == s.store[k]
  {
    match a
    case Flush =>
      InAppend(s.written, s.buffered, k);
    case Publish(_) =>
      InAppend(s.published, s.written, k);
    case _ =>
  }

  /** Without an interruption nothing is ever lost, even in the order of the code. */
  lemma {:induction false} QuietRunLosesNothing<K, R>(
    order: Order, n: nat, states: seq<State<K, R>>, acts: seq<Action<K, R>>, i: nat, k: K)
    requires IsRun(order, n, states, acts) && i < |states|
    requires forall j :: 0 <= j < i ==> !acts[j].Fail? && !acts[j].Crash?
    ensures !Lost(states[i], k)
  {
    if i == 0 {
    } else {
      QuietRunLosesNothing(order, n, states, acts, i - 1, k);
      InvRun(order, n, states, acts, i - 1);
      LossStep(order, n, states[i - 1], acts[i - 1], states[i], k);
    }
  }

  /** In the documented order no run loses a row, whatever errors and crashes it has: delivery is at-least-once. */
  lemma DocumentedOrderDelivers<K, R>(n: nat, states: seq<State<K, R>>, acts: seq<Action<K, R>>, i: nat, k: K)
    requires IsRun(RenameThenPurge, n, states, acts) && i < |states| && k in states[i].arrived
    ensures (k in states[i].store && states[i].store[k] == states[i].arrived[k]) || In(states[i].published, k)
    ensures !Lost(states[i], k)
  {
    InvRun(RenameThenPurge, n, states, acts, i);
  }

  /** The same six steps lose the row in the order of the code: flush, remove, and an error before the rename. */
  lemma CodeOrderLoses<K, R>(n: nat, k: K, r: R)
    returns (states: seq<State<K, R>>, acts: seq<Action<K, R>>)
    requires n > 0
    ensures IsRun(PurgePerChunk, n, states, acts) && Lost(states[|acts|], k)
  {
    acts := [Arrive(k, r), Begin, Buffer(k), Flush, Remove(true), Fail];
    var s1 := Next(PurgePerChunk, n, Init(), acts[0]);
    var s2 := Next(PurgePerChunk, n, s1, acts[1]);
    var s3 := Next(PurgePerChunk, n, s2, acts[2]);
    var s4 := Next(PurgePerChunk, n, s3, acts[3]);
    var s5 := Next(PurgePerChunk, n, s4, acts[4]);
    states := [Init(), s1, s2, s3, s4, s5, Next(PurgePerChunk, n, s5, acts[5])];
    assert |acts| == 6 && |states| == 7;
  }

  // ----- how often a row is published

  /** Copies of a row already published, and those on their way. */
  ghost function Copies<K, R>(order: Order, s: State<K, R>, k: K): nat
    requires k in s.arrived
  {
    multiset(s.published)[(k, s.arrived[k])]
    + (if k in s.store && k !in s.purge then 1 else 0)
    + (if order == PurgePerChunk && In(s.written, k) then 1 else 0)
  }

  lemma {:induction false} CountDistinct<K, R>(items: seq<(K, R)>, arrived: map<K, R>, k: K)
    requires Distinct(Keys(items)) && FromArrivals(items, arrived) && k in arrived
    ensures multiset(items)[(k, arrived[k])] == if In(items, k) then 1 else 0
  {
    if items == [] {
    } else {
      var m := |items| - 1;
      assert items == items[..m] + [items[m]];
      KeysAppend(items[..m], [items[m]]);
      DistinctParts(Keys(items[..m]), Keys([items[m]]));
      CountDistinct(items[..m], arrived, k);
      InAppend(items[..m], [items[m]], k);
      assert In([items[m]], k) <==> items[m].0 == k by { assert [items[m]][0] == items[m]; }
      forall i | 0 <= i < m ensures items[..m][i].0 != items[m].0 { assert Keys(items)[i] != Keys(items)[m]; }
    }
  }

  lemma CopiesPublish<K, R>(order: Order, n: nat, s: State<K, R>, a: Action<K, R>, t: State<K, R>, k: K)
    requires Inv(order, s) && Step(order, n, s, a, t) && k in s.arrived && a.Publish?
    ensures Copies(order, t, k) <= Copies(order, s, k)
  {
    KeysAppend(s.written, s.buffered);
    DistinctParts(Keys(s.written), Keys(s.buffered));
    CountDistinct(s.written, s.arrived, k);
    assert multiset(t.published) == multiset(s.published) + multiset(s.written);
    KeysIn(s.written, k);
  }

  lemma InOnePart<K, R>(a: seq<(K, R)>, b: seq<(K, R)>, k: K)
    requires Distinct(Keys(a + b)) && In(a, k)
    ensures !In(b, k)
  {
    var i :| 0 <= i < |a| && a[i].0 == k;
    forall j | 0 <= j < |b| ensures b[j].0 != k { assert Keys(a + b)[i] != Keys(a + b)[|a| + j]; }
  }

  lemma CopiesFlush<K, R>(order: Order, n: nat, s: State<K, R>, a: Action<K, R>, t: State<K, R>, k: K)
    requires Inv(order, s) && Step(order, n, s, a, t) && k in s.arrived && a.Flush?
    ensures Copies(order, t, k) <= Copies(order, s, k)
  {
    InAppend(s.written, s.buffered, k);
    KeysIn(s.buffered, k);
    if In(s.written, k) { InOnePart(s.written, s.buffered, k); }
  }

  /** Only an interruption or a refused removal adds a copy. */
  lemma CopiesStep<K, R>(order: Order, n: nat, s: State<K, R>, a: Action<K, R>, t: State<K, R>, k: K)
    requires Inv(order, s) && Step(order, n, s, a, t) && k in s.arrived
    ensures Copies(order, t, k) - Copies(order, s, k) <= (t.interruptions + t.refusals) - (s.interruptions + s.refusals)
  {
    match a
    case Flush => CopiesFlush(order, n, s, a, t, k);
    case Publish(_) => CopiesPublish(order, n, s, a, t, k);
    case Remove(_) => CopiesRemove(order, n, s, a, t, k);
    case _ =>
  }

  lemma CopiesRemove<K, R>(order: Order, n: nat, s: State<K, R>, a: Action<K, R>, t: State<K, R>, k: K)
    requires Inv(order, s) && Step(order, n, s, a, t) && k in s.arrived && a.Remove?
    ensures Copies(order, t, k) - Copies(order, s, k) <= t.refusals - s.refusals
  {}

  /** In any run, a row has at most one copy more than there were interruptions and refused removals. */
  lemma {:induction false} CopiesBounded<K, R>(
    order: Order, n: nat, states: seq<State<K, R>>, acts: seq<Action<K, R>>, i: nat, k: K)
    requires IsRun(order, n, states, acts) && i < |states| && k in states[i].arrived
    ensures Copies(order, states[i], k) <= 1 + states[i].interruptions + states[i].refusals
  {
    if i == 0 {
    } else {
      InvRun(order, n, states, acts, i - 1);
      if k in states[i - 1].arrived {
        CopiesBounded(order, n, states, acts, i - 1, k);
        CopiesStep(order, n, states[i - 1], acts[i - 1], states[i], k);
      } else {
        NewRowHasOneCopy(order, n, states[i - 1], acts[i - 1], states[i], k);
      }
    }
  }

  lemma NewRowHasOneCopy<K, R>(order: Order, n: nat, s: State<K, R>, a: Action<K, R>, t: State<K, R>, k: K)
    requires Inv(order, s) && Step(order, n, s, a, t) && k !in s.arrived && k in t.arrived
    ensures Copies(order, t, k) <= 1
  {}

  /** A row that is not lost has a copy. */
  lemma KeptRowHasCopy<K, R>(order: Order, s: State<K, R>, k: K)
    requires Inv(order, s) && k in s.arrived && !Lost(s, k)
    ensures Copies(order, s, k) >= 1
  {}

  /**
   * Between passes of a run without interruptions or refused removals, each row is in the store or published once,
   * never both.
   */
  lemma QuietRunDeliversOnce<K, R>(
    order: Order, n: nat, states: seq<State<K, R>>, acts: seq<Action<K, R>>, i: nat, k: K)
    requires IsRun(order, n, states, acts) && i < |states| && k in states[i].arrived
    requires forall j :: 0 <= j < i ==> !acts[j].Fail? && !acts[j].Crash?
    requires states[i].interruptions == states[i].refusals == 0 && states[i].phase == Idle
    ensures multiset(states[i].published)[(k, states[i].arrived[k])] == if k in states[i].store then 0 else 1
  {
    InvRun(order, n, states, acts, i);
    CopiesBounded(order, n, states, acts, i, k);
    QuietRunLosesNothing(order, n, states, acts, i, k);
    KeptRowHasCopy(order, states[i], k);
  }

  // ----- removals that stay, and crashes that repeat a row

  lemma GoneStep<K, R>(order: Order, n: nat, s: State<K, R>, a: Action<K, R>, t: State<K, R>, k: K)
    requires Step(order, n, s, a, t) && k in s.arrived && k !in s.store && k !in s.volatile
    ensures k in t.arrived && k !in t.store && k !in t.volatile
  {}

  /** A removal that was followed by a persisted end of a pass is never undone, whatever crashes come later. */
  lemma {:induction false} RemovedForGood<K, R>(
    order: Order, n: nat, states: seq<State<K, R>>, acts: seq<Action<K, R>>, j: nat, i: nat, k: K)
    requires IsRun(order, n, states, acts) && j < i < |states|
    requires acts[j] == Finish(true) || (order == PurgePerChunk && acts[j] == Publish(true))
    requires k in states[j].arrived && k !in states[j].store
    ensures k in states[i].arrived && k !in states[i].store && k !in states[i].volatile
  {
    assert Step(order, n, states[i - 1], acts[i - 1], states[i]);
    if i == j + 1 {
    } else {
      RemovedForGood(order, n, states, acts, j, i - 1, k);
      GoneStep(order, n, states[i - 1], acts[i - 1], states[i], k);
    }
  }

  lemma Extend<K, R>(order: Order, n: nat, states: seq<State<K, R>>, acts: seq<Action<K, R>>, a: Action<K, R>)
    returns (longer: seq<State<K, R>>, more: seq<Action<K, R>>)
    requires IsRun(order, n, states, acts) && Enabled(order, n, states[|acts|], a)
    ensures IsRun(order, n, longer, more) && more == acts + [a]
    ensures longer[|more|] == Next(order, n, states[|acts|], a)
  {
    more := acts + [a];
    longer := states + [Next(order, n, states[|acts|], a)];
    forall i | 0 <= i < |more| ensures Step(order, n, longer[i], more[i], longer[i + 1]) {
      if i < |acts| { assert Step(order, n, states[i], acts[i], states[i + 1]); }
    }
  }

  /** One row is stored, and a pass has it buffered and written. */
  lemma WriteOne<K, R>(order: Order, n: nat, states: seq<State<K, R>>, acts: seq<Action<K, R>>, k: K)
    returns (longer: seq<State<K, R>>, more: seq<Action<K, R>>)
    requires n > 0 && IsRun(order, n, states, acts)
    requires var s := states[|acts|]; s.phase == Idle && s.buffered == s.written == [] && s.purge == [] && k in s.store
    ensures IsRun(order, n, longer, more)
    ensures var s := states[|acts|]; longer[|more|] == s.(
      phase := Scanning, written := [(k, s.store[k])], purge := if order == PurgePerChunk then [k] else [])
  {
    longer, more := Extend(order, n, states, acts, Begin);
    longer, more := Extend(order, n, longer, more, Buffer(k));
    longer, more := Extend(order, n, longer, more, Flush);
    assert Keys([(k, states[|acts|].store[k])]) == [k];
  }

  /** In the documented order a crash between rename and purge repeats the row. */
  lemma CrashRepeats<K, R>(n: nat, k: K, r: R) returns (states: seq<State<K, R>>, acts: seq<Action<K, R>>)
    requires n > 0
    ensures IsRun(RenameThenPurge, n, states, acts) && states[|acts|].interruptions == 1
    ensures states[|acts|].published == [(k, r), (k, r)]
  {
    states, acts := [Init()], [];
    states, acts := Extend(RenameThenPurge, n, states, acts, Arrive(k, r));
    states, acts := WriteOne(RenameThenPurge, n, states, acts, k);
    states, acts := Extend(RenameThenPurge, n, states, acts, Publish(true));
    states, acts := Extend(RenameThenPurge, n, states, acts, Crash({}));
    states, acts := WriteOne(RenameThenPurge, n, states, acts, k);
    states, acts := Extend(RenameThenPurge, n, states, acts, Publish(true));
  }

  /** In the order of the code a crash that undoes a removal not yet persisted repeats it. */
  lemma UndoneRemovalRepeats<K, R>(n: nat, k: K, r: R) returns (states: seq<State<K, R>>, acts: seq<Action<K, R>>)
    requires n > 0
    ensures IsRun(PurgePerChunk, n, states, acts) && states[|acts|].interruptions == 1
    ensures states[|acts|].published == [(k, r), (k, r)]
  {
    states, acts := [Init()], [];
    states, acts := Extend(PurgePerChunk, n, states, acts, Arrive(k, r));
    states, acts := WriteOne(PurgePerChunk, n, states, acts, k);
    states, acts := Extend(PurgePerChunk, n, states, acts, Remove(true));
    states, acts := Extend(PurgePerChunk, n, states, acts, Publish(false));
    states, acts := Extend(PurgePerChunk, n, states, acts, Crash({k}));
    states, acts := WriteOne(PurgePerChunk, n, states, acts, k);
    states, acts := Extend(PurgePerChunk, n, states, acts, Remove(true));
    states, acts := Extend(PurgePerChunk, n, states, acts, Publish(true));
  }
}
