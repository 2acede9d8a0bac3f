/**
 * The hot store shared by the writer and the compactor, one atomic step at a time
 * (src/storage/fjall_engine.rs:189-198, src/storage/parquet_exporter.rs:92-120): inserts may land
 * anywhere during a pass, and the scan may or may not see one made ahead of its cursor.
 * Store operations succeed and every key is one the writer encoded.
 */
module Backend {
  import opened Wrappers
  import opened Bags
  import opened Items

  /** `key(s, i)` is the key the `i`-th insert of the run gives sample `s`; `less` is the scan order. */
  datatype Config<!K, !S> = Config(rowsPerBatch: nat, less: (K, K) -> bool, key: (S, nat) -> K)

  /** A pass remembers which keys the store held at its start; the scan must not miss those of the range. */
  datatype Pass<K> = Idle | Scanning(bound: K, cursor: Option<K>, snapshot: set<K>)
                   | Ending(bound: K, snapshot: set<K>)

  datatype State<K, S, F> = State(
    store: map<K, S>,
    used: set<K>,                 // keys ever in the store
    inserted: seq<S>,             // samples of this run, in insertion order
    collisions: nat,              // inserts that hit a used key
    pass: Pass<K>,
    buffered: seq<(K, S)>,        // rows of the current chunk; their keys are still in the store
    written: seq<(K, S)>,         // rows in the open export
    purge: seq<K>,                // written keys still to be removed
    cold: map<F, seq<S>>,         // published files
    clobbers: nat,                // renames onto an existing file
    overwritten: multiset<S>,     // stored samples replaced by an insert, and inserts under a key about to be removed
    replaced: multiset<S>)        // samples of files replaced by a rename

  datatype Action<K, S, F> =
    | Insert(s: S)
    | StartPass(bound: K)
    | ScanNext(k: K)
    | Flush
    | Remove
    | EndScan
    | Publish(file: F)

  function Init<K, S, F>(store: map<K, S>, cold: map<F, seq<S>>): State<K, S, F>
  {
    State(store, store.Keys, [], 0, Idle, [], [], [], cold, 0, multiset{}, multiset{})
  }

  ghost predicate AheadOfCursor<K, S>(c: Config<K, S>, p: Pass<K>, k: K)
    requires p.Scanning?
  {
    c.less(k, p.bound) && (p.cursor.Some? ==> c.less(p.cursor.value, k))
  }

  ghost predicate Enabled<K(!new), S, F>(c: Config<K, S>, s: State<K, S, F>, a: Action<K, S, F>)
  {
    match a
    case Insert(_) => true
    case StartPass(_) => s.pass == Idle
    case ScanNext(k) =>
      && s.pass.Scanning? && s.purge == [] && |s.buffered| < c.rowsPerBatch
      && k in s.store && AheadOfCursor(c, s.pass, k)
      && (forall j :: j in s.pass.snapshot && j in s.store && AheadOfCursor(c, s.pass, j) ==> !c.less(j, k))
    case Flush => s.purge == [] && s.buffered != [] && (|s.buffered| >= c.rowsPerBatch || s.pass.Ending?)
    case Remove => s.purge != []
    case EndScan =>
      && s.pass.Scanning? && s.purge == [] && |s.buffered| < c.rowsPerBatch
      && (forall j :: j in s.pass.snapshot && j in s.store ==> !AheadOfCursor(c, s.pass, j))
    case Publish(_) => s.pass.Ending? && s.purge == [] && s.buffered == []
  }

  function Samples<K, S>(items: seq<(K, S)>): (q: seq<S>)
    ensures |q| == |items| && forall i :: 0 <= i < |items| ==> q[i] == items[i].1
  {
    seq(|items|, i requires 0 <= i < |items| => items[i].1)
  }

  /** Keys whose removal is due: those of written rows, and those of the chunk that will be written. */
  function Leaving<K, S, F>(s: State<K, S, F>): seq<K> { s.purge + Keys(s.buffered) }

  /** The sample lost by an insert of `x` under `k`: itself if the key is due to leave, else the one it overwrites. */
  function Cost<K, S>(store: map<K, S>, leaving: seq<K>, k: K, x: S): multiset<S>
  {
    if k in leaving then multiset{x} else if k in store then multiset{store[k]} else multiset{}
  }

  /** What a rename costs: the samples of the file it replaces. */
  function Replaces<F, S>(cold: map<F, seq<S>>, file: F): multiset<S>
  {
    if file in cold then Many(cold[file]) else multiset{}
  }

  ghost function Next<K(!new), S, F>(c: Config<K, S>, s: State<K, S, F>, a: Action<K, S, F>): State<K, S, F>
    requires Enabled(c, s, a)
  {
    match a
    case Insert(x) =>
      var k := c.key(x, |s.inserted|);
      s.(store := s.store[k := x], used := s.used + {k}, inserted := s.inserted + [x],
         collisions := s.collisions + (if k in s.used then 1 else 0),
         overwritten := s.overwritten + Cost(s.store, Leaving(s), k, x))
    case StartPass(bound) => s.(pass := Scanning(bound, None, s.store.Keys))
    case ScanNext(k) => s.(buffered := s.buffered + [(k, s.store[k])], pass := s.pass.(cursor := Some(k)))
    case Flush => s.(written := s.written + s.buffered, purge := Keys(s.buffered), buffered := [])
    case Remove => s.(store := s.store - {s.purge[0]}, purge := s.purge[1..])
    case EndScan => s.(pass := Ending(s.pass.bound, s.pass.snapshot))
    case Publish(file) =>
      if s.written == [] then s.(pass := Idle)
      else s.(cold := s.cold[file := Samples(s.written)], written := [], pass := Idle,
              clobbers := s.clobbers + (if file in s.cold then 1 else 0),
              replaced := s.replaced + Replaces(s.cold, file))
  }

  ghost predicate Step<K(!new), S, F>(c: Config<K, S>, s: State<K, S, F>, a: Action<K, S, F>, t: State<K, S, F>)
  {
    Enabled(c, s, a) && t == Next(c, s, a)
  }

  // ----- conservation

  /** The hot bucket: the rows of the current chunk, and the stored samples under keys that stay. */
  ghost function Hot<K(!new), S, F>(s: State<K, S, F>): multiset<S>
  {
    Total(Staying(s.store, Leaving(s)), One) + multiset(Samples(s.buffered))
  }

  ghost function Staying<K, S>(store: map<K, S>, leaving: seq<K>): map<K, S>
  {
    map k | k in store && k !in leaving :: store[k]
  }

  /** What the store, the open export and the published files hold. */
  ghost function Held<K(!new), S, F(!new)>(s: State<K, S, F>): multiset<S>
  {
    Hot(s) + multiset(Samples(s.written)) + Total(s.cold, Many)
  }

  /** Samples gone for good. */
  function Gone<K, S, F>(s: State<K, S, F>): multiset<S> { s.overwritten + s.replaced }

  // ----- what every step keeps

  ghost predicate StrictOrder<K(!new)>(less: (K, K) -> bool)
  {
    && (forall a :: !less(a, a))
    && (forall a, b, c :: less(a, b) && less(b, c) ==> less(a, c))
  }

  /** Rows are buffered behind the cursor, so the scan cannot meet their keys again. */
  ghost predicate BehindCursor<K, S>(less: (K, K) -> bool, pass: Pass<K>, buffered: seq<(K, S)>)
  {
    pass.Scanning? ==>
      forall i :: 0 <= i < |buffered| ==>
        pass.cursor.Some? && (buffered[i].0 == pass.cursor.value || less(buffered[i].0, pass.cursor.value))
  }

  ghost predicate Inv<K, S, F>(c: Config<K, S>, s: State<K, S, F>)
  {
    && s.store.Keys <= s.used
    && (s.collisions == 0 ==>
          forall i :: 0 <= i < |s.buffered| ==>
            s.buffered[i].0 in s.store && s.store[s.buffered[i].0] == s.buffered[i].1)
    && Distinct(Keys(s.buffered))
    && BehindCursor(c.less, s.pass, s.buffered)
    && |s.buffered| <= c.rowsPerBatch && (forall i :: 0 <= i < |s.buffered| ==> s.buffered[i].0 in s.used)
    && (s.purge != [] ==> s.buffered == [])
    && (s.pass.Idle? ==> s.buffered == [] && s.written == [] && s.purge == [])
    && (forall k :: k in s.purge ==> k in s.used)
    && Distinct(s.purge)
    && (s.collisions == 0 ==> s.overwritten == multiset{})
    && (s.clobbers == 0 ==> s.replaced == multiset{})
  }

  lemma InvInsert<K(!new), S, F>(c: Config<K, S>, s: State<K, S, F>, a: Action<K, S, F>, t: State<K, S, F>)
    requires Inv(c, s) && Step(c, s, a, t) && a.Insert?
    ensures Inv(c, t)
  {
    var k := c.key(a.s, |s.inserted|);
    if k !in s.used { assert k !in Leaving(s); }
  }

  /** The scan cannot meet the key of a buffered row again. */
  lemma ScanIsFresh<K(!new), S, F>(c: Config<K, S>, s: State<K, S, F>, k: K)
    requires StrictOrder(c.less) && Inv(c, s) && Enabled(c, s, ScanNext(k))
    ensures k !in Leaving(s)
  {
    forall i | 0 <= i < |s.buffered| ensures s.buffered[i].0 != k {}
  }

  lemma InvScan<K(!new), S, F>(c: Config<K, S>, s: State<K, S, F>, a: Action<K, S, F>, t: State<K, S, F>)
    requires StrictOrder(c.less) && Inv(c, s) && Step(c, s, a, t) && a.ScanNext?
    ensures Inv(c, t)
  {
    ScanIsFresh(c, s, a.k);
    KeysAppend(s.buffered, [(a.k, s.store[a.k])]);
  }

  lemma InvFlush<K(!new), S, F>(c: Config<K, S>, s: State<K, S, F>, a: Action<K, S, F>, t: State<K, S, F>)
    requires Inv(c, s) && Step(c, s, a, t) && a.Flush?
    ensures Inv(c, t)
  {
    assert t.purge == Keys(s.buffered);
  }

  lemma InvRemove<K(!new), S, F>(c: Config<K, S>, s: State<K, S, F>, a: Action<K, S, F>, t: State<K, S, F>)
    requires Inv(c, s) && Step(c, s, a, t) && a.Remove?
    ensures Inv(c, t)
  {}

  lemma InvTurn<K(!new), S, F>(c: Config<K, S>, s: State<K, S, F>, a: Action<K, S, F>, t: State<K, S, F>)
    requires Inv(c, s) && Step(c, s, a, t) && (a.StartPass? || a.EndScan? || a.Publish?)
    ensures Inv(c, t)
  {}

  lemma InvStep<K(!new), S, F>(c: Config<K, S>, s: State<K, S, F>, a: Action<K, S, F>, t: State<K, S, F>)
    requires StrictOrder(c.less) && Inv(c, s) && Step(c, s, a, t)
    ensures Inv(c, t)
  {
    match a
    case Insert(_) => InvInsert(c, s, a, t);
    case ScanNext(_) => InvScan(c, s, a, t);
    case Flush => InvFlush(c, s, a, t);
    case Remove => InvRemove(c, s, a, t);
    case _ => InvTurn(c, s, a, t);
  }

  // ----- no step loses or duplicates a sample unaccounted for

  lemma StayingPut<K, S>(store: map<K, S>, leaving: seq<K>, k: K, x: S)
    ensures Staying(store[k := x], leaving)
         == if k in leaving then Staying(store, leaving) else Staying(store, leaving)[k := x]
  {}

  lemma StayingInsert<K(!new), S>(store: map<K, S>, leaving: seq<K>, k: K, x: S)
    ensures Total(Staying(store[k := x], leaving), One) + Cost(store, leaving, k, x)
         == Total(Staying(store, leaving), One) + multiset{x}
  {
    StayingPut(store, leaving, k, x);
    TotalPut(Staying(store, leaving), One, k, x);
  }

  lemma InsertBalance<T>(
    was: multiset<T>, now: multiset<T>, cost: multiset<T>, x: multiset<T>, chunk: multiset<T>, written: multiset<T>,
    cold: multiset<T>, overwritten: multiset<T>, replaced: multiset<T>)
    requires now + cost == was + x
    ensures now + chunk + written + cold + (overwritten + cost + replaced)
         == was + chunk + written + cold + (overwritten + replaced) + x
  {
    var rest := chunk + written + cold + (overwritten + replaced);
    assert now + chunk + written + cold + (overwritten + cost + replaced) == (now + cost) + rest;
    assert was + chunk + written + cold + (overwritten + replaced) + x == (was + x) + rest;
  }

  lemma HeldInsert<K(!new), S, F(!new)>(
    c: Config<K, S>, s: State<K, S, F>, a: Action<K, S, F>, t: State<K, S, F>)
    requires Step(c, s, a, t) && a.Insert?
    ensures Held(t) + Gone(t) == Held(s) + Gone(s) + multiset{a.s}
  {
    var k := c.key(a.s, |s.inserted|);
    assert Leaving(t) == Leaving(s);
    StayingInsert(s.store, Leaving(s), k, a.s);
    InsertBalance(
      Total(Staying(s.store, Leaving(s)), One), Total(Staying(t.store, Leaving(t)), One),
      Cost(s.store, Leaving(s), k, a.s), multiset{a.s}, multiset(Samples(s.buffered)), multiset(Samples(s.written)),
      Total(s.cold, Many), s.overwritten, s.replaced);
  }

  lemma SamplesAppend<K, S>(a: seq<(K, S)>, b: seq<(K, S)>)
    ensures multiset(Samples(a + b)) == multiset(Samples(a)) + multiset(Samples(b))
  {
    assert Samples(a + b) == Samples(a) + Samples(b);
  }

  lemma StayingTaken<K(!new), S>(store: map<K, S>, leaving: seq<K>, k: K)
    requires k in store && k !in leaving
    ensures Total(Staying(store, leaving), One) == Total(Staying(store, leaving + [k]), One) + multiset{store[k]}
  {
    assert Staying(store, leaving + [k]) == Staying(store, leaving) - {k};
    TotalWithout(Staying(store, leaving), One, k);
  }

  lemma RowTaken<K, S>(buffered: seq<(K, S)>, k: K, x: S)
    ensures Keys(buffered + [(k, x)]) == Keys(buffered) + [k]
    ensures multiset(Samples(buffered + [(k, x)])) == multiset(Samples(buffered)) + multiset{x}
  {
    KeysAppend(buffered, [(k, x)]);
    SamplesAppend(buffered, [(k, x)]);
    assert Samples([(k, x)]) == [x];
  }

  lemma HeldScan<K(!new), S, F(!new)>(c: Config<K, S>, s: State<K, S, F>, a: Action<K, S, F>, t: State<K, S, F>)
    requires StrictOrder(c.less) && Inv(c, s) && Step(c, s, a, t) && a.ScanNext?
    ensures Hot(t) == Hot(s)
  {
    ScanIsFresh(c, s, a.k);
    RowTaken(s.buffered, a.k, s.store[a.k]);
    StayingTaken(s.store, Leaving(s), a.k);
    assert Leaving(t) == Leaving(s) + [a.k];
  }

  lemma HeldFlush<K(!new), S, F(!new)>(c: Config<K, S>, s: State<K, S, F>, a: Action<K, S, F>, t: State<K, S, F>)
    requires Step(c, s, a, t) && a.Flush?
    ensures Held(t) == Held(s)
  {
    assert Leaving(t) == Leaving(s);
    SamplesAppend(s.written, s.buffered);
  }

  lemma HeldRemove<K(!new), S, F(!new)>(c: Config<K, S>, s: State<K, S, F>, a: Action<K, S, F>, t: State<K, S, F>)
    requires Step(c, s, a, t) && a.Remove?
    ensures Hot(t) == Hot(s)
  {
    assert Leaving(s) == [s.purge[0]] + Leaving(t);
    assert Staying(t.store, Leaving(t)) == Staying(s.store, Leaving(s)) by {
      StayingRemoved(s.store, s.purge[0], Leaving(t));
    }
  }

  lemma StayingRemoved<K, S>(store: map<K, S>, k: K, leaving: seq<K>)
    ensures Staying(store, [k] + leaving) == Staying(store, leaving) - {k}
    ensures Staying(store - {k}, leaving) == Staying(store, leaving) - {k}
  {}

  lemma PublishBalance<T>(
    hot: multiset<T>, written: multiset<T>, was: multiset<T>, now: multiset<T>, cost: multiset<T>,
    overwritten: multiset<T>, replaced: multiset<T>)
    requires now + cost == was + written
    ensures hot + multiset{} + now + (overwritten + (replaced + cost)) == hot + written + was + (overwritten + replaced)
  {
    assert hot + multiset{} + now + (overwritten + (replaced + cost)) == hot + (now + cost) + (overwritten + replaced);
  }

  lemma HotStays<K(!new), S, F>(s: State<K, S, F>, t: State<K, S, F>)
    requires t.store == s.store && t.purge == s.purge && t.buffered == s.buffered
    ensures Hot(t) == Hot(s)
  {}

  lemma HeldPublish<K(!new), S, F(!new)>(
    c: Config<K, S>, s: State<K, S, F>, a: Action<K, S, F>, t: State<K, S, F>)
    requires Step(c, s, a, t) && a.Publish?
    ensures Held(t) + Gone(t) == Held(s) + Gone(s)
  {
    HotStays(s, t);
    if s.written != [] {
      var was, now, cost := Total(s.cold, Many), Total(t.cold, Many), Replaces(s.cold, a.file);
      TotalPut(s.cold, Many, a.file, Samples(s.written));
      PublishBalance(Hot(s), multiset(Samples(s.written)), was, now, cost, s.overwritten, s.replaced);
      assert multiset(Samples(t.written)) == multiset{};
    }
  }

  /**
   * What the store, the open export and the published files hold, together with the samples overwritten and
   * replaced so far, grows by each insert and by nothing else. No assumption on keys or file names.
   */
  lemma HeldStep<K(!new), S, F(!new)>(c: Config<K, S>, s: State<K, S, F>, a: Action<K, S, F>, t: State<K, S, F>)
    requires StrictOrder(c.less) && Inv(c, s) && Step(c, s, a, t)
    ensures Held(t) + Gone(t) == Held(s) + Gone(s) + if a.Insert? then multiset{a.s} else multiset{}
  {
    match a
    case Insert(_) => HeldInsert(c, s, a, t);
    case ScanNext(_) => HeldScan(c, s, a, t);
    case Flush => HeldFlush(c, s, a, t);
    case Remove => HeldRemove(c, s, a, t);
    case Publish(_) => HeldPublish(c, s, a, t);
    case _ =>
  }

  // ----- a pass misses nothing

  ghost predicate TotalOrder<K(!new)>(less: (K, K) -> bool)
  {
    StrictOrder(less) && forall a, b :: a == b || less(a, b) || less(b, a)
  }

  /** The pass has buffered or written the row of this key. */
  predicate Taken<K, S, F>(s: State<K, S, F>, k: K) { k in Keys(s.written) || k in Keys(s.buffered) }

  /** `q` whole chunks. */
  predicate IsWhole(rows: nat, q: nat, n: nat) { rows == q * n }

  /**
   * During a scan only whole chunks have been written.
   * Every key the range held at the start has been taken, or is still in the store ahead of the cursor; after the
   * scan, all have been taken. Nothing outside the range is taken, and only taken keys are removed.
   */
  ghost predicate Complete<K(!new), S, F>(c: Config<K, S>, s: State<K, S, F>)
  {
    && (forall k :: k in s.purge ==> k in Keys(s.written))
    && (s.pass.Scanning? ==> exists q: nat :: IsWhole(|s.written|, q, c.rowsPerBatch))
    && match s.pass
       case Idle => true
       case Scanning(bound, _, snapshot) =>
         && (forall k :: Taken(s, k) ==> c.less(k, bound))
         && forall k :: k in snapshot && c.less(k, bound) ==>
              Taken(s, k) || (k in s.store && AheadOfCursor(c, s.pass, k))
       case Ending(bound, snapshot) =>
         && (forall k :: Taken(s, k) ==> c.less(k, bound))
         && forall k :: k in snapshot && c.less(k, bound) ==> Taken(s, k)
  }

  lemma CompleteScan<K(!new), S, F>(c: Config<K, S>, s: State<K, S, F>, a: Action<K, S, F>, t: State<K, S, F>)
    requires TotalOrder(c.less) && Complete(c, s) && Step(c, s, a, t) && a.ScanNext?
    ensures Complete(c, t)
  {
    KeysAppend(s.buffered, [(a.k, s.store[a.k])]);
    assert Keys([(a.k, s.store[a.k])]) == [a.k];
    assert forall k :: Taken(t, k) <==> Taken(s, k) || k == a.k;
  }

  lemma CompleteFlush<K(!new), S, F>(c: Config<K, S>, s: State<K, S, F>, a: Action<K, S, F>, t: State<K, S, F>)
    requires Inv(c, s) && Complete(c, s) && Step(c, s, a, t) && a.Flush?
    ensures Complete(c, t)
  {
    KeysAppend(s.written, s.buffered);
    assert forall k :: Taken(t, k) <==> Taken(s, k);
    if s.pass.Scanning? {
      var q: nat :| IsWhole(|s.written|, q, c.rowsPerBatch);
      assert IsWhole(|t.written|, q + 1, c.rowsPerBatch);
    }
  }

  lemma CompleteRemove<K(!new), S, F>(c: Config<K, S>, s: State<K, S, F>, a: Action<K, S, F>, t: State<K, S, F>)
    requires Complete(c, s) && Step(c, s, a, t) && a.Remove?
    ensures Complete(c, t)
  {
    assert s.purge[0] in Keys(s.written);
    assert forall k :: k in t.purge ==> k in s.purge;
    assert forall k :: Taken(t, k) <==> Taken(s, k);
  }

  lemma CompleteInsert<K(!new), S, F>(c: Config<K, S>, s: State<K, S, F>, a: Action<K, S, F>, t: State<K, S, F>)
    requires Complete(c, s) && Step(c, s, a, t) && a.Insert?
    ensures Complete(c, t)
  {
    assert forall k :: Taken(t, k) <==> Taken(s, k);
  }

  lemma CompleteTurn<K(!new), S, F>(c: Config<K, S>, s: State<K, S, F>, a: Action<K, S, F>, t: State<K, S, F>)
    requires Inv(c, s) && Complete(c, s) && Step(c, s, a, t) && (a.StartPass? || a.EndScan? || a.Publish?)
    ensures Complete(c, t)
  {
    assert !a.Publish? ==> forall k :: Taken(t, k) <==> Taken(s, k);
    if a.StartPass? { assert IsWhole(|t.written|, 0, c.rowsPerBatch); }
  }

  lemma CompleteStep<K(!new), S, F>(c: Config<K, S>, s: State<K, S, F>, a: Action<K, S, F>, t: State<K, S, F>)
    requires TotalOrder(c.less) && Inv(c, s) && Complete(c, s) && Step(c, s, a, t)
    ensures Complete(c, t)
  {
    match a
    case Insert(_) => CompleteInsert(c, s, a, t);
    case ScanNext(_) => CompleteScan(c, s, a, t);
    case Flush => CompleteFlush(c, s, a, t);
    case Remove => CompleteRemove(c, s, a, t);
    case _ => CompleteTurn(c, s, a, t);
  }

  /** A pass that publishes has written every key of its range, and its file holds exactly what it wrote. */
  lemma PublishStep<K(!new), S, F>(c: Config<K, S>, s: State<K, S, F>, file: F, t: State<K, S, F>)
    requires Complete(c, s) && Step(c, s, Publish(file), t)
    ensures s.pass.Ending?
    ensures forall k :: k in s.pass.snapshot && c.less(k, s.pass.bound) ==> k in Keys(s.written)
    ensures forall k :: k in Keys(s.written) ==> c.less(k, s.pass.bound)
    ensures s.written != [] ==> file in t.cold && t.cold[file] == Samples(s.written)
    ensures s.written == [] ==> t.cold == s.cold
  {
    assert forall k :: Taken(s, k) <==> k in Keys(s.written);
  }

  // ----- when keys collide

  /** `k` is the key of one of these inserts. */
  ghost predicate Given<K, S>(c: Config<K, S>, inserted: seq<S>, k: K)
  {
    exists i: nat :: i < |inserted| && c.key(inserted[i], i) == k
  }

  /** Insert `j` reuses the key of an earlier insert of the run, or of the store it started from. */
  ghost predicate Clash<K, S>(c: Config<K, S>, base: set<K>, inserted: seq<S>, j: nat)
    requires j < |inserted|
  {
    var k := c.key(inserted[j], j);
    k in base || Given(c, inserted[..j], k)
  }

  /**
   * The used keys are those the run started with and those it gave; collisions are counted exactly when inserts
   * clash.
   */
  ghost predicate KeysTracked<K(!new), S, F>(c: Config<K, S>, base: set<K>, s: State<K, S, F>)
  {
    && (forall k :: k in s.used <==> k in base || Given(c, s.inserted, k))
    && (s.collisions == 0 <==> forall j: nat :: j < |s.inserted| ==> !Clash(c, base, s.inserted, j))
  }

  lemma GivenSnoc<K, S>(c: Config<K, S>, inserted: seq<S>, x: S, k: K)
    ensures Given(c, inserted + [x], k) <==> Given(c, inserted, k) || c.key(x, |inserted|) == k
  {
    var more := inserted + [x];
    if Given(c, inserted, k) {
      var i: nat :| i < |inserted| && c.key(inserted[i], i) == k;
      assert more[i] == inserted[i];
    }
    if c.key(x, |inserted|) == k { assert more[|inserted|] == x; }
  }

  lemma KeysTrackedStep<K(!new), S, F>(
    c: Config<K, S>, base: set<K>, s: State<K, S, F>, a: Action<K, S, F>, t: State<K, S, F>)
    requires KeysTracked(c, base, s) && Step(c, s, a, t)
    ensures KeysTracked(c, base, t)
  {
    if a.Insert? {
      var n := |s.inserted|;
      forall k ensures Given(c, t.inserted, k) <==> Given(c, s.inserted, k) || c.key(a.s, n) == k {
        GivenSnoc(c, s.inserted, a.s, k);
      }
      forall j: nat | j < n ensures Clash(c, base, t.inserted, j) <==> Clash(c, base, s.inserted, j) {
        assert t.inserted[..j] == s.inserted[..j];
      }
      assert t.inserted[..n] == s.inserted;
      assert Clash(c, base, t.inserted, n) <==> c.key(a.s, n) in s.used;
    }
  }
}
