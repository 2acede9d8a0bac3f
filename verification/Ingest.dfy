/**
 * The hot path as a protocol: concurrent `record` calls, the bounded channel, the writer thread and
 * `shutdown` (src/engine.rs, and the loop of src/storage/fjall_engine.rs one message at a time).
 * Each action is one atomic step of one thread; atomics are sequentially consistent.
 */
module Ingest {

  const MAX_TRIES: nat := 100

  /** An entry handed to `record`, tagged with the number of the call. */
  datatype Sample<E> = Sample(call: nat, entry: E)

  datatype Msg<E> = Metric(s: Sample<E>) | Sentinel

  /** A `record` call past the shutdown flag: about to send, or refused and about to count the drop. */
  datatype Call<E> = Passed(entry: E) | Refused(entry: E)

  /** `Flushing(true)` is the flush after the sentinel was met with a backlog. */
  datatype WriterPc = Parked | Draining | Flushing(last: bool) | Exited

  datatype ShutdownPc = NotCalled | Sending(tries: nat) | Joining | Done

  datatype Config = Config(capacity: nat, batchRows: nat)

  datatype State<E> = State(
    flag: bool,                    // SHUTDOWN
    nextCall: nat,
    inflight: map<nat, Call<E>>,
    passed: nat,                   // calls that read the flag as false
    dropped: nat,                  // dropped_total
    accepted: seq<Sample<E>>,      // samples the channel took, in order
    queue: seq<Msg<E>>,
    pc: WriterPc,
    batch: seq<Sample<E>>,
    inserted: seq<Sample<E>>,      // samples handed to the store, in order
    abandoned: seq<Sample<E>>,     // samples in the channel when the writer left
    shutdown: ShutdownPc,
    sent: bool,                    // the sentinel entered the channel
    cut: nat,                      // samples accepted before it did
    racers: set<nat>)              // calls in flight when the flag was set

  datatype Action<E> =
    | Enter(entry: E)
    | TrySend(call: nat)
    | CountDrop(call: nat)
    | Recv
    | TryRecv
    | GiveUp
    | Insert
    | FlushDone
    | CallShutdown
    | TrySentinel
    | StopTrying
    | Join

  predicate IsWriter<E>(a: Action<E>) { a.Recv? || a.TryRecv? || a.GiveUp? || a.Insert? || a.FlushDone? }

  function Init<E>(): State<E>
  {
    State(false, 0, map[], 0, 0, [], [], Parked, [], [], [], NotCalled, false, 0, {})
  }

  /** The samples of a message sequence. */
  function Metrics<E>(q: seq<Msg<E>>): seq<Sample<E>>
  {
    if q == [] then [] else (if q[0].Metric? then [q[0].s] else []) + Metrics(q[1..])
  }

  predicate Enabled<E>(c: Config, s: State<E>, a: Action<E>)
  {
    match a
    case Enter(_) => true
    case TrySend(call) => call in s.inflight && s.inflight[call].Passed?
    case CountDrop(call) => call in s.inflight && s.inflight[call].Refused?
    case Recv => s.pc == Parked && s.queue != []
    case TryRecv => s.pc == Draining && |s.batch| < c.batchRows && s.queue != []
    case GiveUp => s.pc == Draining
    case Insert => s.pc.Flushing? && s.batch != []
    case FlushDone => s.pc.Flushing? && s.batch == []
    case CallShutdown => !s.flag
    case TrySentinel => s.shutdown.Sending? && s.shutdown.tries < MAX_TRIES
    case StopTrying => s.shutdown.Sending? && s.shutdown.tries == MAX_TRIES
    case Join => s.shutdown == Joining && s.pc == Exited
  }

  /** The writer returns: the receiver is dropped, with whatever it still holds. */
  function Leave<E>(s: State<E>): State<E>
  {
    s.(pc := Exited, abandoned := Metrics(s.queue), queue := [])
  }

  predicate Closed<E>(s: State<E>) { s.pc == Exited }

  predicate Full<E>(c: Config, s: State<E>) { |s.queue| >= c.capacity }

  function Next<E>(c: Config, s: State<E>, a: Action<E>): State<E>
    requires Enabled(c, s, a)
  {
    match a
    case Enter(e) =>
      if s.flag then s
      else s.(nextCall := s.nextCall + 1, passed := s.passed + 1, inflight := s.inflight[s.nextCall := Passed(e)])
    case TrySend(call) =>
      var e := s.inflight[call].entry;
      if Closed(s) || Full(c, s) then s.(inflight := s.inflight[call := Refused(e)])
      else
        s.(inflight := s.inflight - {call},
           queue := s.queue + [Metric(Sample(call, e))],
           accepted := s.accepted + [Sample(call, e)])
    case CountDrop(call) => s.(inflight := s.inflight - {call}, dropped := s.dropped + 1)
    case Recv =>
      var t := s.(queue := s.queue[1..]);
      if s.queue[0].Metric? then t.(batch := [s.queue[0].s], pc := Draining) else Leave(t)
    case TryRecv =>
      var t := s.(queue := s.queue[1..]);
      if s.queue[0].Metric? then t.(batch := s.batch + [s.queue[0].s]) else t.(pc := Flushing(true))
    case GiveUp => s.(pc := Flushing(false))
    case Insert => s.(inserted := s.inserted + [s.batch[0]], batch := s.batch[1..])
    case FlushDone => if s.pc.last then Leave(s) else s.(pc := Parked)
    case CallShutdown => s.(flag := true, shutdown := Sending(0), racers := s.inflight.Keys)
    case TrySentinel =>
      if Closed(s) then s.(shutdown := Joining)
      else if Full(c, s) then s.(shutdown := Sending(s.shutdown.tries + 1))
      else s.(queue := s.queue + [Sentinel], sent := true, cut := |s.accepted|, shutdown := Joining)
    case StopTrying => s.(shutdown := Joining)
    case Join => s.(shutdown := Done)
  }

  ghost predicate Step<E>(c: Config, s: State<E>, a: Action<E>, t: State<E>)
  {
    Enabled(c, s, a) && t == Next(c, s, a)
  }

  /** A run: the states passed through, and the actions between them, in any interleaving. */
  ghost predicate IsRun<E>(c: Config, states: seq<State<E>>, acts: seq<Action<E>>)
  {
    && |states| == |acts| + 1 && states[0] == Init()
    && forall i :: 0 <= i < |acts| ==> Step(c, states[i], acts[i], states[i + 1])
  }

  // ----- message sequences

  function Sentinels<E>(q: seq<Msg<E>>): nat
  {
    if q == [] then 0 else (if q[0].Sentinel? then 1 else 0) + Sentinels(q[1..])
  }

  /** Messages ahead of the first sentinel. */
  function AheadCount<E>(q: seq<Msg<E>>): nat
  {
    if q == [] || q[0].Sentinel? then 0 else 1 + AheadCount(q[1..])
  }

  lemma {:induction false} MetricsAppend<E>(q: seq<Msg<E>>, m: Msg<E>)
    ensures Metrics(q + [m]) == Metrics(q) + if m.Metric? then [m.s] else []
  {
    if q == [] {
      assert q + [m] == [m];
    } else {
      assert (q + [m])[0] == q[0] && (q + [m])[1..] == q[1..] + [m];
      MetricsAppend(q[1..], m);
    }
  }

  lemma {:induction false} SentinelsAppend<E>(q: seq<Msg<E>>, m: Msg<E>)
    ensures Sentinels(q + [m]) == Sentinels(q) + if m.Sentinel? then 1 else 0
  {
    if q == [] {
      assert q + [m] == [m];
    } else {
      assert (q + [m])[0] == q[0] && (q + [m])[1..] == q[1..] + [m];
      SentinelsAppend(q[1..], m);
    }
  }

  lemma {:induction false} AheadAppend<E>(q: seq<Msg<E>>, m: Msg<E>)
    ensures AheadCount(q + [m]) == if Sentinels(q) > 0 || m.Sentinel? then AheadCount(q) else AheadCount(q) + 1
  {
    if q == [] {
      assert q + [m] == [m];
    } else {
      assert (q + [m])[0] == q[0] && (q + [m])[1..] == q[1..] + [m];
      AheadAppend(q[1..], m);
    }
  }

  /** Without a sentinel every message is a metric. */
  lemma {:induction false} NoSentinel<E>(q: seq<Msg<E>>)
    requires Sentinels(q) == 0
    ensures AheadCount(q) == |q| == |Metrics(q)|
  {
    if q == [] {
    } else {
      NoSentinel(q[1..]);
    }
  }

  // ----- what every step keeps

  /** The sentinel has left the channel. */
  predicate Consumed<E>(s: State<E>) { s.pc == Flushing(true) || s.pc == Exited }

  /**
   * First in, first out, nothing lost: the accepted samples are the inserted, batched, queued and abandoned ones,
   * in that order.
   */
  ghost predicate Fifo<E>(s: State<E>)
  {
    s.accepted == s.inserted + s.batch + Metrics(s.queue) + s.abandoned
  }

  /** Every call past the flag has been accepted, counted as dropped, or is still under way. */
  ghost predicate Counted<E>(s: State<E>)
  {
    s.passed == |s.accepted| + s.dropped + |s.inflight|
  }

  ghost predicate WriterInv<E>(c: Config, s: State<E>)
  {
    && |s.batch| <= c.batchRows && |s.queue| <= c.capacity
    && (s.pc == Parked ==> s.batch == [])
    && (s.pc == Exited ==> s.batch == [] && s.queue == [])
    && (s.pc != Exited ==> s.abandoned == [])
    && Sentinels(s.queue) == (if s.sent && !Consumed(s) then 1 else 0)
    && (!s.sent ==> !Consumed(s))
    && (s.sent ==> |s.inserted| + |s.batch| + (if Consumed(s) then 0 else AheadCount(s.queue)) == s.cut <= |s.accepted|)
  }

  ghost predicate ShutdownInv<E>(s: State<E>)
  {
    && (s.flag <==> s.shutdown != NotCalled)
    && (s.sent ==> s.shutdown == Joining || s.shutdown == Done)
    && (s.shutdown == Done ==> s.pc == Exited)
    && (s.flag ==> s.inflight.Keys <= s.racers)
    && (s.sent ==> forall i :: s.cut <= i < |s.accepted| ==> s.accepted[i].call in s.racers)
  }

  ghost predicate CallsInv<E>(s: State<E>)
  {
    && (forall k :: k in s.inflight ==> k < s.nextCall)
    && (forall i :: 0 <= i < |s.accepted| ==> s.accepted[i].call < s.nextCall && s.accepted[i].call !in s.inflight)
    && (forall i, j :: 0 <= i < j < |s.accepted| ==> s.accepted[i].call != s.accepted[j].call)
  }

  ghost predicate Inv<E>(c: Config, s: State<E>)
  {
    Fifo(s) && Counted(s) && WriterInv(c, s) && ShutdownInv(s) && CallsInv(s)
  }

  lemma MoveLeft<T>(a: seq<T>, b: seq<T>, x: T, m: seq<T>, d: seq<T>)
    ensures a + b + ([x] + m) + d == a + (b + [x]) + m + d
  {}

  lemma FifoSend<E>(c: Config, s: State<E>, a: Action<E>, t: State<E>)
    requires Fifo(s) && WriterInv(c, s) && Step(c, s, a, t) && a.TrySend?
    ensures Fifo(t)
  {
    var x := Sample(a.call, s.inflight[a.call].entry);
    MetricsAppend(s.queue, Metric(x));
    assert (s.inserted + s.batch + Metrics(s.queue)) + [x] == s.inserted + s.batch + (Metrics(s.queue) + [x]);
  }

  lemma FifoReceive<E>(c: Config, s: State<E>, a: Action<E>, t: State<E>)
    requires Fifo(s) && WriterInv(c, s) && Step(c, s, a, t) && (a.Recv? || a.TryRecv?) && s.queue[0].Metric?
    ensures Fifo(t)
  {
    MoveLeft(s.inserted, s.batch, s.queue[0].s, Metrics(s.queue[1..]), s.abandoned);
  }

  /** The sentinel leaves the channel, or the writer leaves. */
  lemma FifoEnd<E>(c: Config, s: State<E>, a: Action<E>, t: State<E>)
    requires Fifo(s) && WriterInv(c, s) && Step(c, s, a, t)
    requires a.FlushDone? || ((a.Recv? || a.TryRecv?) && s.queue[0].Sentinel?)
    ensures Fifo(t)
  {}

  lemma FifoIdle<E>(c: Config, s: State<E>, a: Action<E>, t: State<E>)
    requires Fifo(s) && Step(c, s, a, t)
    requires a.Enter? || a.CountDrop? || a.GiveUp? || a.CallShutdown? || a.StopTrying? || a.Join?
    ensures Fifo(t)
  {}

  lemma FifoInsert<E>(c: Config, s: State<E>, a: Action<E>, t: State<E>)
    requires Fifo(s) && WriterInv(c, s) && Step(c, s, a, t) && a.Insert?
    ensures Fifo(t)
  {}

  lemma FifoStep<E>(c: Config, s: State<E>, a: Action<E>, t: State<E>)
    requires Fifo(s) && WriterInv(c, s) && Step(c, s, a, t)
    ensures Fifo(t)
  {
    match a
    case TrySend(_) => FifoSend(c, s, a, t);
    case TrySentinel => MetricsAppend(s.queue, Sentinel);
    case Recv => if s.queue[0].Metric? { FifoReceive(c, s, a, t); } else { FifoEnd(c, s, a, t); }
    case TryRecv => if s.queue[0].Metric? { FifoReceive(c, s, a, t); } else { FifoEnd(c, s, a, t); }
    case Insert => FifoInsert(c, s, a, t);
    case FlushDone => FifoEnd(c, s, a, t);
    case _ => FifoIdle(c, s, a, t);
  }

  predicate IsRecord<E>(a: Action<E>) { a.Enter? || a.TrySend? || a.CountDrop? }

  /** Steps of the writer and of `shutdown` leave the bookkeeping of `record` calls alone. */
  lemma RecordFrame<E>(c: Config, s: State<E>, a: Action<E>, t: State<E>)
    requires Step(c, s, a, t) && !IsRecord(a)
    ensures t.inflight == s.inflight && t.accepted == s.accepted && t.nextCall == s.nextCall
    ensures t.passed == s.passed && t.dropped == s.dropped
  {}

  /** Steps of `record` calls leave the writer and `shutdown` alone. */
  lemma WriterFrame<E>(c: Config, s: State<E>, a: Action<E>, t: State<E>)
    requires Step(c, s, a, t) && IsRecord(a)
    ensures t.pc == s.pc && t.batch == s.batch && t.inserted == s.inserted && t.abandoned == s.abandoned
    ensures t.flag == s.flag && t.shutdown == s.shutdown && t.sent == s.sent && t.cut == s.cut && t.racers == s.racers
  {}

  lemma MapSizes<K, V>(m: map<K, V>, k: K, v: V)
    ensures |m[k := v]| == |m| + if k in m then 0 else 1
    ensures k in m ==> |m - {k}| == |m| - 1
  {}

  lemma EnterStep<E>(c: Config, s: State<E>, a: Action<E>, t: State<E>)
    requires Counted(s) && CallsInv(s) && Step(c, s, a, t) && a.Enter?
    ensures Counted(t) && CallsInv(t)
  {}

  lemma SendAccepted<E>(c: Config, s: State<E>, a: Action<E>, t: State<E>)
    requires Counted(s) && CallsInv(s) && Step(c, s, a, t) && a.TrySend? && !Closed(s) && !Full(c, s)
    ensures Counted(t) && CallsInv(t)
  {
    MapSizes(s.inflight, a.call, s.inflight[a.call]);
  }

  lemma SendRefused<E>(c: Config, s: State<E>, a: Action<E>, t: State<E>)
    requires Counted(s) && CallsInv(s) && Step(c, s, a, t) && a.TrySend? && (Closed(s) || Full(c, s))
    ensures Counted(t) && CallsInv(t)
  {
    MapSizes(s.inflight, a.call, Refused(s.inflight[a.call].entry));
  }

  lemma DropStep<E>(c: Config, s: State<E>, a: Action<E>, t: State<E>)
    requires Counted(s) && CallsInv(s) && Step(c, s, a, t) && a.CountDrop?
    ensures Counted(t) && CallsInv(t)
  {}

  lemma CallsStep<E>(c: Config, s: State<E>, a: Action<E>, t: State<E>)
    requires Counted(s) && CallsInv(s) && Step(c, s, a, t)
    ensures Counted(t) && CallsInv(t)
  {
    match a
    case Enter(_) => EnterStep(c, s, a, t);
    case TrySend(_) =>
      if Closed(s) || Full(c, s) { SendRefused(c, s, a, t); } else { SendAccepted(c, s, a, t); }
    case CountDrop(_) => DropStep(c, s, a, t);
    case _ => RecordFrame(c, s, a, t);
  }

  lemma MetricEnters<E>(c: Config, s: State<E>, a: Action<E>, t: State<E>)
    requires WriterInv(c, s) && Step(c, s, a, t) && a.TrySend?
    ensures WriterInv(c, t)
  {
    var m := Metric(Sample(a.call, s.inflight[a.call].entry));
    WriterFrame(c, s, a, t);
    SentinelsAppend(s.queue, m);
    AheadAppend(s.queue, m);
  }

  lemma SentinelEnters<E>(c: Config, s: State<E>, t: State<E>)
    requires Fifo(s) && WriterInv(c, s) && ShutdownInv(s) && Step(c, s, TrySentinel, t)
    ensures WriterInv(c, t)
  {
    SentinelsAppend(s.queue, Sentinel);
    AheadAppend(s.queue, Sentinel);
    if !s.sent { NoSentinel(s.queue); }
  }

  lemma MessageLeaves<E>(c: Config, s: State<E>, a: Action<E>, t: State<E>)
    requires c.batchRows > 0 && WriterInv(c, s) && Step(c, s, a, t) && (a.Recv? || a.TryRecv?)
    ensures WriterInv(c, t)
  {}

  lemma BatchMoves<E>(c: Config, s: State<E>, a: Action<E>, t: State<E>)
    requires WriterInv(c, s) && Step(c, s, a, t) && (a.GiveUp? || a.Insert? || a.FlushDone?)
    ensures WriterInv(c, t)
  {}

  /** Steps that touch neither the writer nor the channel. */
  lemma WriterIdle<E>(c: Config, s: State<E>, a: Action<E>, t: State<E>)
    requires WriterInv(c, s) && Step(c, s, a, t)
    requires a.Enter? || a.CountDrop? || a.CallShutdown? || a.StopTrying? || a.Join?
    ensures WriterInv(c, t)
  {}

  lemma WriterStep<E>(c: Config, s: State<E>, a: Action<E>, t: State<E>)
    requires c.batchRows > 0 && Inv(c, s) && Step(c, s, a, t)
    ensures WriterInv(c, t)
  {
    match a
    case TrySend(_) => MetricEnters(c, s, a, t);
    case TrySentinel => SentinelEnters(c, s, t);
    case Recv => MessageLeaves(c, s, a, t);
    case TryRecv => MessageLeaves(c, s, a, t);
    case GiveUp => BatchMoves(c, s, a, t);
    case Insert => BatchMoves(c, s, a, t);
    case FlushDone => BatchMoves(c, s, a, t);
    case _ => WriterIdle(c, s, a, t);
  }

  lemma ShutdownStep<E>(c: Config, s: State<E>, a: Action<E>, t: State<E>)
    requires WriterInv(c, s) && ShutdownInv(s) && Step(c, s, a, t)
    ensures ShutdownInv(t)
  {
    if IsRecord(a) { WriterFrame(c, s, a, t); } else { RecordFrame(c, s, a, t); }
  }

  lemma InvStep<E>(c: Config, s: State<E>, a: Action<E>, t: State<E>)
    requires c.batchRows > 0 && Inv(c, s) && Step(c, s, a, t)
    ensures Inv(c, t)
  {
    FifoStep(c, s, a, t);
    CallsStep(c, s, a, t);
    WriterStep(c, s, a, t);
    ShutdownStep(c, s, a, t);
  }

  lemma {:induction false} InvRun<E>(c: Config, states: seq<State<E>>, acts: seq<Action<E>>, i: nat)
    requires c.batchRows > 0 && IsRun(c, states, acts) && i < |states|
    ensures Inv(c, states[i])
  {
    if i == 0 {
    } else {
      InvRun(c, states, acts, i - 1);
      InvStep(c, states[i - 1], acts[i - 1], states[i]);
    }
  }

  // ----- shutdown drains the channel

  /** What `Drained` says of a single state. */
  ghost predicate DrainedState<E>(s: State<E>)
  {
    && s.sent && s.cut <= |s.accepted|
    && s.inserted == s.accepted[..s.cut] && s.abandoned == s.accepted[s.cut..]
    && (forall j :: 0 <= j < |s.abandoned| ==> s.abandoned[j].call in s.racers)
  }

  lemma ExitedIsDrained<E>(c: Config, s: State<E>)
    requires Inv(c, s) && s.pc == Exited
    ensures DrainedState(s)
  {}

  /**
   * Once the writer has left, it had inserted exactly the samples accepted before the sentinel, in order.
   * What it abandoned is the rest, and all of it comes from calls that read the flag before `shutdown` set it.
   */
  lemma Drained<E>(c: Config, states: seq<State<E>>, acts: seq<Action<E>>, i: nat)
    requires c.batchRows > 0 && IsRun(c, states, acts) && i < |states| && states[i].pc == Exited
    ensures DrainedState(states[i])
  {
    InvRun(c, states, acts, i);
    ExitedIsDrained(c, states[i]);
  }

  /**
   * The call of `shutdown` that set the flag: the racers are the calls then in flight, and none passes the flag
   * later.
   */
  lemma {:induction false} FlagWasSet<E>(
    c: Config, states: seq<State<E>>, acts: seq<Action<E>>, i: nat)
    returns (k: nat)
    requires IsRun(c, states, acts) && i < |states| && states[i].flag
    ensures k < i && acts[k].CallShutdown?
    ensures states[i].racers == states[k].inflight.Keys && states[i].passed == states[k].passed
  {
    assert i > 0;
    assert Step(c, states[i - 1], acts[i - 1], states[i]);
    if states[i - 1].flag {
      k := FlagWasSet(c, states, acts, i - 1);
      FlagStays(c, states[i - 1], acts[i - 1], states[i]);
    } else {
      k := i - 1;
    }
  }

  lemma FlagStays<E>(c: Config, s: State<E>, a: Action<E>, t: State<E>)
    requires Step(c, s, a, t) && s.flag
    ensures t.flag && t.racers == s.racers && t.passed == s.passed
  {}

  /**
   * Every abandoned sample comes from a `record` call that was past the flag check, and not yet sent, when
   * `shutdown` set the flag.
   */
  lemma RacersPassedBefore<E>(c: Config, states: seq<State<E>>, acts: seq<Action<E>>, i: nat, j: nat) returns (k: nat)
    requires c.batchRows > 0 && IsRun(c, states, acts) && i < |states| && j < |states[i].abandoned|
    ensures k < i && acts[k].CallShutdown?
    ensures states[i].abandoned[j].call in states[k].inflight && states[i].abandoned[j] !in states[k].accepted
    ensures states[i].passed == states[k].passed
  {
    InvRun(c, states, acts, i);
    Drained(c, states, acts, i);
    k := FlagWasSet(c, states, acts, i);
    InvRun(c, states, acts, k);
  }

  /** Weight of the writer's remaining work up to and including the sentinel. */
  function Measure<E>(s: State<E>): nat
  {
    (if Consumed(s) then 0 else 4 * (AheadCount(s.queue) + 1))
    + |s.batch|
    + (if s.pc == Draining then 2 else if s.pc.Flushing? then 1 else 0)
  }

  /** Each writer step lowers the measure, and no other step changes it, once the sentinel is in the channel. */
  lemma MeasureStep<E>(c: Config, s: State<E>, a: Action<E>, t: State<E>)
    requires c.batchRows > 0 && Inv(c, s) && Step(c, s, a, t) && s.sent
    ensures t.sent
    ensures if IsWriter(a) then Measure(t) < Measure(s) else Measure(t) == Measure(s)
  {
    if IsRecord(a) {
      WriterFrame(c, s, a, t);
      if a.TrySend? { AheadAppend(s.queue, Metric(Sample(a.call, s.inflight[a.call].entry))); }
    } else {
      RecordFrame(c, s, a, t);
    }
  }

  /** A writer that has not left after the sentinel was sent always has a step to take. */
  lemma NeverStuck<E>(c: Config, s: State<E>) returns (a: Action<E>)
    requires c.batchRows > 0 && Inv(c, s) && s.sent && s.pc != Exited
    ensures IsWriter(a) && Enabled(c, s, a)
  {
    a := match s.pc
         case Parked => Recv
         case Draining => GiveUp
         case _ => if s.batch != [] then Insert else FlushDone;
  }

  /** Writer steps among the actions from `i` up to `j`. */
  function WriterSteps<E>(acts: seq<Action<E>>, i: nat, j: nat): nat
    requires i <= j <= |acts|
  {
    if i == j then 0 else WriterSteps(acts, i, j - 1) + if IsWriter(acts[j - 1]) then 1 else 0
  }

  lemma MeasureRun<E>(c: Config, states: seq<State<E>>, acts: seq<Action<E>>, i: nat)
    requires c.batchRows > 0 && IsRun(c, states, acts) && i < |acts| && states[i].sent
    ensures states[i + 1].sent
    ensures Measure(states[i + 1]) + (if IsWriter(acts[i]) then 1 else 0) <= Measure(states[i])
  {
    InvRun(c, states, acts, i);
    MeasureStep(c, states[i], acts[i], states[i + 1]);
  }

  /**
   * After the sentinel is delivered, the writer takes at most `Measure` further steps, so a scheduled writer
   * leaves.
   */
  lemma {:induction false} WriterTerminates<E>(c: Config, states: seq<State<E>>, acts: seq<Action<E>>, i: nat, j: nat)
    requires c.batchRows > 0 && IsRun(c, states, acts) && i <= j < |states| && states[i].sent
    ensures states[j].sent && WriterSteps(acts, i, j) + Measure(states[j]) <= Measure(states[i])
  {
    if i == j {
    } else {
      WriterTerminates(c, states, acts, i, j - 1);
      MeasureRun(c, states, acts, j - 1);
    }
  }

  // ----- and an undelivered sentinel blocks it

  /** `shutdown` returns only if the sentinel was delivered. */
  lemma JoinNeedsSentinel<E>(c: Config, states: seq<State<E>>, acts: seq<Action<E>>, i: nat)
    requires c.batchRows > 0 && IsRun(c, states, acts) && i < |states| && states[i].shutdown == Done
    ensures states[i].sent && states[i].pc == Exited
  {
    InvRun(c, states, acts, i);
  }

  /** Once the tries are used up without delivery, the writer never leaves and the join never returns. */
  lemma {:induction false} UndeliveredBlocksForever<E>(
    c: Config, states: seq<State<E>>, acts: seq<Action<E>>, i: nat, j: nat)
    requires c.batchRows > 0 && IsRun(c, states, acts) && i <= j < |states|
    requires states[i].shutdown == Joining && !states[i].sent
    ensures states[j].shutdown == Joining && !states[j].sent && states[j].pc != Exited
  {
    InvRun(c, states, acts, j);
    if i < j {
      UndeliveredBlocksForever(c, states, acts, i, j - 1);
      InvRun(c, states, acts, j - 1);
      UndeliveredStep(c, states[j - 1], acts[j - 1], states[j]);
    }
  }

  lemma UndeliveredStep<E>(c: Config, s: State<E>, a: Action<E>, t: State<E>)
    requires ShutdownInv(s) && Step(c, s, a, t) && s.shutdown == Joining && !s.sent && s.pc != Exited
    ensures t.shutdown == Joining && !t.sent
  {}

  /** Positions of a run at which a try to send the sentinel found the channel full. */
  ghost predicate FullTries<E>(c: Config, states: seq<State<E>>, acts: seq<Action<E>>, tries: seq<nat>, i: nat)
    requires |states| == |acts| + 1 && i <= |acts|
  {
    && (forall m :: 0 <= m < |tries| ==> tries[m] < i && acts[tries[m]].TrySentinel? && Full(c, states[tries[m]]))
    && (forall m, n :: 0 <= m < n < |tries| ==> tries[m] < tries[n])
  }

  /** Each try counted so far found the channel full. */
  lemma {:induction false} TriesFoundFull<E>(c: Config, states: seq<State<E>>, acts: seq<Action<E>>, i: nat)
    returns (tries: seq<nat>)
    requires IsRun(c, states, acts) && i < |states| && states[i].shutdown.Sending?
    ensures |tries| == states[i].shutdown.tries && FullTries(c, states, acts, tries, i)
  {
    assert i > 0;
    var k := i - 1;
    assert Step(c, states[k], acts[k], states[i]);
    SendingFrom(c, states[k], acts[k], states[i]);
    if acts[k].CallShutdown? {
      tries := [];
    } else {
      tries := TriesFoundFull(c, states, acts, k);
      if acts[k].TrySentinel? { tries := tries + [k]; }
    }
  }

  lemma SendingFrom<E>(c: Config, s: State<E>, a: Action<E>, t: State<E>)
    requires Step(c, s, a, t) && t.shutdown.Sending?
    ensures a.CallShutdown? ==> t.shutdown.tries == 0
    ensures !a.CallShutdown? ==> s.shutdown.Sending?
    ensures a.TrySentinel? ==> Full(c, s) && t.shutdown.tries == s.shutdown.tries + 1
    ensures !a.CallShutdown? && !a.TrySentinel? ==> t.shutdown == s.shutdown
  {}

  /** The sentinel stays undelivered only if all of the tries found the channel full. */
  lemma {:induction false} UndeliveredMeansFull<E>(c: Config, states: seq<State<E>>, acts: seq<Action<E>>, i: nat)
    returns (tries: seq<nat>)
    requires c.batchRows > 0 && IsRun(c, states, acts) && i < |states|
    requires states[i].shutdown == Joining && !states[i].sent
    ensures |tries| == 100 && FullTries(c, states, acts, tries, i)
  {
    assert i > 0;
    InvRun(c, states, acts, i - 1);
    assert Step(c, states[i - 1], acts[i - 1], states[i]);
    JoiningFrom(c, states[i - 1], acts[i - 1], states[i]);
    if states[i - 1].shutdown == Joining {
      tries := UndeliveredMeansFull(c, states, acts, i - 1);
    } else {
      tries := TriesFoundFull(c, states, acts, i - 1);
    }
  }

  lemma JoiningFrom<E>(c: Config, s: State<E>, a: Action<E>, t: State<E>)
    requires WriterInv(c, s) && Step(c, s, a, t) && t.shutdown == Joining && !t.sent
    ensures !s.sent && (s.shutdown == Joining || s.shutdown == Sending(MAX_TRIES))
  {}

  // ----- both failures happen

  lemma Extend<E>(c: Config, states: seq<State<E>>, acts: seq<Action<E>>, a: Action<E>)
    returns (longer: seq<State<E>>, more: seq<Action<E>>)
    requires IsRun(c, states, acts) && Enabled(c, states[|acts|], a)
    ensures IsRun(c, longer, more) && more == acts + [a] && longer[..|states|] == states
    ensures longer[|more|] == Next(c, states[|acts|], a)
  {
    more := acts + [a];
    longer := states + [Next(c, states[|acts|], a)];
    forall i | 0 <= i < |more| ensures Step(c, longer[i], more[i], longer[i + 1]) {
      if i < |acts| { assert Step(c, states[i], acts[i], states[i + 1]); }
    }
  }

  /** A run of `n` calls that fill the channel up to there while the writer does not get to run. */
  lemma {:induction false} Fill<E>(c: Config, e: E, n: nat) returns (states: seq<State<E>>, acts: seq<Action<E>>)
    requires n <= c.capacity
    ensures IsRun(c, states, acts)
    ensures var s := states[|acts|];
      |s.queue| == n && s.inflight == map[] && s.pc == Parked && s.shutdown == NotCalled && !s.flag && !s.sent
  {
    if n == 0 {
      states, acts := [Init()], [];
    } else {
      states, acts := Fill(c, e, n - 1);
      var call := states[|acts|].nextCall;
      states, acts := Extend(c, states, acts, Enter(e));
      states, acts := Extend(c, states, acts, TrySend(call));
    }
  }

  lemma {:induction false} TryInVain<E>(c: Config, states: seq<State<E>>, acts: seq<Action<E>>, n: nat)
    returns (longer: seq<State<E>>, more: seq<Action<E>>)
    requires IsRun(c, states, acts) && n <= MAX_TRIES
    requires var s := states[|acts|]; s.shutdown == Sending(0) && Full(c, s) && s.pc == Parked && !s.sent
    ensures IsRun(c, longer, more) && longer[|more|] == states[|acts|].(shutdown := Sending(n))
  {
    if n == 0 {
      longer, more := states, acts;
    } else {
      longer, more := TryInVain(c, states, acts, n - 1);
      longer, more := Extend(c, longer, more, TrySentinel);
    }
  }

  /** For every capacity there is a run in which `shutdown` waits for a writer that was never told to leave. */
  lemma ShutdownCanBlock<E>(c: Config, e: E) returns (states: seq<State<E>>, acts: seq<Action<E>>)
    ensures IsRun(c, states, acts)
    ensures states[|acts|].shutdown == Joining && !states[|acts|].sent
  {
    states, acts := Fill(c, e, c.capacity);
    states, acts := Extend(c, states, acts, CallShutdown);
    states, acts := TryInVain(c, states, acts, MAX_TRIES);
    states, acts := Extend(c, states, acts, StopTrying);
  }

  /**
   * For every capacity of at least two there is a run in which `shutdown` returns and an accepted sample is never
   * inserted.
   */
  lemma RaceAbandons<E>(c: Config, e: E) returns (states: seq<State<E>>, acts: seq<Action<E>>)
    requires c.capacity >= 2
    ensures IsRun(c, states, acts)
    ensures var s := states[|acts|]; var x := Sample(0, e);
      s.shutdown == Done && x in s.accepted && s.abandoned == [x] && s.inserted == []
  {
    var x := Sample(0, e);
    states, acts := [Init()], [];
    states, acts := Extend(c, states, acts, Enter(e));
    states, acts := Extend(c, states, acts, CallShutdown);
    states, acts := Extend(c, states, acts, TrySentinel);
    states, acts := Extend(c, states, acts, TrySend(0));
    assert states[|acts|].queue == [Sentinel, Metric(x)];
    states, acts := Extend(c, states, acts, Recv);
    assert states[|acts|].abandoned == Metrics([Metric(x)]) == [x];
    states, acts := Extend(c, states, acts, Join);
  }
}
