/**
 * The handle behind the hot path (src/engine.rs) as an object: `record` and the sentinel loop of `shutdown`.
 * `Ingest` interleaves their atomic steps with those of other threads; here one call runs by itself,
 * and other threads act on the channel only while `shutdown` sleeps.
 */
module Engine {
  import Ingest

  type Channel<E> = seq<Ingest.Msg<E>>

  datatype SendResult = Sent | Full | Closed

  /** An uninterrupted `record` call as steps of the protocol. */
  function Recorded<E>(c: Ingest.Config, s: Ingest.State<E>, entry: E): Ingest.State<E>
  {
    if s.flag then s
    else
      var call := s.nextCall;
      var sent := Ingest.Next(c, Ingest.Next(c, s, Ingest.Enter(entry)), Ingest.TrySend(call));
      if call in sent.inflight then Ingest.Next(c, sent, Ingest.CountDrop(call)) else sent
  }

  /** What other threads do to the channel during the `k`-th sleep. */
  type Others<!E> = (nat, Channel<E>, bool) -> (Channel<E>, bool)

  /** An open channel that has no room. */
  predicate IsFull<E>(ch: (Channel<E>, bool), capacity: nat) { !ch.1 && |ch.0| >= capacity }

  class EngineHandle<!E> {
    var flag: bool          // SHUTDOWN
    var queue: Channel<E>
    var closed: bool
    var dropped: nat        // dropped_total
    const capacity: nat

    constructor (capacity: nat)
      ensures this.capacity == capacity
      ensures !flag && queue == [] && !closed && dropped == 0
    {
      this.capacity := capacity;
      flag, queue, closed, dropped := false, [], false, 0;
    }

    method TrySend(m: Ingest.Msg<E>) returns (r: SendResult)
      modifies this`queue
      ensures r == if closed then Closed else if |old(queue)| >= capacity then Full else Sent
      ensures queue == if r == Sent then old(queue) + [m] else old(queue)
    {
      if closed { return Closed; }
      if |queue| >= capacity { return Full; }
      queue := queue + [m];
      r := Sent;
    }

    /** `record`: nothing after shutdown; a sample the channel does not take is counted. */
    method Record(entry: E, c: Ingest.Config, ghost s: Ingest.State<E>, call: nat)
      requires flag == s.flag && queue == s.queue && closed == Ingest.Closed(s) && dropped == s.dropped
      requires c.capacity == capacity && call == s.nextCall && call !in s.inflight
      modifies this`queue, this`dropped
      ensures var t := Recorded(c, s, entry);
        flag == t.flag && queue == t.queue && closed == Ingest.Closed(t) && dropped == t.dropped
    {
      if flag { return; }
      var r := TrySend(Ingest.Metric(Ingest.Sample(call, entry)));
      if r != Sent {
        dropped := dropped + 1;
      }
    }

    /**
     * The loop of `shutdown` that delivers the sentinel: at most 100 tries, until one does not find the channel full.
     * `found` is what each try found; in between, the other threads do as they please.
     */
    method DeliverSentinel(others: Others<E>) returns (sent: bool, tries: nat, ghost found: seq<(Channel<E>, bool)>)
      modifies this`queue, this`closed
      ensures 1 <= tries <= 100 && |found| == tries && found[0] == (old(queue), old(closed))
      ensures forall k :: 0 < k < tries ==> found[k] == others(k - 1, found[k - 1].0, found[k - 1].1)
      ensures forall k :: 0 <= k < tries - 1 ==> !found[k].1 && |found[k].0| >= capacity
      ensures sent <==> !found[tries - 1].1 && |found[tries - 1].0| < capacity
      ensures IsFull(found[tries - 1], capacity) ==>
                tries == 100 && (queue, closed) == others(99, found[99].0, found[99].1)
      ensures !IsFull(found[tries - 1], capacity) ==>
                && closed == found[tries - 1].1
                && queue == found[tries - 1].0 + if sent then [Ingest.Sentinel] else []
    {
      tries, found, sent := 0, [], false;
      while tries < Ingest.MAX_TRIES
        invariant tries == |found| <= Ingest.MAX_TRIES && !sent
        invariant tries == 0 ==> queue == old(queue) && closed == old(closed)
        invariant tries > 0 ==> found[0] == (old(queue), old(closed))
        invariant tries > 0 ==> (queue, closed) == others(tries - 1, found[tries - 1].0, found[tries - 1].1)
        invariant forall k :: 0 < k < tries ==> found[k] == others(k - 1, found[k - 1].0, found[k - 1].1)
        invariant forall k :: 0 <= k < tries ==> IsFull(found[k], capacity)
      {
        found := found + [(queue, closed)];
        var r := TrySend(Ingest.Sentinel);
        tries := tries + 1;
        if r != Full {
          sent := r == Sent;
          return;
        }
        var (q, z) := others(tries - 1, queue, closed);
        queue, closed := q, z;
      }
    }
  }

  /**
   * A `record` call is over when it returns: before shutdown it was accepted at the end of the channel or counted
   * as dropped, never both, never neither.
   */
  lemma RecordSettles<E>(c: Ingest.Config, s: Ingest.State<E>, entry: E)
    requires Ingest.Inv(c, s)
    ensures var t := Recorded(c, s, entry);
      var sample := Ingest.Sample(s.nextCall, entry);
      && t.inflight == s.inflight
      && (s.flag ==> t == s)
      && (!s.flag ==> t.passed == s.passed + 1)
      && (!s.flag && !Ingest.Closed(s) && |s.queue| < c.capacity ==>
            && t.accepted == s.accepted + [sample] && t.queue == s.queue + [Ingest.Metric(sample)]
            && t.dropped == s.dropped)
      && (!s.flag && (Ingest.Closed(s) || |s.queue| >= c.capacity) ==>
            t.accepted == s.accepted && t.queue == s.queue && t.dropped == s.dropped + 1)
  {}

  /** It keeps what the protocol keeps, so the ledger of calls balances after it. */
  lemma RecordKeeps<E>(c: Ingest.Config, s: Ingest.State<E>, entry: E)
    requires c.batchRows > 0 && Ingest.Inv(c, s)
    ensures Ingest.Inv(c, Recorded(c, s, entry))
  {
    if !s.flag {
      var call := s.nextCall;
      var entered := Ingest.Next(c, s, Ingest.Enter(entry));
      Ingest.InvStep(c, s, Ingest.Enter(entry), entered);
      var sent := Ingest.Next(c, entered, Ingest.TrySend(call));
      Ingest.InvStep(c, entered, Ingest.TrySend(call), sent);
      if call in sent.inflight {
        Ingest.InvStep(c, sent, Ingest.CountDrop(call), Ingest.Next(c, sent, Ingest.CountDrop(call)));
      }
    }
  }
}
