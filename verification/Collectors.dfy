/**
 * Lazy creation of collectors as a protocol: concurrent `ensure_counter`, `ensure_gauge` and
 * `ensure_histogram` calls over three locked maps and one registry (src/prometheus.rs).
 * Each action is one atomic step of one call. Looking up under a read lock changes nothing, so it is
 * one step, possible whenever no call holds the write lock of that map.
 */
module Collectors {
  import opened Wrappers

  const DROPPED := "tonggeret_dropped_total"

  datatype Kind = Counter | Gauge | Histogram

  /** A key of one of the three maps. */
  datatype Slot = Slot(kind: Kind, name: string)

  /** What the registry knows under a name: the drop counter, or the collector with that number. */
  datatype Owner = Internal | Vec(id: nat)

  datatype Pc =
    | Start                        // about to look under the read lock
    | Missed                       // about to take the write lock
    | Locked                       // about to look again
    | Absent                       // about to define the collector
    | Defined(id: nat)             // about to register it
    | Registered(id: nat)          // about to insert it into the map
    | Returned(id: nat)
    | Invalid                      // returned None: the definition was refused
    | NameTaken                    // returned None: the registration was refused

  datatype Call = Call(slot: Slot, pc: Pc)

  datatype State = State(
    calls: seq<Call>,
    maps: map<Slot, nat>,          // the three maps, by kind and name
    locks: map<Kind, nat>,         // which call holds the write lock of which map
    registry: map<string, Owner>,
    made: seq<Slot>)               // collectors defined so far

  datatype Action = Begin(slot: Slot) | Look(c: nat) | Lock(c: nat) | Recheck(c: nat)
                  | Define(c: nat, valid: bool) | Register(c: nat) | Insert(c: nat)

  function Init(): State { State([], map[], map[], map[DROPPED := Internal], []) }

  predicate At(s: State, c: nat, pc: Pc) { c < |s.calls| && s.calls[c].pc == pc }

  predicate Enabled(s: State, a: Action)
  {
    match a
    case Begin(_) => true
    case Look(c) => At(s, c, Start) && s.calls[c].slot.kind !in s.locks
    case Lock(c) => At(s, c, Missed) && s.calls[c].slot.kind !in s.locks
    case Recheck(c) => At(s, c, Locked)
    case Define(c, _) => At(s, c, Absent)
    case Register(c) => c < |s.calls| && s.calls[c].pc.Defined?
    case Insert(c) => c < |s.calls| && s.calls[c].pc.Registered?
  }

  function Goto(s: State, c: nat, pc: Pc): State
    requires c < |s.calls|
  {
    s.(calls := s.calls[c := s.calls[c].(pc := pc)])
  }

  /** Return, dropping the write guard. */
  function Leave(s: State, c: nat, pc: Pc): State
    requires c < |s.calls|
  {
    Goto(s, c, pc).(locks := s.locks - {s.calls[c].slot.kind})
  }

  function Next(s: State, a: Action): State
    requires Enabled(s, a)
  {
    match a
    case Begin(slot) => s.(calls := s.calls + [Call(slot, Start)])
    case Look(c) =>
      var slot := s.calls[c].slot;
      Goto(s, c, if slot in s.maps then Returned(s.maps[slot]) else Missed)
    case Lock(c) => Goto(s, c, Locked).(locks := s.locks[s.calls[c].slot.kind := c])
    case Recheck(c) =>
      var slot := s.calls[c].slot;
      if slot in s.maps then Leave(s, c, Returned(s.maps[slot])) else Goto(s, c, Absent)
    case Define(c, valid) =>
      if !valid then Leave(s, c, Invalid)
      else Goto(s, c, Defined(|s.made|)).(made := s.made + [s.calls[c].slot])
    case Register(c) =>
      var name := s.calls[c].slot.name;
      if name in s.registry then Leave(s, c, NameTaken)
      else Goto(s, c, Registered(s.calls[c].pc.id)).(registry := s.registry[name := Vec(s.calls[c].pc.id)])
    case Insert(c) =>
      var id := s.calls[c].pc.id;
      Leave(s, c, Returned(id)).(maps := s.maps[s.calls[c].slot := id])
  }

  ghost predicate Step(s: State, a: Action, t: State) { Enabled(s, a) && t == Next(s, a) }

  ghost predicate IsRun(states: seq<State>, acts: seq<Action>)
  {
    && |states| == |acts| + 1 && states[0] == Init()
    && forall i :: 0 <= i < |acts| ==> Step(states[i], acts[i], states[i + 1])
  }

  // ----- what every step keeps

  predicate HoldsLock(pc: Pc) { pc.Locked? || pc.Absent? || pc.Defined? || pc.Registered? }

  predicate Holds(calls: seq<Call>, c: nat, k: Kind)
  {
    c < |calls| && calls[c].slot.kind == k && HoldsLock(calls[c].pc)
  }

  /** A write lock is held by exactly the call between taking and dropping it. */
  ghost predicate LocksMatch(calls: seq<Call>, locks: map<Kind, nat>)
  {
    forall c: nat, k: Kind :: Holds(calls, c, k) <==> k in locks && locks[k] == c
  }

  ghost predicate LocksInv(s: State) { LocksMatch(s.calls, s.locks) }

  ghost predicate Made(s: State, slot: Slot, id: nat) { id < |s.made| && s.made[id] == slot }

  /** A stored collector was made for its slot and is the one registered under its name. */
  ghost predicate MapsInv(s: State)
  {
    forall slot :: slot in s.maps ==>
      Made(s, slot, s.maps[slot]) && slot.name in s.registry && s.registry[slot.name] == Vec(s.maps[slot])
  }

  /** What a call knows at each point. */
  ghost predicate CallInv(s: State, call: Call)
  {
    var slot := call.slot;
    match call.pc
    case Start => true
    case Missed => true
    case Locked => true
    case Absent => slot !in s.maps
    case Defined(id) => slot !in s.maps && Made(s, slot, id)
    case Registered(id) =>
      slot !in s.maps && Made(s, slot, id) && slot.name in s.registry && s.registry[slot.name] == Vec(id)
    case Returned(id) => slot in s.maps && s.maps[slot] == id
    case Invalid => true
    case NameTaken => slot.name in s.registry && !IsOwner(s, slot)
  }

  /** The collector registered under the slot's name is one of the slot's kind. */
  ghost predicate IsOwner(s: State, slot: Slot)
  {
    && slot.name in s.registry && s.registry[slot.name].Vec?
    && Made(s, slot, s.registry[slot.name].id)
  }

  ghost predicate CallsInv(s: State) { forall c :: 0 <= c < |s.calls| ==> CallInv(s, s.calls[c]) }

  predicate Registering(s: State, c: nat, name: string)
  {
    c < |s.calls| && s.calls[c].pc.Registered? && s.calls[c].slot.name == name
  }

  /** A registration under way. */
  ghost predicate Pending(s: State, name: string) { exists c: nat :: Registering(s, c, name) }

  ghost predicate Stored(s: State, name: string) { exists k: Kind :: Slot(k, name) in s.maps }

  /** Every registered collector has a number given out, made for that name. */
  ghost predicate OwnersInv(s: State)
  {
    && DROPPED in s.registry && s.registry[DROPPED] == Internal
    && forall n :: n in s.registry ==>
         if n == DROPPED then s.registry[n] == Internal
         else s.registry[n].Vec? && s.registry[n].id < |s.made| && s.made[s.registry[n].id].name == n
  }

  ghost predicate Accounted(s: State, n: string) { n == DROPPED || Stored(s, n) || Pending(s, n) }

  ghost predicate NamesInv(s: State)
  {
    forall n :: n in s.registry ==> Accounted(s, n)
  }

  ghost predicate Inv(s: State)
  {
    LocksInv(s) && MapsInv(s) && CallsInv(s) && OwnersInv(s) && NamesInv(s)
  }

  lemma LocksStep(s: State, a: Action, t: State)
    requires LocksInv(s) && Step(s, a, t)
    ensures LocksInv(t)
  {
    match a
    case Begin(slot) =>
      forall c: nat, k: Kind ensures Holds(t.calls, c, k) <==> Holds(s.calls, c, k) {}
    case Lock(c) => SetPc(s.calls, s.locks, c, t.calls[c].pc);
    case Look(c) => SetPc(s.calls, s.locks, c, t.calls[c].pc);
    case Recheck(c) => SetPc(s.calls, s.locks, c, t.calls[c].pc);
    case Define(c, _) => SetPc(s.calls, s.locks, c, t.calls[c].pc);
    case Register(c) => SetPc(s.calls, s.locks, c, t.calls[c].pc);
    case Insert(c) => SetPc(s.calls, s.locks, c, t.calls[c].pc);
  }

  lemma SetPc(calls: seq<Call>, locks: map<Kind, nat>, c: nat, pc: Pc)
    requires LocksMatch(calls, locks) && c < |calls|
    requires HoldsLock(pc) && !HoldsLock(calls[c].pc) ==> calls[c].slot.kind !in locks
    ensures var k := calls[c].slot.kind;
      LocksMatch(calls[c := calls[c].(pc := pc)],
                 if HoldsLock(pc) == HoldsLock(calls[c].pc) then locks
                 else if HoldsLock(pc) then locks[k := c]
                 else locks - {k})
  {
    var after := calls[c := calls[c].(pc := pc)];
    var kind := calls[c].slot.kind;
    assert Holds(calls, c, kind) <==> HoldsLock(calls[c].pc);
    forall d: nat, k: Kind | d != c ensures Holds(after, d, k) <==> Holds(calls, d, k) {}
    forall k: Kind | k != kind ensures !Holds(after, c, k) && !Holds(calls, c, k) {}
  }

  lemma Holder(s: State, c: nat)
    requires LocksInv(s) && c < |s.calls| && HoldsLock(s.calls[c].pc)
    ensures s.calls[c].slot.kind in s.locks && s.locks[s.calls[c].slot.kind] == c
  {
    assert Holds(s.calls, c, s.calls[c].slot.kind);
  }

  lemma MapsStep(s: State, a: Action, t: State)
    requires MapsInv(s) && CallsInv(s) && Step(s, a, t)
    ensures MapsInv(t)
  {}

  lemma OwnersStep(s: State, a: Action, t: State)
    requires OwnersInv(s) && CallsInv(s) && Step(s, a, t)
    ensures OwnersInv(t)
  {}

  /** Numbers, registrations and map entries are never taken back. */
  ghost predicate Grows(s: State, t: State)
  {
    && |s.made| <= |t.made| && (forall i :: 0 <= i < |s.made| ==> t.made[i] == s.made[i])
    && (forall n :: n in s.registry ==> n in t.registry && t.registry[n] == s.registry[n])
    && (forall slot :: slot in s.maps ==> slot in t.maps && t.maps[slot] == s.maps[slot])
    && |s.calls| <= |t.calls| && (forall c :: 0 <= c < |s.calls| ==> t.calls[c].slot == s.calls[c].slot)
  }

  lemma GrowsStep(s: State, a: Action, t: State)
    requires CallsInv(s) && Step(s, a, t)
    ensures Grows(s, t)
  {}

  /** No map entry appears under the feet of the holder of its write lock. */
  lemma OnlyHolderInserts(s: State, a: Action, t: State, c: nat)
    requires LocksInv(s) && Step(s, a, t)
    requires c < |s.calls| && HoldsLock(s.calls[c].pc) && t.calls[c] == s.calls[c] && s.calls[c].slot !in s.maps
    ensures s.calls[c].slot !in t.maps
  {
    Holder(s, c);
    if a.Insert? { Holder(s, a.c); }
  }

  /** What one call knows stays true while others move. */
  lemma OthersKeep(s: State, a: Action, t: State, c: nat)
    requires LocksInv(s) && CallsInv(s) && OwnersInv(s) && Grows(s, t)
    requires Step(s, a, t) && c < |s.calls| && t.calls[c] == s.calls[c]
    ensures CallInv(t, t.calls[c])
  {
    assert CallInv(s, s.calls[c]);
    if HoldsLock(s.calls[c].pc) && s.calls[c].slot !in s.maps { OnlyHolderInserts(s, a, t, c); }
  }

  lemma ActorStep(s: State, a: Action, t: State, c: nat)
    requires CallsInv(s) && OwnersInv(s) && MapsInv(s) && NamesInv(s) && LocksInv(s)
    requires Step(s, a, t) && c < |t.calls| && (c >= |s.calls| || t.calls[c] != s.calls[c])
    ensures CallInv(t, t.calls[c])
  {
    if a.Register? {
      assert c == a.c;
      RegisterStep(s, c, t);
    } else if c < |s.calls| {
      MoverKnows(s, a, t, c);
    }
  }

  lemma MoverKnows(s: State, a: Action, t: State, c: nat)
    requires CallsInv(s) && Step(s, a, t) && !a.Register? && c < |s.calls| && t.calls[c] != s.calls[c]
    ensures CallInv(t, t.calls[c])
  {
    assert c == a.c;
    assert CallInv(s, s.calls[c]);
  }

  /** A refused registration means that the name belongs elsewhere: the map of this kind is locked and lacks it. */
  lemma RegisterStep(s: State, c: nat, t: State)
    requires CallsInv(s) && MapsInv(s) && NamesInv(s) && LocksInv(s) && OwnersInv(s)
    requires Step(s, Register(c), t)
    ensures CallInv(t, t.calls[c])
  {
    assert CallInv(s, s.calls[c]);
    var slot := s.calls[c].slot;
    if slot.name in s.registry && slot.name != DROPPED {
      assert Accounted(s, slot.name);
      Holder(s, c);
      if Stored(s, slot.name) {
        var k: Kind :| Slot(k, slot.name) in s.maps;
        assert Made(s, Slot(k, slot.name), s.maps[Slot(k, slot.name)]);
      } else {
        var d: nat :| Registering(s, d, slot.name);
        assert CallInv(s, s.calls[d]);
        Holder(s, d);
      }
    }
  }

  lemma CallsStep(s: State, a: Action, t: State)
    requires Inv(s) && Step(s, a, t)
    ensures CallsInv(t)
  {
    GrowsStep(s, a, t);
    forall c | 0 <= c < |t.calls| ensures CallInv(t, t.calls[c]) {
      if c < |s.calls| && t.calls[c] == s.calls[c] {
        OthersKeep(s, a, t, c);
      } else {
        ActorStep(s, a, t, c);
      }
    }
  }

  lemma PendingStep(s: State, a: Action, t: State, c: nat)
    requires Step(s, a, t) && c < |s.calls| && s.calls[c].pc.Registered?
    ensures Accounted(t, s.calls[c].slot.name)
  {
    if t.calls[c] == s.calls[c] {
      assert Registering(t, c, s.calls[c].slot.name);
    } else {
      assert a == Insert(c);
      assert Slot(s.calls[c].slot.kind, s.calls[c].slot.name) in t.maps;
    }
  }

  lemma NewNameStep(s: State, a: Action, t: State, n: string)
    requires Step(s, a, t) && n in t.registry && n !in s.registry
    ensures Accounted(t, n)
  {
    assert Registering(t, a.c, n);
  }

  lemma NamesStep(s: State, a: Action, t: State)
    requires NamesInv(s) && Grows(s, t) && Step(s, a, t)
    ensures NamesInv(t)
  {
    forall n | n in t.registry ensures Accounted(t, n) {
      if n !in s.registry {
        NewNameStep(s, a, t, n);
      } else if Stored(s, n) {
        var k: Kind :| Slot(k, n) in s.maps;
        assert Slot(k, n) in t.maps;
      } else if Pending(s, n) {
        var c: nat :| Registering(s, c, n);
        PendingStep(s, a, t, c);
      }
    }
  }

  lemma InvStep(s: State, a: Action, t: State)
    requires Inv(s) && Step(s, a, t)
    ensures Inv(t)
  {
    LocksStep(s, a, t);
    MapsStep(s, a, t);
    OwnersStep(s, a, t);
    CallsStep(s, a, t);
    GrowsStep(s, a, t);
    NamesStep(s, a, t);
  }

  lemma {:induction false} InvRun(states: seq<State>, acts: seq<Action>, i: nat)
    requires IsRun(states, acts) && i < |states|
    ensures Inv(states[i])
  {
    if i == 0 {
    } else {
      InvRun(states, acts, i - 1);
      assert Step(states[i - 1], acts[i - 1], states[i]);
      InvStep(states[i - 1], acts[i - 1], states[i]);
    }
  }

  lemma GrowsTransitive(s: State, t: State, u: State)
    requires Grows(s, t) && Grows(t, u)
    ensures Grows(s, u)
  {}

  lemma RunGrowsOnce(states: seq<State>, acts: seq<Action>, i: nat)
    requires IsRun(states, acts) && i + 1 < |states|
    ensures Grows(states[i], states[i + 1])
  {
    InvRun(states, acts, i);
    assert Step(states[i], acts[i], states[i + 1]);
    GrowsStep(states[i], acts[i], states[i + 1]);
  }

  lemma {:induction false} GrowsRun(states: seq<State>, acts: seq<Action>, i: nat, j: nat)
    requires IsRun(states, acts) && i <= j < |states|
    ensures Grows(states[i], states[j])
  {
    if i == j {
    } else {
      GrowsRun(states, acts, i, j - 1);
      RunGrowsOnce(states, acts, j - 1);
      GrowsTransitive(states[i], states[j - 1], states[j]);
    }
  }

  // ----- what creation promises

  /** Each name has at most one collector across the three maps. */
  lemma OneCollectorPerName(s: State, p: Slot, q: Slot)
    requires Inv(s) && p in s.maps && q in s.maps && p.name == q.name
    ensures p == q && s.maps[p] == s.maps[q]
  {}

  /** Whenever and in whatever interleaving two calls return a collector for one name, they are of one kind and
      return the same one. */
  lemma CallersAgree(states: seq<State>, acts: seq<Action>, i: nat, j: nat, c: nat, d: nat)
    requires IsRun(states, acts) && i <= j < |states|
    requires c < |states[i].calls| && states[i].calls[c].pc.Returned?
    requires d < |states[j].calls| && states[j].calls[d].pc.Returned?
    requires states[i].calls[c].slot.name == states[j].calls[d].slot.name
    ensures states[i].calls[c].slot == states[j].calls[d].slot
    ensures states[i].calls[c].pc.id == states[j].calls[d].pc.id
  {
    InvRun(states, acts, i);
    InvRun(states, acts, j);
    GrowsRun(states, acts, i, j);
    assert CallInv(states[i], states[i].calls[c]) && CallInv(states[j], states[j].calls[d]);
    OneCollectorPerName(states[j], states[i].calls[c].slot, states[j].calls[d].slot);
  }

  /** A name refused to one kind belongs to another kind, or to the drop counter, for good. */
  lemma RefusedForLife(states: seq<State>, acts: seq<Action>, i: nat, j: nat, c: nat, d: nat)
    requires IsRun(states, acts) && i <= j < |states|
    requires c < |states[i].calls| && states[i].calls[c].pc.NameTaken?
    requires d < |states[j].calls| && states[j].calls[d].slot == states[i].calls[c].slot
    ensures !states[j].calls[d].pc.Returned?
  {
    InvRun(states, acts, i);
    InvRun(states, acts, j);
    GrowsRun(states, acts, i, j);
    assert CallInv(states[i], states[i].calls[c]) && CallInv(states[j], states[j].calls[d]);
  }

  ghost predicate OneKind(s: State, slot: Slot)
  {
    && slot.name != DROPPED
    && forall c :: 0 <= c < |s.calls| && s.calls[c].slot.name == slot.name ==> s.calls[c].slot == slot
  }

  /** Call `c` asks for `slot`. */
  predicate AskedBy(s: State, slot: Slot, c: nat) { c < |s.calls| && s.calls[c].slot == slot }

  ghost predicate Asked(s: State, slot: Slot) { exists c: nat :: AskedBy(s, slot, c) }

  /** Collectors are made by calls, for the slots they were asked for. */
  ghost predicate MadeByCalls(s: State)
  {
    forall i :: 0 <= i < |s.made| ==> Asked(s, s.made[i])
  }

  lemma MadeByCallsStep(s: State, a: Action, t: State)
    requires MadeByCalls(s) && Grows(s, t) && Step(s, a, t)
    ensures MadeByCalls(t)
  {
    forall i | 0 <= i < |t.made| ensures Asked(t, t.made[i]) {
      if i < |s.made| {
        var c: nat :| AskedBy(s, s.made[i], c);
        assert AskedBy(t, t.made[i], c);
      } else {
        assert a.Define? && AskedBy(t, t.made[i], a.c);
      }
    }
  }

  lemma {:induction false} MadeByCallsRun(states: seq<State>, acts: seq<Action>, i: nat)
    requires IsRun(states, acts) && i < |states|
    ensures MadeByCalls(states[i])
  {
    if i == 0 {
    } else {
      MadeByCallsRun(states, acts, i - 1);
      assert Step(states[i - 1], acts[i - 1], states[i]);
      RunGrowsOnce(states, acts, i - 1);
      MadeByCallsStep(states[i - 1], acts[i - 1], states[i]);
    }
  }

  /** A name that only one kind ever asks for, other than the drop counter's, is never refused by the registry. */
  lemma OneKindIsServed(states: seq<State>, acts: seq<Action>, i: nat, c: nat)
    requires IsRun(states, acts) && i < |states| && c < |states[i].calls|
    requires OneKind(states[i], states[i].calls[c].slot)
    ensures !states[i].calls[c].pc.NameTaken?
  {
    var s := states[i];
    InvRun(states, acts, i);
    MadeByCallsRun(states, acts, i);
    assert CallInv(s, s.calls[c]);
    var slot := s.calls[c].slot;
    if slot.name in s.registry {
      var id := s.registry[slot.name].id;
      var d: nat :| AskedBy(s, s.made[id], d);
    }
  }

  /** The registry holds exactly the drop counter, the stored names and the registrations under way, once each. */
  lemma RegistryIsDisjointUnion(s: State, n: string)
    requires Inv(s)
    ensures n in s.registry <==> n == DROPPED || Stored(s, n) || Pending(s, n)
    ensures !(n == DROPPED && (Stored(s, n) || Pending(s, n))) && !(Stored(s, n) && Pending(s, n))
    ensures forall c: nat, d: nat :: Registering(s, c, n) && Registering(s, d, n) ==> c == d
  {
    forall c: nat | Registering(s, c, n)
      ensures n in s.registry && n != DROPPED && !Stored(s, n) && Made(s, s.calls[c].slot, s.registry[n].id)
      ensures Holds(s.calls, c, s.calls[c].slot.kind)
    {
      PendingIsNotStored(s, c);
    }
  }

  lemma PendingIsNotStored(s: State, c: nat)
    requires Inv(s) && c < |s.calls| && s.calls[c].pc.Registered?
    ensures var n := s.calls[c].slot.name;
      && n in s.registry && n != DROPPED && !Stored(s, n)
      && s.registry[n].Vec? && Made(s, s.calls[c].slot, s.registry[n].id)
  {}

  // ----- every call that can be served is

  /** A look or a recheck that finds the slot stored returns exactly the collector stored for it. */
  lemma StoredIsReturned(s: State, a: Action, t: State)
    requires Step(s, a, t) && (a.Look? || a.Recheck?) && s.calls[a.c].slot in s.maps
    ensures t.calls[a.c].pc == Returned(s.maps[s.calls[a.c].slot])
  {}

  /** Whoever looks for a stored collector can be served at once, unless the map is being written. */
  lemma LookIsEnabled(s: State, c: nat)
    requires LocksInv(s) && c < |s.calls| && s.calls[c].pc == Start
    ensures Enabled(s, Look(c)) <==>
            !exists d: nat :: Holds(s.calls, d, s.calls[c].slot.kind)
  {
    var k := s.calls[c].slot.kind;
    if k in s.locks { assert Holds(s.calls, s.locks[k], k); }
  }

  lemma BecomesInvalid(s: State, a: Action, t: State, c: nat)
    requires Step(s, a, t) && c < |t.calls| && t.calls[c].pc == Invalid
    ensures a == Define(c, false) || (c < |s.calls| && s.calls[c].pc == Invalid)
  {}

  /** A call ends invalid only by its own refused definition. */
  lemma {:induction false} InvalidByDefinition(states: seq<State>, acts: seq<Action>, i: nat, c: nat) returns (k: nat)
    requires IsRun(states, acts) && i < |states| && c < |states[i].calls| && states[i].calls[c].pc == Invalid
    ensures k < i && acts[k] == Define(c, false)
  {
    assert i > 0;
    assert Step(states[i - 1], acts[i - 1], states[i]);
    BecomesInvalid(states[i - 1], acts[i - 1], states[i], c);
    if acts[i - 1] == Define(c, false) {
      k := i - 1;
    } else {
      k := InvalidByDefinition(states, acts, i - 1, c);
    }
  }

  lemma BecomesRefused(s: State, a: Action, t: State, c: nat)
    requires Step(s, a, t) && c < |t.calls| && t.calls[c].pc == NameTaken
    ensures (a == Register(c) && s.calls[c].slot.name in s.registry) || (c < |s.calls| && s.calls[c].pc == NameTaken)
  {}

  /** A call ends refused only by its own registration, of a name then in the registry. */
  lemma {:induction false} RefusedByRegistry(states: seq<State>, acts: seq<Action>, i: nat, c: nat) returns (k: nat)
    requires IsRun(states, acts) && i < |states| && c < |states[i].calls| && states[i].calls[c].pc == NameTaken
    ensures k < i && acts[k] == Register(c) && c < |states[k].calls|
    ensures states[k].calls[c].slot.name in states[k].registry
  {
    assert i > 0;
    assert Step(states[i - 1], acts[i - 1], states[i]);
    BecomesRefused(states[i - 1], acts[i - 1], states[i], c);
    if acts[i - 1] == Register(c) {
      k := i - 1;
    } else {
      k := RefusedByRegistry(states, acts, i - 1, c);
    }
  }

  /**
   * A finished call, for a name other than the drop counter's that one kind only asks for, returns the collector
   * stored for it, unless the definition it made itself was refused.
   */
  lemma FinishedIsServed(states: seq<State>, acts: seq<Action>, i: nat, c: nat)
    requires IsRun(states, acts) && i < |states| && c < |states[i].calls| && StepsLeft(states[i].calls[c].pc) == 0
    requires states[i].calls[c].slot.name != "tonggeret_dropped_total"
    requires forall d :: 0 <= d < |states[i].calls| && states[i].calls[d].slot.name == states[i].calls[c].slot.name ==>
               states[i].calls[d].slot == states[i].calls[c].slot
    requires forall k :: 0 <= k < i ==> acts[k] != Define(c, false)
    ensures var slot := states[i].calls[c].slot;
      slot in states[i].maps && states[i].calls[c].pc == Returned(states[i].maps[slot])
  {
    InvRun(states, acts, i);
    OneKindIsServed(states, acts, i, c);
    assert CallInv(states[i], states[i].calls[c]);
    if states[i].calls[c].pc == Invalid {
      var k := InvalidByDefinition(states, acts, i, c);
      assert false;
    }
  }

  // ----- every call returns

  function StepsLeft(pc: Pc): nat
  {
    match pc
    case Start => 6
    case Missed => 5
    case Locked => 4
    case Absent => 3
    case Defined(_) => 2
    case Registered(_) => 1
    case Returned(_) => 0
    case Invalid => 0
    case NameTaken => 0
  }

  function Work(calls: seq<Call>): nat
  {
    if calls == [] then 0 else StepsLeft(calls[0].pc) + Work(calls[1..])
  }

  lemma {:induction false} WorkUpdate(calls: seq<Call>, c: nat, call: Call)
    requires c < |calls|
    ensures Work(calls[c := call]) == Work(calls) - StepsLeft(calls[c].pc) + StepsLeft(call.pc)
  {
    if c == 0 {
      assert calls[c := call][1..] == calls[1..];
    } else {
      assert calls[c := call][1..] == calls[1..][c - 1 := call];
      WorkUpdate(calls[1..], c - 1, call);
    }
  }

  /** Every step of a call already begun uses up work, so the calls begun return after finitely many steps. */
  lemma WorkStep(s: State, a: Action, t: State)
    requires Step(s, a, t) && !a.Begin?
    ensures Work(t.calls) < Work(s.calls)
  {
    WorkUpdate(s.calls, a.c, t.calls[a.c]);
    assert t.calls == s.calls[a.c := t.calls[a.c]];
  }

  lemma {:induction false} WorkLeft(calls: seq<Call>)
    ensures Work(calls) > 0 ==> exists c :: 0 <= c < |calls| && StepsLeft(calls[c].pc) > 0
  {
    if calls == [] {
    } else {
      WorkLeft(calls[1..]);
      if StepsLeft(calls[0].pc) == 0 && Work(calls) > 0 {
        var c :| 0 <= c < |calls[1..]| && StepsLeft(calls[1..][c].pc) > 0;
        assert calls[c + 1] == calls[1..][c];
      }
    }
  }

  /** The step a call is about to take. */
  function StepOf(pc: Pc, c: nat): Action
  {
    match pc
    case Start => Look(c)
    case Missed => Lock(c)
    case Locked => Recheck(c)
    case Absent => Define(c, true)
    case Defined(_) => Register(c)
    case _ => Insert(c)
  }

  /** No deadlock: while a call is unfinished, some call begun can take a step. */
  lemma NeverStuck(s: State)
    requires LocksInv(s) && Work(s.calls) > 0
    ensures exists a: Action :: Enabled(s, a) && !a.Begin?
  {
    WorkLeft(s.calls);
    var c :| 0 <= c < |s.calls| && StepsLeft(s.calls[c].pc) > 0;
    var k := s.calls[c].slot.kind;
    var mover := if k in s.locks then s.locks[k] else c;
    assert k in s.locks ==> Holds(s.calls, mover, k);
    assert Enabled(s, StepOf(s.calls[mover].pc, mover));
  }
}
