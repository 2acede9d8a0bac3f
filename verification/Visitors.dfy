/** `VisitorsTracker` of src/visitors.rs: a bucket of registers per region, with a cap on regions. */
module Visitors {
  import opened KeyCodec
  import opened Sketch
  import opened Estimate
  import opened Regions

  /** A visitor key hashed by the process, whatever the hash function is. */
  type Hasher = string -> u64

  // ----- specification

  type Buckets = map<string, seq<u8>>

  predicate WellSized(m: Buckets) { forall r :: r in m ==> |m[r]| == REGISTERS }

  /** The bucket for a normalised region: its own, or `other` once the cap is reached and it has none. */
  function BucketFor(m: Buckets, maxRegions: nat, region: string): string
  {
    if region !in m && |m| >= maxRegions then OTHER else region
  }

  function Registers(m: Buckets, bucket: string): (r: seq<u8>)
    requires WellSized(m)
    ensures |r| == REGISTERS
  {
    if bucket in m then m[bucket] else Empty()
  }

  /** One call of `observe`; `contended` says that the lock was held elsewhere. */
  datatype Observation = Observation(visitorKey: string, region: string, contended: bool)

  /** One hash of a normalised region folded in. */
  function Folded(m: Buckets, maxRegions: nat, region: string, h: u64): (after: Buckets)
    requires WellSized(m)
    ensures WellSized(after)
  {
    var bucket := BucketFor(m, maxRegions, region);
    m[bucket := Added(Registers(m, bucket), h)]
  }

  function Observed(m: Buckets, maxRegions: nat, hash: Hasher, o: Observation): (after: Buckets)
    requires WellSized(m)
    ensures WellSized(after)
  {
    if o.contended then m else Folded(m, maxRegions, Normalize(o.region), hash(o.visitorKey))
  }

  function Run(maxRegions: nat, hash: Hasher, history: seq<Observation>): (m: Buckets)
    ensures WellSized(m)
  {
    if history == [] then map[]
    else Observed(Run(maxRegions, hash, history[..|history| - 1]), maxRegions, hash, history[|history| - 1])
  }

  /** What `estimate` reports: 0 for a region without a bucket, or when the lock is held elsewhere. */
  function EstimateFor(m: Buckets, region: string, contended: bool, ln: real -> real): u64
    requires WellSized(m)
  {
    var r := Normalize(region);
    if contended || r !in m then 0 else EstimateOf(m[r], ln)
  }

  datatype Gauge = Gauge(region: string, value: u64)

  predicate ExportedSoFar(m: Buckets, todo: set<string>, done: seq<Gauge>, ln: real -> real)
    requires WellSized(m)
  {
    && todo <= m.Keys && |done| + |todo| == |m|
    && (forall i :: 0 <= i < |done| ==> done[i].region in m && done[i].region !in todo)
    && (forall i :: 0 <= i < |done| ==> done[i].value == EstimateOf(m[done[i].region], ln))
    && (forall i, j :: 0 <= i < j < |done| ==> done[i].region != done[j].region)
  }

  lemma UpdateTwice(m: Buckets, b: string, x: seq<u8>, y: seq<u8>)
    ensures m[b := x][b := y] == m[b := y]
  {}

  // ----- the tracker

  class VisitorsTracker {
    var inner: map<string, Hll>
    var totals: seq<string>  // regions of the samples sent to `visitors_total`
    var gauges: seq<Gauge>  // samples sent to `unique_visitors_estimate`
    const maxRegions: nat
    const hash: Hasher

    ghost predicate Valid()
      reads this`inner
    {
      && (forall r :: r in inner ==> inner[r].registers.Length == REGISTERS)
      && (forall r, q :: r in inner && q in inner && r != q ==> inner[r].registers != inner[q].registers)
    }

    ghost function Arrays(): set<object>
      reads this`inner
    {
      set r | r in inner :: inner[r].registers
    }

    ghost function Contents(): (m: Buckets)
      reads this`inner, Arrays()
      requires Valid()
      ensures WellSized(m)
    {
      map r | r in inner :: inner[r].registers[..]
    }

    constructor (cap: nat, hash: Hasher)
      ensures Valid() && Contents() == map[] && totals == [] && gauges == []
      ensures this.hash == hash && maxRegions == if cap < 1 then 1 else if cap > 4096 then 4096 else cap
    {
      inner := map[];
      totals := [];
      gauges := [];
      maxRegions := if cap < 1 then 1 else if cap > 4096 then 4096 else cap;
      this.hash := hash;
    }

    /** `entry(bucket).or_default()`. */
    method Entry(bucket: string)
      requires Valid()
      modifies this`inner
      ensures Valid() && bucket in inner && fresh(Arrays() - old(Arrays()))
      ensures Contents() == old(Contents())[bucket := Registers(old(Contents()), bucket)]
    {
      if bucket !in inner {
        var hll := new Hll();
        inner := inner[bucket := hll];
      }
    }

    /** `add` on the sketch of one bucket. */
    method AddTo(bucket: string, h: u64)
      requires Valid() && bucket in inner
      modifies inner[bucket].registers
      ensures Valid()
      ensures Contents() == old(Contents())[bucket := Added(old(Contents())[bucket], h)]
    {
      inner[bucket].AddHash(h);
    }

    method FoldIn(bucket: string, h: u64)
      requires Valid()
      modifies this`inner, Arrays()
      ensures Valid() && fresh(Arrays() - old(Arrays()))
      ensures Contents() == old(Contents())[bucket := Added(Registers(old(Contents()), bucket), h)]
    {
      ghost var before := Contents();
      Entry(bucket);
      ghost var regs := Registers(before, bucket);
      assert Contents() == before[bucket := regs];
      AddTo(bucket, h);
      UpdateTwice(before, bucket, regs, Added(regs, h));
    }

    method CountVisit(region: string)
      modifies this`totals
      ensures totals == old(totals) + [region]
    {
      totals := totals + [region];
    }

    /** The sketch part of `observe`, on a normalised region; nothing happens when the lock is contended. */
    method ObserveRegion(region: string, h: u64, contended: bool) returns (folded: bool)
      requires Valid()
      modifies this`inner, Arrays()
      ensures Valid() && fresh(Arrays() - old(Arrays()))
      ensures folded == !contended
      ensures Contents() == if contended then old(Contents()) else Folded(old(Contents()), maxRegions, region, h)
    {
      if contended { return false; }
      assert Contents().Keys == inner.Keys && |Contents()| == |inner|;
      var bucket := if region !in inner && |inner| >= maxRegions then OTHER else region;
      FoldIn(bucket, h);
      folded := true;
    }

    /** The visit is counted in any case. */
    method Observe(o: Observation) returns (folded: bool)
      requires Valid()
      modifies this`inner, this`totals, Arrays()
      ensures Valid() && fresh(Arrays() - old(Arrays()))
      ensures folded == !o.contended
      ensures totals == old(totals) + [Normalize(o.region)]
      ensures Contents() == Observed(old(Contents()), maxRegions, hash, o)
    {
      var region := Normalize(o.region);
      CountVisit(region);
      folded := ObserveRegion(region, hash(o.visitorKey), o.contended);
    }

    function Estimate(region: string, contended: bool, ln: real -> real): (e: u64)
      requires Valid()
      reads this`inner, Arrays()
      ensures e == EstimateFor(Contents(), region, contended, ln)
    {
      var r := Normalize(region);
      if contended || r !in inner then 0 else EstimateOf(inner[r].registers[..], ln)
    }

    /** `snapshot`: one gauge per region held, whatever the iteration order of the map. */
    method Snapshot(contended: bool, ln: real -> real) returns (n: nat)
      requires Valid()
      modifies this`gauges
      ensures contended ==> n == 0 && gauges == old(gauges)
      ensures !contended ==> n == |Contents()| && |gauges| >= |old(gauges)| && gauges[..|old(gauges)|] == old(gauges)
      ensures !contended ==> |gauges| == |old(gauges)| + n
      ensures !contended ==> forall i :: |old(gauges)| <= i < |gauges| ==>
                gauges[i].region in Contents() && gauges[i].value == EstimateOf(Contents()[gauges[i].region], ln)
      ensures !contended ==> forall i, j :: |old(gauges)| <= i < j < |gauges| ==> gauges[i].region != gauges[j].region
    {
      if contended { return 0; }
      assert Contents().Keys == inner.Keys && |Contents()| == |inner|;
      var exported := Exported(ln);
      gauges := gauges + exported;
      n := |inner|;
    }

    /** The loop of `snapshot` over the regions held: one gauge for each, in any order, with that region's estimate. */
    method Exported(ln: real -> real) returns (done: seq<Gauge>)
      requires Valid()
      ensures |done| == |Contents()|
      ensures forall i :: 0 <= i < |done| ==>
                done[i].region in Contents() && done[i].value == EstimateOf(Contents()[done[i].region], ln)
      ensures forall i, j :: 0 <= i < j < |done| ==> done[i].region != done[j].region
    {
      ghost var m := Contents();
      assert m.Keys == inner.Keys && |m| == |m.Keys|;
      done := [];
      var todo := inner.Keys;
      while todo != {}
        invariant ExportedSoFar(m, todo, done, ln)
      {
        var r :| r in todo;
        done := done + [Gauge(r, EstimateOf(inner[r].registers[..], ln))];
        todo := todo - {r};
      }
    }
  }
}
