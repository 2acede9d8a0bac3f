/** What the visitor tracker keeps over every history of `observe` calls. */
module VisitorLaws {
  import opened KeyCodec
  import opened Sketch
  import opened Estimate
  import opened Regions
  import opened Visitors

  // ----- the cap

  /** Keys are normalised regions; besides `other` there are at most `maxRegions` of them. */
  ghost predicate Capped(m: Buckets, maxRegions: nat)
  {
    && (forall k :: k in m ==> IsRegion(k))
    && |m.Keys - {OTHER}| <= maxRegions
    && |m| <= maxRegions + 1
  }

  lemma FoldKeys(m: Buckets, maxRegions: nat, region: string, h: u64)
    requires WellSized(m)
    ensures Folded(m, maxRegions, region, h).Keys == m.Keys + {BucketFor(m, maxRegions, region)}
  {}

  lemma FoldedIsCapped(m: Buckets, maxRegions: nat, region: string, h: u64)
    requires WellSized(m) && Capped(m, maxRegions) && IsRegion(region)
    ensures Capped(Folded(m, maxRegions, region, h), maxRegions)
  {}

  /** Every reachable tracker respects the cap. */
  lemma {:induction false} RunIsCapped(maxRegions: nat, hash: Hasher, history: seq<Observation>)
    ensures Capped(Run(maxRegions, hash, history), maxRegions)
  {
    if history == [] {
    } else {
      var n := |history| - 1;
      RunIsCapped(maxRegions, hash, history[..n]);
      var o := history[n];
      if !o.contended {
        NormalizeIsRegion(o.region);
        FoldedIsCapped(Run(maxRegions, hash, history[..n]), maxRegions, Normalize(o.region), hash(o.visitorKey));
      }
    }
  }

  /** Normalisation fixes every stored key, so a caller may pass a reported region back in. */
  lemma KeysAreFixed(maxRegions: nat, hash: Hasher, history: seq<Observation>, key: string)
    requires key in Run(maxRegions, hash, history)
    ensures IsRegion(key) && Normalize(key) == key
  {
    RunIsCapped(maxRegions, hash, history);
    RegionIsFixed(key);
  }

  // ----- buckets never change

  predicate Uses(o: Observation, region: string) { !o.contended && Normalize(o.region) == region }

  /** Position of the first item that satisfies `p`, or the length when there is none. */
  function FirstIndex<T>(items: seq<T>, p: T -> bool): (i: nat)
    ensures i <= |items|
    ensures i < |items| ==> p(items[i])
    ensures forall j :: 0 <= j < i ==> !p(items[j])
  {
    if items == [] then 0
    else
      var n := |items| - 1;
      var i := FirstIndex(items[..n], p);
      assert forall j :: 0 <= j < n ==> items[..n][j] == items[j];
      if i < n || p(items[n]) then i else n + 1
  }

  /** Position of the first uncontended call for `region`, or the length when there is none. */
  function FirstUse(history: seq<Observation>, region: string): (i: nat)
    ensures i <= |history|
    ensures i < |history| ==> Uses(history[i], region)
    ensures forall j :: 0 <= j < i ==> !Uses(history[j], region)
  {
    FirstIndex(history, (o: Observation) => Uses(o, region))
  }

  /** The bucket a region got at its first uncontended call. */
  function Assigned(maxRegions: nat, hash: Hasher, history: seq<Observation>, region: string): string
  {
    BucketFor(Run(maxRegions, hash, history[..FirstUse(history, region)]), maxRegions, region)
  }

  /** From now on no call can change where `region` goes. */
  predicate Settled(m: Buckets, maxRegions: nat, region: string) { region in m || |m| >= maxRegions }

  lemma GrowsByOne(m: Buckets, maxRegions: nat, region: string, h: u64)
    requires WellSized(m)
    ensures |m| <= |Folded(m, maxRegions, region, h)| <= |m| + 1
  {}

  lemma SettledStays(m: Buckets, maxRegions: nat, region: string, used: string, h: u64)
    requires WellSized(m) && (Settled(m, maxRegions, region) || used == region)
    ensures Settled(Folded(m, maxRegions, used, h), maxRegions, region)
    ensures BucketFor(Folded(m, maxRegions, used, h), maxRegions, region) == BucketFor(m, maxRegions, region)
  {}

  lemma {:induction false} UsedIsSettled(maxRegions: nat, hash: Hasher, history: seq<Observation>, region: string)
    ensures FirstUse(history, region) < |history| ==> Settled(Run(maxRegions, hash, history), maxRegions, region)
    ensures BucketFor(Run(maxRegions, hash, history), maxRegions, region) == Assigned(maxRegions, hash, history, region)
  {
    if history == [] {
      assert history[..0] == history;
    } else {
      var n := |history| - 1;
      UsedIsSettled(maxRegions, hash, history[..n], region);
      var f := FirstUse(history, region);
      var o := history[n];
      var m := Run(maxRegions, hash, history[..n]);
      if f == |history| {
        assert history[..f] == history;
      } else {
        assert f == FirstUse(history[..n], region);
        assert history[..n][..f] == history[..f];
        if !o.contended { SettledStays(m, maxRegions, region, Normalize(o.region), hash(o.visitorKey)); }
      }
    }
  }

  /** At every later time the tracker would send `region` where its first uncontended call went. */
  lemma BucketIsForLife(
    maxRegions: nat, hash: Hasher, history: seq<Observation>, later: seq<Observation>, region: string)
    requires FirstUse(history, region) < |history|
    ensures BucketFor(Run(maxRegions, hash, history + later), maxRegions, region) ==
            Assigned(maxRegions, hash, history, region)
  {
    UsedIsSettled(maxRegions, hash, history + later, region);
    FirstUseOfPrefix(history, later, region);
    var f := FirstUse(history, region);
    assert (history + later)[..f] == history[..f];
  }

  lemma FirstUseOfPrefix(history: seq<Observation>, later: seq<Observation>, region: string)
    requires FirstUse(history, region) < |history|
    ensures FirstUse(history + later, region) == FirstUse(history, region)
  {
    var f, g := FirstUse(history, region), FirstUse(history + later, region);
    assert (history + later)[f] == history[f];
    assert forall j :: 0 <= j < |history| ==> (history + later)[j] == history[j];
  }

  /** A region sent to `other` never gets a bucket of its own. */
  lemma OverflowIsForLife(
    maxRegions: nat, hash: Hasher, history: seq<Observation>, later: seq<Observation>, region: string)
    requires FirstUse(history, region) < |history| && region != OTHER
    ensures Assigned(maxRegions, hash, history, region) == OTHER ==> region !in Run(maxRegions, hash, history + later)
    ensures Assigned(maxRegions, hash, history, region) == region ==> region in Run(maxRegions, hash, history + later)
  {
    BucketIsForLife(maxRegions, hash, history, later, region);
    UsedIsSettled(maxRegions, hash, history + later, region);
    FirstUseOfPrefix(history, later, region);
    HeldIffAssigned(maxRegions, hash, history + later, region);
  }

  /** A region that the map keeps apart: it has a bucket of its own now exactly when it had one or just got it. */
  lemma OwnBucketStep(m: Buckets, maxRegions: nat, region: string, used: string, h: u64)
    requires WellSized(m) && region != OTHER
    ensures region in Folded(m, maxRegions, used, h) <==>
            region in m || (used == region && BucketFor(m, maxRegions, region) == region)
  {
    FoldKeys(m, maxRegions, used, h);
  }

  /** A region other than `other` is a key exactly when it was used and got its own bucket. */
  lemma {:induction false} HeldIffAssigned(maxRegions: nat, hash: Hasher, history: seq<Observation>, region: string)
    requires region != OTHER
    ensures region in Run(maxRegions, hash, history)
      <==> FirstUse(history, region) < |history| && Assigned(maxRegions, hash, history, region) == region
  {
    UsedIsSettled(maxRegions, hash, history, region);
    if history == [] {
    } else {
      var n := |history| - 1;
      var o := history[n];
      HeldIffAssigned(maxRegions, hash, history[..n], region);
      UsedIsSettled(maxRegions, hash, history[..n], region);
      if !o.contended {
        OwnBucketStep(Run(maxRegions, hash, history[..n]), maxRegions, region, Normalize(o.region), hash(o.visitorKey));
      }
      var f := FirstUse(history, region);
      if f < n { assert history[..n][..f] == history[..f]; }
    }
  }

  // ----- which regions are kept

  /** The distinct normalised regions of the uncontended calls. */
  ghost function Seen(history: seq<Observation>): set<string>
  {
    set i | 0 <= i < |history| && !history[i].contended :: Normalize(history[i].region)
  }

  ghost predicate Keeps(keys: set<string>, seen: set<string>, maxRegions: nat)
  {
    && keys - {OTHER} <= seen
    && (|seen| <= maxRegions ==> keys == seen)
    && (|seen| > maxRegions ==> OTHER in keys && |keys| >= maxRegions)
  }

  lemma KeepsStep(m: Buckets, seen: set<string>, maxRegions: nat, region: string, h: u64)
    requires WellSized(m) && Keeps(m.Keys, seen, maxRegions)
    ensures Keeps(Folded(m, maxRegions, region, h).Keys, seen + {region}, maxRegions)
  {
    FoldKeys(m, maxRegions, region, h);
    GrowsByOne(m, maxRegions, region, h);
    if region in seen {
      assert seen + {region} == seen;
    } else {
      assert |seen + {region}| == |seen| + 1;
    }
  }

  /** Up to the cap every region seen is kept apart; beyond it the tracker is full and `other` collects the rest. */
  lemma {:induction false} RunKeeps(maxRegions: nat, hash: Hasher, history: seq<Observation>)
    ensures Keeps(Run(maxRegions, hash, history).Keys, Seen(history), maxRegions)
  {
    if history == [] {
    } else {
      var n := |history| - 1;
      var o := history[n];
      RunKeeps(maxRegions, hash, history[..n]);
      assert history == history[..n] + [o];
      if o.contended {
        assert Seen(history) == Seen(history[..n]);
      } else {
        assert Seen(history) == Seen(history[..n]) + {Normalize(o.region)};
        var m := Run(maxRegions, hash, history[..n]);
        KeepsStep(m, Seen(history[..n]), maxRegions, Normalize(o.region), hash(o.visitorKey));
      }
    }
  }

  /**
   * A region gets a bucket of its own exactly when fewer regions than the cap were seen before it; else it goes to
   * `other`.
   */
  lemma AssignedByRank(maxRegions: nat, hash: Hasher, history: seq<Observation>, region: string)
    requires FirstUse(history, region) < |history| && region != "other"
    ensures Assigned(maxRegions, hash, history, region)
         == if |Seen(history[..FirstUse(history, region)])| < maxRegions then region else "other"
  {
    var before := history[..FirstUse(history, region)];
    RunKeeps(maxRegions, hash, before);
    assert region !in Seen(before) by {
      forall i | 0 <= i < |before| && !before[i].contended ensures Normalize(before[i].region) != region {
        assert !Uses(history[i], region);
      }
    }
    var m := Run(maxRegions, hash, before);
    assert |m| == |m.Keys|;
  }

  // ----- each bucket is the sketch of the visitors assigned to it

  /** Hashes of the uncontended calls whose region `goesTo` sends to `bucket`. */
  ghost function HashesUnder(
    goesTo: string -> string, hash: Hasher, history: seq<Observation>, bucket: string): set<u64>
  {
    set i | 0 <= i < |history| && !history[i].contended && goesTo(Normalize(history[i].region)) == bucket
      :: hash(history[i].visitorKey)
  }

  /** Hashes of the uncontended calls whose region is assigned to `bucket`. */
  ghost function HashesOf(maxRegions: nat, hash: Hasher, history: seq<Observation>, bucket: string): set<u64>
  {
    HashesUnder((r: string) => Assigned(maxRegions, hash, history, r), hash, history, bucket)
  }

  ghost predicate Agree(p: string -> string, q: string -> string, history: seq<Observation>)
  {
    forall i :: 0 <= i < |history| && !history[i].contended
      ==> p(Normalize(history[i].region)) == q(Normalize(history[i].region))
  }

  lemma HashesUnderAgree(
    p: string -> string, q: string -> string, hash: Hasher, history: seq<Observation>, bucket: string)
    requires Agree(p, q, history)
    ensures HashesUnder(p, hash, history, bucket) == HashesUnder(q, hash, history, bucket)
  {}

  lemma HashesUnderLast(p: string -> string, hash: Hasher, history: seq<Observation>, o: Observation, bucket: string)
    ensures HashesUnder(p, hash, history + [o], bucket)
      == HashesUnder(p, hash, history, bucket)
         + if !o.contended && p(Normalize(o.region)) == bucket then {hash(o.visitorKey)} else {}
  {
    var all := history + [o];
    assert all[|history|] == o && forall i :: 0 <= i < |history| ==> all[i] == history[i];
  }

  lemma AssignedOfPrefix(maxRegions: nat, hash: Hasher, history: seq<Observation>, later: seq<Observation>, i: nat)
    requires i < |history| && !history[i].contended
    ensures Assigned(maxRegions, hash, history + later, Normalize(history[i].region))
         == Assigned(maxRegions, hash, history, Normalize(history[i].region))
  {
    var r := Normalize(history[i].region);
    assert Uses(history[i], r);
    FirstUseOfPrefix(history, later, r);
    var f := FirstUse(history, r);
    assert (history + later)[..f] == history[..f];
  }

  lemma HashesOfStep(maxRegions: nat, hash: Hasher, history: seq<Observation>, o: Observation, bucket: string)
    ensures HashesOf(maxRegions, hash, history + [o], bucket)
      == HashesOf(maxRegions, hash, history, bucket)
         + if !o.contended && Assigned(maxRegions, hash, history + [o], Normalize(o.region)) == bucket
           then {hash(o.visitorKey)} else {}
  {
    var p := (r: string) => Assigned(maxRegions, hash, history, r);
    var q := (r: string) => Assigned(maxRegions, hash, history + [o], r);
    forall i | 0 <= i < |history| && !history[i].contended
      ensures p(Normalize(history[i].region)) == q(Normalize(history[i].region))
    {
      AssignedOfPrefix(maxRegions, hash, history, [o], i);
    }
    HashesUnderAgree(p, q, hash, history, bucket);
    HashesUnderLast(q, hash, history, o, bucket);
  }

  lemma RunStep(maxRegions: nat, hash: Hasher, history: seq<Observation>, o: Observation)
    ensures Run(maxRegions, hash, history + [o]) == Observed(Run(maxRegions, hash, history), maxRegions, hash, o)
  {}

  /** An uncontended call goes to the bucket its region is assigned for life. */
  lemma CallGoesToAssigned(maxRegions: nat, hash: Hasher, history: seq<Observation>, o: Observation, region: string)
    requires Uses(o, region)
    ensures BucketFor(Run(maxRegions, hash, history), maxRegions, region)
         == Assigned(maxRegions, hash, history + [o], region)
  {
    UsedIsSettled(maxRegions, hash, history, region);
    FirstUseWithCall(history, o, region);
    assert (history + [o])[..FirstUse(history, region)] == history[..FirstUse(history, region)];
  }

  lemma FirstUseWithCall(history: seq<Observation>, o: Observation, region: string)
    requires Uses(o, region)
    ensures FirstUse(history + [o], region) == FirstUse(history, region)
  {}

  /** The bucket is the sketch of the hashes, and exists exactly when there is one. */
  ghost predicate Sketches(m: Buckets, bucket: string, hashes: set<u64>)
    requires WellSized(m)
  {
    IsSketch(Registers(m, bucket), hashes) && (bucket in m <==> hashes != {})
  }

  lemma FoldIsSketch(m: Buckets, maxRegions: nat, region: string, h: u64, bucket: string, hashes: set<u64>)
    requires WellSized(m) && Sketches(m, bucket, hashes)
    ensures Sketches(Folded(m, maxRegions, region, h), bucket,
                     hashes + if BucketFor(m, maxRegions, region) == bucket then {h} else {})
  {}

  lemma BucketStep(maxRegions: nat, hash: Hasher, history: seq<Observation>, o: Observation, bucket: string)
    requires Sketches(Run(maxRegions, hash, history), bucket, HashesOf(maxRegions, hash, history, bucket))
    ensures Sketches(Run(maxRegions, hash, history + [o]), bucket, HashesOf(maxRegions, hash, history + [o], bucket))
  {
    RunStep(maxRegions, hash, history, o);
    HashesOfStep(maxRegions, hash, history, o, bucket);
    var m, hashes := Run(maxRegions, hash, history), HashesOf(maxRegions, hash, history, bucket);
    if o.contended {
      assert hashes + {} == hashes;
    } else {
      CallGoesToAssigned(maxRegions, hash, history, o, Normalize(o.region));
      FoldIsSketch(m, maxRegions, Normalize(o.region), hash(o.visitorKey), bucket, hashes);
    }
  }

  /** Every bucket is the sketch of exactly its visitors, and exists exactly when it has one. */
  lemma {:induction false} BucketIsSketch(maxRegions: nat, hash: Hasher, history: seq<Observation>, bucket: string)
    ensures Sketches(Run(maxRegions, hash, history), bucket, HashesOf(maxRegions, hash, history, bucket))
  {
    if history == [] {
      EmptyIsSketch();
      assert HashesOf(maxRegions, hash, history, bucket) == {};
    } else {
      var before, o := history[..|history| - 1], history[|history| - 1];
      assert before + [o] == history;
      BucketIsSketch(maxRegions, hash, before, bucket);
      BucketStep(maxRegions, hash, before, o, bucket);
    }
  }

  // ----- what the estimate says about visitors

  ghost predicate Occupied(hashes: set<u64>, i: nat) { exists h :: h in hashes && InSlot(h, i) }

  /** The distinct top 12 bits: the slices of the 64-bit numbers in which some hash lies. */
  ghost function TopBits(hashes: set<u64>): set<nat>
  {
    set i | 0 <= i < 4096 && Occupied(hashes, i)
  }

  ghost function NonZero(regs: seq<u8>): set<nat> { set i | 0 <= i < |regs| && regs[i] != 0 }

  lemma {:induction false} TouchedCounts(regs: seq<u8>)
    ensures Touched(regs) == |NonZero(regs)|
  {
    if regs == [] {
    } else {
      var n := |regs| - 1;
      TouchedCounts(regs[..n]);
      assert NonZero(regs) == NonZero(regs[..n]) + if regs[n] != 0 then {n} else {};
    }
  }

  /** The touched registers of a sketch are the distinct top 12 bits of its hashes. */
  lemma TouchedIsTopBits(regs: seq<u8>, hashes: set<u64>)
    requires IsSketch(regs, hashes)
    ensures Touched(regs) == |TopBits(hashes)|
  {
    TouchedCounts(regs);
    forall i | 0 <= i < REGISTERS ensures i in NonZero(regs) <==> i in TopBits(hashes) {
      assert LargestRho(regs[i], hashes, i);
    }
    assert NonZero(regs) == TopBits(hashes);
  }

  /** Read right after any history, the estimate of a region's bucket is exact while at most 45 indexes are
      taken, never below the number of indexes taken, and 0 only when the bucket has no visitor. */
  lemma EstimateOfHistory(maxRegions: nat, hash: Hasher, history: seq<Observation>, region: string, ln: real -> real)
    requires IsLn(ln)
    ensures var indexes := |TopBits(HashesOf(maxRegions, hash, history, Normalize(region)))|;
      var e := EstimateFor(Run(maxRegions, hash, history), region, false, ln);
      && e >= indexes
      && (indexes <= 45 ==> e == indexes)
      && (e == 0 <==> HashesOf(maxRegions, hash, history, Normalize(region)) == {})
    ensures EstimateFor(Run(maxRegions, hash, history), region, true, ln) == 0
  {
    var m := Run(maxRegions, hash, history);
    var bucket := Normalize(region);
    var hashes := HashesOf(maxRegions, hash, history, bucket);
    BucketIsSketch(maxRegions, hash, history, bucket);
    if bucket in m {
      TouchedIsTopBits(m[bucket], hashes);
      AtLeastTouched(m[bucket], ln);
      var h :| h in hashes;
      SlotIsIndex(h, Index(h));
      assert Occupied(hashes, Index(h)) && Index(h) in TopBits(hashes);
      if |TopBits(hashes)| <= 45 { ExactSmallCounts(m[bucket], ln); }
    } else {
      assert TopBits(hashes) == {};
    }
  }
}
