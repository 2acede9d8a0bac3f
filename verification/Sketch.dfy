/** The HyperLogLog registers of src/visitors.rs: `Hll::add_hash` as a function of the set of hashes. */
module Sketch {
  import opened KeyCodec

  const REGISTERS: nat := 4096

  type u8 = n: nat | n < 256

  function Pow2(w: nat): (p: nat)
    ensures p >= 1
  {
    if w == 0 then 1 else 2 * Pow2(w - 1)
  }

  lemma Powers()
    ensures Pow2(12) == 4096 && Pow2(52) == 0x10_0000_0000_0000 && Pow2(64) == U64
  {
    assert Pow2(12) == 4096;
    assert Pow2(24) == 0x100_0000;
    assert Pow2(36) == 0x10_0000_0000;
    assert Pow2(48) == 0x1_0000_0000_0000;
    assert Pow2(52) == 0x10_0000_0000_0000;
    assert Pow2(64) == U64;
  }

  /** `leading_zeros` of a `w`-bit number. */
  function LeadingZeros(x: nat, w: nat): (z: nat)
    requires x < Pow2(w)
    ensures z <= w
  {
    if w == 0 || x >= Pow2(w - 1) then 0 else 1 + LeadingZeros(x, w - 1)
  }

  /** `u64::leading_zeros`. */
  function LeadingZeros64(x: u64): (z: nat)
    ensures z <= 64
  {
    Powers();
    LeadingZeros(x, 64)
  }

  /** The top 12 bits. */
  function Index(hash: u64): (i: nat)
    ensures i < REGISTERS
  {
    hash / 0x10_0000_0000_0000
  }

  /** The other bits, shifted to the top. */
  function Shifted(hash: u64): u64 { hash * 4096 % U64 }

  function Min(a: nat, b: nat): nat { if a <= b then a else b }

  function Max(a: u8, b: u8): u8 { if a >= b then a else b }

  /** Position of the first one bit after the index, clamped to a byte. */
  function Rho(hash: u64): (r: u8)
    ensures r >= 1
  {
    Min(LeadingZeros64(Shifted(hash)) + 1, 255)
  }

  /** The leading one bit of a number stands right behind its leading zeros. */
  lemma {:induction false} LeadingZerosIff(x: nat, w: nat, z: nat)
    requires x < Pow2(w) && z < w
    ensures LeadingZeros(x, w) == z <==> Pow2(w - z - 1) <= x < Pow2(w - z)
  {
    if z == 0 {
    } else {
      PowRises(w - z, w - 1);
      if x < Pow2(w - 1) { LeadingZerosIff(x, w - 1, z - 1); }
    }
  }

  lemma {:induction false} PowRises(a: nat, b: nat)
    requires a <= b
    ensures Pow2(a) <= Pow2(b)
  {
    if a == b {
    } else {
      PowRises(a, b - 1);
    }
  }

  lemma {:induction false} LeadingZerosAtMost(x: nat, w: nat, k: nat)
    requires k < w && Pow2(k) <= x < Pow2(w)
    ensures LeadingZeros(x, w) < w - k
  {
    if x < Pow2(w - 1) {
      LeadingZerosAtMost(x, w - 1, k);
    }
  }

  lemma {:induction false} LeadingZerosOfZero(w: nat)
    ensures LeadingZeros(0, w) == w
  {
    if w == 0 {
    } else {
      LeadingZerosOfZero(w - 1);
    }
  }

  /** Register values lie in 1..52 or are 65; the clamp never bites and the index never misses. */
  lemma RhoRange(hash: u64)
    ensures 1 <= Rho(hash) <= 52 || Rho(hash) == 65
    ensures Rho(hash) == LeadingZeros64(Shifted(hash)) + 1
    ensures Rho(hash) == 65 <==> hash % 0x10_0000_0000_0000 == 0
  {
    Powers();
    var low := hash % 0x10_0000_0000_0000;
    assert hash == hash / 0x10_0000_0000_0000 * 0x10_0000_0000_0000 + low;
    assert Shifted(hash) == low * 4096;
    if low == 0 { LeadingZerosOfZero(64); } else { LeadingZerosAtMost(Shifted(hash), 64, 12); }
  }

  /** The slice of the hashes whose top 12 bits are `i`. */
  predicate InSlot(hash: u64, i: nat) { i * 0x10_0000_0000_0000 <= hash < (i + 1) * 0x10_0000_0000_0000 }

  /** The index is `i` exactly for the `i`-th of 4096 equal slices of the 64-bit numbers. */
  lemma SlotIsIndex(hash: u64, i: nat)
    ensures Index(hash) == i <==> i * 0x10_0000_0000_0000 <= hash < (i + 1) * 0x10_0000_0000_0000
    ensures Index(hash) == i <==> InSlot(hash, i)
  {}

  lemma {:induction false} PowSum(a: nat, b: nat)
    ensures Pow2(a + b) == Pow2(a) * Pow2(b)
  {
    if b == 0 {
    } else {
      PowSum(a, b - 1);
    }
  }

  lemma ShiftedIsLow(hash: u64)
    ensures Shifted(hash) == hash % 0x10_0000_0000_0000 * 4096
  {
    assert hash == hash / 0x10_0000_0000_0000 * 0x10_0000_0000_0000 + hash % 0x10_0000_0000_0000;
  }

  lemma PowShift(k: nat)
    ensures Pow2(k + 12) == 4096 * Pow2(k)
  {
    PowSum(k, 12);
    Powers();
  }

  /** Rho by the lower 52 bits: the distance of their leading one bit from the top, or 65 when there is none. */
  lemma RhoIff(hash: u64, r: nat)
    ensures hash % 0x10_0000_0000_0000 == 0 <==> Rho(hash) == 65
    ensures 1 <= r <= 52 ==>
              (Rho(hash) == r <==> Pow2(52 - r) <= hash % 0x10_0000_0000_0000 < Pow2(53 - r))
  {
    RhoRange(hash);
    ShiftedIsLow(hash);
    if 1 <= r <= 52 {
      PowShift(52 - r);
      PowShift(53 - r);
      Pow64();
      LeadingZerosIff(Shifted(hash), 64, r - 1);
    }
  }

  lemma Pow64()
    ensures Pow2(64) == U64
  {
    Powers();
  }

  // ----- registers

  function Empty(): (r: seq<u8>)
    ensures |r| == REGISTERS
  {
    seq(REGISTERS, i => 0)
  }

  function Added(regs: seq<u8>, hash: u64): (r: seq<u8>)
    requires |regs| == REGISTERS
    ensures |r| == REGISTERS
  {
    regs[Index(hash) := Max(regs[Index(hash)], Rho(hash))]
  }

  /** The sketch of a whole history of hashes. */
  function AddedAll(history: seq<u64>): (r: seq<u8>)
    ensures |r| == REGISTERS
  {
    if history == [] then Empty() else Added(AddedAll(history[..|history| - 1]), history[|history| - 1])
  }

  /** `Hll`: a boxed array of registers. */
  class Hll {
    const registers: array<u8>

    constructor ()
      ensures fresh(registers) && registers[..] == Empty()
    {
      registers := new u8[REGISTERS](i => 0);
    }

    method AddHash(hash: u64)
      requires registers.Length == REGISTERS
      modifies registers
      ensures registers[..] == Added(old(registers[..]), hash)
      ensures forall i :: 0 <= i < REGISTERS ==>
                registers[i] == if InSlot(hash, i) then Max(old(registers[i]), Rho(hash)) else old(registers[i])
    {
      var idx := hash / 0x10_0000_0000_0000;
      var rho := LeadingZeros64(hash * 4096 % U64) + 1;
      rho := Min(rho, 255);
      if idx < registers.Length {
        registers[idx] := Max(registers[idx], rho);
      }
    }
  }

  // ----- the sketch is a function of the set of hashes

  /** `r` is the largest rho among the hashes with top bits `i`, or 0 when there is none. */
  ghost predicate LargestRho(r: u8, hashes: set<u64>, i: nat)
  {
    && (forall h :: h in hashes && InSlot(h, i) ==> Rho(h) <= r)
    && (r == 0 || exists h :: h in hashes && InSlot(h, i) && Rho(h) == r)
  }

  ghost predicate IsSketch(regs: seq<u8>, hashes: set<u64>)
  {
    |regs| == REGISTERS && forall i :: 0 <= i < REGISTERS ==> LargestRho(regs[i], hashes, i)
  }

  ghost function SetOf(history: seq<u64>): set<u64> { set h | h in history }

  lemma EmptyIsSketch()
    ensures IsSketch(Empty(), {})
  {}

  lemma AddedIsSketch(regs: seq<u8>, hashes: set<u64>, hash: u64)
    requires IsSketch(regs, hashes)
    ensures IsSketch(Added(regs, hash), hashes + {hash})
  {}

  /** Register `i` of any history is the largest rho over its distinct hashes of index `i`. */
  lemma {:induction false} HistoryIsSketch(history: seq<u64>)
    ensures IsSketch(AddedAll(history), SetOf(history))
  {
    if history == [] {
      EmptyIsSketch();
    } else {
      var n := |history| - 1;
      HistoryIsSketch(history[..n]);
      AddedIsSketch(AddedAll(history[..n]), SetOf(history[..n]), history[n]);
      assert history == history[..n] + [history[n]];
      assert SetOf(history) == SetOf(history[..n]) + {history[n]};
    }
  }

  lemma SketchUnique(a: seq<u8>, b: seq<u8>, hashes: set<u64>)
    requires IsSketch(a, hashes) && IsSketch(b, hashes)
    ensures a == b
  {}

  /** Order and duplicates never matter. */
  lemma OnlyTheSetMatters(a: seq<u64>, b: seq<u64>)
    requires SetOf(a) == SetOf(b)
    ensures AddedAll(a) == AddedAll(b)
  {
    HistoryIsSketch(a);
    HistoryIsSketch(b);
    SketchUnique(AddedAll(a), AddedAll(b), SetOf(a));
  }

  /** Registers never decrease, and hold 0..52 or 65. */
  lemma RegistersGrow(history: seq<u64>, hash: u64, i: nat)
    requires i < REGISTERS
    ensures AddedAll(history)[i] <= AddedAll(history + [hash])[i]
    ensures AddedAll(history)[i] <= 52 || AddedAll(history)[i] == 65
  {
    assert (history + [hash])[..|history|] == history;
    HistoryIsSketch(history);
    var r := AddedAll(history)[i];
    assert LargestRho(r, SetOf(history), i);
    if r != 0 {
      var h :| h in SetOf(history) && InSlot(h, i) && Rho(h) == r;
      RhoRange(h);
    }
  }
}
