/** `Hll::estimate` of src/visitors.rs over exact reals, for any logarithm within its elementary bounds. */
module Estimate {
  import opened KeyCodec
  import opened Sketch

  const M := 4096.0

  const ALPHA := 0.7213 / (1.0 + 1.079 / 4096.0)

  /** All that is assumed of the natural logarithm. */
  ghost predicate IsLn(ln: real -> real)
  {
    forall x: real :: x > 0.0 ==> 1.0 - 1.0 / x <= ln(x) <= x - 1.0
  }

  /** `2f64.powi(-r)`. */
  function Weight(r: nat): (w: real)
    ensures 0.0 < w <= 1.0 && (r > 0 ==> w <= 0.5)
  {
    if r == 0 then 1.0 else Weight(r - 1) / 2.0
  }

  function Sum(regs: seq<u8>): real
  {
    if regs == [] then 0.0 else Sum(regs[..|regs| - 1]) + Weight(regs[|regs| - 1])
  }

  function Zeros(regs: seq<u8>): (z: nat)
    ensures z <= |regs|
  {
    if regs == [] then 0 else Zeros(regs[..|regs| - 1]) + if regs[|regs| - 1] == 0 then 1 else 0
  }

  /** `value.round() as u64`: halves round away from zero, the cast saturates. */
  function SaturatingU64(value: real): u64
  {
    var rounded := if value >= 0.0 then (value + 0.5).Floor else -((0.5 - value).Floor);
    if rounded < 0 then 0 else if rounded >= U64 then U64 - 1 else rounded
  }

  function Raw(sum: real): real
    requires sum > 0.0
  {
    ALPHA * M * M / sum
  }

  /** `estimate`: linear counting in the small range when some register is empty, the raw formula otherwise. */
  function EstimateOf(regs: seq<u8>, ln: real -> real): u64
    requires |regs| == REGISTERS
  {
    SumBounds(regs);
    var raw := Raw(Sum(regs));
    var zeros := Zeros(regs);
    if raw <= 2.5 * M && zeros > 0 then SaturatingU64(M * ln(M / (zeros as real))) else SaturatingU64(raw)
  }

  /** Registers touched at least once. */
  function Touched(regs: seq<u8>): nat { |regs| - Zeros(regs) }

  /** Each empty register weighs one, every other at most a half: the divisor is always positive. */
  lemma {:induction false} SumBounds(regs: seq<u8>)
    ensures Zeros(regs) as real <= Sum(regs) <= Zeros(regs) as real + 0.5 * Touched(regs) as real
    ensures regs != [] ==> Sum(regs) > 0.0
  {
    if regs == [] {
    } else {
      SumBounds(regs[..|regs| - 1]);
    }
  }

  // ----- arithmetic

  lemma QuotientAtMost(c: real, s: real, b: real)
    requires s > 0.0 && c <= b * s
    ensures c / s <= b
  {}

  lemma QuotientBelow(c: real, s: real, b: real)
    requires s > 0.0 && c < b * s
    ensures c / s < b
  {}

  lemma ProductAtMost(a: real, b: real, c: real)
    requires a <= b && 0.0 <= c
    ensures a * c <= b * c
  {}

  lemma QuotientAtLeast(c: real, s: real, b: real)
    requires s > 0.0 && c >= b * s
    ensures c / s >= b
  {}

  lemma RoundExact(value: real, k: nat)
    requires k as real <= value < k as real + 0.5 && k < U64
    ensures SaturatingU64(value) == k
  {}

  lemma RoundAtLeast(value: real, k: nat)
    requires k as real <= value && k < U64
    ensures SaturatingU64(value) >= k
  {}

  /** The two elementary bounds of linear counting with `z` empty registers. */
  lemma LinearBounds(z: nat, ln: real -> real)
    requires IsLn(ln) && 0 < z <= REGISTERS
    ensures (REGISTERS - z) as real <= M * ln(M / (z as real)) <= M * (M / (z as real) - 1.0)
  {}

  lemma GapArithmetic(r: real, z: real)
    requires 0.0 <= r <= 45.0 && z == 4096.0 - r
    ensures 4096.0 * r < (r + 0.5) * z
  {
    ProductAtMost(r, 45.0, r);
    assert (r + 0.5) * z == 4096.0 * r + 2048.0 - r * r - 0.5 * r;
  }

  /** With at most 45 touched registers the upper bound stays within a half of the count. */
  lemma SmallGap(k: nat)
    requires k <= 45
    ensures M * (M / ((REGISTERS - k) as real) - 1.0) < k as real + 0.5
  {
    var z := (REGISTERS - k) as real;
    assert M * (M / z - 1.0) == M * (M - z) / z;
    assert M - z == k as real;
    var r := k as real;
    GapArithmetic(r, z);
    QuotientBelow(M * r, z, r + 0.5);
  }

  /** The raw formula is in the linear range when at most 45 registers are touched. */
  lemma FewTouchedIsLinear(regs: seq<u8>)
    requires |regs| == REGISTERS && Touched(regs) <= 45
    ensures Sum(regs) > 0.0 && Raw(Sum(regs)) <= 2.5 * M && Zeros(regs) > 0
  {
    SumBounds(regs);
    assert Sum(regs) >= 4051.0;
    QuotientAtMost(ALPHA * M * M, Sum(regs), 2.5 * M);
  }

  lemma {:induction false} SumAppend(a: seq<u8>, b: seq<u8>)
    ensures Sum(a + b) == Sum(a) + Sum(b) && Zeros(a + b) == Zeros(a) + Zeros(b)
  {
    if b == [] {
      assert a + b == a;
    } else {
      assert (a + b)[..|a + b| - 1] == a + b[..|b| - 1];
      SumAppend(a, b[..|b| - 1]);
    }
  }

  /** Rounding to the nearest integer, halves away from zero; the conversion is total and saturates at both ends. */
  lemma RoundedTo(value: real, k: nat)
    requires k < 0xFFFF_FFFF_FFFF_FFFF
    ensures k > 0 ==> (SaturatingU64(value) == k <==> k as real - 0.5 <= value < k as real + 0.5)
    ensures SaturatingU64(value) == 0 <==> value < 0.5
    ensures value >= 0xFFFF_FFFF_FFFF_FFFF as real ==> SaturatingU64(value) == 0xFFFF_FFFF_FFFF_FFFF
  {}

  // ----- what the estimate promises

  /** Up to 45 touched registers the estimate is exact. */
  lemma ExactSmallCounts(regs: seq<u8>, ln: real -> real)
    requires IsLn(ln) && |regs| == REGISTERS && Touched(regs) <= 45
    ensures EstimateOf(regs, ln) == Touched(regs)
  {
    FewTouchedIsLinear(regs);
    LinearBounds(Zeros(regs), ln);
    SmallGap(Touched(regs));
    RoundExact(M * ln(M / (Zeros(regs) as real)), Touched(regs));
  }

  /** The estimate is never below the number of touched registers, in any of its three branches. */
  lemma AtLeastTouched(regs: seq<u8>, ln: real -> real)
    requires IsLn(ln) && |regs| == REGISTERS
    ensures EstimateOf(regs, ln) >= Touched(regs)
  {
    SumBounds(regs);
    var raw := Raw(Sum(regs));
    if raw <= 2.5 * M && Zeros(regs) > 0 {
      LinearBounds(Zeros(regs), ln);
      RoundAtLeast(M * ln(M / (Zeros(regs) as real)), Touched(regs));
    } else {
      if Zeros(regs) == 0 {
        assert Sum(regs) <= 2048.0;
        QuotientAtLeast(ALPHA * M * M, Sum(regs), M);
      }
      RoundAtLeast(raw, Touched(regs));
    }
  }

  /** Zero means that nothing was ever added. */
  lemma ZeroIffUntouched(regs: seq<u8>, ln: real -> real)
    requires IsLn(ln) && |regs| == REGISTERS
    ensures EstimateOf(regs, ln) == 0 <==> Touched(regs) == 0
  {
    AtLeastTouched(regs, ln);
    if Touched(regs) == 0 { ExactSmallCounts(regs, ln); }
  }

  // ----- the raw formula

  function Uniform(r: u8, n: nat): seq<u8> { seq(n, i => r) }

  lemma {:induction false} UniformSum(r: u8, n: nat)
    ensures Sum(Uniform(r, n)) == n as real * Weight(r)
    ensures r > 0 ==> Zeros(Uniform(r, n)) == 0
  {
    if n == 0 {
    } else {
      assert Uniform(r, n)[..n - 1] == Uniform(r, n - 1);
      UniformSum(r, n - 1);
    }
  }

  predicate Inverse(w: real, p: real) { w > 0.0 && w * p == 1.0 }

  lemma {:induction false} WeightInverse(r: nat)
    ensures Inverse(Weight(r), Pow2(r) as real)
  {
    if r == 0 {
    } else {
      WeightInverse(r - 1);
      assert Pow2(r) as real == 2.0 * Pow2(r - 1) as real;
    }
  }

  predicate IsProduct(sum: real, w: real) { sum == M * w }

  lemma RawOfUniform(w: real, p: real)
    requires Inverse(w, p)
    ensures Raw(M * w) == ALPHA * M * p
  {
    assert ALPHA * M * M == (ALPHA * M * p) * (M * w);
  }

  lemma RoundNear(value: real)
    requires 0.0 <= value < (U64 - 1) as real
    ensures -0.5 <= SaturatingU64(value) as real - value <= 0.5
  {}

  /** The raw formula is in use. */
  predicate IsRaw(regs: seq<u8>)
    requires |regs| == REGISTERS
  {
    SumBounds(regs);
    Raw(Sum(regs)) > 2.5 * M || Zeros(regs) == 0
  }

  lemma RawEstimate(regs: seq<u8>, ln: real -> real)
    requires |regs| == REGISTERS && IsRaw(regs)
    ensures Sum(regs) > 0.0 && EstimateOf(regs, ln) == SaturatingU64(Raw(Sum(regs)))
    ensures Raw(Sum(regs)) == 0.7213 / (1.0 + 1.079 / 4096.0) * 4096.0 * 4096.0 / Sum(regs)
  {
    SumBounds(regs);
  }

  lemma WithinRange(p: real)
    requires 0.0 < p <= 4503599627370496.0
    ensures 0.0 <= ALPHA * M * p < (U64 - 1) as real
  {
    ProductAtMost(p, 4503599627370496.0, ALPHA * M);
  }

  lemma PowRange(r: nat)
    requires r <= 52
    ensures 0.0 < Pow2(r) as real <= 4503599627370496.0
  {
    PowAtMost(r, 52);
    Powers();
  }

  lemma EstimateNear(regs: seq<u8>, w: real, p: real, ln: real -> real)
    requires |regs| == REGISTERS && IsRaw(regs) && IsProduct(Sum(regs), w)
    requires Inverse(w, p) && 0.0 < p <= 4503599627370496.0
    ensures -0.5 <= EstimateOf(regs, ln) as real - ALPHA * M * p <= 0.5
  {
    RawEstimate(regs, ln);
    RawOfUniform(w, p);
    WithinRange(p);
    RoundNear(ALPHA * M * p);
  }

  lemma UniformIsRaw(r: u8)
    requires r > 0
    ensures IsRaw(Uniform(r, REGISTERS)) && IsProduct(Sum(Uniform(r, REGISTERS)), Weight(r))
  {
    UniformSum(r, REGISTERS);
  }

  /**
   * With every register at `r > 0` the estimate is `alpha * m * 2^r`, to the nearest integer: one more rank doubles
   * it.
   */
  lemma UniformRegisters(r: u8, ln: real -> real)
    requires 0 < r <= 52
    ensures -0.5 <= EstimateOf(Uniform(r, REGISTERS), ln) as real - ALPHA * M * Pow2(r) as real <= 0.5
    ensures ALPHA * M == 0.7213 / (1.0 + 1.079 / 4096.0) * 4096.0
  {
    UniformIsRaw(r);
    WeightInverse(r);
    PowRange(r);
    EstimateNear(Uniform(r, REGISTERS), Weight(r), Pow2(r) as real, ln);
  }

  lemma {:induction false} PowAtMost(r: nat, k: nat)
    requires r <= k
    ensures Pow2(r) <= Pow2(k)
  {
    if r == k {
    } else {
      PowAtMost(r, k - 1);
    }
  }

  lemma {:induction false} WeightFalls(a: nat, b: nat)
    requires a <= b
    ensures Weight(b) <= Weight(a)
  {
    if a == b {
    } else {
      WeightFalls(a, b - 1);
    }
  }

  lemma {:induction false} SumFalls(a: seq<u8>, b: seq<u8>)
    requires |a| == |b| && forall i :: 0 <= i < |a| ==> a[i] <= b[i]
    ensures Sum(b) <= Sum(a)
  {
    if a == [] {
    } else {
      var n := |a| - 1;
      SumFalls(a[..n], b[..n]);
      WeightFalls(a[n], b[n]);
    }
  }

  lemma RoundMonotone(x: real, y: real)
    requires x <= y
    ensures SaturatingU64(x) <= SaturatingU64(y)
  {}

  lemma RawRises(s: real, t: real)
    requires 0.0 < t <= s
    ensures Raw(s) <= Raw(t)
  {
    var c := ALPHA * M * M;
    assert c / s * s == c;
    ProductAtMost(t, s, c / s);
    QuotientAtLeast(c, t, c / s);
  }

  /** Once in the raw range, the estimate never falls as registers grow. */
  lemma RawMonotone(a: seq<u8>, b: seq<u8>, ln: real -> real)
    requires |a| == |b| == REGISTERS && forall i :: 0 <= i < |a| ==> a[i] <= b[i]
    requires IsRaw(a) && IsRaw(b)
    ensures EstimateOf(a, ln) <= EstimateOf(b, ln)
  {
    SumFalls(a, b);
    RawEstimate(a, ln);
    RawEstimate(b, ln);
    RawRises(Sum(a), Sum(b));
    RoundMonotone(Raw(Sum(a)), Raw(Sum(b)));
  }

  // ----- the linear range

  /** What `IsLn` leaves out: the logarithm turns products into sums. */
  ghost predicate IsLog(ln: real -> real)
  {
    IsLn(ln) && forall x: real, y: real :: x > 0.0 && y > 0.0 ==> ln(x * y) == ln(x) + ln(y)
  }

  lemma Ratio(x: real, y: real) returns (q: real)
    requires 0.0 < x <= y
    ensures q * x == y && q >= 1.0
  {
    q := y / x;
    QuotientAtLeast(y, x, 1.0);
  }

  lemma LogAtLeastZero(ln: real -> real, q: real)
    requires IsLn(ln) && q >= 1.0
    ensures ln(q) >= 0.0
  {
    QuotientAtMost(1.0, q, 1.0);
    assert ln(q) >= 1.0 - 1.0 / q;
  }

  lemma LogMonotone(ln: real -> real, x: real, y: real)
    requires IsLog(ln) && 0.0 < x <= y
    ensures ln(x) <= ln(y)
  {
    var q := Ratio(x, y);
    LogAtLeastZero(ln, q);
    assert ln(q * x) == ln(q) + ln(x);
  }

  lemma {:induction false} ZerosFall(a: seq<u8>, b: seq<u8>)
    requires |a| == |b| && forall i :: 0 <= i < |a| ==> a[i] <= b[i]
    ensures Zeros(b) <= Zeros(a)
  {
    if a == [] {
    } else {
      ZerosFall(a[..|a| - 1], b[..|b| - 1]);
    }
  }

  /** Linear counting is used exactly when some register is empty and the raw value is at most 10240. */
  lemma LinearIff(regs: seq<u8>)
    requires |regs| == REGISTERS
    ensures !IsRaw(regs) <==>
            Zeros(regs) > 0 && 10240.0 * Sum(regs) >= 0.7213 / (1.0 + 1.079 / 4096.0) * 4096.0 * 4096.0
  {
    SumBounds(regs);
    var c, s := ALPHA * M * M, Sum(regs);
    if c <= 10240.0 * s { QuotientAtMost(c, s, 10240.0); } else { QuotientAbove(c, s, 10240.0); }
  }

  lemma QuotientAbove(c: real, s: real, b: real)
    requires s > 0.0 && c > b * s
    ensures c / s > b
  {
    assert c / s * s == c;
  }

  lemma LinearEstimate(regs: seq<u8>, ln: real -> real)
    requires |regs| == REGISTERS && !IsRaw(regs)
    ensures Zeros(regs) > 0 && EstimateOf(regs, ln) == SaturatingU64(4096.0 * ln(4096.0 / (Zeros(regs) as real)))
  {
    SumBounds(regs);
  }

  lemma FewerZerosRatio(u: real, v: real)
    requires 0.0 < v <= u
    ensures 0.0 < M / u <= M / v
  {
    assert M / u * u == M;
    ProductAtMost(v, u, M / u);
    QuotientAtLeast(M, v, M / u);
  }

  lemma LinearRises(ln: real -> real, y: nat, z: nat)
    requires IsLog(ln) && 0 < z <= y
    ensures M * ln(M / (y as real)) <= M * ln(M / (z as real))
  {
    FewerZerosRatio(y as real, z as real);
    LogMonotone(ln, M / (y as real), M / (z as real));
  }

  /** Within the linear range, too, the estimate never falls as registers grow. */
  lemma LinearMonotone(a: seq<u8>, b: seq<u8>, ln: real -> real)
    requires IsLog(ln) && |a| == |b| == REGISTERS && forall i :: 0 <= i < |a| ==> a[i] <= b[i]
    requires !IsRaw(a) && !IsRaw(b)
    ensures EstimateOf(a, ln) <= EstimateOf(b, ln)
  {
    ZerosFall(a, b);
    LinearEstimate(a, ln);
    LinearEstimate(b, ln);
    LinearRises(ln, Zeros(a), Zeros(b));
    RoundMonotone(M * ln(M / (Zeros(a) as real)), M * ln(M / (Zeros(b) as real)));
  }

  // ----- the switch between the two

  /** One empty register, and all others at `r`. */
  function AllButOne(r: u8): seq<u8> { Uniform(r, REGISTERS - 1) + [0] }

  lemma AllButOneSum(r: u8)
    requires r > 0
    ensures |AllButOne(r)| == REGISTERS && Zeros(AllButOne(r)) == 1
    ensures Sum(AllButOne(r)) == 4095.0 * Weight(r) + 1.0
  {
    assert AllButOne(r)[..REGISTERS - 1] == Uniform(r, REGISTERS - 1);
    UniformSum(r, REGISTERS - 1);
  }

  lemma LogOfRegisters(ln: real -> real)
    requires IsLog(ln)
    ensures ln(4096.0) >= 6.0
  {
    assert ln(2.0) >= 0.5;
    assert ln(2.0 * 2.0) == ln(2.0) + ln(2.0);
    assert ln(4.0 * 4.0) == ln(4.0) + ln(4.0);
    assert ln(4.0 * 16.0) == ln(4.0) + ln(16.0);
    assert ln(64.0 * 64.0) == ln(64.0) + ln(64.0);
  }

  lemma BeforeSwitch(ln: real -> real)
    requires IsLog(ln)
    ensures |AllButOne(1)| == REGISTERS && EstimateOf(AllButOne(1), ln) >= 24576
  {
    var regs := AllButOne(1);
    AllButOneSum(1);
    assert Sum(regs) == 2048.5;
    QuotientAtMost(ALPHA * M * M, 2048.5, 2.5 * M);
    assert !IsRaw(regs);
    LinearEstimate(regs, ln);
    LogOfRegisters(ln);
    assert M / (1 as real) == 4096.0;
    RoundAtLeast(M * ln(4096.0), 24576);
  }

  lemma AfterSwitch(ln: real -> real)
    ensures |AllButOne(2)| == REGISTERS && EstimateOf(AllButOne(2), ln) <= 12000
  {
    var regs := AllButOne(2);
    AllButOneSum(2);
    assert Weight(2) == 0.25;
    assert Sum(regs) == 1024.75;
    QuotientAtLeast(ALPHA * M * M, 1024.75, 11000.0);
    QuotientAtMost(ALPHA * M * M, 1024.75, 11999.0);
    assert IsRaw(regs);
    RawEstimate(regs, ln);
    RoundMonotone(Raw(1024.75), 11999.0);
  }

  /** Across the switch from linear counting to the raw formula the estimate can fall while registers grow. */
  lemma SwitchCanFall(ln: real -> real)
    requires IsLog(ln)
    ensures forall i :: 0 <= i < REGISTERS ==> AllButOne(1)[i] <= AllButOne(2)[i]
    ensures EstimateOf(AllButOne(2), ln) < EstimateOf(AllButOne(1), ln)
  {
    BeforeSwitch(ln);
    AfterSwitch(ln);
  }
}
