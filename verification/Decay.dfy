/** Energy decay: the chain's integer decay (crates/evaporchain-types/src/lib.rs), the wallet's search for a
    threshold crossing (wallet/src/assets.rs) and the SDK's closed forms (wallet-sdk/src/utils.ts). */
module Decay {
  import opened Wrappers
  import opened Arithmetic

  const U64_MAX := 0xFFFF_FFFF_FFFF_FFFF

  type U64 = x: int | 0 <= x <= U64_MAX

  // ---- The chain's decay function ----

  /** Whole half-lives shift right; the rest is interpolated linearly. The u128 product of the source
      cannot overflow, and its saturating subtraction never saturates. */
  function EnergyAtEpoch(initial: U64, halfLife: U64, elapsed: U64): (r: U64)
    ensures r <= initial
  {
    if halfLife == 0 || elapsed / halfLife >= 64 then 0
    else Interpolated(Halved(initial, elapsed / halfLife), elapsed % halfLife, halfLife)
  }

  function Halved(initial: nat, halvings: nat): (r: nat)
    ensures r <= initial
  {
    DivAtMost(initial, Pow2(halvings));
    initial / Pow2(halvings)
  }

  /** At least half the energy is left, rounded up. */
  function Interpolated(after: nat, rest: nat, halfLife: nat): (r: nat)
    requires rest < halfLife
    ensures after - after / 2 <= r <= after
  {
    FractionBound(after, rest, halfLife);
    after - after * rest / (2 * halfLife)
  }

  lemma FractionBound(after: nat, rest: nat, halfLife: nat)
    requires rest < halfLife
    ensures 0 <= after * rest / (2 * halfLife) <= after / 2
  {
    MulOrdered(rest, halfLife, after);
    MulOrdered(0, rest, after);
    DivOrdered(after * rest, after * halfLife, 2 * halfLife);
    DivOrdered(0, after * rest, 2 * halfLife);
    DivByDouble(after, halfLife);
  }

  lemma InterpolationFalls(after: nat, rest: nat, halfLife: nat)
    requires rest + 1 < halfLife
    ensures Interpolated(after, rest + 1, halfLife) <= Interpolated(after, rest, halfLife)
  {
    MulOrdered(rest, rest + 1, after);
    DivOrdered(after * rest, after * (rest + 1), 2 * halfLife);
  }

  lemma HalvedOnceMore(initial: nat, halvings: nat)
    ensures Halved(initial, halvings + 1) == Halved(initial, halvings) / 2
  {
    DivTwice(initial, Pow2(halvings));
  }

  lemma EnergyFallsOneEpoch(initial: U64, halfLife: U64, t: U64)
    requires t < U64_MAX
    ensures EnergyAtEpoch(initial, halfLife, t + 1) <= EnergyAtEpoch(initial, halfLife, t)
  {
    if halfLife > 0 && (t + 1) / halfLife < 64 {
      DivNext(t, halfLife);
      if t % halfLife + 1 < halfLife {
        InterpolationFalls(Halved(initial, t / halfLife), t % halfLife, halfLife);
      } else {
        HalvedOnceMore(initial, t / halfLife);
      }
    }
  }

  /** Energy never rises. */
  lemma {:induction false} EnergyNonIncreasing(initial: U64, halfLife: U64, t: U64, t': U64)
    requires t <= t'
    ensures EnergyAtEpoch(initial, halfLife, t') <= EnergyAtEpoch(initial, halfLife, t)
    decreases t' - t
  {
    if t < t' {
      EnergyNonIncreasing(initial, halfLife, t, t' - 1);
      EnergyFallsOneEpoch(initial, halfLife, t' - 1);
    }
  }

  /** Between two half-lives the loss is the linear share of half the energy, rounded down: with `a` the energy
      after the whole half-lives and `r` the epochs since, a - energy is the floor of a * r / (2 * halfLife). */
  lemma EnergyBetween(initial: U64, halfLife: U64, t: U64)
    requires halfLife > 0 && t / halfLife < 64
    ensures var a, r, n := initial / Pow2(t / halfLife), t % halfLife, EnergyAtEpoch(initial, halfLife, t);
            (a - n) * (2 * halfLife) <= a * r < (a - n + 1) * (2 * halfLife)
  {
    var a, r := initial / Pow2(t / halfLife), t % halfLife;
    DivFits(a * r, 2 * halfLife);
    NextMultiple(a * r / (2 * halfLife), 2 * halfLife);
  }

  /** `predict_energy`: its guards add nothing, the prediction is what the chain computes. */
  function PredictEnergy(current: U64, halfLife: U64, forward: U64): (r: U64)
    ensures r == EnergyAtEpoch(current, halfLife, forward)
  {
    if halfLife == 0 || current == 0 then 0 else EnergyAtEpoch(current, halfLife, forward)
  }

  /** Energy is gone exactly from the half-life on that shifts out the last bit. */
  lemma GoneIff(initial: U64, halfLife: U64, t: U64)
    requires halfLife > 0
    ensures EnergyAtEpoch(initial, halfLife, t) == 0 <==> Lifetime(initial, halfLife) <= t
  {
    var q := t / halfLife;
    DivLess(t, halfLife, BitLength(initial));
    BitLengthIsLeast(initial, q);
    BitsOfU64(initial);
    ShiftedOut(initial, q);
  }

  lemma ShiftedOut(initial: nat, halvings: nat)
    ensures Halved(initial, halvings) == 0 <==> initial < Pow2(halvings)
  {
    DivLess(initial, Pow2(halvings), 1);
    DivOrdered(0, initial, Pow2(halvings));
  }

  lemma Pow2Of64()
    ensures Pow2(64) == 0x1_0000_0000_0000_0000
  {
    assert Pow2(4) == 16;
    assert Pow2(8) == 0x100 by { Pow2Adds(4, 4); }
    assert Pow2(16) == 0x1_0000 by { Pow2Adds(8, 8); }
    assert Pow2(32) == 0x1_0000_0000 by { Pow2Adds(16, 16); }
    Pow2Adds(32, 32);
  }

  // ---- The wallet's search ----

  function SaturatingMul(x: U64, y: U64): U64 {
    if x * y > U64_MAX then U64_MAX else x * y
  }

  /** The first epoch, among those a u64 can hold, at which the energy is at or below the threshold. */
  ghost predicate IsCrossing(energy: U64, halfLife: U64, threshold: U64, t: U64) {
    && EnergyAtEpoch(energy, halfLife, t) <= threshold
    && forall t': U64 :: t' < t ==> EnergyAtEpoch(energy, halfLife, t') > threshold
  }

  /** Binary search between epoch 0 and 64 half-lives. */
  method EpochsUntilThreshold(energy: U64, halfLife: U64, threshold: U64) returns (r: Option<U64>)
    ensures r.Some? ==> IsCrossing(energy, halfLife, threshold, r.value) && halfLife > 0 && energy > threshold
    ensures r.None? ==>
              || halfLife == 0
              || energy <= threshold
              || forall t: U64 :: EnergyAtEpoch(energy, halfLife, t) > threshold
    ensures halfLife * 64 <= U64_MAX ==> (r.None? <==> halfLife == 0 || energy <= threshold)
  {
    if halfLife > 0 && halfLife * 64 <= U64_MAX {
      GoneAfter64(energy, halfLife);
    }
    if halfLife == 0 || energy <= threshold {
      return None;
    }
    var lo: U64, hi: U64 := 0, SaturatingMul(halfLife, 64);
    if EnergyAtEpoch(energy, halfLife, hi) > threshold {
      StillAboveForever(energy, halfLife, threshold);
      return None;
    }
    StartsFull(energy, halfLife);
    while lo + 1 < hi
      invariant lo < hi
      invariant EnergyAtEpoch(energy, halfLife, lo) > threshold
      invariant EnergyAtEpoch(energy, halfLife, hi) <= threshold
      decreases hi - lo
    {
      var mid: U64 := lo + (hi - lo) / 2;
      if EnergyAtEpoch(energy, halfLife, mid) > threshold {
        lo := mid;
      } else {
        hi := mid;
      }
    }
    forall t': U64 | t' < hi
      ensures EnergyAtEpoch(energy, halfLife, t') > threshold
    {
      EnergyNonIncreasing(energy, halfLife, t', lo);
    }
    return Some(hi);
  }

  lemma StartsFull(energy: U64, halfLife: U64)
    requires halfLife > 0
    ensures EnergyAtEpoch(energy, halfLife, 0) == energy
  {
    assert 0 / halfLife == 0 && 0 % halfLife == 0 && energy * 0 == 0 && 0 / (2 * halfLife) == 0;
    assert Halved(energy, 0) == energy;
  }

  lemma BitsOfU64(energy: U64)
    ensures BitLength(energy) <= 64
  {
    Pow2Of64();
    BitLengthIsLeast(energy, 64);
  }

  /** 64 half-lives always suffice; the search can only miss when that epoch does not fit a u64. */
  lemma GoneAfter64(energy: U64, halfLife: U64)
    requires halfLife > 0 && halfLife * 64 <= U64_MAX
    ensures EnergyAtEpoch(energy, halfLife, halfLife * 64) == 0
  {
    BitsOfU64(energy);
    GoneIff(energy, halfLife, halfLife * 64);
    MulOrdered(BitLength(energy), 64, halfLife);
  }

  lemma StillAboveForever(energy: U64, halfLife: U64, threshold: U64)
    requires halfLife > 0 && EnergyAtEpoch(energy, halfLife, SaturatingMul(halfLife, 64)) > threshold
    ensures forall t: U64 :: EnergyAtEpoch(energy, halfLife, t) > threshold
  {
    if halfLife * 64 <= U64_MAX {
      GoneAfter64(energy, halfLife);
    }
    forall t: U64
      ensures EnergyAtEpoch(energy, halfLife, t) > threshold
    {
      EnergyNonIncreasing(energy, halfLife, t, U64_MAX);
    }
  }

  /** How long the chain's energy lasts: one half-life per bit. */
  function Lifetime(energy: nat, halfLife: nat): nat {
    BitLength(energy) * halfLife
  }

  lemma CrossingIsLifetime(energy: U64, halfLife: U64, t: U64)
    requires halfLife > 0 && IsCrossing(energy, halfLife, 0, t)
    ensures t == Lifetime(energy, halfLife)
  {
    var life := Lifetime(energy, halfLife);
    GoneIff(energy, halfLife, t);
    if life < t {
      GoneIff(energy, halfLife, life);
    }
  }

  lemma NeverGone(energy: U64, halfLife: U64)
    requires halfLife > 0 && forall t: U64 :: EnergyAtEpoch(energy, halfLife, t) > 0
    ensures Lifetime(energy, halfLife) > U64_MAX
  {
    GoneIff(energy, halfLife, U64_MAX);
  }

  /** The crossing to zero has a closed form. */
  method EpochsUntilZero(energy: U64, halfLife: U64) returns (r: Option<U64>)
    ensures r == if halfLife == 0 || energy == 0 || Lifetime(energy, halfLife) > U64_MAX then None
                 else Some(Lifetime(energy, halfLife))
  {
    r := EpochsUntilThreshold(energy, halfLife, 0);
    if r.Some? {
      CrossingIsLifetime(energy, halfLife, r.value);
    } else if halfLife > 0 && energy > 0 {
      NeverGone(energy, halfLife);
    }
  }

  // ---- The SDK's closed forms, in exact arithmetic ----

  /** n <= energy * 2^(-epochs / halfLife), raised to the power halfLife. */
  predicate Fits(energy: nat, halfLife: nat, epochs: nat, n: nat) {
    Pow(n, halfLife) * Pow2(epochs) <= Pow(energy, halfLife)
  }

  /** `calculateDecay`: the floor of energy * 2^(-epochs / halfLife). */
  function CalculateDecay(energy: int, halfLife: int, epochs: nat): nat {
    if halfLife <= 0 || energy <= 0 then 0 else LargestFit(energy, halfLife, epochs, energy)
  }

  function LargestFit(energy: nat, halfLife: nat, epochs: nat, from: nat): nat {
    if from == 0 || Fits(energy, halfLife, epochs, from) then from else LargestFit(energy, halfLife, epochs, from - 1)
  }

  /** `estimateEvaporation`: the ceiling of halfLife * log2(energy). */
  function EstimateEvaporation(energy: int, halfLife: int): nat {
    if halfLife <= 0 || energy <= 1 then 0 else CeilLog2(Pow(energy, halfLife))
  }

  lemma FitsDownward(energy: nat, halfLife: nat, epochs: nat, n: nat, m: nat)
    requires halfLife >= 1 && m <= n && Fits(energy, halfLife, epochs, n)
    ensures Fits(energy, halfLife, epochs, m)
  {
    PowOrdered(m, n, halfLife);
    MulOrdered(Pow(m, halfLife), Pow(n, halfLife), Pow2(epochs));
  }

  lemma {:induction false} LargestFitExact(energy: nat, halfLife: nat, epochs: nat, from: nat, n: nat)
    requires halfLife >= 1 && n <= from
    ensures Fits(energy, halfLife, epochs, n) <==> n <= LargestFit(energy, halfLife, epochs, from)
    decreases from
  {
    if from == 0 {
      assert Pow(0, halfLife) == 0 * Pow(0, halfLife - 1) == 0;
    } else if Fits(energy, halfLife, epochs, from) {
      FitsDownward(energy, halfLife, epochs, from, n);
    } else {
      if n < from {
        LargestFitExact(energy, halfLife, epochs, from - 1, n);
      }
      LargestFitAtMost(energy, halfLife, epochs, from - 1);
    }
  }

  lemma {:induction false} LargestFitAtMost(energy: nat, halfLife: nat, epochs: nat, from: nat)
    ensures LargestFit(energy, halfLife, epochs, from) <= from
  {
    if from > 0 && !Fits(energy, halfLife, epochs, from) {
      LargestFitAtMost(energy, halfLife, epochs, from - 1);
    }
  }

  /** `calculateDecay` is the floor: exactly the numbers up to it satisfy n^h * 2^t <= E^h. */
  lemma CalculateDecayIsFloor(energy: nat, halfLife: nat, epochs: nat, n: nat)
    requires energy >= 1 && halfLife >= 1
    ensures Fits(energy, halfLife, epochs, n) <==> n <= CalculateDecay(energy, halfLife, epochs)
  {
    if n <= energy {
      LargestFitExact(energy, halfLife, epochs, energy, n);
    } else {
      LargestFitAtMost(energy, halfLife, epochs, energy);
      PowGrows(energy, n, halfLife);
      MulOrdered(1, Pow2(epochs), Pow(n, halfLife));
    }
  }

  /** Without energy or half-life both SDK forms give 0, and so does the estimate for a single unit. */
  lemma NothingToDecay(energy: int, halfLife: int, epochs: nat)
    ensures halfLife <= 0 || energy <= 0 ==> CalculateDecay(energy, halfLife, epochs) == 0
    ensures halfLife <= 0 || energy <= 1 ==> EstimateEvaporation(energy, halfLife) == 0
  {
  }

  lemma SdkGoneIff(energy: nat, halfLife: nat, epochs: nat)
    requires energy >= 1 && halfLife >= 1
    ensures CalculateDecay(energy, halfLife, epochs) == 0 <==> Pow(energy, halfLife) < Pow2(epochs)
  {
    CalculateDecayIsFloor(energy, halfLife, epochs, 1);
    PowOfOne(halfLife);
  }

  lemma {:induction false} PowOfOne(e: nat)
    ensures Pow(1, e) == 1
  {
    if e > 0 {
      PowOfOne(e - 1);
    }
  }

  lemma EstimateIsCeilLog(energy: nat, halfLife: nat)
    requires energy >= 1 && halfLife >= 1
    ensures EstimateEvaporation(energy, halfLife) == CeilLog2(Pow(energy, halfLife))
  {
    PowOfOne(halfLife);
  }

  /** The estimate against the SDK's own decay: it is the first epoch without energy, except that it is one
      too small exactly when 2^estimate = energy^halfLife. */
  lemma EstimateIsFirstGoneIff(energy: nat, halfLife: nat, t: nat)
    requires energy >= 1 && halfLife >= 1
    ensures var est := EstimateEvaporation(energy, halfLife);
            var first := if Pow2(est) == Pow(energy, halfLife) then est + 1 else est;
            CalculateDecay(energy, halfLife, t) == 0 <==> first <= t
  {
    var est := EstimateEvaporation(energy, halfLife);
    EstimateIsCeilLog(energy, halfLife);
    PowPositive(energy, halfLife);
    SdkGoneIff(energy, halfLife, t);
    CeilLog2IsLeast(Pow(energy, halfLife), t);
    Pow2Ordered(est, t);
    Pow2Ordered(t, est);
  }

  /** A number between 2^(life - gap) and 2^life, and its logarithm rounded up. */
  lemma CeilLogGap(x: nat, life: nat, gap: nat)
    requires 1 <= gap <= life && Pow2(life - gap) <= x < Pow2(life)
    ensures CeilLog2(x) <= life <= CeilLog2(x) + gap
    ensures life == CeilLog2(x) + gap <==> x == Pow2(life - gap)
    ensures life == CeilLog2(x) <==> Pow2(life) < 2 * x
  {
    CeilLog2IsLeast(x, life);
    CeilLog2IsLeast(x, life - 1);
    CeilLog2IsLeast(x, life - gap);
    Pow2Ordered(life - gap, CeilLog2(x));
  }

  lemma PowBetween(energy: nat, halfLife: nat)
    requires energy >= 1 && halfLife >= 1
    ensures var life := Lifetime(energy, halfLife);
            && halfLife <= life
            && Pow2(life - halfLife) <= Pow(energy, halfLife) < Pow2(life)
            && (Pow(energy, halfLife) == Pow2(life - halfLife) <==> energy == Pow2(BitLength(energy) - 1))
  {
    var b := BitLength(energy);
    NextMultiple(b - 1, halfLife);
    MulOrdered(0, b - 1, halfLife);
    PowOfPow2(b, halfLife);
    PowOfPow2(b - 1, halfLife);
    PowGrows(energy, Pow2(b), halfLife);
    PowOrdered(Pow2(b - 1), energy, halfLife);
  }

  /** The estimate against the chain: the chain's energy lasts `Lifetime`, which is at least the estimate and
      at most one half-life more. The gap is a whole half-life exactly for powers of two, and there is none
      exactly when energy^halfLife exceeds half of 2^Lifetime. */
  lemma EstimateAgainstChain(energy: nat, halfLife: nat)
    requires energy >= 1 && halfLife >= 1
    ensures var est := EstimateEvaporation(energy, halfLife);
            var life := Lifetime(energy, halfLife);
            && est <= life <= est + halfLife
            && (life == est + halfLife <==> energy == Pow2(BitLength(energy) - 1))
            && (life == est <==> Pow2(life) < 2 * Pow(energy, halfLife))
  {
    EstimateIsCeilLog(energy, halfLife);
    PowBetween(energy, halfLife);
    CeilLogGap(Pow(energy, halfLife), Lifetime(energy, halfLife), halfLife);
  }

  /** After whole half-lives the chain and the SDK agree exactly. */
  lemma AgreeAtHalfLives(energy: U64, halfLife: U64, k: nat)
    requires energy >= 1 && halfLife >= 1 && k < 64 && k * halfLife <= U64_MAX
    ensures EnergyAtEpoch(energy, halfLife, k * halfLife) == Halved(energy, k)
    ensures CalculateDecay(energy, halfLife, k * halfLife) == Halved(energy, k)
  {
    ChainAtHalfLives(energy, halfLife, k, k * halfLife);
    SdkAtHalfLives(energy, halfLife, k);
  }

  lemma ChainAtHalfLives(energy: U64, halfLife: U64, k: nat, t: U64)
    requires halfLife >= 1 && k < 64 && t == k * halfLife
    ensures EnergyAtEpoch(energy, halfLife, t) == Halved(energy, k)
  {
    DivBetween(t, halfLife, k);
    assert t == halfLife * (t / halfLife) + t % halfLife;
    InterpolatedAtZero(Halved(energy, k), halfLife);
  }

  lemma SdkAtHalfLives(energy: nat, halfLife: nat, k: nat)
    requires energy >= 1 && halfLife >= 1
    ensures CalculateDecay(energy, halfLife, k * halfLife) == Halved(energy, k)
  {
    var n := CalculateDecay(energy, halfLife, k * halfLife);
    FitsAtHalfLives(energy, halfLife, k, n);
    FitsAtHalfLives(energy, halfLife, k, n + 1);
    CalculateDecayIsFloor(energy, halfLife, k * halfLife, n);
    CalculateDecayIsFloor(energy, halfLife, k * halfLife, n + 1);
    NextMultiple(n, Pow2(k));
    DivBetween(energy, Pow2(k), n);
  }

  lemma InterpolatedAtZero(after: nat, halfLife: nat)
    requires halfLife > 0
    ensures Interpolated(after, 0, halfLife) == after
  {
    assert after * 0 == 0;
    DivBetween(0, 2 * halfLife, 0);
  }

  lemma FitsAtHalfLives(energy: nat, halfLife: nat, k: nat, n: nat)
    requires halfLife >= 1
    ensures Fits(energy, halfLife, k * halfLife, n) <==> n * Pow2(k) <= energy
  {
    PowOfPow2(k, halfLife);
    PowOfProduct(n, Pow2(k), halfLife);
    PowOrdered(n * Pow2(k), energy, halfLife);
  }
}
