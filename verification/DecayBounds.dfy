/** The chain's interpolated decay against the SDK's exponential, at every epoch: the chain never has less. */
module DecayBounds {
  import opened Arithmetic
  import opened Decay

  // ---- (2h - r)^h * 2^r is at least (2h)^h for r <= h ----

  /** Log-concave in r, with the same value at 0 and at h. */
  function Bulge(h: nat, r: nat): nat
    requires r <= 2 * h
  {
    Pow(2 * h - r, h) * Pow2(r)
  }

  lemma BulgePositive(h: nat, r: nat)
    requires r < 2 * h
    ensures Bulge(h, r) >= 1
  {
    PowPositive(2 * h - r, h);
    MulOrdered(1, Pow(2 * h - r, h), Pow2(r));
  }

  lemma BulgeEnds(h: nat)
    ensures Bulge(h, 0) == Pow(2 * h, h) == Bulge(h, h)
  {
    PowOfProduct(h, 2, h);
    PowOfTwo(h);
  }

  lemma {:induction false} PowOfTwo(e: nat)
    ensures Pow(2, e) == Pow2(e)
  {
    if e > 0 {
      PowOfTwo(e - 1);
    }
  }

  lemma Neighbours(m: nat)
    requires m >= 1
    ensures (m + 1) * (m - 1) <= m * m
  {
    assert (m + 1) * (m - 1) == m * m - 1;
  }

  lemma PowersOfNeighbours(m: nat, h: nat)
    requires m >= 1
    ensures Pow(m + 1, h) * Pow(m - 1, h) <= Pow(m, h) * Pow(m, h)
  {
    PowOfProduct(m + 1, m - 1, h);
    PowOfProduct(m, m, h);
    Neighbours(m);
    if h >= 1 {
      PowOrdered((m + 1) * (m - 1), m * m, h);
    }
  }

  lemma BulgeIsLogConcave(h: nat, r: nat)
    requires r + 2 <= 2 * h
    ensures Bulge(h, r) * Bulge(h, r + 2) <= Bulge(h, r + 1) * Bulge(h, r + 1)
  {
    var m := 2 * h - (r + 1);
    var x, y, z := Pow(m + 1, h), Pow(m, h), Pow(m - 1, h);
    var p := Pow2(r);
    PowersOfNeighbours(m, h);
    MulInterchange(x, p, z, 4 * p);
    MulInterchange(y, 2 * p, y, 2 * p);
    assert p * (4 * p) == (2 * p) * (2 * p);
    MulOrdered(x * z, y * y, (2 * p) * (2 * p));
  }

  /** In a log-concave sequence a step down is followed by a step down. */
  lemma StaysDown(f: nat, g: nat, k: nat)
    requires f >= 1 && g >= 1 && f * k <= g * g && g <= f
    ensures k <= g
  {
    assert g * k == k * g && f * k == k * f;
    if k > g {
      MulOrdered(g, f, k);
      MulOrdered(g + 1, k, g);
    }
  }

  lemma {:induction false} FallsToTheEnd(h: nat, r: nat, end: nat)
    requires r < end <= h && Bulge(h, r + 1) <= Bulge(h, r)
    ensures Bulge(h, end) <= Bulge(h, r)
    decreases end - r
  {
    if r + 1 < end {
      BulgeIsLogConcave(h, r);
      BulgePositive(h, r);
      BulgePositive(h, r + 1);
      StaysDown(Bulge(h, r), Bulge(h, r + 1), Bulge(h, r + 2));
      FallsToTheEnd(h, r + 1, end);
    }
  }

  /** It rises from its value at 0 or falls to its equal value at h, so it is nowhere below that value. */
  lemma {:induction false} BulgeAtLeast(h: nat, r: nat)
    requires r <= h
    ensures Pow(2 * h, h) <= Bulge(h, r)
    decreases r
  {
    BulgeEnds(h);
    if 0 < r < h {
      if Bulge(h, r + 1) <= Bulge(h, r) {
        FallsToTheEnd(h, r, h);
      } else {
        BulgeAtLeast(h, r - 1);
        if Bulge(h, r) < Bulge(h, r - 1) {
          FallsOnce(h, r - 1);
        }
      }
    }
  }

  lemma FallsOnce(h: nat, r: nat)
    requires r + 2 <= h && Bulge(h, r + 1) <= Bulge(h, r)
    ensures Bulge(h, r + 2) <= Bulge(h, r + 1)
  {
    BulgeIsLogConcave(h, r);
    BulgePositive(h, r);
    BulgePositive(h, r + 1);
    StaysDown(Bulge(h, r), Bulge(h, r + 1), Bulge(h, r + 2));
  }

  // ---- What the SDK's value satisfies ----

  lemma SplitEpochs(h: nat, q: nat, r: nat)
    ensures Pow2(q * h + r) == Pow(Pow2(q), h) * Pow2(r)
  {
    PowOfPow2(q, h);
    Pow2Adds(q * h, r);
  }

  lemma Regrouped(x: nat, y: nat, p: nat, e: nat)
    requires x * (y * p) <= e
    ensures (x * y) * p <= e
  {
    assert x * (y * p) == (x * y) * p;
  }

  lemma PowsRegrouped(n: nat, s: nat, h: nat, p: nat, e: nat)
    requires Pow(n, h) * (Pow(s, h) * p) <= e
    ensures Pow(n * s, h) * p <= e
  {
    Regrouped(Pow(n, h), Pow(s, h), p, e);
    PowOfProduct(n, s, h);
  }

  /** The exponential at q whole half-lives and r more epochs, with the half-lives moved to the left. */
  lemma FitsScaled(energy: nat, h: nat, q: nat, r: nat, n: nat)
    requires Fits(energy, h, q * h + r, n)
    ensures Pow(n * Pow2(q), h) * Pow2(r) <= Pow(energy, h)
  {
    SplitEpochs(h, q, r);
    PowsRegrouped(n, Pow2(q), h, Pow2(r), Pow(energy, h));
  }

  lemma ProductAtMost(a: nat, b: nat, h: nat, x: int)
    requires Pow(a, h) * Pow(b, h) <= x
    ensures Pow(a * b, h) <= x
  {
    PowOfProduct(a, b, h);
  }

  lemma ProductAtLeast(c: nat, d: nat, h: nat, x: int)
    requires x <= Pow(c, h) * Pow(d, h)
    ensures x <= Pow(c * d, h)
  {
    PowOfProduct(c, d, h);
  }

  lemma RootOrdered(ab: nat, c: nat, d: nat, h: nat)
    requires h >= 1 && Pow(ab, h) <= Pow(c, h) * Pow(d, h)
    ensures ab <= c * d
  {
    ProductAtLeast(c, d, h, Pow(ab, h));
    PowOrdered(ab, c * d, h);
  }

  lemma PowersCancel(m: nat, energy: nat, k: nat, w: nat, h: nat, p: nat)
    requires Pow(m, h) * p <= Pow(energy, h) && Pow(k, h) <= Pow(w, h) * p
    ensures Pow(m * k, h) <= Pow(energy, h) * Pow(w, h)
  {
    CancelFactor(Pow(m, h), Pow(energy, h), Pow(k, h), Pow(w, h), p);
    ProductAtMost(m, k, h, Pow(energy, h) * Pow(w, h));
  }

  lemma PowersToLinear(m: nat, energy: nat, k: nat, w: nat, h: nat, p: nat)
    requires h >= 1 && Pow(m, h) * p <= Pow(energy, h) && Pow(k, h) <= Pow(w, h) * p
    ensures m * k <= energy * w
  {
    PowersCancel(m, energy, k, w, h, p);
    RootOrdered(m * k, energy, w, h);
  }

  /** A number within the exponential is within the linear interpolation. */
  lemma ExponentialWithinLinear(energy: nat, h: nat, r: nat, m: nat)
    requires h >= 1 && r < h && Pow(m, h) * Pow2(r) <= Pow(energy, h)
    ensures m * (2 * h) <= energy * (2 * h - r)
  {
    BulgeAtLeast(h, r);
    PowersToLinear(m, energy, 2 * h, 2 * h - r, h, Pow2(r));
  }

  lemma CancelFactor(a: nat, b: nat, c: nat, d: nat, p: nat)
    requires a * p <= b && c <= d * p
    ensures a * c <= b * d
  {
    calc {
      a * c;
      c * a;
    <=  { MulOrdered(c, d * p, a); }
      (d * p) * a;
      { MulSwapFirst(a, d, p); }
      d * (a * p);
      (a * p) * d;
    <=  { MulOrdered(a * p, b, d); }
      b * d;
    }
  }

  /** The rounding of the shift and of the interpolation together cost less than one unit. */
  lemma RoundedInterpolation(energy: nat, h: nat, r: nat, p: nat, n: nat)
    requires h >= 1 && r < h && p >= 1 && n * p * (2 * h) <= energy * (2 * h - r)
    ensures n <= Interpolated(energy / p, r, h)
  {
    var a, w := energy / p, 2 * h - r;
    DivFits(energy, p);
    NextMultiple(a, p);
    assert n * p * (2 * h) < (a + 1) * p * w by {
      MulOrdered(energy + 1, (a + 1) * p, w);
      NextMultiple(energy, w);
    }
    CancelStrict(n * (2 * h), (a + 1) * w, p, n * p * (2 * h), (a + 1) * p * w);
    BelowCeiling(a, h, r, n);
  }

  lemma CancelStrict(x: int, y: int, p: nat, xp: int, yp: int)
    requires p >= 1 && xp == x * p && yp == y * p && xp < yp
    ensures x < y
  {
    if y <= x {
      MulOrdered(y, x, p);
    }
  }

  lemma BelowCeiling(a: nat, h: nat, r: nat, n: nat)
    requires h >= 1 && r < h && n * (2 * h) < (a + 1) * (2 * h - r)
    ensures n <= Interpolated(a, r, h)
  {
    var f := a * r / (2 * h);
    DivFits(a * r, 2 * h);
    assert (a + 1) * (2 * h - r) == a * (2 * h) - a * r + 2 * h - r;
    assert (a - f + 1) * (2 * h) == a * (2 * h) - f * (2 * h) + 2 * h;
    if n > a - f {
      MulOrdered(a - f + 1, n, 2 * h);
    }
  }

  // ---- The law ----

  lemma GoneByThen(energy: U64, halfLife: U64, t: U64)
    requires halfLife >= 1 && energy >= 1 && t / halfLife >= 64
    ensures CalculateDecay(energy, halfLife, t) == 0
  {
    BitsOfU64(energy);
    PowBetween(energy, halfLife);
    DivLess(t, halfLife, BitLength(energy));
    Pow2Ordered(Lifetime(energy, halfLife), t);
    SdkGoneIff(energy, halfLife, t);
  }

  lemma SdkWithinInterpolation(energy: nat, h: nat, q: nat, r: nat)
    requires energy >= 1 && h >= 1 && r < h
    ensures CalculateDecay(energy, h, q * h + r) <= Interpolated(Halved(energy, q), r, h)
  {
    var n := CalculateDecay(energy, h, q * h + r);
    CalculateDecayIsFloor(energy, h, q * h + r, n);
    FitsScaled(energy, h, q, r, n);
    ExponentialWithinLinear(energy, h, r, n * Pow2(q));
    RoundedInterpolation(energy, h, r, Pow2(q), n);
  }

  /** At every epoch the SDK shows at most the energy the chain has. */
  lemma SdkNeverAboveChain(energy: U64, halfLife: U64, t: U64)
    ensures CalculateDecay(energy, halfLife, t) <= EnergyAtEpoch(energy, halfLife, t)
  {
    if halfLife >= 1 && energy >= 1 {
      if t / halfLife >= 64 {
        GoneByThen(energy, halfLife, t);
      } else {
        assert t == (t / halfLife) * halfLife + t % halfLife;
        SdkWithinInterpolation(energy, halfLife, t / halfLife, t % halfLife);
      }
    }
  }
}
