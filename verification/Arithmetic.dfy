/** Facts about division by a variable, natural powers and the bit length of a number. */
module Arithmetic {
  function Max(x: nat, y: nat): nat {
    if x < y then y else x
  }

  lemma MulOrdered(x: int, y: int, d: int)
    requires x <= y && d >= 0
    ensures x * d <= y * d
  {
    assert (y - x) * d >= 0;
  }

  lemma NextMultiple(q: int, d: int)
    ensures (q + 1) * d == q * d + d
  {
  }

  /** `x / d` is the greatest multiplier that stays within `x`. */
  lemma DivBetween(x: int, d: int, q: int)
    requires d > 0 && q * d <= x < q * d + d
    ensures x / d == q
  {
    var q' := x / d;
    DivFits(x, d);
    if q' < q {
      MulOrdered(q' + 1, q, d);
      NextMultiple(q', d);
    } else if q < q' {
      MulOrdered(q + 1, q', d);
      NextMultiple(q, d);
    }
  }

  lemma DivFits(x: int, d: int)
    requires d > 0
    ensures (x / d) * d <= x < (x / d) * d + d
  {
    assert x == d * (x / d) + x % d;
  }

  lemma DivOrdered(x: int, y: int, d: int)
    requires x <= y && d > 0
    ensures x / d <= y / d
  {
    DivFits(x, d);
    DivFits(y, d);
    if y / d < x / d {
      MulOrdered(y / d + 1, x / d, d);
      NextMultiple(y / d, d);
    }
  }

  lemma DivLess(x: int, d: int, q: int)
    requires d > 0
    ensures x / d < q <==> x < q * d
  {
    DivFits(x, d);
    if x / d < q {
      MulOrdered(x / d + 1, q, d);
      NextMultiple(x / d, d);
    } else {
      MulOrdered(q, x / d, d);
    }
  }

  lemma DivAtMost(x: nat, d: nat)
    requires d > 0
    ensures 0 <= x / d <= x
  {
    DivOrdered(0, x, d);
    DivFits(x, d);
    MulOrdered(1, d, x / d);
  }

  lemma DivByDouble(x: nat, d: int)
    requires d > 0
    ensures x * d / (2 * d) == x / 2
  {
    var q := x / 2;
    assert q * (2 * d) == (2 * q) * d;
    MulOrdered(2 * q, x, d);
    MulOrdered(x, 2 * q + 1, d);
    NextMultiple(2 * q, d);
    DivBetween(x * d, 2 * d, q);
  }

  lemma DivTwice(x: nat, d: nat)
    requires d > 0
    ensures x / (2 * d) == x / d / 2
  {
    var q := x / d / 2;
    DivFits(x, d);
    assert q * (2 * d) == (2 * q) * d;
    MulOrdered(2 * q, x / d, d);
    MulOrdered(x / d, 2 * q + 1, d);
    NextMultiple(2 * q, d);
    DivBetween(x, 2 * d, q);
  }

  /** Quotient and remainder of the next number. */
  lemma DivNext(t: nat, h: nat)
    requires h > 0
    ensures if t % h + 1 < h then (t + 1) / h == t / h && (t + 1) % h == t % h + 1
            else (t + 1) / h == t / h + 1 && (t + 1) % h == 0
  {
    var q, r := t / h, t % h;
    assert t == h * q + r && h * q == q * h;
    assert t + 1 == h * ((t + 1) / h) + (t + 1) % h;
    if r + 1 < h {
      DivBetween(t + 1, h, q);
    } else {
      NextMultiple(q, h);
      DivBetween(t + 1, h, q + 1);
    }
  }

  function Pow(b: nat, e: nat): nat {
    if e == 0 then 1 else b * Pow(b, e - 1)
  }

  function Pow2(e: nat): (r: nat)
    ensures r >= 1
  {
    if e == 0 then 1 else 2 * Pow2(e - 1)
  }

  lemma {:induction false} Pow2Adds(e: nat, f: nat)
    ensures Pow2(e + f) == Pow2(e) * Pow2(f)
  {
    if e != 0 {
      Pow2Adds(e - 1, f);
      assert Pow2(e + f) == 2 * Pow2(e - 1 + f) == 2 * (Pow2(e - 1) * Pow2(f));
      assert 2 * (Pow2(e - 1) * Pow2(f)) == (2 * Pow2(e - 1)) * Pow2(f);
    }
  }

  lemma {:induction false} Pow2Grows(e: nat, f: nat)
    requires e < f
    ensures 2 * Pow2(e) <= Pow2(f)
    decreases f
  {
    if e + 1 < f {
      Pow2Grows(e, f - 1);
    }
  }

  lemma Pow2Ordered(e: nat, f: nat)
    ensures Pow2(e) <= Pow2(f) <==> e <= f
    ensures Pow2(e) < Pow2(f) <==> e < f
  {
    if e < f {
      Pow2Grows(e, f);
    } else if f < e {
      Pow2Grows(f, e);
    }
  }

  lemma {:induction false} PowPositive(b: nat, e: nat)
    requires b >= 1
    ensures Pow(b, e) >= 1
  {
    if e != 0 {
      PowPositive(b, e - 1);
    }
  }

  lemma {:induction false} PowGrows(b: nat, c: nat, e: nat)
    requires b < c && e >= 1
    ensures Pow(b, e) < Pow(c, e)
  {
    if e == 1 {
      assert Pow(b, 1) == b * Pow(b, 0) == b && Pow(c, 1) == c * Pow(c, 0) == c;
    } else {
      PowGrows(b, c, e - 1);
      var x, y := Pow(b, e - 1), Pow(c, e - 1);
      assert b * x <= b * y && b * y < c * y;
    }
  }

  lemma PowOrdered(b: nat, c: nat, e: nat)
    requires e >= 1
    ensures Pow(b, e) <= Pow(c, e) <==> b <= c
    ensures Pow(b, e) == Pow(c, e) <==> b == c
  {
    if b < c {
      PowGrows(b, c, e);
    } else if c < b {
      PowGrows(c, b, e);
    }
  }

  lemma MulSwapFirst(c: int, x: int, y: int)
    ensures c * (x * y) == x * (c * y)
  {
    assert c * (x * y) == (c * x) * y && x * (c * y) == (x * c) * y;
  }

  lemma MulInterchange(b: int, c: int, x: int, y: int)
    ensures (b * c) * (x * y) == (b * x) * (c * y)
  {
    calc {
      (b * c) * (x * y);
      b * (c * (x * y));
      { MulSwapFirst(c, x, y); }
      b * (x * (c * y));
      (b * x) * (c * y);
    }
  }

  lemma {:induction false} PowOfProduct(b: nat, c: nat, e: nat)
    ensures Pow(b * c, e) == Pow(b, e) * Pow(c, e)
  {
    if e != 0 {
      var x, y := Pow(b, e - 1), Pow(c, e - 1);
      calc {
        Pow(b * c, e);
        (b * c) * Pow(b * c, e - 1);
        { PowOfProduct(b, c, e - 1); }
        (b * c) * (x * y);
        { MulInterchange(b, c, x, y); }
        (b * x) * (c * y);
        Pow(b, e) * Pow(c, e);
      }
    }
  }

  lemma {:induction false} PowOfPow2(k: nat, e: nat)
    ensures Pow(Pow2(k), e) == Pow2(k * e)
  {
    if e == 0 {
      assert k * 0 == 0;
    } else {
      PowOfPow2(k, e - 1);
      assert k + k * (e - 1) == k * e;
      Pow2Adds(k, k * (e - 1));
    }
  }

  /** The number of bits of n: the least k with n < 2^k. */
  function BitLength(n: nat): (k: nat)
    ensures n < Pow2(k)
    ensures k > 0 ==> Pow2(k - 1) <= n
    ensures n > 0 <==> k > 0
  {
    if n == 0 then 0 else 1 + BitLength(n / 2)
  }

  lemma BitLengthIsLeast(n: nat, k: nat)
    ensures n < Pow2(k) <==> BitLength(n) <= k
  {
    Pow2Ordered(BitLength(n), k);
    if BitLength(n) > 0 {
      Pow2Ordered(k, BitLength(n) - 1);
    }
  }

  /** log2 rounded up: the least k with n <= 2^k. */
  function CeilLog2(n: nat): (k: nat)
    ensures n <= Pow2(k)
    ensures k > 0 ==> Pow2(k - 1) < n
  {
    if n <= 1 then 0 else 1 + CeilLog2((n + 1) / 2)
  }

  lemma CeilLog2IsLeast(n: nat, k: nat)
    requires n >= 1
    ensures n <= Pow2(k) <==> CeilLog2(n) <= k
  {
    Pow2Ordered(CeilLog2(n), k);
    if CeilLog2(n) > 0 {
      Pow2Ordered(k, CeilLog2(n) - 1);
    }
  }
}
