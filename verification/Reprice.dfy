/**
 The decision listing-fee reprice curve p * 2^(2s/a - 1): a fixed-point power of two built on
 a truncated Taylor loop, with exact anchors at none, half and all of the slots sold.
 */
module Reprice {
  import opened Common

  const U128_BOUND: nat := 0x1_0000_0000_0000_0000_0000_0000_0000_0000
  const Q32: int := 0x1_0000_0000
  const Q30: int := 0x4000_0000
  const Q62: int := 0x4000_0000_0000_0000
  const LN2_Q62: nat := 0x2C5C_85FD_F473_DE6B

  // ----- The truncated series

  /** Multiply in fixed point, then divide; both round down. */
  function Step(t: nat, x: nat, k: nat): nat
    requires k > 0
  {
    t * x / Q62 / k
  }

  /** The k-th term of the series for e^x, every step rounded down. */
  function Term(x: nat, k: nat): nat {
    if k == 0 then Q62 else Step(Term(x, k - 1), x, k)
  }

  function Series(x: nat, k: nat): nat {
    if k == 0 then Q62 else Series(x, k - 1) + Term(x, k)
  }

  /** The argument x = frac * ln 2. */
  function Argument(frac: nat): nat {
    frac * Q30 * LN2_Q62 / Q62
  }

  lemma MulMono(a: nat, b: nat, x: nat, y: nat)
    requires a <= b && x <= y
    ensures a * x <= b * y
  {
    assert a * x <= b * x <= b * y;
  }

  lemma DivBelow(n: nat, d: nat, q: nat)
    requires d > 0
    ensures n < q * d <==> n / d < q
  {
    assert n == n / d * d + n % d;
    if n / d < q {
      MulMono(n / d + 1, q, d, d);
    } else {
      MulMono(q, n / d, d, d);
    }
  }

  lemma DivMono(a: nat, b: nat, d: nat)
    requires a <= b && d > 0
    ensures a / d <= b / d
  {
    DivBelow(b, d, b / d + 1);
    DivBelow(a, d, b / d + 1);
  }

  /** One step of the loop is monotone, never grows a term, and stays within 128 bits. */
  lemma StepMono(t: nat, u: nat, x: nat, y: nat, k: nat)
    requires t <= u && x <= y && k > 0
    ensures Step(t, x, k) <= Step(u, y, k)
  {
    MulMono(t, u, x, y);
    DivMono(t * x, u * y, Q62);
    DivMono(t * x / Q62, u * y / Q62, k);
  }

  lemma StepBounds(t: nat, x: nat, k: nat)
    requires t <= Q62 && x <= Q62 && k > 0
    ensures t * x < U128_BOUND
    ensures Step(t, x, k) <= Q62
  {
    MulMono(0, t, 0, x);
    MulMono(t, Q62, x, Q62);
    DivMono(t * x, Q62 * Q62, Q62);
    DivBelow(t * x / Q62, k, Q62 + 1);
    MulMono(Q62 + 1, Q62 + 1, 1, k);
  }

  lemma {:induction false} TermMono(x: nat, y: nat, k: nat)
    requires x <= y
    ensures Term(x, k) <= Term(y, k)
  {
    if k > 0 {
      TermMono(x, y, k - 1);
      StepMono(Term(x, k - 1), Term(y, k - 1), x, y, k);
    }
  }

  lemma {:induction false} SeriesMono(x: nat, y: nat, k: nat)
    requires x <= y
    ensures Series(x, k) <= Series(y, k)
  {
    if k > 0 {
      SeriesMono(x, y, k - 1);
      TermMono(x, y, k);
    }
  }

  lemma {:induction false} SeriesAtLeastOne(x: nat, k: nat)
    ensures Series(x, k) >= Q62
  {
    if k > 0 {
      SeriesAtLeastOne(x, k - 1);
    }
  }

  lemma {:induction false} TermAtMostOne(x: nat, k: nat)
    requires x <= Q62
    ensures Term(x, k) <= Q62
  {
    if k > 0 {
      TermAtMostOne(x, k - 1);
      StepBounds(Term(x, k - 1), x, k);
    }
  }

  /** The eleven terms at x = ln 2: the truncated sum stays below 2. */
  lemma SeriesAtLn2()
    ensures Series(LN2_Q62, 11) == 2 * Q62 - 125062686
    ensures Term(LN2_Q62, 11) == 0x7A32B1CD
  {
    assert Term(LN2_Q62, 0) == Q62;
    assert Term(LN2_Q62, 1) == 0x2C5C85FDF473DE6B;
    assert Term(LN2_Q62, 2) == 0xF5FDEFFC162C754;
    assert Term(LN2_Q62, 3) == 0x38D611AE09417F1;
    assert Term(LN2_Q62, 4) == 0x9D955B7DD273B9;
    assert Term(LN2_Q62, 5) == 0x15D87FE78A6731;
    assert Term(LN2_Q62, 6) == 0x2861225F0D8F0;
    assert Term(LN2_Q62, 7) == 0x3FF97F8B1161;
    assert Term(LN2_Q62, 8) == 0x58B0088E971;
    assert Term(LN2_Q62, 9) == 0x6D494F4E57;
    assert Term(LN2_Q62, 10) == 0x7933D4562;
    assert Term(LN2_Q62, 11) == 0x7A32B1CD;
  }

  lemma ArgumentBounds(f: nat, g: nat)
    requires f <= g < Q32
    ensures Argument(f) <= Argument(g) <= LN2_Q62
  {
  }

  /** On fractions in [0, 1) the series is monotone and its value lies in [1, 2). */
  lemma FracBounds(f: nat, g: nat)
    requires f <= g < Q32
    ensures Q62 <= Series(Argument(f), 11) <= Series(Argument(g), 11) < 2 * Q62
  {
    ArgumentBounds(f, g);
    SeriesAtLeastOne(Argument(f), 11);
    SeriesMono(Argument(f), Argument(g), 11);
    SeriesMono(Argument(g), LN2_Q62, 11);
    SeriesAtLn2();
  }

  /** The body of the loop: no product exceeds 128 bits. */
  method NextTerm(term: nat, x: nat, k: nat) returns (next: nat)
    requires term <= Q62 && x <= Q62 && k > 0
    ensures next == Step(term, x, k) <= Q62
  {
    StepBounds(term, x, k);
    assert term * x < U128_BOUND;
    next := term * x / Q62;
    next := next / k;
  }

  /** The loop computes the series, whose value lies in [1, 2). */
  method Pow2FracQ62(frac: nat) returns (sum: nat)
    requires frac < Q32
    ensures sum == Series(Argument(frac), 11)
    ensures Q62 <= sum < 2 * Q62
  {
    ArgumentBounds(frac, frac);
    assert frac * Q30 * LN2_Q62 < U128_BOUND;
    var x := Argument(frac);
    var term: nat := Q62;
    sum := Q62;
    for k := 1 to 12
      invariant term == Term(x, k - 1) <= Q62
      invariant sum == Series(x, k - 1)
    {
      term := NextTerm(term, x, k);
      sum := sum + term;
    }
    FracBounds(frac, frac);
  }

  // ----- The curve

  function Shl(n: nat, bits: nat): nat
    decreases bits
  {
    if bits == 0 then n else Shl(2 * n, bits - 1)
  }

  function Shr(n: nat, bits: nat): nat
    decreases bits
  {
    if bits == 0 then n else Shr(n / 2, bits - 1)
  }

  /** 2^(e / 2^32) in 32-bit fixed point. */
  function Pow2FixedQ32(e: int): nat {
    var whole, frac := e / Q32, e % Q32;
    var base: nat := Series(Argument(frac), 11) / Q30;
    if whole >= 0 then (if whole >= 64 then U128_BOUND - 1 else Shl(base, whole))
    else (if -whole >= 64 then 0 else Shr(base, -whole))
  }

  function SaturatingDouble(n: nat): nat {
    if 2 * n > U64_MAX then U64_MAX else 2 * n
  }

  /** The exponent 2s/a - 1 in 32-bit fixed point. */
  function Exponent(s: nat, a: nat): int
    requires a > 0
  {
    s * 2 * Q32 / a - Q32
  }

  function Reprice(p: nat, s: nat, a: nat): nat {
    if a == 0 then p
    else if s == 0 then p / 2
    else if s == a then SaturatingDouble(p)
    else if SaturatingDouble(s) == a then p
    else Truncate64(Scale(p, Pow2FixedQ32(Exponent(s, a))))
  }

  function Scale(p: nat, factor: nat): nat {
    p * factor / Q32
  }

  /** The low 64 bits. */
  function Truncate64(n: nat): nat {
    n % (U64_MAX + 1)
  }

  /** Below zero the factor lies in [1/2, 1), from zero on in [1, 2). */
  lemma FactorBounds(e: int)
    requires -Q32 <= e < Q32
    ensures e < 0 ==> Q32 / 2 <= Pow2FixedQ32(e) < Q32
    ensures e >= 0 ==> Q32 <= Pow2FixedQ32(e) < 2 * Q32
    ensures e < 0 ==> Pow2FixedQ32(e) == Series(Argument(e + Q32), 11) / Q30 / 2
    ensures e >= 0 ==> Pow2FixedQ32(e) == Series(Argument(e), 11) / Q30
  {
    if e < 0 {
      assert e / Q32 == -1 && e % Q32 == e + Q32;
      FracBounds(e + Q32, e + Q32);
      var base := Series(Argument(e + Q32), 11) / Q30;
      assert Shr(base, 1) == Shr(base / 2, 0) == base / 2;
      assert Q32 <= base < 2 * Q32;
    } else {
      assert e / Q32 == 0 && e % Q32 == e;
      FracBounds(e, e);
    }
  }

  lemma FactorMono(d: int, e: int)
    requires -Q32 <= d <= e < Q32
    ensures Pow2FixedQ32(d) <= Pow2FixedQ32(e)
  {
    FactorBounds(d);
    FactorBounds(e);
    if e < 0 {
      FracBounds(d + Q32, e + Q32);
    } else if d >= 0 {
      FracBounds(d, e);
    }
  }

  lemma ExponentRange(s: nat, a: nat)
    requires s < a
    ensures -Q32 <= Exponent(s, a) < Q32
    ensures Exponent(s, a) < 0 <==> 2 * s < a
  {
    DivBelow(s * 2 * Q32, a, 2 * Q32);
    DivBelow(s * 2 * Q32, a, Q32);
  }

  lemma ExponentMono(s: nat, t: nat, a: nat)
    requires s <= t && a > 0
    ensures Exponent(s, a) <= Exponent(t, a)
  {
    DivMono(s * 2 * Q32, t * 2 * Q32, a);
  }

  lemma ScaleMono(p: nat, f: nat, g: nat)
    requires f <= g
    ensures Scale(p, f) <= Scale(p, g)
  {
    MulMono(p, p, f, g);
    DivMono(p * f, p * g, Q32);
  }

  lemma ScaleBounds(p: nat, f: nat)
    requires p <= U64_MAX / 2
    ensures Q32 / 2 <= f < Q32 ==> p / 2 <= Scale(p, f) <= p
    ensures Q32 <= f < 2 * Q32 ==> p <= Scale(p, f) <= 2 * p
  {
    if Q32 / 2 <= f < 2 * Q32 {
      MulMono(p, p, Q32 / 2, f);
      MulMono(p, p, f, if f < Q32 then Q32 else 2 * Q32);
      if f >= Q32 {
        MulMono(p, p, Q32, f);
      }
    }
  }

  /** Strictly inside the anchors the result is the scaled factor, with no wrap-around. */
  lemma Interior(p: nat, s: nat, a: nat)
    requires p <= U64_MAX / 2 && 0 < s < a <= U64_MAX && SaturatingDouble(s) != a
    ensures Reprice(p, s, a) == Scale(p, Pow2FixedQ32(Exponent(s, a)))
    ensures 2 * s < a ==> p / 2 <= Reprice(p, s, a) <= p
    ensures 2 * s >= a ==> p <= Reprice(p, s, a) <= 2 * p
  {
    ExponentRange(s, a);
    FactorBounds(Exponent(s, a));
    ScaleBounds(p, Pow2FixedQ32(Exponent(s, a)));
    TruncateSmall(Scale(p, Pow2FixedQ32(Exponent(s, a))));
  }

  lemma TruncateSmall(n: nat)
    requires n <= U64_MAX
    ensures Truncate64(n) == n
  {
  }

  /** The price at most halves or doubles, and moves in the direction of sales. */
  lemma RepriceBand(p: nat, s: nat, a: nat)
    requires p <= U64_MAX / 2 && s <= a <= U64_MAX
    ensures p / 2 <= Reprice(p, s, a) <= 2 * p
    ensures 2 * s < a ==> Reprice(p, s, a) <= p
    ensures 2 * s == a ==> Reprice(p, s, a) == p
    ensures 2 * s > a ==> Reprice(p, s, a) >= p
  {
    if 0 < s < a && SaturatingDouble(s) != a {
      Interior(p, s, a);
    }
  }

  /** More sales never lower the new price, across the special-cased anchors. */
  lemma RepriceMonotone(p: nat, s: nat, t: nat, a: nat)
    requires p <= U64_MAX / 2 && s <= t <= a <= U64_MAX
    ensures Reprice(p, s, a) <= Reprice(p, t, a)
  {
    RepriceBand(p, s, a);
    RepriceBand(p, t, a);
    if 0 < s <= t < a && SaturatingDouble(s) != a && SaturatingDouble(t) != a {
      Interior(p, s, a);
      Interior(p, t, a);
      ExponentRange(s, a);
      ExponentRange(t, a);
      ExponentMono(s, t, a);
      FactorMono(Exponent(s, a), Exponent(t, a));
      ScaleMono(p, Pow2FixedQ32(Exponent(s, a)), Pow2FixedQ32(Exponent(t, a)));
    }
  }

  // ----- Prices from 2^63 on

  /**
   For every 64-bit price: above half sales the price does not fall exactly when the scaled
   price still fits 64 bits. Below 2^63 it always fits.
   */
  lemma RisesIffFits(p: nat, s: nat, a: nat)
    requires p <= U64_MAX && 0 < s < a <= U64_MAX && SaturatingDouble(s) != a && 2 * s > a
    ensures Reprice(p, s, a) >= p <==> Scale(p, Pow2FixedQ32(Exponent(s, a))) <= U64_MAX
  {
    var f := Pow2FixedQ32(Exponent(s, a));
    ExponentRange(s, a);
    FactorBounds(Exponent(s, a));
    ScaleRange(p, f);
    TruncationShows(p, Scale(p, f));
  }

  lemma ScaleRange(p: nat, f: nat)
    requires Q32 <= f < 2 * Q32
    ensures p <= Scale(p, f) <= 2 * p
  {
    MulMono(p, p, Q32, f);
    MulMono(p, p, f, 2 * Q32);
  }

  lemma TruncationShows(p: nat, v: nat)
    requires p <= U64_MAX && p <= v <= 2 * p
    ensures Truncate64(v) >= p <==> v <= U64_MAX
  {
  }

  /** The largest price, three quarters sold: the multiplication wraps and the price falls. */
  lemma LargestPriceWraps()
    ensures Reprice(U64_MAX, 3, 4) < U64_MAX
  {
    var x := Argument(0x8000_0000);
    assert x == 0x162E42FEFA39EF35;
    assert Term(x, 0) == Q62;
    assert Term(x, 1) == 0x162E42FEFA39EF35;
    assert Term(x, 2) == 0x3D7F7BFF058B1D4;
    assert Term(x, 3) == 0x71AC235C1282FE;
    assert Term(x, 4) == 0x9D955B7DD273B;
    assert Term(x, 5) == 0xAEC3FF3C5339;
    assert Term(x, 6) == 0xA184897C363;
    assert Term(x, 7) == 0x7FF2FF1622;
    assert Term(x, 8) == 0x58B0088E9;
    assert Term(x, 9) == 0x36A4A7A7;
    assert Term(x, 10) == 0x1E4CF51;
    assert Term(x, 11) == 0xF4656;
    assert Series(x, 11) == 0x5A827999FCEEBE37;
    assert Exponent(3, 4) == 0x8000_0000;
    assert Pow2FixedQ32(0x8000_0000) == 0x16A09E667;
  }
}
