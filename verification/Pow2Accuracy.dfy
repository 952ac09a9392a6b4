/**
 How close the fixed-point curve comes to the true power of two. The reference is any function
 that has the laws of 2^x; the truncated series is compared with it over a grid on [0, 1], where
 the true powers are the powers of a root of 2 and one step of the series is nearly a factor.
 */
module Pow2Accuracy {
  import opened Common
  import opened Reprice

  // ----- The reference

  ghost predicate PowAdds(pow: real -> real, x: real, y: real) {
    pow(x + y) == pow(x) * pow(y)
  }

  ghost predicate PowGrows(pow: real -> real, x: real, y: real) {
    x <= y ==> pow(x) <= pow(y)
  }

  /** `pow(x)` is 2^x. */
  ghost predicate IsPow2(pow: real -> real) {
    && pow(1.0) == 2.0
    && (forall x {:trigger pow(x)} :: pow(x) > 0.0)
    && (forall x, y {:trigger PowAdds(pow, x, y)} :: PowAdds(pow, x, y))
    && forall x, y {:trigger PowGrows(pow, x, y)} :: PowGrows(pow, x, y)
  }

  /** The distance of two reals is at most `e`. */
  ghost predicate Within(x: real, y: real, e: real) {
    y - e <= x <= y + e
  }

  // ----- Powers

  ghost function Power(x: real, n: nat): real {
    if n == 0 then 1.0 else Power(x, n - 1) * x
  }

  lemma MulLe(a: real, x: real, y: real)
    requires a >= 0.0 && x <= y
    ensures a * x <= a * y
  {
  }

  lemma {:induction false} PowerNonneg(x: real, n: nat)
    requires x >= 0.0
    ensures Power(x, n) >= 0.0
  {
    if n > 0 {
      PowerNonneg(x, n - 1);
      MulLe(Power(x, n - 1), 0.0, x);
    }
  }

  ghost predicate Times(z: real, x: real, y: real) {
    z == x * y
  }

  lemma PowerStep(x: real, n: nat)
    requires n > 0
    ensures Times(Power(x, n), Power(x, n - 1), x)
  {
  }

  lemma {:induction false} PowerProduct(z: real, x: real, y: real, n: nat)
    requires Times(z, x, y)
    ensures Times(Power(z, n), Power(x, n), Power(y, n))
  {
    if n > 0 {
      PowerProduct(z, x, y, n - 1);
      PowerStep(x, n);
      PowerStep(y, n);
      PowerStep(z, n);
      Regroup(Power(x, n - 1), Power(y, n - 1), Power(z, n - 1), x, y, z, Power(x, n), Power(y, n), Power(z, n));
    }
  }

  lemma Regroup(a: real, b: real, c: real, x: real, y: real, z: real, a': real, b': real, c': real)
    requires Times(c, a, b) && Times(z, x, y) && Times(a', a, x) && Times(b', b, y) && Times(c', c, z)
    ensures Times(c', a', b')
  {
    assert c' == (a * b) * (x * y);
    assert (a * b) * (x * y) == ((a * b) * x) * y;
    assert (a * b) * x == (a * x) * b;
    assert ((a * x) * b) * y == (a * x) * (b * y);
  }

  /** Powers of a number from 1 on grow, those of a number up to 1 fall. */
  lemma {:induction false} PowerGrows(x: real, i: nat, n: nat)
    requires x >= 1.0 && i <= n
    ensures 1.0 <= Power(x, i) <= Power(x, n)
    decreases n
  {
    if n > 0 {
      PowerGrows(x, if i < n then i else n - 1, n - 1);
      TimesAtLeastOne(Power(x, n - 1), x, Power(x, n));
    }
  }

  lemma {:induction false} PowerFalls(x: real, i: nat, n: nat)
    requires 0.0 <= x <= 1.0 && i <= n
    ensures 0.0 <= Power(x, n) <= Power(x, i) <= 1.0
    decreases n
  {
    if n > 0 {
      PowerFalls(x, if i < n then i else n - 1, n - 1);
      TimesAtMostOne(Power(x, n - 1), x, Power(x, n));
    }
  }

  lemma TimesAtLeastOne(p: real, x: real, q: real)
    requires p >= 0.0 && x >= 1.0 && q == p * x
    ensures q >= p
  {
  }

  lemma TimesAtMostOne(p: real, x: real, q: real)
    requires p >= 0.0 && 0.0 <= x <= 1.0 && q == p * x
    ensures 0.0 <= q <= p
  {
  }

  /** Bernoulli's inequality. */
  lemma {:induction false} Bernoulli(z: real, n: nat)
    requires 0.0 <= z <= 1.0
    ensures Power(1.0 - z, n) >= 1.0 - n as real * z
  {
    if n > 0 {
      Bernoulli(z, n - 1);
      PowerFalls(1.0 - z, 0, n - 1);
      var p := Power(1.0 - z, n - 1);
      MulLe(z, p, 1.0);
      assert p * (1.0 - z) == p - z * p;
      assert (n - 1) as real * z + z == n as real * z;
    }
  }

  /** `y` is between `lo` and `hi` times `x`. */
  ghost predicate Near(x: real, y: real, lo: real, hi: real) {
    lo * x <= y <= hi * x
  }

  /** A number whose n-th power is nearly that of `g` has nearly the same lower powers. */
  lemma RootsClose(w: real, g: real, n: nat, i: nat, lo: real, hi: real)
    requires w >= 0.0 && g > 0.0 && i <= n && lo <= 1.0 <= hi
    requires Near(Power(g, n), Power(w, n), lo, hi)
    ensures Near(Power(g, i), Power(w, i), lo, hi)
  {
    var r := Ratio(w, g);
    RatioPower(w, r, g, n);
    RatioPower(w, r, g, i);
    NearFactor(Power(g, n), Power(r, n), Power(w, n), lo, hi);
    if r >= 1.0 {
      PowerGrows(r, i, n);
    } else {
      PowerFalls(r, i, n);
    }
    NearProduct(Power(g, i), Power(r, i), Power(w, i), lo, hi);
  }

  lemma RatioPower(w: real, r: real, g: real, n: nat)
    requires g > 0.0 && Times(w, r, g)
    ensures Power(g, n) > 0.0 && Times(Power(w, n), Power(r, n), Power(g, n))
  {
    PowerPositive(g, n);
    PowerProduct(w, r, g, n);
  }

  lemma NearFactor(x: real, r: real, y: real, lo: real, hi: real)
    requires x > 0.0 && Times(y, r, x) && Near(x, y, lo, hi)
    ensures lo <= r <= hi
  {
    Cancel2(lo, r, x);
    Cancel2(r, hi, x);
  }

  lemma NearProduct(x: real, r: real, y: real, lo: real, hi: real)
    requires x >= 0.0 && Times(y, r, x) && lo <= r <= hi
    ensures Near(x, y, lo, hi)
  {
    MulLe(x, lo, r);
    MulLe(x, r, hi);
  }

  lemma Ratio(w: real, g: real) returns (r: real)
    requires w >= 0.0 && g > 0.0
    ensures r >= 0.0 && Times(w, r, g)
  {
    r := w / g;
  }

  lemma {:induction false} PowerPositive(x: real, n: nat)
    requires x > 0.0
    ensures Power(x, n) > 0.0
  {
    if n > 0 {
      PowerPositive(x, n - 1);
      Positive(Power(x, n - 1), x);
    }
  }

  lemma Positive(x: real, y: real)
    requires x > 0.0 && y > 0.0
    ensures x * y > 0.0
  {
  }

  // ----- The series over the reals

  /** x^k / k! */
  ghost function Taylor(x: real, k: nat): real {
    if k == 0 then 1.0 else Taylor(x, k - 1) * x / k as real
  }

  ghost function TaylorSum(x: real, k: nat): real {
    if k == 0 then 1.0 else TaylorSum(x, k - 1) + Taylor(x, k)
  }

  lemma TaylorStep(x: real, k: nat)
    requires k > 0
    ensures Taylor(x, k) * k as real == Taylor(x, k - 1) * x
  {
    Divide(Taylor(x, k - 1) * x, k as real);
  }

  ghost predicate Steps(s': real, k: real, s: real, r: real) {
    s' * k == s * r
  }

  lemma TaylorSteps(x: real, k: nat)
    requires k > 0
    ensures Steps(Taylor(x, k), k as real, Taylor(x, k - 1), x)
  {
    TaylorStep(x, k);
  }

  lemma Divide(x: real, y: real)
    requires y != 0.0
    ensures x / y * y == x
  {
  }

  lemma {:induction false} TaylorNonneg(x: real, k: nat)
    requires x >= 0.0
    ensures Taylor(x, k) >= 0.0
  {
    if k > 0 {
      TaylorNonneg(x, k - 1);
      MulLe(x, 0.0, Taylor(x, k - 1));
      TaylorStep(x, k);
      QuotientNonneg(Taylor(x, k), k as real);
    }
  }

  lemma QuotientNonneg(q: real, d: real)
    requires d > 0.0 && q * d >= 0.0
    ensures q >= 0.0
  {
  }

  /** From `b` to `b'` over a step `h`, with a slope between `a` and `a'`. */
  ghost predicate Rise(h: real, a: real, a': real, b: real, b': real) {
    h * a <= b' - b <= h * a'
  }

  /** A term grows between the values its predecessor, its derivative, has at the two ends. */
  lemma {:induction false} TaylorGrowth(x: real, h: real, k: nat)
    requires x >= 0.0 && h >= 0.0 && k > 0
    ensures Rise(h, Taylor(x, k - 1), Taylor(x + h, k - 1), Taylor(x, k), Taylor(x + h, k))
  {
    if k == 1 {
      FirstGrowth(x, h);
    } else {
      var a, b, c := ThreeTerms(x, k);
      var a', b', c' := ThreeTerms(x + h, k);
      TaylorGrowth(x, h, k - 1);
      GrowthArithmetic(x, h, k as real, a, a', b, b', c, c');
    }
  }

  lemma FirstGrowth(x: real, h: real)
    ensures Rise(h, Taylor(x, 0), Taylor(x + h, 0), Taylor(x, 1), Taylor(x + h, 1))
  {
    FirstTerm(x);
    FirstTerm(x + h);
    assert h * 1.0 == h;
  }

  lemma FirstTerm(x: real)
    ensures Taylor(x, 1) == x
  {
    assert Taylor(x, 0) == 1.0;
  }

  lemma ThreeTerms(x: real, k: nat) returns (a: real, b: real, c: real)
    requires x >= 0.0 && k >= 2
    ensures a == Taylor(x, k - 2) && b == Taylor(x, k - 1) && c == Taylor(x, k) && a >= 0.0
    ensures b * (k as real - 1.0) == a * x && c * k as real == b * x
  {
    a, b, c := Taylor(x, k - 2), Taylor(x, k - 1), Taylor(x, k);
    TaylorNonneg(x, k - 2);
    TaylorStep(x, k - 1);
    TaylorStep(x, k);
  }

  lemma GrowthArithmetic(x: real, h: real, k: real, a: real, a': real, b: real, b': real, c: real, c': real)
    requires x >= 0.0 && h >= 0.0 && k >= 2.0 && a >= 0.0 && a' >= 0.0
    requires b * (k - 1.0) == a * x && b' * (k - 1.0) == a' * (x + h)
    requires c * k == b * x && c' * k == b' * (x + h)
    requires Rise(h, a, a', b, b')
    ensures Rise(h, b, b', c, c')
  {
    var d := b' - b;
    assert (c' - c) * k == d * x + b' * h;
    GrowthBelow(x, h, k, a, b, b', d);
    Cancel2(h * b, c' - c, k);
    GrowthAbove(x, h, k, a', b', d);
    Cancel2(c' - c, h * b', k);
  }

  lemma GrowthBelow(x: real, h: real, k: real, a: real, b: real, b': real, d: real)
    requires x >= 0.0 && h >= 0.0 && a >= 0.0 && b * (k - 1.0) == a * x && d == b' - b && h * a <= d
    ensures (h * b) * k <= d * x + b' * h
  {
    MulLe(h, 0.0, a);
    MulLe(x, h * a, d);
    MulLe(h, b, b');
    assert x * (h * a) == h * (a * x);
    assert (h * b) * k == h * (b * (k - 1.0)) + h * b;
  }

  lemma GrowthAbove(x: real, h: real, k: real, a': real, b': real, d: real)
    requires x >= 0.0 && h >= 0.0 && a' >= 0.0 && b' * (k - 1.0) == a' * (x + h) && d <= h * a'
    ensures d * x + b' * h <= (h * b') * k
  {
    MulLe(x, d, h * a');
    MulLe(a', x, x + h);
    MulLe(h, a' * x, a' * (x + h));
    assert x * (h * a') == h * (a' * x);
    assert (h * b') * k == h * (b' * (k - 1.0)) + h * b';
  }

  lemma Cancel2(a: real, b: real, k: real)
    requires k > 0.0 && a * k <= b * k
    ensures a <= b
  {
    assert a > b ==> (a - b) * k > 0.0;
  }

  lemma CancelStrict(a: real, b: real, k: real)
    requires k > 0.0 && a * k < b * k
    ensures a < b
  {
    assert a >= b ==> (a - b) * k >= 0.0;
  }

  lemma {:induction false} SumGrowth(x: real, h: real, n: nat)
    requires x >= 0.0 && h >= 0.0 && n > 0
    ensures Rise(h, TaylorSum(x, n - 1), TaylorSum(x + h, n - 1), TaylorSum(x, n), TaylorSum(x + h, n))
  {
    TaylorGrowth(x, h, n);
    if n > 1 {
      SumGrowth(x, h, n - 1);
      RiseAdds(h, TaylorSum(x, n - 2), TaylorSum(x + h, n - 2), TaylorSum(x, n - 1), TaylorSum(x + h, n - 1),
               Taylor(x, n - 1), Taylor(x + h, n - 1), Taylor(x, n), Taylor(x + h, n));
    } else {
      assert TaylorSum(x, 1) == 1.0 + Taylor(x, 1) && TaylorSum(x + h, 1) == 1.0 + Taylor(x + h, 1);
    }
  }

  lemma RiseAdds(h: real, a: real, a': real, b: real, b': real, c: real, c': real, d: real, d': real)
    requires Rise(h, a, a', b, b') && Rise(h, c, c', d, d')
    ensures Rise(h, a + c, a' + c', b + d, b' + d')
  {
    Distribute(h, a, c);
    Distribute(h, a', c');
  }

  lemma Distribute(a: real, x: real, y: real)
    ensures a * (x + y) == a * x + a * y
  {
  }

  // ----- The series along a grid

  /** Above the true exponential as far as 0.7: the next term, a little enlarged, covers the rest. */
  ghost function Upper(x: real): real {
    TaylorSum(x, 11) + 1.07 * Taylor(x, 12)
  }

  lemma UpperGrows(x: real, h: real)
    requires 0.0 <= x <= 0.7 && h >= 0.0
    ensures ProductAtMost(Upper(x), 1.0 + h, Upper(x + h))
  {
    SumGrowth(x, h, 11);
    TaylorGrowth(x, h, 12);
    TaylorSteps(x, 12);
    TaylorNonneg(x, 11);
    UpperArithmetic(x, h, TaylorSum(x, 10), Taylor(x, 11), Taylor(x, 12), TaylorSum(x + h, 10), Taylor(x + h, 11),
                    TaylorSum(x, 11), TaylorSum(x + h, 11), Taylor(x + h, 12));
  }

  lemma UpperArithmetic(x: real, h: real, p: real, t: real, u: real, p': real, t': real, q: real, q': real, u': real)
    requires 0.0 <= x <= 0.7 && h >= 0.0 && t >= 0.0 && Steps(u, 12.0, t, x) && q == p + t
    requires Rise(h, p, p', q, q') && Rise(h, t, t', u, u')
    ensures ProductAtMost(q + 1.07 * u, 1.0 + h, q' + 1.07 * u')
  {
    SmallTerm(t, x, u, 0.7);
    SlopeOfUpper(h, p, t, u, q);
    assert (q + 1.07 * u) * (1.0 + h) == q + 1.07 * u + h * (q + 1.07 * u);
  }

  lemma SmallTerm(t: real, x: real, u: real, c: real)
    requires t >= 0.0 && x <= c && Steps(u, 12.0, t, x)
    ensures u * 12.0 <= t * c
  {
    MulLe(t, x, c);
  }

  lemma SlopeOfUpper(h: real, p: real, t: real, u: real, q: real)
    requires h >= 0.0 && u * 12.0 <= t * 0.7 && t >= 0.0 && q == p + t
    ensures h * (q + 1.07 * u) <= h * p + 1.07 * (h * t)
  {
    assert q + 1.07 * u <= p + 1.07 * t;
    MulLe(h, q + 1.07 * u, p + 1.07 * t);
    assert h * (p + 1.07 * t) == h * p + 1.07 * (h * t);
  }

  ghost predicate ProductAtMost(x: real, y: real, z: real) {
    x * y <= z
  }

  lemma SumGrowsAtMost(x: real, h: real)
    requires x >= 0.0 && h >= 0.0
    ensures ProductAtMost(TaylorSum(x + h, 11), 1.0 - h, TaylorSum(x, 11))
  {
    SumGrowth(x, h, 11);
    TaylorNonneg(x + h, 11);
    AtMostArithmetic(h, TaylorSum(x, 10), TaylorSum(x + h, 10), Taylor(x + h, 11),
                     TaylorSum(x, 11), TaylorSum(x + h, 11));
  }

  lemma AtMostArithmetic(h: real, p: real, p': real, t': real, q: real, q': real)
    requires h >= 0.0 && t' >= 0.0 && q' == p' + t' && Rise(h, p, p', q, q')
    ensures ProductAtMost(q', 1.0 - h, q)
  {
    MulLe(h, p', q');
  }

  /** Every step is at least a factor 1 + h for the upper form... */
  lemma {:induction false} GridBelow(h: real, i: nat, x: real)
    requires h >= 0.0 && x == i as real * h && x <= 0.7
    ensures Power(1.0 + h, i) <= Upper(x)
  {
    if i == 0 {
      AtZero(x);
    } else {
      var y := x - h;
      assert y == (i - 1) as real * h;
      MulLe(h, 0.0, (i - 1) as real);
      GridBelow(h, i - 1, y);
      GridStepBelow(h, i, y, x);
    }
  }

  lemma GridStepBelow(h: real, i: nat, y: real, x: real)
    requires h >= 0.0 && i > 0 && y >= 0.0 && x == y + h && y <= 0.7
    requires Power(1.0 + h, i - 1) <= Upper(y)
    ensures Power(1.0 + h, i) <= Upper(x)
  {
    UpperGrows(y, h);
    PowerStep(1.0 + h, i);
    StepBelow(Power(1.0 + h, i - 1), 1.0 + h, Power(1.0 + h, i), Upper(y), Upper(x));
  }

  lemma StepBelow(p: real, w: real, q: real, u: real, u': real)
    requires w >= 0.0 && Times(q, p, w) && p <= u && ProductAtMost(u, w, u')
    ensures q <= u'
  {
    MulLe(w, p, u);
  }

  lemma AtZero(x: real)
    requires x == 0.0
    ensures Upper(x) == 1.0 && TaylorSum(x, 11) == 1.0
  {
    ZeroTerms(x, 12);
    ZeroSums(x, 11);
  }

  lemma {:induction false} ZeroTerms(x: real, k: nat)
    requires x == 0.0
    ensures k > 0 ==> Taylor(x, k) == 0.0
  {
    if k > 0 {
      TaylorStep(x, k);
      assert Taylor(x, k) * k as real == 0.0;
    }
  }

  lemma {:induction false} ZeroSums(x: real, k: nat)
    requires x == 0.0
    ensures TaylorSum(x, k) == 1.0
  {
    if k > 0 {
      ZeroSums(x, k - 1);
      ZeroTerms(x, k);
    }
  }

  /** ...and at most a factor 1 / (1 - h) for the truncated sum. */
  lemma {:induction false} GridAbove(h: real, i: nat, x: real)
    requires 0.0 <= h <= 1.0 && x == i as real * h
    ensures ProductAtMost(TaylorSum(x, 11), Power(1.0 - h, i), 1.0)
  {
    if i == 0 {
      AtZero(x);
    } else {
      var y := x - h;
      assert y == (i - 1) as real * h;
      MulLe(h, 0.0, (i - 1) as real);
      GridAbove(h, i - 1, y);
      GridStep(h, i, y, x);
    }
  }

  lemma GridStep(h: real, i: nat, y: real, x: real)
    requires 0.0 <= h <= 1.0 && i > 0 && y >= 0.0 && x == y + h
    requires ProductAtMost(TaylorSum(y, 11), Power(1.0 - h, i - 1), 1.0)
    ensures ProductAtMost(TaylorSum(x, 11), Power(1.0 - h, i), 1.0)
  {
    SumGrowsAtMost(y, h);
    PowerNonneg(1.0 - h, i - 1);
    PowerStep(1.0 - h, i);
    StepAbove(TaylorSum(x, 11), 1.0 - h, TaylorSum(y, 11), Power(1.0 - h, i - 1), Power(1.0 - h, i));
  }

  lemma StepAbove(q': real, w: real, q: real, p: real, p': real)
    requires p >= 0.0 && Times(p', p, w) && ProductAtMost(q', w, q) && ProductAtMost(q, p, 1.0)
    ensures ProductAtMost(q', p', 1.0)
  {
    MulLe(p, q' * w, q);
    assert q' * p' == p * (q' * w);
  }

  lemma {:induction false} SumAtLeastOne(x: real, k: nat)
    requires x >= 0.0
    ensures TaylorSum(x, k) >= 1.0
  {
    if k > 0 {
      SumAtLeastOne(x, k - 1);
      TaylorNonneg(x, k);
    }
  }

  /** Along a grid of n steps the sum is a power of 1 + h, up to n h^2 and one more term. */
  lemma Sandwich(h: real, n: nat, i: nat, x: real, l: real, mu: real)
    requires 0.0 <= h <= 1.0 && i <= n && l == n as real * h && l <= 0.7 && x == i as real * h
    requires mu == n as real * (h * h)
    ensures ProductAtMost(TaylorSum(x, 11), 1.0 - mu, Power(1.0 + h, i))
    ensures Power(1.0 + h, i) <= Upper(x) && 0.0 <= x <= l
  {
    GridRange(h, n as real, i as real, x, l);
    GridBelow(h, i, x);
    GridAbove(h, i, x);
    SumAtLeastOne(x, 11);
    NearlyInverse(h, n, i, h * h, mu);
    PowerGrows(1.0 + h, i, i);
    SandwichArithmetic(TaylorSum(x, 11), Power(1.0 + h, i), Power(1.0 - h, i), 1.0 - mu);
  }

  lemma GridRange(h: real, n: real, i: real, x: real, l: real)
    requires h >= 0.0 && 0.0 <= i <= n && l == n * h && x == i * h
    ensures 0.0 <= x <= l
  {
    MulLe(h, 0.0, i);
    MulLe(h, i, n);
  }

  lemma NearlyInverse(h: real, n: nat, i: nat, z: real, mu: real)
    requires 0.0 <= h <= 1.0 && i <= n && Times(z, h, h) && Times(mu, n as real, z)
    ensures AtMostProduct(1.0 - mu, Power(1.0 + h, i), Power(1.0 - h, i))
  {
    Squares(h, z);
    PowerProduct(1.0 - z, 1.0 + h, 1.0 - h, i);
    Bernoulli(z, i);
    InverseArithmetic(i as real, n as real, z, mu, Power(1.0 - z, i), Power(1.0 + h, i), Power(1.0 - h, i));
  }

  lemma Squares(h: real, z: real)
    requires Times(z, h, h) && 0.0 <= h <= 1.0
    ensures Times(1.0 - z, 1.0 + h, 1.0 - h) && 0.0 <= z <= 1.0
  {
    TimesAtMostOne(h, h, z);
  }

  lemma InverseArithmetic(i: real, n: real, z: real, mu: real, p: real, a: real, b: real)
    requires z >= 0.0 && i <= n && Times(mu, n, z) && p >= 1.0 - i * z && Times(p, a, b)
    ensures AtMostProduct(1.0 - mu, a, b)
  {
    MulLe(z, i, n);
  }

  ghost predicate AtMostProduct(z: real, x: real, y: real) {
    z <= x * y
  }

  lemma SandwichArithmetic(v: real, a: real, b: real, k: real)
    requires v >= 0.0 && a >= 0.0 && AtMostProduct(k, a, b) && ProductAtMost(v, b, 1.0)
    ensures ProductAtMost(v, k, a)
  {
    MulLe(v, k, a * b);
    MulLe(a, v * b, 1.0);
    assert v * (a * b) == a * (v * b);
  }

  // ----- The integer series against the real one

  /** A number in units of 2^-62. */
  ghost function Units(x: real): real {
    x * 4611686018427387904.0
  }

  /** `t` is `r` in units of 2^-62, rounded down by at most `e` units. */
  ghost predicate Rounds(t: int, r: real, e: real) {
    Units(r) - e <= t as real <= Units(r)
  }

  lemma {:induction false} TermRounds(x: nat, r: real, k: nat)
    requires x <= Q62 && Units(r) == x as real
    ensures Rounds(Term(x, k), Taylor(r, k), k as real)
  {
    if k > 0 {
      TermRounds(x, r, k - 1);
      TaylorSteps(r, k);
      FloorStep(Term(x, k - 1), x, k, r);
      assert 0.0 <= r <= 1.0;
      RoundsStep(Term(x, k - 1), r, k, Taylor(r, k - 1), Taylor(r, k), Term(x, k));
    }
  }

  lemma FloorStep(t: nat, x: nat, k: nat, r: real)
    requires k > 0 && Units(r) == x as real
    ensures Floors(Step(t, x, k) as real, k as real, t as real, r)
  {
    var a := t * x / Q62;
    var b := a / k;
    assert a * Q62 <= t * x < a * Q62 + Q62;
    assert b * k <= a < b * k + k;
    FloorReal(t as real, x as real, a as real, b as real, k as real, r, 4611686018427387904.0);
  }

  /** `b` is the product of `t` and `r`, divided by `k` and rounded down. */
  ghost predicate Floors(b: real, k: real, t: real, r: real) {
    b * k <= t * r < (b + 1.0) * k
  }

  lemma FloorReal(t: real, x: real, a: real, b: real, k: real, r: real, q: real)
    requires q > 0.0 && r * q == x && a * q <= t * x < a * q + q && b * k <= a && a + 1.0 <= b * k + k
    ensures Floors(b, k, t, r)
  {
    assert t * x == (t * r) * q;
    Cancel2(a, t * r, q);
    assert (a + 1.0) * q == a * q + q;
    CancelStrict(t * r, a + 1.0, q);
    assert (b + 1.0) * k == b * k + k;
  }

  lemma RoundsStep(t: nat, r: real, k: nat, s: real, s': real, b: nat)
    requires 0.0 <= r <= 1.0 && k > 0 && Steps(s', k as real, s, r)
    requires Rounds(t, s, (k - 1) as real) && Floors(b as real, k as real, t as real, r)
    ensures Rounds(b, s', k as real)
  {
    RoundStep(t as real, r, k as real, s, s', (k - 1) as real, b as real, 4611686018427387904.0);
  }

  lemma RoundStep(t: real, r: real, k: real, s: real, s': real, e: real, b: real, q: real)
    requires 0.0 <= r <= 1.0 && k >= 1.0 && e >= 0.0 && s' * k == s * r
    requires s * q - e <= t <= s * q && Floors(b, k, t, r)
    ensures s' * q - (e + 1.0) <= b <= s' * q
  {
    var m, m' := s * q, s' * q;
    assert r * m == (s * r) * q;
    assert (s' * k) * q == m' * k;
    RoundAbove(t, r, k, m, m', b);
    RoundBelow(t, r, k, m, m', e, b);
  }

  lemma RoundAbove(t: real, r: real, k: real, m: real, m': real, b: real)
    requires r >= 0.0 && k > 0.0 && r * m == m' * k && t <= m && Floors(b, k, t, r)
    ensures b <= m'
  {
    MulLe(r, t, m);
    Cancel2(b, m', k);
  }

  lemma RoundBelow(t: real, r: real, k: real, m: real, m': real, e: real, b: real)
    requires 0.0 <= r <= k && k > 0.0 && e >= 0.0 && r * m == m' * k && m - e <= t && Floors(b, k, t, r)
    ensures m' - (e + 1.0) <= b
  {
    LostShare(t, r, k, m, e);
    assert (m' - e) * k == m' * k - e * k;
    Cancel2(m' - e, b + 1.0, k);
  }

  lemma LostShare(t: real, r: real, k: real, m: real, e: real)
    requires 0.0 <= r <= k && e >= 0.0 && m - e <= t
    ensures r * m - e * k <= t * r
  {
    MulLe(r, m - e, t);
    MulLe(e, r, k);
    assert r * (m - e) == r * m - e * r;
  }

  /** The error of k roundings down, each passed on to the next. */
  ghost function RoundingError(k: nat): real {
    if k == 0 then 0.0 else RoundingError(k - 1) + k as real
  }

  lemma {:induction false} SeriesRounds(x: nat, r: real, k: nat)
    requires x <= Q62 && Units(r) == x as real
    ensures Rounds(Series(x, k), TaylorSum(r, k), RoundingError(k))
  {
    if k > 0 {
      SeriesRounds(x, r, k - 1);
      TermRounds(x, r, k);
      RoundsAdd(Series(x, k - 1), TaylorSum(r, k - 1), Term(x, k), Taylor(r, k), RoundingError(k - 1), k as real);
    }
  }

  lemma ElevenRoundings()
    ensures RoundingError(11) == 66.0
  {
    assert RoundingError(6) == 21.0;
  }

  lemma RoundsAdd(t: int, r: real, u: int, s: real, d: real, e: real)
    requires Rounds(t, r, d) && Rounds(u, s, e)
    ensures Rounds(t + u, r + s, d + e)
  {
  }

  // ----- The curve on [0, 1) against 2^x

  lemma PowZero(pow: real -> real)
    requires IsPow2(pow)
    ensures pow(0.0) == 1.0
  {
    assert PowAdds(pow, 0.0, 1.0);
  }

  /** Along a grid, 2^x is a power of its value at the first point. */
  lemma {:induction false} PowGrid(pow: real -> real, d: real, i: nat, x: real)
    requires IsPow2(pow) && x == i as real * d
    ensures pow(x) == Power(pow(d), i)
  {
    if i == 0 {
      assert x == 0.0;
      PowZero(pow);
    } else {
      var y := x - d;
      assert y == (i - 1) as real * d;
      PowGrid(pow, d, i - 1, y);
      assert PowAdds(pow, y, d);
      assert pow(x) == pow(y) * pow(d);
    }
  }

  /** The sum and the next term at ln 2. */
  lemma SumAtLn2(l: real)
    requires Units(l) == LN2_Q62 as real
    ensures -125062700.0 <= Units(TaylorSum(l, 11)) - Units(2.0) <= -125062600.0
  {
    SeriesAtLn2();
    SeriesRounds(LN2_Q62, l, 11);
    ElevenRoundings();
  }

  lemma Ln2Range(l: real)
    requires Units(l) == LN2_Q62 as real
    ensures 0.69 <= l <= 0.6932
  {
  }

  lemma NextTermAtLn2(l: real)
    requires Units(l) == LN2_Q62 as real
    ensures 0.0 <= Units(1.07 * Taylor(l, 12)) <= 126730000.0
  {
    Ln2Range(l);
    EleventhTerm(l);
    TaylorSteps(l, 12);
    TaylorNonneg(l, 11);
    TaylorNonneg(l, 12);
    TwelfthTerm(l, Taylor(l, 11), Taylor(l, 12));
  }

  lemma EleventhTerm(l: real)
    requires Units(l) == LN2_Q62 as real
    ensures Units(Taylor(l, 11)) <= 2050142700.0
  {
    SeriesAtLn2();
    TermRounds(LN2_Q62, l, 11);
  }

  lemma TwelfthTerm(l: real, t: real, u: real)
    requires 0.0 <= l <= 0.6932 && t >= 0.0 && u >= 0.0 && Steps(u, 12.0, t, l) && Units(t) <= 2050142700.0
    ensures 0.0 <= Units(1.07 * u) <= 126730000.0
  {
    SmallTerm(t, l, u, 0.6932);
    TwelfthBound(t, u);
  }

  lemma TwelfthBound(t: real, u: real)
    requires u * 12.0 <= t * 0.6932 && Units(t) <= 2050142700.0
    ensures Units(1.07 * u) <= 126730000.0
  {
  }

  lemma SumGrows(x: real, y: real, n: nat)
    requires 0.0 <= x <= y && n > 0
    ensures TaylorSum(x, n) <= TaylorSum(y, n) && Taylor(x, n) <= Taylor(y, n)
  {
    SumGrowth(x, y - x, n);
    TaylorGrowth(x, y - x, n);
    SumAtLeastOne(x, n - 1);
    TaylorNonneg(x, n - 1);
    MulLe(y - x, 0.0, TaylorSum(x, n - 1));
    MulLe(y - x, 0.0, Taylor(x, n - 1));
  }

  /** A relative error of 63000000 units. */
  ghost predicate SmallError(lo: real, hi: real) {
    Units(1.0 - lo) == 63000000.0 && Units(hi - 1.0) == 63000000.0
  }

  /** The whole grid, from 0 to ln 2, nearly doubles. */
  lemma GridDoubles(h: real, n: nat, l: real, mu: real, lo: real, hi: real)
    requires 0.0 <= h <= 1.0 && l == n as real * h && Units(l) == LN2_Q62 as real && SmallError(lo, hi)
    requires mu == n as real * (h * h) && 0.0 <= Units(mu) <= 1.0
    ensures Near(2.0, Power(1.0 + h, n), lo, hi)
  {
    Ln2Range(l);
    SumAtLn2(l);
    NextTermAtLn2(l);
    Sandwich(h, n, n, l, l, mu);
    LoseLittle(TaylorSum(l, 11), mu, Power(1.0 + h, n));
    NearTwo(TaylorSum(l, 11), 1.07 * Taylor(l, 12), mu, Power(1.0 + h, n), lo, hi);
  }

  lemma LoseLittle(v: real, mu: real, w: real)
    requires v <= 2.0 && mu >= 0.0 && ProductAtMost(v, 1.0 - mu, w)
    ensures v - 2.0 * mu <= w
  {
    MulLe(mu, v, 2.0);
    assert v * (1.0 - mu) == v - mu * v;
  }

  lemma NearTwo(p: real, u: real, mu: real, w: real, lo: real, hi: real)
    requires -125062700.0 <= Units(p) - Units(2.0) <= -125062600.0 && Units(u) <= 126730000.0 && SmallError(lo, hi)
    requires p - 2.0 * mu <= w <= p + u && Units(mu) <= 1.0
    ensures Near(2.0, w, lo, hi)
  {
  }

  /** On the grid the truncated sum is close to the powers of the root of 2. */
  lemma GridClose(g: real, h: real, n: nat, i: nat, x: real, l: real, mu: real)
    requires g > 0.0 && Power(g, n) == 2.0 && i <= n && Power(g, i) <= 2.0
    requires 0.0 <= h <= 1.0 && l == n as real * h && Units(l) == LN2_Q62 as real && x == i as real * h
    requires mu == n as real * (h * h) && 0.0 <= Units(mu) <= 1.0
    ensures Within(Units(TaylorSum(x, 11)), Units(Power(g, i)), 252800000.0)
    ensures 0.0 <= x <= l && TaylorSum(x, 11) <= 2.0
  {
    var e := 63000000.0 / 4611686018427387904.0;
    var lo, hi := 1.0 - e, 1.0 + e;
    GridDoubles(h, n, l, mu, lo, hi);
    RootsClose(1.0 + h, g, n, i, lo, hi);
    PowerPositive(g, i);
    Ln2Range(l);
    Sandwich(h, n, i, x, l, mu);
    BelowLn2(x, l);
    LoseLittle(TaylorSum(x, 11), mu, Power(1.0 + h, i));
    NearUnits(Power(g, i), Power(1.0 + h, i), lo, hi);
    CloseUnits(TaylorSum(x, 11), Power(1.0 + h, i), Power(g, i), 1.07 * Taylor(x, 12), mu);
  }

  lemma BelowLn2(x: real, l: real)
    requires 0.0 <= x <= l && Units(l) == LN2_Q62 as real
    ensures TaylorSum(x, 11) <= 2.0 && Units(1.07 * Taylor(x, 12)) <= 126730000.0
  {
    SumGrows(x, l, 12);
    SumGrows(x, l, 11);
    SumAtLn2(l);
    NextTermAtLn2(l);
  }

  lemma NearUnits(g: real, w: real, lo: real, hi: real)
    requires 0.0 <= g <= 2.0 && Near(g, w, lo, hi) && SmallError(lo, hi)
    ensures Within(Units(w), Units(g), 126000000.0)
  {
    MulLe(1.0 - lo, g, 2.0);
    MulLe(hi - 1.0, g, 2.0);
    assert (1.0 - lo) * g == g - lo * g && (hi - 1.0) * g == hi * g - g;
  }

  lemma CloseUnits(v: real, w: real, g: real, u: real, mu: real)
    requires Within(Units(w), Units(g), 126000000.0) && w <= v + u && v - 2.0 * mu <= w
    requires Units(u) <= 126730000.0 && Units(mu) <= 1.0
    ensures Within(Units(v), Units(g), 252800000.0)
  {
  }

  /** The argument of the series is its exact value, rounded down to a unit. */
  lemma ArgumentRounds(frac: nat, x: real)
    requires frac < Q32 && x * 4294967296.0 * 4611686018427387904.0 == frac as real * LN2_Q62 as real
    ensures Rounds(Argument(frac), x, 1.0)
  {
    var a := Argument(frac);
    assert frac * Q30 * LN2_Q62 == frac * LN2_Q62 * Q30;
    assert a * Q62 <= frac * LN2_Q62 * Q30 < a * Q62 + Q62;
    assert a * Q32 <= frac * LN2_Q62 < a * Q32 + Q32;
    assert (frac * LN2_Q62) as real == frac as real * LN2_Q62 as real;
  }

  /** A unit less in the argument costs at most two units in the sum. */
  lemma ArgumentError(a: nat, x: real, r: real)
    requires Rounds(a, x, 1.0) && Units(r) == a as real && x >= 0.0 && TaylorSum(x, 11) <= 2.0
    ensures Units(TaylorSum(x, 11)) - 2.0 <= Units(TaylorSum(r, 11)) <= Units(TaylorSum(x, 11))
  {
    var h := x - r;
    assert 0.0 <= r && h >= 0.0 && Units(h) <= 1.0 && r + h == x;
    SumGrowth(r, h, 11);
    SumGrows(r, x, 11);
    TaylorNonneg(x, 11);
    ErrorArithmetic(h, TaylorSum(r, 10), TaylorSum(x, 10), TaylorSum(r, 11), TaylorSum(x, 11));
  }

  lemma ErrorArithmetic(h: real, p: real, p': real, q: real, q': real)
    requires h >= 0.0 && Units(h) <= 1.0 && p' <= 2.0 && Rise(h, p, p', q, q') && q <= q'
    ensures Units(q') - 2.0 <= Units(q) <= Units(q')
  {
    MulLe(h, p', 2.0);
  }

  /** The sum that the loop returns for a fraction is 2^62 * 2^(frac / 2^32) to within 2^28 units. */
  lemma FracAccurate(pow: real -> real, frac: nat)
    requires IsPow2(pow) && frac < Q32
    ensures Within(Series(Argument(frac), 11) as real, Units(pow(frac as real / 4294967296.0)), 268435456.0)
  {
    var n: nat, i: nat := 18446744073709551616, frac * 4294967296;
    var l := LN2_Q62 as real / 4611686018427387904.0;
    FracOnGrid(pow, frac, n, i, l);
  }

  /** The fraction as a point of a grid of 2^64 steps. */
  lemma FracOnGrid(pow: real -> real, frac: nat, n: nat, i: nat, l: real)
    requires IsPow2(pow) && frac < Q32 && n == 18446744073709551616 && i == frac * 4294967296
    requires Units(l) == LN2_Q62 as real
    ensures Within(Series(Argument(frac), 11) as real, Units(pow(frac as real / 4294967296.0)), 268435456.0)
  {
    var d, y, h := 1.0 / 18446744073709551616.0, frac as real / 4294967296.0, l / 18446744073709551616.0;
    var x := i as real * h;
    var g := pow(d);
    RootOfTwo(pow, d, n, i, y);
    GridStepSize(l, h, h * h);
    GridClose(g, h, n, i, x, l, n as real * (h * h));
    assert x * 4294967296.0 == frac as real * l;
    FracRounds(frac, x, l);
    var r := Argument(frac) as real / 4611686018427387904.0;
    ArgumentError(Argument(frac), x, r);
    ArgumentBounds(frac, frac);
    SeriesRounds(Argument(frac), r, 11);
    ElevenRoundings();
  }

  lemma RootOfTwo(pow: real -> real, d: real, n: nat, i: nat, y: real)
    requires IsPow2(pow) && i <= n && n as real * d == 1.0 && y == i as real * d && y <= 1.0
    ensures Power(pow(d), n) == 2.0 && Power(pow(d), i) == pow(y) <= 2.0
  {
    PowGrid(pow, d, n, 1.0);
    PowGrid(pow, d, i, y);
    assert PowGrows(pow, y, 1.0);
  }

  lemma GridStepSize(l: real, h: real, z: real)
    requires Units(l) == LN2_Q62 as real && h == l / 18446744073709551616.0 && Times(z, h, h)
    ensures 0.0 <= h <= 1.0 && l == 18446744073709551616.0 * h && 0.0 <= Units(18446744073709551616.0 * z) <= 1.0
  {
    Ln2Range(l);
    MulLe(h, h, 1.0 / 18446744073709551616.0);
    MulLe(h, 0.0, h);
  }

  lemma FracRounds(frac: nat, x: real, l: real)
    requires frac < Q32 && Units(l) == LN2_Q62 as real && x * 4294967296.0 == frac as real * l
    ensures Rounds(Argument(frac), x, 1.0)
  {
    assert (frac as real * l) * 4611686018427387904.0 == frac as real * LN2_Q62 as real;
    ArgumentRounds(frac, x);
  }

  /** The loop of the source, against 2^x alone. */
  method AccurateFrac(frac: nat, ghost pow: real -> real) returns (sum: nat)
    requires IsPow2(pow) && frac < Q32
    ensures Within(sum as real, Units(pow(frac as real / 4294967296.0)), 268435456.0)
  {
    sum := Pow2FracQ62(frac);
    FracAccurate(pow, frac);
  }

  // ----- The fixed-point power and the price

  /** The 32-bit fixed-point power is exact to within two units. */
  lemma FactorAccurate(pow: real -> real, e: int)
    requires IsPow2(pow) && -Q32 <= e < Q32
    ensures Within(Pow2FixedQ32(e) as real, pow(e as real / 4294967296.0) * 4294967296.0, 2.0)
  {
    FactorBounds(e);
    if e >= 0 {
      FracAccurate(pow, e);
      TopBits(Series(Argument(e), 11), pow(e as real / 4294967296.0));
    } else {
      NextOctave(pow, e);
      FracAccurate(pow, e + Q32);
      TopBitsHalved(Series(Argument(e + Q32), 11), pow(e as real / 4294967296.0));
    }
  }

  lemma NextOctave(pow: real -> real, e: int)
    requires IsPow2(pow)
    ensures pow((e + Q32) as real / 4294967296.0) == pow(e as real / 4294967296.0) * 2.0
  {
    var x := e as real / 4294967296.0;
    assert (e + Q32) as real / 4294967296.0 == x + 1.0;
    assert PowAdds(pow, x, 1.0);
  }

  lemma TopBits(t: nat, p: real)
    requires Within(t as real, Units(p), 268435456.0)
    ensures Within((t / Q30) as real, p * 4294967296.0, 2.0)
  {
    var b := t / Q30;
    assert b * Q30 <= t < b * Q30 + Q30;
  }

  lemma TopBitsHalved(t: nat, p: real)
    requires Within(t as real, Units(p * 2.0), 268435456.0)
    ensures Within((t / Q30 / 2) as real, p * 4294967296.0, 2.0)
  {
    var b := t / Q30;
    var c := b / 2;
    assert b * Q30 <= t < b * Q30 + Q30;
    assert 2 * c <= b <= 2 * c + 1;
  }

  /** Bernoulli's inequality above 1. */
  lemma {:induction false} BernoulliAbove(z: real, n: nat)
    requires z >= 0.0
    ensures Power(1.0 + z, n) >= 1.0 + n as real * z
  {
    if n > 0 {
      BernoulliAbove(z, n - 1);
      PowerGrows(1.0 + z, 0, n - 1);
      AboveStep(Power(1.0 + z, n - 1), z, n as real, Power(1.0 + z, n));
    }
  }

  lemma AboveStep(p: real, z: real, n: real, q: real)
    requires z >= 0.0 && p >= 1.0 && p >= 1.0 + (n - 1.0) * z && Times(q, p, 1.0 + z)
    ensures q >= 1.0 + n * z
  {
    MulLe(z, 1.0, p);
    assert (n - 1.0) * z + z == n * z;
  }

  /** One unit of the exponent changes the power by at most one part in 2^32. */
  lemma UnitStep(pow: real -> real, n: nat, d: real)
    requires IsPow2(pow) && n > 0 && n as real * d == 1.0
    ensures pow(d) <= 1.0 + d
  {
    PowGrid(pow, d, n, 1.0);
    var g := pow(d);
    assert d > 0.0;
    BernoulliAbove(d, n);
    if g > 1.0 + d {
      var r := Ratio(g, 1.0 + d);
      RatioPower(g, r, 1.0 + d, n);
      RatioAboveOne(g, r, 1.0 + d);
      BernoulliAbove(r - 1.0, n);
      TooLarge(Power(g, n), Power(r, n), Power(1.0 + d, n), n as real, r - 1.0);
    }
  }

  lemma RatioAboveOne(g: real, r: real, w: real)
    requires w > 0.0 && g > w && Times(g, r, w)
    ensures r > 1.0
  {
    CancelStrict(1.0, r, w);
  }

  lemma TooLarge(g: real, r: real, w: real, n: real, z: real)
    requires Times(g, r, w) && w >= 2.0 && n >= 1.0 && z > 0.0 && r >= 1.0 + n * z
    ensures g > 2.0
  {
    MulLe(z, 1.0, n);
    MulLe(r, 2.0, w);
  }

  /** The exponent the source computes is 2s/a - 1, rounded down. */
  lemma ExponentRounds(s: nat, a: nat, x: real)
    requires 0 < a && x == 2.0 * s as real / a as real - 1.0
    ensures Exponent(s, a) as real <= x * 4294967296.0 < Exponent(s, a) as real + 1.0
  {
    var m := s * 2 * Q32;
    var b := m / a;
    assert b * a <= m < b * a + a;
    ExponentReal(s as real, a as real, b as real, x);
  }

  lemma ExponentReal(s: real, a: real, b: real, x: real)
    requires a > 0.0 && x == 2.0 * s / a - 1.0 && b * a <= s * 8589934592.0 < b * a + a
    ensures b - 4294967296.0 <= x * 4294967296.0 < b - 4294967296.0 + 1.0
  {
    var y := (x + 1.0) * 4294967296.0;
    assert (x + 1.0) * a == 2.0 * s by {
      Divide(2.0 * s, a);
    }
    assert y * a == s * 8589934592.0;
    Cancel2(b, y, a);
    assert (b + 1.0) * a == b * a + a;
    CancelStrict(y, b + 1.0, a);
  }

  /** The factor at the rounded exponent is still close to the power at the exact one. */
  lemma ExponentAccurate(pow: real -> real, s: nat, a: nat, x: real)
    requires IsPow2(pow) && 0 < s < a && x == 2.0 * s as real / a as real - 1.0
    ensures Within(Pow2FixedQ32(Exponent(s, a)) as real, pow(x) * 4294967296.0, 4.0)
  {
    ExponentRange(s, a);
    ExponentRounds(s, a, x);
    PowRounds(pow, Exponent(s, a), x);
  }

  lemma PowRounds(pow: real -> real, e: int, x: real)
    requires IsPow2(pow) && -Q32 <= e < Q32 && e as real <= x * 4294967296.0 < e as real + 1.0
    ensures Within(Pow2FixedQ32(e) as real, pow(x) * 4294967296.0, 4.0)
  {
    var y := e as real / 4294967296.0;
    FactorAccurate(pow, e);
    PowBetween(pow, y, x, 1.0 / 4294967296.0);
  }

  lemma PowBetween(pow: real -> real, y: real, x: real, d: real)
    requires IsPow2(pow) && d == 1.0 / 4294967296.0 && y <= x <= y + d && y <= 1.0
    ensures pow(y) * 4294967296.0 <= pow(x) * 4294967296.0 <= pow(y) * 4294967296.0 + 2.0
  {
    UnitStep(pow, 4294967296, d);
    assert PowAdds(pow, y, d);
    assert PowGrows(pow, y, x) && PowGrows(pow, x, y + d) && PowGrows(pow, y, 1.0);
    SmallStep(pow(y), pow(d), pow(x), d);
  }

  lemma SmallStep(p: real, g: real, q: real, d: real)
    requires 0.0 < p <= 2.0 && g <= 1.0 + d && p <= q <= p * g && d == 1.0 / 4294967296.0
    ensures p * 4294967296.0 <= q * 4294967296.0 <= p * 4294967296.0 + 2.0
  {
    SmallRise(p, g, q, d);
    SmallStepUnits(p, q, d);
  }

  lemma SmallRise(p: real, g: real, q: real, d: real)
    requires 0.0 < p <= 2.0 && d >= 0.0 && g <= 1.0 + d && q <= p * g
    ensures q <= p + 2.0 * d
  {
    MulLe(p, g, 1.0 + d);
    MulLe(d, p, 2.0);
    assert p * (1.0 + d) == p + d * p;
    assert p * g <= p + d * p;
    assert d * p <= d * 2.0;
    assert q <= p + d * p;
  }

  lemma SmallStepUnits(p: real, q: real, d: real)
    requires p <= q <= p + 2.0 * d && d == 1.0 / 4294967296.0
    ensures p * 4294967296.0 <= q * 4294967296.0 <= p * 4294967296.0 + 2.0
  {
  }

  /** How far a price may be from p * 2^(2s/a - 1). */
  ghost function PriceError(p: nat): real {
    p as real / 1073741824.0 + 1.0
  }

  /** `r` is the price p * q, up to that error. */
  ghost predicate PriceClose(r: nat, p: nat, q: real) {
    Within(r as real, p as real * q, PriceError(p))
  }

  lemma ScaleAccurate(p: nat, f: nat, q: real)
    requires Within(f as real, q * 4294967296.0, 4.0)
    ensures PriceClose(Scale(p, f), p, q)
  {
    var b := Scale(p, f);
    assert b * Q32 <= p * f < b * Q32 + Q32;
    assert (p * f) as real == p as real * f as real;
    ScaleReal(p as real, f as real, b as real, q, p as real * f as real, p as real * q);
  }

  lemma ScaleReal(p: real, f: real, b: real, q: real, t: real, m: real)
    requires p >= 0.0 && Times(t, p, f) && Times(m, p, q) && Within(f, q * 4294967296.0, 4.0)
    requires b * 4294967296.0 <= t < (b + 1.0) * 4294967296.0
    ensures Within(b, m, p / 1073741824.0 + 1.0)
  {
    assert p * (q * 4294967296.0) == m * 4294967296.0;
    ScaleWithin(p, f, q * 4294967296.0, t);
    ScaleUnits(p, b, t, m);
  }

  lemma ScaleWithin(p: real, f: real, y: real, t: real)
    requires p >= 0.0 && Times(t, p, f) && Within(f, y, 4.0)
    ensures Within(t, p * y, 4.0 * p)
  {
    MulLe(p, f, y + 4.0);
    MulLe(p, y - 4.0, f);
    assert p * (y + 4.0) == p * y + 4.0 * p && p * (y - 4.0) == p * y - 4.0 * p;
  }

  lemma ScaleUnits(p: real, b: real, t: real, m: real)
    requires b * 4294967296.0 <= t < (b + 1.0) * 4294967296.0
    requires Within(t, m * 4294967296.0, 4.0 * p)
    ensures Within(b, m, p / 1073741824.0 + 1.0)
  {
  }

  /** The price is below 2^63, or the exact new price, with the error, still fits 64 bits. */
  ghost predicate PriceFits(p: nat, q: real) {
    p <= U64_MAX / 2 || (p <= U64_MAX && p as real * q + PriceError(p) <= U64_MAX as real)
  }

  /** The test for half of the slots is not misled by the saturation of 2s. */
  predicate HalfTestSound(s: nat, a: nat) {
    a < U64_MAX || 2 * s <= U64_MAX || s == a
  }

  /** It recognizes exactly half exactly then. */
  lemma HalfTestSoundIff(s: nat, a: nat)
    requires 0 < s <= a <= U64_MAX
    ensures HalfTestSound(s, a) <==> (s < a && SaturatingDouble(s) == a ==> 2 * s == a)
  {
  }

  /**
   The new price is p * 2^(2s/a - 1) to within one part in 2^30 and one satoshi, for every price
   below 2^63, and above as long as that fits 64 bits.
   */
  lemma RepriceAccurate(pow: real -> real, p: nat, s: nat, a: nat, x: real)
    requires IsPow2(pow) && s <= a <= U64_MAX && a > 0 && x == 2.0 * s as real / a as real - 1.0
    requires PriceFits(p, pow(x)) && HalfTestSound(s, a)
    ensures PriceClose(Reprice.Reprice(p, s, a), p, pow(x))
  {
    if s == 0 || s == a || SaturatingDouble(s) == a {
      AnchorPower(pow, s, a, x);
      AnchorAccurate(p, s, a, pow(x));
    } else {
      var f := Pow2FixedQ32(Exponent(s, a));
      ExponentAccurate(pow, s, a, x);
      ScaleAccurate(p, f, pow(x));
      InteriorFits(p, s, a, pow(x));
    }
  }

  lemma InteriorFits(p: nat, s: nat, a: nat, q: real)
    requires 0 < s < a <= U64_MAX && SaturatingDouble(s) != a && PriceFits(p, q)
    requires PriceClose(Scale(p, Pow2FixedQ32(Exponent(s, a))), p, q)
    ensures Reprice.Reprice(p, s, a) == Scale(p, Pow2FixedQ32(Exponent(s, a)))
  {
    if p <= U64_MAX / 2 {
      Interior(p, s, a);
    } else {
      TruncateSmall(Scale(p, Pow2FixedQ32(Exponent(s, a))));
    }
  }

  /** The exact factor at the three anchors. */
  lemma AnchorPower(pow: real -> real, s: nat, a: nat, x: real)
    requires IsPow2(pow) && s <= a <= U64_MAX && a > 0 && x == 2.0 * s as real / a as real - 1.0
    requires HalfTestSound(s, a)
    ensures s == 0 ==> pow(x) == 0.5
    ensures s == a ==> pow(x) == 2.0
    ensures s > 0 && s < a && SaturatingDouble(s) == a ==> pow(x) == 1.0
  {
    PowZero(pow);
    Quotients(2.0 * s as real, a as real);
    if s == 0 {
      assert 2.0 * s as real == 0.0;
      assert PowAdds(pow, -1.0, 1.0);
    } else if s < a && SaturatingDouble(s) == a {
      assert 2 * s == a;
    }
  }

  lemma Quotients(y: real, a: real)
    requires a > 0.0
    ensures y == 0.0 ==> y / a == 0.0
    ensures y == a ==> y / a == 1.0
    ensures y == 2.0 * a ==> y / a == 2.0
  {
  }

  lemma AnchorAccurate(p: nat, s: nat, a: nat, q: real)
    requires s <= a <= U64_MAX && a > 0 && (s == 0 || s == a || SaturatingDouble(s) == a) && PriceFits(p, q)
    requires s == 0 ==> q == 0.5
    requires s == a ==> q == 2.0
    requires s > 0 && s < a ==> q == 1.0
    ensures PriceClose(Reprice.Reprice(p, s, a), p, q)
  {
  }

  /** With the largest number of slots, every sale above half leaves the price where it is. */
  lemma SaturatedTestSticks(p: nat, s: nat)
    requires U64_MAX < 2 * s && s < U64_MAX
    ensures !HalfTestSound(s, U64_MAX) && Reprice.Reprice(p, s, U64_MAX) == p
  {
  }

  /** Three quarters of them sold should raise a price of a million by 41 per cent. */
  lemma StuckPrice(pow: real -> real, s: nat, x: real)
    requires IsPow2(pow) && s == 0xC000_0000_0000_0000 && x == 2.0 * s as real / U64_MAX as real - 1.0
    ensures Reprice.Reprice(1000000, s, U64_MAX) == 1000000
    ensures !PriceClose(Reprice.Reprice(1000000, s, U64_MAX), 1000000, pow(x))
  {
    SaturatedTestSticks(1000000, s);
    assert x >= 0.5;
    assert PowGrows(pow, 0.5, x) && PowAdds(pow, 0.5, 0.5);
    RootTwo(pow(0.5));
  }

  lemma RootTwo(g: real)
    requires g > 0.0 && g * g == 2.0
    ensures g >= 1.4
  {
    assert g < 1.4 ==> g * g < 1.4 * 1.4;
  }

  /** Everything sold at a price from 2^63 on: the doubled price stops at the largest number. */
  lemma DoublingSaturates(p: nat, a: nat)
    requires U64_MAX / 2 < p <= U64_MAX && a > 0
    ensures Reprice.Reprice(p, a, a) == U64_MAX
  {
  }
}
