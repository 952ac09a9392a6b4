/**
 The logarithmic market scoring rule over the reals. The exponential and the logarithm are
 parameters, known only by a few laws.
 */
module Lmsr {
  import opened Common
  import opened RealSums

  /** An exponential and a logarithm. */
  datatype Analysis = Analysis(exp: real -> real, ln: real -> real)

  ghost predicate ExpAdds(f: Analysis, x: real, y: real) {
    f.exp(x + y) == f.exp(x) * f.exp(y)
  }

  ghost predicate ExpGrows(f: Analysis, x: real, y: real) {
    x <= y ==> f.exp(x) <= f.exp(y)
  }

  /** The exponential lies below its chord from 0 to x. */
  ghost predicate ExpConvex(f: Analysis, t: real, x: real, y: real) {
    0.0 <= t <= 1.0 && y == t * x ==> f.exp(y) <= 1.0 - t + t * f.exp(x)
  }

  ghost predicate LnGrows(f: Analysis, x: real, y: real) {
    0.0 < x <= y ==> f.ln(x) <= f.ln(y)
  }

  ghost predicate Laws(f: Analysis) {
    && f.exp(0.0) == 1.0
    && (forall x {:trigger f.exp(x)} :: f.exp(x) > 0.0)
    && (forall x, y {:trigger ExpAdds(f, x, y)} :: ExpAdds(f, x, y))
    && (forall x, y {:trigger ExpGrows(f, x, y)} :: ExpGrows(f, x, y))
    && (forall t, x, y {:trigger ExpConvex(f, t, x, y)} :: ExpConvex(f, t, x, y))
    && (forall x, y {:trigger LnGrows(f, x, y)} :: LnGrows(f, x, y))
    && (forall x {:trigger f.ln(f.exp(x))} :: f.ln(f.exp(x)) == x)
    && forall x {:trigger f.exp(f.ln(x))} | x > 0.0 :: f.exp(f.ln(x)) == x
  }

  lemma ProductPositive(x: real, y: real)
    requires x > 0.0 && y > 0.0
    ensures x * y > 0.0
  {
  }

  lemma LnProduct(f: Analysis, x: real, d: real, p: real)
    requires Laws(f) && x > 0.0 && p == x * f.exp(d)
    ensures p > 0.0 && f.ln(p) == f.ln(x) + d
  {
    ProductPositive(x, f.exp(d));
    assert ExpAdds(f, f.ln(x), d);
    assert f.exp(f.ln(x)) == x;
    SameFactor(f.exp(f.ln(x)), x, f.exp(d));
    assert f.exp(f.ln(x) + d) == p;
    assert f.ln(f.exp(f.ln(x) + d)) == f.ln(x) + d;
  }

  lemma SameFactor(x: real, y: real, z: real)
    requires x == y
    ensures x * z == y * z
  {
  }

  lemma LnOne(f: Analysis)
    requires Laws(f)
    ensures f.ln(1.0) == 0.0
  {
    assert f.ln(f.exp(0.0)) == 0.0;
  }

  lemma LnAboveOne(f: Analysis, x: real)
    requires Laws(f) && x > 1.0
    ensures f.ln(x) > 0.0
  {
    LnOne(f);
    assert LnGrows(f, 1.0, x);
    assert f.exp(f.ln(x)) == x && f.exp(0.0) == 1.0;
  }

  // ----- The cost function

  datatype LmsrError = InvalidBeta | DimensionMismatch

  const MIN_BETA: real := 0.000001
  const MAX_BETA: real := 1000000000000.0

  function Max(q: seq<real>): (m: real)
    requires q != []
    ensures m in q && forall i | 0 <= i < |q| :: q[i] <= m
  {
    var last := q[|q| - 1];
    if |q| == 1 then last
    else
      var m := Max(q[..|q| - 1]);
      if m >= last then m else last
  }

  /** One shifted term. */
  function ExpTerm(f: Analysis, beta: real, x: real, shift: real): real
    requires beta > 0.0
  {
    f.exp((x - shift) / beta)
  }

  function ExpSum(f: Analysis, beta: real, q: seq<real>, shift: real): real
    requires beta > 0.0
  {
    if q == [] then 0.0
    else ExpSum(f, beta, q[..|q| - 1], shift) + ExpTerm(f, beta, q[|q| - 1], shift)
  }

  /** The cost as the source computes it, shifted by the largest share. */
  function Cost(f: Analysis, beta: real, q: seq<real>): real
    requires beta > 0.0 && q != []
  {
    beta * (f.ln(ExpSum(f, beta, q, Max(q))) + Max(q) / beta)
  }

  function CostFunction(f: Analysis, beta: real, q: seq<real>): Result<real, LmsrError> {
    if beta <= MIN_BETA || beta >= MAX_BETA then Err(InvalidBeta)
    else if q == [] then Ok(0.0)
    else Ok(Cost(f, beta, q))
  }

  function UpdateCost(f: Analysis, beta: real, q: seq<real>, q': seq<real>): Result<real, LmsrError> {
    if |q| != |q'| then Err(DimensionMismatch)
    else
      var current, next := CostFunction(f, beta, q), CostFunction(f, beta, q');
      if current.Err? then current else if next.Err? then next else Ok(next.value - current.value)
  }

  // ----- Sums of shifted terms

  lemma Quotient(x: real, y: real, b: real)
    requires b > 0.0
    ensures b * (x / b) == x
    ensures x / b + y / b == (x + y) / b
    ensures x <= y ==> x / b <= y / b
    ensures x / b - y / b == (x - y) / b
  {
  }

  /** Changing the shift multiplies every term by the same factor. */
  lemma TermShift(f: Analysis, beta: real, x: real, r: real, s: real)
    requires Laws(f) && beta > 0.0
    ensures ExpTerm(f, beta, x, s) == ExpTerm(f, beta, x, r) * f.exp((r - s) / beta)
  {
    Quotient(x - r, r - s, beta);
    assert ExpAdds(f, (x - r) / beta, (r - s) / beta);
  }

  lemma {:induction false} SumShift(f: Analysis, beta: real, q: seq<real>, r: real, s: real)
    requires Laws(f) && beta > 0.0
    ensures ExpSum(f, beta, q, s) == ExpSum(f, beta, q, r) * f.exp((r - s) / beta)
  {
    if q != [] {
      SumShift(f, beta, q[..|q| - 1], r, s);
      TermShift(f, beta, q[|q| - 1], r, s);
    }
  }

  lemma {:induction false} SumPositive(f: Analysis, beta: real, q: seq<real>, s: real)
    requires Laws(f) && beta > 0.0 && q != []
    ensures ExpSum(f, beta, q, s) > 0.0
  {
    if |q| > 1 {
      SumPositive(f, beta, q[..|q| - 1], s);
    }
  }

  /** Shifted by an upper bound every term is at most 1. */
  lemma {:induction false} SumAtMost(f: Analysis, beta: real, q: seq<real>, s: real)
    requires Laws(f) && beta > 0.0
    requires forall i | 0 <= i < |q| :: q[i] <= s
    ensures 0.0 <= ExpSum(f, beta, q, s) <= |q| as real
  {
    if q != [] {
      var last := q[|q| - 1];
      SumAtMost(f, beta, q[..|q| - 1], s);
      Quotient(last - s, 0.0, beta);
      assert ExpGrows(f, (last - s) / beta, 0.0);
    }
  }

  /** The sum is at least any one of its terms. */
  lemma {:induction false} SumAtLeast(f: Analysis, beta: real, q: seq<real>, s: real, i: nat)
    requires Laws(f) && beta > 0.0 && i < |q|
    ensures ExpSum(f, beta, q, s) >= ExpTerm(f, beta, q[i], s)
  {
    if i == |q| - 1 {
      if |q| > 1 {
        SumPositive(f, beta, q[..|q| - 1], s);
      }
    } else {
      SumAtLeast(f, beta, q[..|q| - 1], s, i);
    }
  }

  // ----- Properties of the cost

  lemma ShiftArithmetic(beta: real, l: real, k: real, s: real, m: real)
    requires beta > 0.0 && k == l + (s - m) / beta
    ensures beta * (k + m / beta) == beta * l + s
  {
    Quotient(s - m, m, beta);
    Quotient(s, 0.0, beta);
    assert k + m / beta == l + s / beta;
    assert beta * (l + s / beta) == beta * l + beta * (s / beta);
  }

  /** The max-shifted form equals the form with any shift; `l` is the logarithm of the sum. */
  lemma CostAnyShift(f: Analysis, beta: real, q: seq<real>, s: real) returns (l: real)
    requires Laws(f) && beta > 0.0 && q != []
    ensures l == f.ln(ExpSum(f, beta, q, s)) && Cost(f, beta, q) == beta * l + s
    ensures ExpSum(f, beta, q, s) > 0.0
  {
    var m, sum := Max(q), ExpSum(f, beta, q, s);
    SumPositive(f, beta, q, s);
    SumShift(f, beta, q, s, m);
    LnProduct(f, sum, (s - m) / beta, ExpSum(f, beta, q, m));
    l := f.ln(sum);
    ShiftArithmetic(beta, l, f.ln(ExpSum(f, beta, q, m)), s, m);
  }

  /** The numerically stable form is the textbook cost beta ln(sum exp(q_i / beta)). */
  lemma CostTextbook(f: Analysis, beta: real, q: seq<real>)
    requires Laws(f) && beta > 0.0 && q != []
    ensures Cost(f, beta, q) == beta * f.ln(ExpSum(f, beta, q, 0.0))
  {
    var l := CostAnyShift(f, beta, q, 0.0);
    assert beta * l == beta * f.ln(ExpSum(f, beta, q, 0.0));
  }

  lemma ScaleLe(b: real, x: real, y: real)
    requires b > 0.0 && x <= y
    ensures b * x <= b * y
  {
  }

  lemma LnSumBounds(f: Analysis, beta: real, q: seq<real>, m: real, l: real)
    requires Laws(f) && beta > 0.0 && q != [] && m == Max(q) && l == f.ln(ExpSum(f, beta, q, m))
    ensures 0.0 <= l <= f.ln(|q| as real)
  {
    var i :| 0 <= i < |q| && q[i] == m;
    SumAtMost(f, beta, q, m);
    SumAtLeast(f, beta, q, m, i);
    assert (m - m) / beta == 0.0;
    LnOne(f);
    var sum := ExpSum(f, beta, q, m);
    assert LnGrows(f, 1.0, sum) && LnGrows(f, sum, |q| as real);
  }

  /** max(q) <= C(q) <= max(q) + beta ln n. */
  lemma CostBounds(f: Analysis, beta: real, q: seq<real>, lnN: real)
    requires Laws(f) && beta > 0.0 && q != [] && lnN == f.ln(|q| as real)
    ensures Max(q) <= Cost(f, beta, q) <= Max(q) + beta * lnN
  {
    var m := Max(q);
    var l := CostAnyShift(f, beta, q, m);
    LnSumBounds(f, beta, q, m, l);
    BoundsArithmetic(beta, l, lnN, m, Cost(f, beta, q));
  }

  lemma BoundsArithmetic(beta: real, l: real, k: real, m: real, cost: real)
    requires beta > 0.0 && 0.0 <= l <= k && cost == beta * l + m
    ensures m <= cost <= m + beta * k
  {
    ScaleLe(beta, 0.0, l);
    ScaleLe(beta, l, k);
  }

  /** A market with no shares outstanding costs beta ln n. */
  lemma CostAtStart(f: Analysis, beta: real, q: seq<real>)
    requires Laws(f) && beta > 0.0 && q != [] && forall i | 0 <= i < |q| :: q[i] == 0.0
    ensures Cost(f, beta, q) == beta * f.ln(|q| as real)
  {
    var l := CostAnyShift(f, beta, q, 0.0);
    SumOfZeros(f, beta, q);
    assert l == f.ln(|q| as real);
  }

  lemma {:induction false} SumOfZeros(f: Analysis, beta: real, q: seq<real>)
    requires Laws(f) && beta > 0.0 && forall i | 0 <= i < |q| :: q[i] == 0.0
    ensures ExpSum(f, beta, q, 0.0) == |q| as real
  {
    if q != [] {
      SumOfZeros(f, beta, q[..|q| - 1]);
      assert (0.0 - 0.0) / beta == 0.0;
    }
  }

  lemma {:induction false} SumMono(f: Analysis, beta: real, q: seq<real>, r: seq<real>, s: real)
    requires Laws(f) && beta > 0.0 && |q| == |r|
    requires forall i | 0 <= i < |q| :: q[i] <= r[i]
    ensures ExpSum(f, beta, q, s) <= ExpSum(f, beta, r, s)
  {
    if q != [] {
      var n := |q| - 1;
      SumMono(f, beta, q[..n], r[..n], s);
      Quotient(q[n] - s, r[n] - s, beta);
      assert ExpGrows(f, (q[n] - s) / beta, (r[n] - s) / beta);
    }
  }

  lemma LnSumMono(f: Analysis, beta: real, q: seq<real>, r: seq<real>)
    requires Laws(f) && beta > 0.0 && q != [] && |q| == |r|
    requires forall i | 0 <= i < |q| :: q[i] <= r[i]
    ensures f.ln(ExpSum(f, beta, q, 0.0)) <= f.ln(ExpSum(f, beta, r, 0.0))
  {
    SumPositive(f, beta, q, 0.0);
    SumMono(f, beta, q, r, 0.0);
    assert LnGrows(f, ExpSum(f, beta, q, 0.0), ExpSum(f, beta, r, 0.0));
  }

  /** More shares never cost less. */
  lemma CostMono(f: Analysis, beta: real, q: seq<real>, r: seq<real>)
    requires Laws(f) && beta > 0.0 && q != [] && |q| == |r|
    requires forall i | 0 <= i < |q| :: q[i] <= r[i]
    ensures Cost(f, beta, q) <= Cost(f, beta, r)
  {
    var l := CostAnyShift(f, beta, q, 0.0);
    var k := CostAnyShift(f, beta, r, 0.0);
    LnSumMono(f, beta, q, r);
    MonoArithmetic(beta, l, k, Cost(f, beta, q), Cost(f, beta, r));
  }

  lemma MonoArithmetic(beta: real, l: real, k: real, c: real, d: real)
    requires beta > 0.0 && l <= k && c == beta * l + 0.0 && d == beta * k + 0.0
    ensures c <= d
  {
    ScaleLe(beta, l, k);
  }

  /** The same term under a larger beta lies below the chord. */
  lemma TermChord(f: Analysis, b: real, c: real, x: real, s: real, t: real)
    requires Laws(f) && 0.0 < b <= c && t == b / c
    ensures ExpTerm(f, c, x, s) <= 1.0 - t + t * ExpTerm(f, b, x, s)
  {
    var z := (x - s) / b;
    ChordRatio(b, c, x - s, t, z);
    assert ExpConvex(f, t, z, (x - s) / c);
  }

  lemma {:induction false} SumChord(f: Analysis, b: real, c: real, q: seq<real>, s: real, t: real, sum: real)
    requires Laws(f) && 0.0 < b <= c && t == b / c && sum == ExpSum(f, b, q, s)
    ensures ExpSum(f, c, q, s) <= |q| as real * (1.0 - t) + t * sum
  {
    if q != [] {
      var n := |q| - 1;
      var sum', term' := ExpSum(f, b, q[..n], s), ExpTerm(f, b, q[n], s);
      SumChord(f, b, c, q[..n], s, t, sum');
      TermChord(f, b, c, q[n], s, t);
      var total := ExpSum(f, c, q, s);
      ChordArithmetic(n, t, ExpSum(f, c, q[..n], s), sum', ExpTerm(f, c, q[n], s), term', total, sum);
      assert |q| == n + 1;
    }
  }

  lemma ChordArithmetic(n: nat, t: real, sum: real, sum': real, term: real, term': real, total: real, total': real)
    requires sum <= n as real * (1.0 - t) + t * sum'
    requires term <= 1.0 - t + t * term'
    requires total == sum + term && total' == sum' + term'
    ensures total <= (n + 1) as real * (1.0 - t) + t * total'
  {
    assert n as real * (1.0 - t) + (1.0 - t) == (n + 1) as real * (1.0 - t);
    assert t * sum' + t * term' == t * total';
  }

  lemma ChordRatio(b: real, c: real, x: real, t: real, z: real)
    requires 0.0 < b <= c && t == b / c && z == x / b
    ensures 0.0 <= t <= 1.0 && t * z == x / c
  {
    assert z * b == x;
    assert t * c == b;
    assert (t * z) * c == x;
  }

  /**
   Raising beta raises the cost by at most what the extra liquidity pays for. This is
   Jensen's inequality, applied at the shift that makes the mean of the terms 1.
   */
  lemma CostAmplify(f: Analysis, b: real, c: real, q: seq<real>)
    requires Laws(f) && 0.0 < b <= c && q != []
    ensures Cost(f, c, q) <= Cost(f, b, q) + (c - b) * f.ln(|q| as real)
  {
    var n := |q| as real;
    var k := f.ln(n);
    var s := Cost(f, b, q) - b * k;
    MeanOne(f, b, q, s, k);
    SumStays(f, b, c, q, s);
    var l := CostAnyShift(f, c, q, s);
    assert LnGrows(f, ExpSum(f, c, q, s), n);
    AmplifyArithmetic(b, c, l, k, s, Cost(f, b, q), Cost(f, c, q));
  }

  lemma AmplifyArithmetic(b: real, c: real, l: real, k: real, s: real, before: real, after: real)
    requires c > 0.0 && l <= k && s == before - b * k && after == c * l + s
    ensures after <= before + (c - b) * k
  {
    ScaleLe(c, l, k);
    assert c * k - b * k == (c - b) * k;
  }

  /** If the terms have mean 1 they have mean at most 1 under a larger beta. */
  lemma SumStays(f: Analysis, b: real, c: real, q: seq<real>, s: real)
    requires Laws(f) && 0.0 < b <= c && ExpSum(f, b, q, s) == |q| as real
    ensures ExpSum(f, c, q, s) <= |q| as real
  {
    var n, t := |q| as real, b / c;
    SumChord(f, b, c, q, s, t, n);
    assert n * (1.0 - t) + t * n == n;
  }

  lemma MeanOne(f: Analysis, b: real, q: seq<real>, s: real, k: real)
    requires Laws(f) && b > 0.0 && q != [] && k == f.ln(|q| as real) && s == Cost(f, b, q) - b * k
    ensures ExpSum(f, b, q, s) == |q| as real
  {
    var l := CostAnyShift(f, b, q, s);
    SolveForLog(b, l, k, s, Cost(f, b, q));
    LnInjective(f, ExpSum(f, b, q, s), |q| as real);
  }

  lemma SolveForLog(b: real, l: real, k: real, s: real, cost: real)
    requires b > 0.0 && cost == b * l + s && s == cost - b * k
    ensures l == k
  {
    assert b * (l - k) == 0.0;
  }

  lemma LnInjective(f: Analysis, x: real, y: real)
    requires Laws(f) && x > 0.0 && y > 0.0 && f.ln(x) == f.ln(y)
    ensures x == y
  {
    assert f.exp(f.ln(x)) == x && f.exp(f.ln(y)) == y;
  }

  // ----- Prices

  function Prices(f: Analysis, beta: real, q: seq<real>): (r: seq<real>)
    requires Laws(f) && beta > 0.0 && q != []
    ensures |r| == |q|
  {
    SumPositive(f, beta, q, Max(q));
    seq(|q|, i requires 0 <= i < |q| => ExpTerm(f, beta, q[i], Max(q)) / ExpSum(f, beta, q, Max(q)))
  }

  lemma {:induction false} QuotientsSum(f: Analysis, beta: real, q: seq<real>, s: real, total: real, r: seq<real>)
    requires beta > 0.0 && total > 0.0 && |r| == |q|
    requires forall i | 0 <= i < |q| :: r[i] == ExpTerm(f, beta, q[i], s) / total
    ensures Sum(r) == ExpSum(f, beta, q, s) / total
  {
    if q != [] {
      var n := |q| - 1;
      QuotientsSum(f, beta, q[..n], s, total, r[..n]);
      Quotient(ExpSum(f, beta, q[..n], s), ExpTerm(f, beta, q[n], s), total);
    }
  }

  /** The prices are positive and sum to one. */
  lemma PricesAreDistribution(f: Analysis, beta: real, q: seq<real>)
    requires Laws(f) && beta > 0.0 && q != []
    ensures Sum(Prices(f, beta, q)) == 1.0
    ensures forall i | 0 <= i < |q| :: Prices(f, beta, q)[i] > 0.0
  {
    var total, prices := ExpSum(f, beta, q, Max(q)), Prices(f, beta, q);
    SumPositive(f, beta, q, Max(q));
    QuotientsSum(f, beta, q, Max(q), total, prices);
    forall i | 0 <= i < |q|
      ensures Prices(f, beta, q)[i] > 0.0
    {
      QuotientPositive(ExpTerm(f, beta, q[i], Max(q)), total);
    }
  }

  ghost predicate IsProduct(z: real, x: real, y: real) {
    z == x * y
  }

  /** Prices are in proportion to the exponentials of the shares, which with their sum fixes them. */
  lemma PriceRatio(f: Analysis, beta: real, q: seq<real>, i: nat, j: nat)
    requires Laws(f) && beta > 0.0 && i < |q| && j < |q|
    ensures IsProduct(Prices(f, beta, q)[j], Prices(f, beta, q)[i], f.exp((q[j] - q[i]) / beta))
  {
    var s, total := Max(q), ExpSum(f, beta, q, Max(q));
    SumPositive(f, beta, q, s);
    TermsScale(f, beta, q[i], q[j], s);
    RatioScales(ExpTerm(f, beta, q[i], s), f.exp((q[j] - q[i]) / beta), ExpTerm(f, beta, q[j], s), total,
                Prices(f, beta, q)[i], Prices(f, beta, q)[j]);
  }

  lemma TermsScale(f: Analysis, beta: real, a: real, b: real, s: real)
    requires Laws(f) && beta > 0.0
    ensures IsProduct(ExpTerm(f, beta, b, s), ExpTerm(f, beta, a, s), f.exp((b - a) / beta))
  {
    var x, d := (a - s) / beta, (b - a) / beta;
    assert ExpAdds(f, x, d);
    QuotientsAdd(a - s, b - a, b - s, beta);
  }

  lemma QuotientsAdd(x: real, y: real, z: real, b: real)
    requires b > 0.0 && z == x + y
    ensures x / b + y / b == z / b
  {
  }

  lemma RatioScales(a: real, e: real, c: real, t: real, p: real, p': real)
    requires t > 0.0 && IsProduct(c, a, e) && p == a / t && p' == c / t
    ensures IsProduct(p', p, e)
  {
    assert p * e * t == a * e;
  }

  lemma QuotientPositive(x: real, y: real)
    requires x > 0.0 && y > 0.0
    ensures x / y > 0.0
  {
  }
}
