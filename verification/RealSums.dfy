/** Sums of real vectors and the distance between two of them. */
module RealSums {

  function Sum(s: seq<real>): real {
    if s == [] then 0.0 else Sum(s[..|s| - 1]) + s[|s| - 1]
  }

  function Gap(x: real, y: real): real {
    if x >= y then x - y else y - x
  }

  /** The sum of the absolute differences. */
  ghost function Distance(u: seq<real>, v: seq<real>): real
    requires |u| == |v|
  {
    if u == [] then 0.0
    else Distance(u[..|u| - 1], v[..|v| - 1]) + Gap(u[|u| - 1], v[|v| - 1])
  }

  lemma {:induction false} Triangle(u: seq<real>, v: seq<real>, w: seq<real>)
    requires |u| == |v| == |w|
    ensures Distance(u, w) <= Distance(u, v) + Distance(v, w)
  {
    if u != [] {
      var n := |u| - 1;
      Triangle(u[..n], v[..n], w[..n]);
    }
  }

  /** When one vector dominates the other the distance is the difference of the sums. */
  lemma {:induction false} DistanceDominated(u: seq<real>, v: seq<real>)
    requires |u| == |v| && forall i | 0 <= i < |u| :: u[i] >= v[i]
    ensures Distance(u, v) == Distance(v, u) == Sum(u) - Sum(v)
  {
    if u != [] {
      var n := |u| - 1;
      DistanceDominated(u[..n], v[..n]);
    }
  }

  /** The sums of two vectors differ by no more than their distance. */
  lemma {:induction false} SumGap(u: seq<real>, v: seq<real>)
    requires |u| == |v|
    ensures Gap(Sum(u), Sum(v)) <= Distance(u, v)
  {
    if u != [] {
      var n := |u| - 1;
      SumGap(u[..n], v[..n]);
    }
  }

  lemma {:induction false} DistanceWithin(u: seq<real>, v: seq<real>, e: real)
    requires |u| == |v| && forall i | 0 <= i < |u| :: Gap(u[i], v[i]) <= e
    ensures Distance(u, v) <= |u| as real * e
  {
    if u != [] {
      var n := |u| - 1;
      DistanceWithin(u[..n], v[..n], e);
      assert n as real * e + e == (n + 1) as real * e;
    }
  }

  /** Scaling every entry scales the sum. */
  lemma {:induction false} SumScaled(w: seq<real>, x: seq<real>, c: real)
    requires |w| == |x| && forall i | 0 <= i < |w| :: x[i] == w[i] * c
    ensures Sum(x) == Sum(w) * c
  {
    if w != [] {
      var n := |w| - 1;
      SumScaled(w[..n], x[..n], c);
      Factor(Sum(w[..n]), w[n], c);
    }
  }

  lemma Factor(a: real, b: real, c: real)
    ensures a * c + b * c == (a + b) * c
  {
  }

  /** Changing one entry changes the sum by the same amount. */
  lemma {:induction false} SumUpdate(s: seq<real>, i: nat, x: real)
    requires i < |s|
    ensures Sum(s[i := x]) == Sum(s) + x - s[i]
  {
    var n := |s| - 1;
    if i < n {
      SumUpdate(s[..n], i, x);
      assert s[i := x][..n] == s[..n][i := x];
    } else {
      assert s[i := x][..n] == s[..n];
    }
  }
}
