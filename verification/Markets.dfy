/** The outcome space of a market: all combinations of the outcomes of its dimensions. */
module Markets {
  import opened Common

  function Product(dims: seq<nat>): nat {
    if dims == [] then 1 else Product(dims[..|dims| - 1]) * dims[|dims| - 1]
  }

  /** The mixed-radix digits of an index, the last dimension fastest. */
  function Digits(dims: seq<nat>, i: nat): seq<nat> {
    if dims == [] then []
    else
      var d := dims[|dims| - 1];
      if d == 0 then Digits(dims[..|dims| - 1], i) + [0]
      else Digits(dims[..|dims| - 1], i / d) + [i % d]
  }

  /** The index of a combination. */
  function Index(dims: seq<nat>, combo: seq<nat>): nat
    requires |combo| == |dims|
  {
    if dims == [] then 0
    else Index(dims[..|dims| - 1], combo[..|combo| - 1]) * dims[|dims| - 1] + combo[|combo| - 1]
  }

  ghost predicate InRange(dims: seq<nat>, combo: seq<nat>) {
    |combo| == |dims| && forall j | 0 <= j < |dims| :: combo[j] < dims[j]
  }

  lemma SmallMultiple(x: int, d: int)
    requires -d < x * d < d
    ensures x == 0
  {
    assert x >= 1 ==> x * d >= d;
    assert x <= -1 ==> x * d <= -d;
  }

  lemma DivModStep(c: nat, v: nat, d: nat)
    requires v < d
    ensures (c * d + v) / d == c && (c * d + v) % d == v
  {
    var n := c * d + v;
    assert n == n / d * d + n % d;
    assert (n / d - c) * d == v - n % d;
    SmallMultiple(n / d - c, d);
  }

  lemma DivBound(i: nat, p: nat, d: nat)
    requires i < p * d
    ensures d > 0 && i / d < p
  {
    var q := i / d;
    assert i >= q * d;
    assert q >= p ==> q * d >= p * d;
  }

  lemma {:induction false} DigitsInRange(dims: seq<nat>, i: nat)
    requires i < Product(dims)
    ensures InRange(dims, Digits(dims, i))
  {
    if dims != [] {
      var m, d := |dims| - 1, dims[|dims| - 1];
      DivBound(i, Product(dims[..m]), d);
      DigitsInRange(dims[..m], i / d);
    }
  }

  lemma {:induction false} DigitsLength(dims: seq<nat>, i: nat)
    ensures |Digits(dims, i)| == |dims|
  {
    if dims != [] {
      var m, d := |dims| - 1, dims[|dims| - 1];
      DigitsLength(dims[..m], if d == 0 then i else i / d);
    }
  }

  /** An index is recovered from its digits. */
  lemma {:induction false} IndexOfDigits(dims: seq<nat>, i: nat)
    requires i < Product(dims)
    ensures |Digits(dims, i)| == |dims| && Index(dims, Digits(dims, i)) == i
  {
    DigitsLength(dims, i);
    if dims != [] {
      var m, d := |dims| - 1, dims[|dims| - 1];
      DivBound(i, Product(dims[..m]), d);
      IndexOfDigits(dims[..m], i / d);
      assert Digits(dims, i)[..m] == Digits(dims[..m], i / d);
    }
  }

  lemma MulAddBound(c: nat, v: nat, p: nat, d: nat)
    requires c < p && v < d
    ensures c * d + v < p * d
  {
    assert (c + 1) * d <= p * d;
  }

  /** A combination is recovered from its index, which lies in the outcome space. */
  lemma {:induction false} DigitsOfIndex(dims: seq<nat>, combo: seq<nat>)
    requires InRange(dims, combo)
    ensures Index(dims, combo) < Product(dims) && Digits(dims, Index(dims, combo)) == combo
  {
    if dims != [] {
      var m, d := |dims| - 1, dims[|dims| - 1];
      DigitsOfIndex(dims[..m], combo[..m]);
      var c := Index(dims[..m], combo[..m]);
      DivModStep(c, combo[m], d);
      MulAddBound(c, combo[m], Product(dims[..m]), d);
      assert combo == combo[..m] + [combo[m]];
    }
  }

  /** `r` lists the combinations of `dims` in index order. */
  ghost predicate Lists(dims: seq<nat>, r: seq<seq<nat>>) {
    forall i | 0 <= i < |r| :: r[i] == Digits(dims, i)
  }

  /** Extends every combination by every value of one more dimension. */
  method Extend(ghost dims: seq<nat>, combos: seq<seq<nat>>, d: nat) returns (r: seq<seq<nat>>)
    requires Lists(dims, combos)
    ensures |r| == |combos| * d && Lists(dims + [d], r)
  {
    r := [];
    for c := 0 to |combos|
      invariant |r| == c * d && Lists(dims + [d], r)
    {
      ghost var start := c * d;
      for v := 0 to d
        invariant |r| == start + v && Lists(dims + [d], r)
      {
        ExtendStep(dims, combos, d, c, v, r);
        r := r + [combos[c] + [v]];
      }
      assert (c + 1) * d == start + d;
    }
  }

  lemma ExtendStep(dims: seq<nat>, combos: seq<seq<nat>>, d: nat, c: nat, v: nat, r: seq<seq<nat>>)
    requires Lists(dims, combos) && Lists(dims + [d], r) && c < |combos| && v < d && |r| == c * d + v
    ensures Lists(dims + [d], r + [combos[c] + [v]])
  {
    DivModStep(c, v, d);
    DigitsPush(dims, d, |r|);
  }

  lemma DigitsPush(dims: seq<nat>, d: nat, i: nat)
    requires d > 0
    ensures Digits(dims + [d], i) == Digits(dims, i / d) + [i % d]
  {
    assert (dims + [d])[..|dims|] == dims;
  }

  /** The list has one entry per point of the outcome space, entry i being the digits of i. */
  method CartesianProduct(dims: seq<nat>) returns (r: seq<seq<nat>>)
    ensures |r| == Product(dims) && Lists(dims, r)
  {
    r := [[]];
    for k := 0 to |dims|
      invariant |r| == Product(dims[..k]) && Lists(dims[..k], r)
    {
      assert dims[..k + 1] == dims[..k] + [dims[k]];
      assert dims[..k + 1][..k] == dims[..k];
      r := Extend(dims[..k], r, dims[k]);
    }
    assert dims[..|dims|] == dims;
  }

  ghost predicate PrefixesFit(dims: seq<nat>, n: nat) {
    forall k | 0 <= k <= n && k <= |dims| :: Product(dims[..k]) <= U64_MAX
  }

  /** The size of the space, unless a partial product exceeds the machine word. */
  method OutcomeSpaceSize(dims: seq<nat>) returns (r: Option<nat>)
    ensures r == if PrefixesFit(dims, |dims|) then Some(Product(dims)) else None
  {
    var acc: nat := 1;
    for k := 0 to |dims|
      invariant acc == Product(dims[..k]) && PrefixesFit(dims, k)
    {
      assert dims[..k + 1][..k] == dims[..k];
      if acc * dims[k] > U64_MAX {
        assert Product(dims[..k + 1]) > U64_MAX;
        return None;
      }
      acc := acc * dims[k];
    }
    assert dims[..|dims|] == dims;
    return Some(acc);
  }
}
