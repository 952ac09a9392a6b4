/**
 Proportional allocation of a pool of satoshis, with repair of the rounding remainder. A
 participant is named by its position in the list of weights.
 */
module Allocation {
  import opened Common
  import opened SafeMath
  import opened RealSums
  import opened Sorting

  /** A participant and the amount it is given. */
  datatype Entry = Entry(key: nat, amount: int)

  type Entries = seq<Entry>

  /** The entries and the total the source reports with them. */
  datatype Allocated = Allocated(entries: Entries, total: int)

  const EPSILON: real := 1.0 / 4503599627370496.0

  // ----- What a list of entries gives to each participant

  function Amount(): Entry -> int {
    (e: Entry) => e.amount
  }

  function AmountFor(key: nat): Entry -> int {
    (e: Entry) => if e.key == key then e.amount else 0
  }

  function Total(es: Entries): int {
    SumOf(es, Amount())
  }

  /** The amounts given to the first `n` participants. */
  ghost function Vector(es: Entries, n: nat): seq<real> {
    seq(n, i requires 0 <= i < n => SumOf(es, AmountFor(i)) as real)
  }

  ghost predicate KeysBelow(es: Entries, n: nat) {
    forall e | e in es :: e.key < n
  }

  lemma AmountsAfterPush(es: Entries, e: Entry, key: nat)
    ensures Total(es + [e]) == Total(es) + e.amount
    ensures SumOf(es + [e], AmountFor(key)) == SumOf(es, AmountFor(key)) + if key == e.key then e.amount else 0
  {
    SumOfPush(es, e, Amount());
    SumOfPush(es, e, AmountFor(key));
  }

  lemma VectorPush(es: Entries, e: Entry, n: nat)
    requires e.key < n
    ensures Vector(es + [e], n) == Vector(es, n)[e.key := Vector(es, n)[e.key] + e.amount as real]
  {
    forall i | 0 <= i < n
      ensures Vector(es + [e], n)[i] == Vector(es, n)[i] + if i == e.key then e.amount as real else 0.0
    {
      AmountsAfterPush(es, e, i);
    }
  }

  /** Everything handed out goes to somebody. */
  lemma {:induction false} VectorSum(es: Entries, n: nat)
    requires KeysBelow(es, n)
    ensures Sum(Vector(es, n)) == Total(es) as real
  {
    if es == [] {
      ZeroSum(Vector(es, n));
    } else {
      var m := |es| - 1;
      var v := Vector(es[..m], n);
      VectorSum(es[..m], n);
      assert es == es[..m] + [es[m]];
      VectorPush(es[..m], es[m], n);
      SumUpdate(v, es[m].key, v[es[m].key] + es[m].amount as real);
    }
  }

  lemma {:induction false} ZeroSum(s: seq<real>)
    requires forall i | 0 <= i < |s| :: s[i] == 0.0
    ensures Sum(s) == 0.0
  {
    if s != [] {
      ZeroSum(s[..|s| - 1]);
    }
  }

  lemma VectorSorted(es: Entries, n: nat)
    ensures Vector(SortBy(es, Amount()), n) == Vector(es, n)
    ensures Total(SortBy(es, Amount())) == Total(es)
    ensures KeysBelow(es, n) ==> KeysBelow(SortBy(es, Amount()), n)
  {
    forall i | 0 <= i < n
      ensures Vector(SortBy(es, Amount()), n)[i] == Vector(es, n)[i]
    {
      SortSum(es, Amount(), AmountFor(i));
    }
    SortSum(es, Amount(), Amount());
    SortPermutes(es, Amount());
    assert forall e | e in SortBy(es, Amount()) :: e in multiset(SortBy(es, Amount()));
  }

  // ----- Choosing an entry

  /** `idx` is the last of the largest entries. */
  ghost predicate LastLargest(es: Entries, idx: nat) {
    && idx < |es| && (forall j | 0 <= j < |es| :: es[j].amount <= es[idx].amount)
    && forall j | idx < j < |es| :: es[j].amount < es[idx].amount
  }

  /** `idx` is the first of the smallest entries. */
  ghost predicate FirstSmallest(es: Entries, idx: nat) {
    && idx < |es| && (forall j | 0 <= j < |es| :: es[idx].amount <= es[j].amount)
    && forall j | 0 <= j < idx :: es[idx].amount < es[j].amount
  }

  /** `es'` is `es` with `diff` added to entry `idx`. */
  ghost predicate ShiftedAt(es: Entries, es': Entries, idx: nat, diff: int) {
    idx < |es| && es' == es[idx := Entry(es[idx].key, es[idx].amount + diff)]
  }

  method ArgMax(es: Entries) returns (idx: nat)
    requires es != []
    ensures LastLargest(es, idx)
  {
    idx := 0;
    for i := 1 to |es|
      invariant idx < i && forall j | 0 <= j < i :: es[j].amount <= es[idx].amount
      invariant forall j | idx < j < i :: es[j].amount < es[idx].amount
    {
      if es[i].amount >= es[idx].amount {
        idx := i;
      }
    }
  }

  method ArgMin(es: Entries) returns (idx: nat)
    requires es != []
    ensures FirstSmallest(es, idx)
  {
    idx := 0;
    for i := 1 to |es|
      invariant idx < i && forall j | 0 <= j < i :: es[idx].amount <= es[j].amount
      invariant forall j | 0 <= j < idx :: es[idx].amount < es[j].amount
    {
      if es[i].amount < es[idx].amount {
        idx := i;
      }
    }
  }

  // ----- Exact shares

  ghost predicate AllHeavy(weights: seq<real>) {
    forall j | 0 <= j < |weights| :: weights[j] >= EPSILON
  }

  /** The exact share of participant i. */
  function Share(weights: seq<real>, pool: int, i: nat): real
    requires i < |weights| && Sum(weights) > 0.0
  {
    weights[i] / Sum(weights) * pool as real
  }

  ghost function Shares(weights: seq<real>, pool: int): seq<real>
    requires Sum(weights) > 0.0
  {
    seq(|weights|, i requires 0 <= i < |weights| => Share(weights, pool, i))
  }

  lemma SharesSum(weights: seq<real>, pool: int)
    requires Sum(weights) > 0.0
    ensures Sum(Shares(weights, pool)) == pool as real
  {
    var total := Sum(weights);
    forall i | 0 <= i < |weights|
      ensures Shares(weights, pool)[i] == weights[i] * (pool as real / total)
    {
      Regroup(weights[i], total, pool as real);
    }
    SumScaled(weights, Shares(weights, pool), pool as real / total);
  }

  lemma Regroup(w: real, t: real, p: real)
    requires t > 0.0
    ensures w / t * p == w * (p / t)
    ensures t * (p / t) == p
  {
  }

  lemma {:induction false} WeightAtMostSum(weights: seq<real>, i: nat)
    requires i < |weights| && AllHeavy(weights)
    ensures weights[i] <= Sum(weights)
  {
    var n := |weights| - 1;
    if i < n {
      WeightAtMostSum(weights[..n], i);
    } else if n > 0 {
      WeightAtMostSum(weights[..n], 0);
    }
  }

  lemma ShareBounds(weights: seq<real>, pool: int, i: nat)
    requires i < |weights| && AllHeavy(weights)
    ensures Sum(weights) > 0.0
    ensures pool >= 0 ==> 0.0 <= Share(weights, pool, i) <= pool as real
    ensures pool <= 0 ==> pool as real <= Share(weights, pool, i) <= 0.0
  {
    WeightAtMostSum(weights, i);
    var w, t, p := weights[i], Sum(weights), pool as real;
    RatioBounds(w, t, p);
    assert Share(weights, pool, i) == w / t * p;
  }

  lemma RatioBounds(w: real, t: real, p: real)
    requires 0.0 < w <= t
    ensures p >= 0.0 ==> 0.0 <= w / t * p <= p
    ensures p <= 0.0 ==> p <= w / t * p <= 0.0
  {
    var r := w / t;
    assert r * t == w;
    assert 0.0 <= r <= 1.0;
    if p >= 0.0 {
      assert r * p <= 1.0 * p;
    } else {
      assert r * -p <= 1.0 * -p;
    }
  }

  // ----- Phase one: round every share to nearest

  /** The share of participant i rounded to nearest, or nothing if its weight is negligible. */
  ghost function RoundedShare(weights: seq<real>, pool: int, i: nat): (r: int)
    requires Sum(weights) > 0.0 && i < |weights|
    ensures pool >= 0 ==> r >= 0
    ensures pool <= 0 ==> r <= 0
  {
    if weights[i] < EPSILON then 0
    else
      RatioSign(weights[i], Sum(weights), pool as real);
      RoundNearest(Share(weights, pool, i))
  }

  lemma RatioSign(w: real, t: real, p: real)
    requires w > 0.0 && t > 0.0
    ensures p >= 0.0 ==> w / t * p >= 0.0
    ensures p <= 0.0 ==> w / t * p <= 0.0
  {
    var r := w / t;
    assert r > 0.0;
  }

  /** The total of the first n rounded shares. */
  ghost function RoundedTotal(weights: seq<real>, pool: int, n: nat): int
    requires Sum(weights) > 0.0 && n <= |weights|
  {
    if n == 0 then 0 else RoundedTotal(weights, pool, n - 1) + RoundedShare(weights, pool, n - 1)
  }

  /** All shares go the same way, so the total only moves away from zero. */
  lemma {:induction false} RoundedTotalMono(weights: seq<real>, pool: int, i: nat, n: nat)
    requires Sum(weights) > 0.0 && i <= n <= |weights|
    ensures pool >= 0 ==> 0 <= RoundedTotal(weights, pool, i) <= RoundedTotal(weights, pool, n)
    ensures pool <= 0 ==> RoundedTotal(weights, pool, n) <= RoundedTotal(weights, pool, i) <= 0
    decreases n
  {
    if i < n {
      RoundedTotalMono(weights, pool, i, n - 1);
    } else if n > 0 {
      RoundedTotalMono(weights, pool, n - 1, n - 1);
    }
  }

  /** After phase one participant i holds its rounded share. */
  ghost predicate Rounded(weights: seq<real>, pool: int, es: Entries, n: nat)
    requires Sum(weights) > 0.0 && n <= |weights|
  {
    && KeysBelow(es, n)
    && Total(es) == RoundedTotal(weights, pool, n)
    && forall i | 0 <= i < n :: SumOf(es, AmountFor(i)) == RoundedShare(weights, pool, i)
  }

  lemma {:induction false} AbsentKey(es: Entries, key: nat)
    requires KeysBelow(es, key)
    ensures SumOf(es, AmountFor(key)) == 0
  {
    if es != [] {
      AbsentKey(es[..|es| - 1], key);
    }
  }

  lemma RoundedPush(weights: seq<real>, pool: int, es: Entries, n: nat, amount: int, es': Entries)
    requires Sum(weights) > 0.0 && n < |weights| && Rounded(weights, pool, es, n)
    requires amount == RoundedShare(weights, pool, n)
    requires es' == if amount != 0 then es + [Entry(n, amount)] else es
    ensures Rounded(weights, pool, es', n + 1)
  {
    AbsentKey(es, n);
    if amount != 0 {
      forall i | 0 <= i < n + 1
        ensures SumOf(es', AmountFor(i)) == RoundedShare(weights, pool, i)
      {
        AmountsAfterPush(es, Entry(n, amount), i);
      }
      AmountsAfterPush(es, Entry(n, amount), n);
    }
  }

  lemma RoundingError(x: real, r: int)
    requires r == RoundNearest(x)
    ensures Gap(r as real, x) <= 0.5
  {
  }

  lemma GapsAddUp(u: seq<real>, v: seq<real>)
    requires |u| == |v| && forall i | 0 <= i < |u| :: Gap(u[i], v[i]) <= 0.5
    ensures Distance(u, v) <= |u| as real * 0.5
    ensures Gap(Sum(u), Sum(v)) <= |u| as real * 0.5
  {
    DistanceWithin(u, v, 0.5);
    SumGap(u, v);
  }

  /** Rounding moves each participant by at most a half, so all of them by at most n/2. */
  lemma RoundedIsClose(weights: seq<real>, pool: int, es: Entries)
    requires AllHeavy(weights) && Sum(weights) > 0.0
    requires Rounded(weights, pool, es, |weights|)
    ensures Distance(Vector(es, |weights|), Shares(weights, pool)) <= |weights| as real * 0.5
    ensures Gap(Total(es) as real, pool as real) <= |weights| as real * 0.5
  {
    var u, v := Vector(es, |weights|), Shares(weights, pool);
    forall i | 0 <= i < |weights|
      ensures Gap(u[i], v[i]) <= 0.5
    {
      RoundingError(Share(weights, pool, i), SumOf(es, AmountFor(i)));
    }
    GapsAddUp(u, v);
    VectorSum(es, |weights|);
    SharesSum(weights, pool);
  }

  /** The rounded shares of non-negligible weights miss the pool by at most n/2. */
  lemma RoundedTotalIsClose(weights: seq<real>, pool: int)
    requires AllHeavy(weights) && Sum(weights) > 0.0
    ensures Gap(RoundedTotal(weights, pool, |weights|) as real, pool as real) <= |weights| as real * 0.5
  {
    var es := RoundedEntries(weights, pool, |weights|);
    RoundedIsClose(weights, pool, es);
  }

  /** One entry for each of the first n participants. */
  ghost function RoundedEntries(weights: seq<real>, pool: int, n: nat): (es: Entries)
    requires Sum(weights) > 0.0 && n <= |weights|
    ensures Rounded(weights, pool, es, n)
  {
    if n == 0 then []
    else
      var es, amount := RoundedEntries(weights, pool, n - 1), RoundedShare(weights, pool, n - 1);
      var es' := if amount != 0 then es + [Entry(n - 1, amount)] else es;
      RoundedPush(weights, pool, es, n - 1, amount, es');
      es'
  }

  /** With no negligible weight every share converts; a converted share is the rounded one. */
  lemma RoundingFits(weights: seq<real>, pool: int, i: nat)
    requires Sum(weights) > 0.0 && i < |weights| && weights[i] >= EPSILON
    ensures var r := ToSats(Share(weights, pool, i), Nearest);
            && (r.Ok? ==> r.value == RoundedShare(weights, pool, i))
            && (AllHeavy(weights) && 0 <= pool < U64_BOUND ==> r.Ok?)
    ensures var r := ToSatsSigned(Share(weights, pool, i), Nearest);
            && (r.Ok? ==> r.value == RoundedShare(weights, pool, i))
            && (AllHeavy(weights) && -I64_BOUND <= pool < I64_BOUND ==> r.Ok?)
  {
    if AllHeavy(weights) {
      ShareBounds(weights, pool, i);
    }
  }

  /** `i` is the first of the largest weights among the first n, and not negligible. */
  ghost predicate Heaviest(weights: seq<real>, i: nat, n: nat)
    requires n <= |weights|
  {
    && i < n && weights[i] >= EPSILON
    && (forall j | 0 <= j < n :: weights[j] <= weights[i])
    && forall j | 0 <= j < i :: weights[j] < weights[i]
  }

  /** The heaviest of the first n participants, if any is not negligible. */
  ghost predicate FallbackIs(weights: seq<real>, fallback: Option<nat>, best: real, n: nat)
    requires n <= |weights|
  {
    match fallback
    case None => forall j | 0 <= j < n :: weights[j] < EPSILON
    case Some(i) => Heaviest(weights, i, n) && best == weights[i]
  }

  method Heavier(weights: seq<real>, i: nat, fallback: Option<nat>, best: real) returns (f: Option<nat>, b: real)
    requires i < |weights| && weights[i] >= EPSILON && FallbackIs(weights, fallback, best, i)
    ensures FallbackIs(weights, f, b, i + 1)
  {
    if fallback.None? || best < weights[i] {
      return Some(i), weights[i];
    }
    return fallback, best;
  }

  lemma SkipNegligible(weights: seq<real>, fallback: Option<nat>, best: real, i: nat)
    requires i < |weights| && weights[i] < EPSILON && FallbackIs(weights, fallback, best, i)
    ensures FallbackIs(weights, fallback, best, i + 1)
  {
  }

  lemma FallbackDone(weights: seq<real>, fallback: Option<nat>, best: real)
    requires FallbackIs(weights, fallback, best, |weights|)
    ensures fallback.Some? ==> fallback.value < |weights| && Heaviest(weights, fallback.value, |weights|)
    ensures AllHeavy(weights) && weights != [] ==> fallback.Some?
  {
    assert fallback.None? && weights != [] ==> weights[0] < EPSILON;
  }

  method ConvertShare(weights: seq<real>, pool: nat, i: nat) returns (r: Result<nat, SatoshiError>)
    requires pool < U64_BOUND && Sum(weights) > 0.0 && i < |weights| && weights[i] >= EPSILON
    ensures r.Ok? ==> r.value == RoundedShare(weights, pool, i)
    ensures r.Err? ==> r.error != AdditionOverflow && !AllHeavy(weights)
  {
    RoundingFits(weights, pool, i);
    r := ToSats(weights[i] / Sum(weights) * pool as real, Nearest);
  }

  method ConvertSignedShare(weights: seq<real>, pool: int, i: nat) returns (r: Result<int, SatoshiError>)
    requires -I64_BOUND <= pool < I64_BOUND && Sum(weights) > 0.0 && i < |weights| && weights[i] >= EPSILON
    ensures r.Ok? ==> r.value == RoundedShare(weights, pool, i)
    ensures r.Err? ==> r.error != AdditionOverflow && !AllHeavy(weights)
  {
    RoundingFits(weights, pool, i);
    r := ToSatsSigned(weights[i] / Sum(weights) * pool as real, Nearest);
  }

  /** Phase one of the unsigned allocator: entries, their total, and the heaviest participant. */
  method RoundShares(weights: seq<real>, pool: nat)
    returns (r: Result<Allocated, SatoshiError>, fallback: Option<nat>)
    requires pool < U64_BOUND && Sum(weights) > 0.0
    ensures r.Ok? ==> r.value.total == Total(r.value.entries) && Rounded(weights, pool, r.value.entries, |weights|)
    ensures r.Ok? ==> forall e | e in r.value.entries :: e.amount > 0
    ensures fallback.Some? ==> fallback.value < |weights|
    ensures r.Ok? && fallback.Some? ==> Heaviest(weights, fallback.value, |weights|)
    ensures r.Ok? ==> RoundedTotal(weights, pool, |weights|) < U64_BOUND
    ensures r == Err(AdditionOverflow) ==> RoundedTotal(weights, pool, |weights|) >= U64_BOUND
    ensures AllHeavy(weights) ==> r.Ok? || r == Err(AdditionOverflow)
    ensures AllHeavy(weights) && r.Ok? ==> fallback.Some?
  {
    var es: Entries, total: int, best: real := [], 0, 0.0;
    fallback := None;
    for i := 0 to |weights|
      invariant total == Total(es) < U64_BOUND && Rounded(weights, pool, es, i)
      invariant forall e | e in es :: e.amount > 0
      invariant FallbackIs(weights, fallback, best, i)
    {
      if weights[i] < EPSILON {
        RoundedPush(weights, pool, es, i, 0, es);
        SkipNegligible(weights, fallback, best, i);
      } else {
        fallback, best := Heavier(weights, i, fallback, best);
        var amount := ConvertShare(weights, pool, i);
        if amount.Err? {
          r := Err(amount.error);
          return;
        }
        ghost var was := es;
        RoundedTotalMono(weights, pool, i + 1, |weights|);
        if amount.value > 0 {
          es := es + [Entry(i, amount.value)];
          if total + amount.value >= U64_BOUND {
            r := Err(AdditionOverflow);
            return;
          }
          total := total + amount.value;
        }
        RoundedPush(weights, pool, was, i, amount.value, es);
      }
    }
    FallbackDone(weights, fallback, best);
    r := Ok(Allocated(es, total));
  }

  // ----- Phase two: repair the remainder

  lemma {:induction false} ZeroTotal(es: Entries)
    requires forall e | e in es :: e.amount == 0
    ensures Total(es) == 0
  {
    if es != [] {
      ZeroTotal(es[..|es| - 1]);
    }
  }

  /** Entries of `es'` stand for the same participants, with no larger amounts. */
  ghost predicate Lowered(es: Entries, es': Entries) {
    |es| == |es'| && forall j | 0 <= j < |es| :: es'[j].key == es[j].key && 0 <= es'[j].amount <= es[j].amount
  }

  lemma {:induction false} LoweredVector(es: Entries, es': Entries, key: nat)
    requires Lowered(es, es')
    ensures SumOf(es', AmountFor(key)) <= SumOf(es, AmountFor(key))
  {
    if es != [] {
      LoweredVector(es[..|es| - 1], es'[..|es| - 1], key);
    }
  }

  /** An entry is touched only after every one before it is at zero. */
  ghost predicate FrontFirst(es: Entries, es': Entries)
    requires |es| == |es'|
  {
    forall j, k | 0 <= j < k < |es| && es'[k] != es[k] :: es'[j].amount == 0
  }

  /** Takes the excess from the front of the list, entry by entry. */
  method TakeExcess(es: Entries, excess: nat) returns (es': Entries, remaining: nat)
    requires (forall e | e in es :: e.amount > 0) && excess <= Total(es)
    ensures Lowered(es, es') && Total(es') == Total(es) - excess && remaining == 0
    ensures FrontFirst(es, es')
  {
    es', remaining := es, excess;
    for i := 0 to |es|
      invariant Lowered(es, es') && Total(es') == Total(es) - (excess - remaining)
      invariant forall j | i <= j < |es| :: es'[j] == es[j]
      invariant FrontFirst(es, es')
      invariant remaining > 0 ==> forall j | 0 <= j < i :: es'[j].amount == 0
    {
      if remaining == 0 {
        break;
      }
      var take := if es'[i].amount < remaining then es'[i].amount else remaining;
      SumOfUpdate(es', i, Entry(es'[i].key, es'[i].amount - take), Amount());
      es' := es'[i := Entry(es'[i].key, es'[i].amount - take)];
      remaining := remaining - take;
    }
    if remaining > 0 {
      ZeroTotal(es');
    }
  }

  /** The repaired entries stay within n of the exact shares, all participants together. */
  lemma RepairStaysClose(weights: seq<real>, pool: int, before: Entries, after: Entries)
    requires AllHeavy(weights) && Sum(weights) > 0.0
    requires Rounded(weights, pool, before, |weights|)
    requires KeysBelow(after, |weights|) && Total(after) == pool
    requires if pool < Total(before) then Raised(after, before, |weights|) else Raised(before, after, |weights|)
    ensures Close(weights, pool, after)
  {
    var n := |weights|;
    RoundedIsClose(weights, pool, before);
    VectorSum(before, n);
    VectorSum(after, n);
    if pool < Total(before) {
      DistanceDominated(Vector(before, n), Vector(after, n));
    } else {
      DistanceDominated(Vector(after, n), Vector(before, n));
    }
    Triangle(Vector(after, n), Vector(before, n), Shares(weights, pool));
  }

  /** Under-allocated: the remainder goes to the largest entry, or to the heaviest participant. */
  method AddRemainder(es: Entries, remainder: nat, fallback: Option<nat>, ghost n: nat)
    returns (r: Result<Entries, SatoshiError>)
    requires KeysBelow(es, n) && (fallback.Some? ==> fallback.value < n)
    ensures r.Err? <==> es == [] && fallback.None?
    ensures r.Err? ==> r.error == Overflow
    ensures r.Ok? ==> KeysBelow(r.value, n) && Total(r.value) == Total(es) + remainder
    ensures r.Ok? ==> Raised(es, r.value, n)
    ensures r.Ok? && es != [] ==> exists idx :: LastLargest(es, idx) && ShiftedAt(es, r.value, idx, remainder)
    ensures r.Ok? && es == [] ==> r.value == [Entry(fallback.value, remainder)]
  {
    if es != [] {
      var idx := ArgMax(es);
      ShiftEntry(es, idx, remainder, n);
      assert ShiftedAt(es, es[idx := Entry(es[idx].key, es[idx].amount + remainder)], idx, remainder);
      return Ok(es[idx := Entry(es[idx].key, es[idx].amount + remainder)]);
    }
    if fallback.None? {
      return Err(Overflow);
    }
    GiveEntry(es, Entry(fallback.value, remainder), n);
    return Ok(es + [Entry(fallback.value, remainder)]);
  }

  /** No participant is given less. */
  ghost predicate Raised(es: Entries, es': Entries, n: nat) {
    forall i | 0 <= i < n :: SumOf(es', AmountFor(i)) >= SumOf(es, AmountFor(i))
  }

  lemma ShiftEntry(es: Entries, idx: nat, diff: int, n: nat)
    requires idx < |es| && KeysBelow(es, n)
    ensures var es' := es[idx := Entry(es[idx].key, es[idx].amount + diff)];
            && KeysBelow(es', n) && Total(es') == Total(es) + diff
            && (diff >= 0 ==> Raised(es, es', n)) && (diff <= 0 ==> Raised(es', es, n))
  {
    var e := Entry(es[idx].key, es[idx].amount + diff);
    SumOfUpdate(es, idx, e, Amount());
    forall i | 0 <= i < n
      ensures SumOf(es[idx := e], AmountFor(i)) - SumOf(es, AmountFor(i)) == if i == e.key then diff else 0
    {
      SumOfUpdate(es, idx, e, AmountFor(i));
    }
  }

  lemma GiveEntry(es: Entries, e: Entry, n: nat)
    requires KeysBelow(es, n) && e.key < n
    ensures KeysBelow(es + [e], n) && Total(es + [e]) == Total(es) + e.amount
    ensures e.amount >= 0 ==> Raised(es, es + [e], n)
    ensures e.amount <= 0 ==> Raised(es + [e], es, n)
  {
    AmountsAfterPush(es, e, 0);
    forall i | 0 <= i < n
      ensures SumOf(es + [e], AmountFor(i)) == SumOf(es, AmountFor(i)) + if i == e.key then e.amount else 0
    {
      AmountsAfterPush(es, e, i);
    }
  }

  /** Over-allocated: the excess is taken from the smallest entries first. */
  method RemoveExcess(es: Entries, excess: nat, ghost n: nat) returns (r: Entries, ghost sorted: Entries)
    requires KeysBelow(es, n) && (forall e | e in es :: e.amount > 0) && excess <= Total(es)
    ensures KeysBelow(r, n) && Total(r) == Total(es) - excess
    ensures Raised(r, es, n)
    ensures multiset(sorted) == multiset(es) && Ascending(sorted, Amount())
    ensures Lowered(sorted, r) && FrontFirst(sorted, r)
  {
    var order := SortBy(es, Amount());
    sorted := order;
    SortAscends(es, Amount());
    VectorSorted(es, n);
    SortPermutes(es, Amount());
    assert forall e | e in sorted :: e in multiset(sorted);
    var remaining;
    r, remaining := TakeExcess(order, excess);
    forall i | 0 <= i < n
      ensures SumOf(r, AmountFor(i)) <= SumOf(es, AmountFor(i))
    {
      LoweredVector(sorted, r, i);
      SortSum(es, Amount(), AmountFor(i));
    }
  }

  /** All participants together are within n of their exact shares. */
  ghost predicate Close(weights: seq<real>, pool: int, es: Entries)
    requires Sum(weights) > 0.0
  {
    Distance(Vector(es, |weights|), Shares(weights, pool)) <= |weights| as real
  }

  /** Nothing to share out. */
  predicate Degenerate(weights: seq<real>, pool: int) {
    weights == [] || pool == 0 || Sum(weights) <= 0.0
  }

  /**
   The unsigned allocator. Whatever it returns adds up to the pool. With no negligible weight
   it fails exactly when the rounded shares together exceed 64 bits, and otherwise all
   participants together stay within n of their exact shares.
   */
  method AllocateU64(weights: seq<real>, pool: nat) returns (r: Result<Allocated, SatoshiError>)
    requires pool < U64_BOUND
    ensures Degenerate(weights, pool) ==> r == Ok(Allocated([], 0))
    ensures !Degenerate(weights, pool) && r.Ok? ==>
              && r.value.total == Total(r.value.entries) == pool
              && KeysBelow(r.value.entries, |weights|)
    ensures !Degenerate(weights, pool) && r == Err(AdditionOverflow) ==>
              RoundedTotal(weights, pool, |weights|) >= U64_BOUND
    ensures !Degenerate(weights, pool) && AllHeavy(weights) ==>
              && (r.Ok? <==> RoundedTotal(weights, pool, |weights|) < U64_BOUND)
              && (r.Err? ==> r.error == AdditionOverflow)
    ensures !Degenerate(weights, pool) && AllHeavy(weights) && r.Ok? ==>
              Close(weights, pool, r.value.entries)
  {
    if Degenerate(weights, pool) {
      return Ok(Allocated([], 0));
    }
    var rounded, fallback := RoundShares(weights, pool);
    if rounded.Err? {
      return Err(rounded.error);
    }
    var es, total := rounded.value.entries, rounded.value.total;
    ghost var before := es;
    if total < pool {
      var repaired := AddRemainder(es, pool - total, fallback, |weights|);
      if repaired.Err? {
        return Err(repaired.error);
      }
      es := repaired.value;
    } else if total > pool {
      ghost var sorted;
      es, sorted := RemoveExcess(es, total - pool, |weights|);
    }
    if AllHeavy(weights) {
      RepairStaysClose(weights, pool, before, es);
    }
    return Ok(Allocated(es, pool));
  }

  /** A pool at least n/2 below 2^64 never overflows the running total. */
  lemma NeverOverflowsBelow(weights: seq<real>, pool: nat)
    requires AllHeavy(weights) && Sum(weights) > 0.0 && 2 * pool + |weights| < 2 * U64_BOUND
    ensures RoundedTotal(weights, pool, |weights|) < U64_BOUND
  {
    RoundedTotalIsClose(weights, pool);
  }

  /** The largest pool halved: both halves round up, and their total takes 65 bits. */
  lemma HalvesOverflow(weights: seq<real>, pool: nat)
    requires weights == [1.0, 1.0] && pool == U64_BOUND - 1
    ensures AllHeavy(weights) && !Degenerate(weights, pool)
    ensures RoundedTotal(weights, pool, |weights|) == U64_BOUND
  {
    assert Sum(weights[..1]) == 1.0 && Sum(weights) == 2.0;
    forall i | 0 <= i < 2
      ensures RoundedShare(weights, pool, i) == I64_BOUND
    {
      assert Share(weights, pool, i) == 0.5 * pool as real;
    }
    assert RoundedTotal(weights, pool, 1) == I64_BOUND;
  }

  // ----- The signed allocator

  /** The sum of the absolute weights. */
  function AbsWeights(weights: seq<real>): (r: seq<real>)
    ensures |r| == |weights|
  {
    seq(|weights|, i requires 0 <= i < |weights| => Abs(weights[i]))
  }

  predicate Fits64(n: int) {
    -I64_BOUND <= n < I64_BOUND
  }

  /** No amount goes against the sign of the pool. */
  ghost predicate SameSign(es: Entries, pool: int) {
    forall e | e in es :: (pool >= 0 ==> e.amount >= 0) && (pool <= 0 ==> e.amount <= 0)
  }

  /** Every entry lies between zero and the total. */
  lemma {:induction false} EntryWithinTotal(es: Entries, pool: int, i: nat)
    requires SameSign(es, pool) && i <= |es|
    ensures pool >= 0 ==> 0 <= Total(es) && (i < |es| ==> 0 <= es[i].amount <= Total(es))
    ensures pool <= 0 ==> Total(es) <= 0 && (i < |es| ==> Total(es) <= es[i].amount <= 0)
    decreases |es|
  {
    if es != [] {
      var m := |es| - 1;
      EntryWithinTotal(es[..m], pool, if i < m then i else m);
    }
  }

  /** Phase one of the signed allocator. */
  method RoundSignedShares(weights: seq<real>, pool: int)
    returns (r: Result<Allocated, SatoshiError>, fallback: Option<nat>)
    requires Fits64(pool) && Sum(weights) > 0.0
    ensures r.Ok? ==> r.value.total == Total(r.value.entries) && Rounded(weights, pool, r.value.entries, |weights|)
    ensures r.Ok? ==> SameSign(r.value.entries, pool)
    ensures fallback.Some? ==> fallback.value < |weights|
    ensures r.Ok? && fallback.Some? ==> Heaviest(weights, fallback.value, |weights|)
    ensures r.Ok? ==> Fits64(RoundedTotal(weights, pool, |weights|))
    ensures r == Err(AdditionOverflow) ==> !Fits64(RoundedTotal(weights, pool, |weights|))
    ensures AllHeavy(weights) ==> r.Ok? || r == Err(AdditionOverflow)
    ensures AllHeavy(weights) && r.Ok? ==> fallback.Some?
  {
    var es: Entries, total: int, best: real := [], 0, 0.0;
    fallback := None;
    for i := 0 to |weights|
      invariant total == Total(es) && Fits64(total) && Rounded(weights, pool, es, i)
      invariant SameSign(es, pool)
      invariant FallbackIs(weights, fallback, best, i)
    {
      if weights[i] < EPSILON {
        RoundedPush(weights, pool, es, i, 0, es);
        SkipNegligible(weights, fallback, best, i);
      } else {
        fallback, best := Heavier(weights, i, fallback, best);
        var amount := ConvertSignedShare(weights, pool, i);
        if amount.Err? {
          r := Err(amount.error);
          return;
        }
        ghost var was := es;
        RoundedTotalMono(weights, pool, i + 1, |weights|);
        if amount.value != 0 {
          es := es + [Entry(i, amount.value)];
          if !Fits64(total + amount.value) {
            r := Err(AdditionOverflow);
            return;
          }
          total := total + amount.value;
        }
        RoundedPush(weights, pool, was, i, amount.value, es);
      }
    }
    FallbackDone(weights, fallback, best);
    r := Ok(Allocated(es, total));
  }

  /**
   The signed allocator conserves the pool whenever it returns anything. With no negligible
   weight it fails exactly when the rounded shares together exceed 64 bits, and otherwise all
   participants together stay within n of their exact shares.
   */
  method AllocateI64(weights: seq<real>, pool: int) returns (r: Result<Allocated, SatoshiError>)
    requires Fits64(pool)
    ensures Degenerate(AbsWeights(weights), pool) ==> r == Ok(Allocated([], 0))
    ensures r.Ok? && !Degenerate(AbsWeights(weights), pool) ==>
              && r.value.total == Total(r.value.entries) == pool
              && KeysBelow(r.value.entries, |weights|)
    ensures !Degenerate(AbsWeights(weights), pool) && AllHeavy(AbsWeights(weights)) ==>
              && (r.Ok? <==> Fits64(RoundedTotal(AbsWeights(weights), pool, |weights|)))
              && (r.Err? ==> r.error == AdditionOverflow)
    ensures !Degenerate(AbsWeights(weights), pool) && AllHeavy(AbsWeights(weights)) && r.Ok? ==>
              Close(AbsWeights(weights), pool, r.value.entries)
  {
    var abs := AbsWeights(weights);
    if Degenerate(abs, pool) {
      return Ok(Allocated([], 0));
    }
    var rounded, fallback := RoundSignedShares(abs, pool);
    if rounded.Err? {
      return Err(rounded.error);
    }
    var repaired := RepairSigned(rounded.value.entries, pool, rounded.value.total, fallback, |weights|);
    if repaired.Err? {
      return Err(repaired.error);
    }
    if AllHeavy(abs) {
      RepairStaysClose(abs, pool, rounded.value.entries, repaired.value);
    }
    return Ok(Allocated(repaired.value, pool));
  }

  /** The difference goes to a largest or smallest entry, or to the heaviest participant. */
  method RepairSigned(es: Entries, pool: int, total: int, fallback: Option<nat>, ghost n: nat)
    returns (r: Result<Entries, SatoshiError>)
    requires Fits64(pool) && Fits64(total) && total == Total(es) && SameSign(es, pool)
    requires KeysBelow(es, n) && (fallback.Some? ==> fallback.value < n)
    ensures r.Err? <==> es == [] && fallback.None? && pool != 0
    ensures r.Err? ==> r.error == Overflow
    ensures r.Ok? ==> KeysBelow(r.value, n) && Total(r.value) == pool
    ensures r.Ok? ==> if pool < total then Raised(r.value, es, n) else Raised(es, r.value, n)
    ensures r.Ok? && pool == total ==> r.value == es
    ensures r.Ok? && pool != total && es == [] ==> r.value == [Entry(fallback.value, pool)]
    ensures r.Ok? && pool > total && es != [] ==>
              exists idx :: LastLargest(es, idx) && ShiftedAt(es, r.value, idx, pool - total)
    ensures r.Ok? && pool < total && es != [] ==>
              exists idx :: FirstSmallest(es, idx) && ShiftedAt(es, r.value, idx, pool - total)
  {
    var diff := pool - total;
    if diff == 0 {
      return Ok(es);
    }
    if es == [] {
      if fallback.None? {
        return Err(Overflow);
      }
      GiveEntry(es, Entry(fallback.value, diff), n);
      return Ok(es + [Entry(fallback.value, diff)]);
    }
    var idx;
    if diff > 0 {
      idx := ArgMax(es);
    } else {
      idx := ArgMin(es);
    }
    r := ShiftChecked(es, pool, idx, diff, n);
  }

  /** Adds the difference to one entry; the checked addition never fails here. */
  method ShiftChecked(es: Entries, pool: int, idx: nat, diff: int, ghost n: nat)
    returns (r: Result<Entries, SatoshiError>)
    requires Fits64(pool) && Fits64(Total(es)) && SameSign(es, pool) && KeysBelow(es, n) && idx < |es|
    requires diff == pool - Total(es)
    ensures r.Ok? && ShiftedAt(es, r.value, idx, diff) && KeysBelow(r.value, n) && Total(r.value) == pool
    ensures if diff < 0 then Raised(r.value, es, n) else Raised(es, r.value, n)
  {
    EntryWithinTotal(es, pool, idx);
    ShiftEntry(es, idx, diff, n);
    if !Fits64(es[idx].amount + diff) {
      return Err(Overflow);
    }
    return Ok(es[idx := Entry(es[idx].key, es[idx].amount + diff)]);
  }
}
