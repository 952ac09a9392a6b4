/** Greedy coin selection, and the transactions that are funded with it. */
module Wallet {
  import opened Common
  import opened Sorting

  datatype Content = Bitcoin | Withdrawal | MarketFunds

  /** A confirmed unspent output: its outpoint, its kind, and its value in satoshis. */
  datatype Coin = Coin(outpoint: nat, content: Content, value: nat)

  datatype WalletError = NotEnoughFunds | AmountOverflow | NoTransferDestination

  predicate Eligible(c: Coin) {
    c.content.Bitcoin? && c.value > 0
  }

  function Value(): Coin -> int {
    (c: Coin) => c.value
  }

  /** Larger values sort first. */
  function Descending(): Coin -> int {
    (c: Coin) => -(c.value as int)
  }

  function EligibleOf(utxos: seq<Coin>): seq<Coin> {
    if utxos == [] then []
    else EligibleOf(utxos[..|utxos| - 1]) + if Eligible(utxos[|utxos| - 1]) then [utxos[|utxos| - 1]] else []
  }

  lemma {:induction false} EligibleMembers(utxos: seq<Coin>, c: Coin)
    ensures c in EligibleOf(utxos) <==> c in utxos && c.content == Bitcoin && c.value > 0
  {
    if utxos != [] {
      EligibleMembers(utxos[..|utxos| - 1], c);
      assert utxos == utxos[..|utxos| - 1] + [utxos[|utxos| - 1]];
    }
  }

  lemma {:induction false} EligibleDistinct(utxos: seq<Coin>)
    requires Distinct(utxos)
    ensures Distinct(EligibleOf(utxos))
  {
    if utxos != [] {
      var m := |utxos| - 1;
      EligibleDistinct(utxos[..m]);
      EligibleMembers(utxos[..m], utxos[m]);
    }
  }

  lemma PermutedDistinct(s: seq<Coin>, t: seq<Coin>)
    requires Distinct(s) && multiset(s) == multiset(t)
    ensures Distinct(t)
  {
    forall i, j | 0 <= i < j < |t|
      ensures t[i] != t[j]
    {
      DistinctOnce(s, t[i]);
      assert t == t[..j] + [t[j]] + t[j + 1..];
      assert t[i] in t[..j];
      assert multiset(t) == multiset(t[..j]) + multiset{t[j]} + multiset(t[j + 1..]);
    }
  }

  lemma {:induction false} DistinctOnce(s: seq<Coin>, c: Coin)
    requires Distinct(s)
    ensures multiset(s)[c] <= 1
  {
    if s != [] {
      var m := |s| - 1;
      DistinctOnce(s[..m], c);
      assert s == s[..m] + [s[m]];
      assert s[m] !in s[..m];
    }
  }

  // ----- The largest coins are the best of their number

  /** `t` is a choice of distinct coins from `s`. */
  ghost predicate ChosenFrom(t: seq<Coin>, s: seq<Coin>) {
    Distinct(t) && forall c | c in t :: c in s
  }

  /** `t` without its entry at `j`. */
  ghost function Without(t: seq<Coin>, j: nat): seq<Coin>
    requires j < |t|
  {
    t[..j] + t[j + 1..]
  }

  lemma WithoutSum(t: seq<Coin>, j: nat)
    requires j < |t|
    ensures SumOf(t, Value()) == SumOf(Without(t, j), Value()) + t[j].value
  {
    assert t == (t[..j] + [t[j]]) + t[j + 1..];
    SumOfConcat(t[..j] + [t[j]], t[j + 1..], Value());
    SumOfPush(t[..j], t[j], Value());
    SumOfConcat(t[..j], t[j + 1..], Value());
  }

  lemma WithoutDistinct(t: seq<Coin>, j: nat)
    requires j < |t| && Distinct(t)
    ensures Distinct(Without(t, j)) && forall c | c in Without(t, j) :: c in t && c != t[j]
  {
    var rest := Without(t, j);
    forall i | 0 <= i < |rest|
      ensures rest[i] == t[if i < j then i else i + 1]
    {
    }
  }

  lemma WithoutLast(t: seq<Coin>, s: seq<Coin>, j: nat)
    requires s != [] && ChosenFrom(t, s) && j < |t| && t[j] == s[|s| - 1]
    ensures ChosenFrom(Without(t, j), s[..|s| - 1])
    ensures |Without(t, j)| == |t| - 1 && SumOf(t, Value()) == SumOf(Without(t, j), Value()) + t[j].value
  {
    WithoutSum(t, j);
    WithoutDistinct(t, j);
    assert forall c | c in s :: c == s[|s| - 1] || c in s[..|s| - 1];
  }

  lemma {:induction false} PrefixSums(s: seq<Coin>, i: nat, j: nat)
    requires i <= j <= |s|
    ensures SumOf(s[..i], Value()) <= SumOf(s[..j], Value())
  {
    if i < j {
      PrefixSums(s, i, j - 1);
      assert s[..j] == s[..j - 1] + [s[j - 1]];
      SumOfPush(s[..j - 1], s[j - 1], Value());
    }
  }

  lemma NextPrefix(coins: seq<Coin>, i: nat)
    requires i < |coins|
    ensures SumOf(coins[..i + 1], Value()) == SumOf(coins[..i], Value()) + coins[i].value
    ensures SumOf(coins[..i + 1], Value()) <= SumOf(coins, Value())
  {
    assert coins[..i + 1] == coins[..i] + [coins[i]];
    SumOfPush(coins[..i], coins[i], Value());
    PrefixSums(coins, i + 1, |coins|);
    assert coins[..|coins|] == coins;
  }

  ghost predicate HeadIn(t: seq<Coin>, s: seq<Coin>) {
    t != [] ==> t[0] in s
  }

  /** One coin more in descending order adds at least the value of the last coin. */
  lemma NextIsWorthMore(s: seq<Coin>, n: nat, k: nat)
    requires Ascending(s, Descending()) && |s| == n + 1 && k <= n
    ensures SumOf(s[..k + 1], Value()) >= SumOf(s[..k], Value()) + s[n].value
  {
    NextPrefix(s, k);
    assert k < n ==> Descending()(s[k]) <= Descending()(s[n]);
  }

  /** No choice of k coins is worth more than the first k in descending order. */
  lemma {:induction false} GreedyIsBest(s: seq<Coin>, t: seq<Coin>)
    requires Ascending(s, Descending()) && ChosenFrom(t, s)
    ensures |t| <= |s| && SumOf(t, Value()) <= SumOf(s[..|t|], Value())
  {
    if s == [] {
      assert HeadIn(t, s);
    } else {
      var n := |s| - 1;
      if s[n] in t {
        var j :| 0 <= j < |t| && t[j] == s[n];
        var rest := Without(t, j);
        WithoutLast(t, s, j);
        GreedyIsBest(s[..n], rest);
        assert s[..n][..|rest|] == s[..|rest|];
        NextIsWorthMore(s, n, |rest|);
      } else {
        assert ChosenFrom(t, s[..n]);
        GreedyIsBest(s[..n], t);
        assert s[..n][..|t|] == s[..|t|];
      }
    }
  }

  // ----- Selection

  /** Collects the eligible coins in the order of the table. */
  method CollectEligible(utxos: seq<Coin>) returns (r: seq<Coin>)
    ensures r == EligibleOf(utxos)
  {
    r := [];
    for i := 0 to |utxos|
      invariant r == EligibleOf(utxos[..i])
    {
      assert utxos[..i + 1][..i] == utxos[..i];
      if Eligible(utxos[i]) {
        r := r + [utxos[i]];
      }
    }
    assert utxos[..|utxos|] == utxos;
  }

  /** No non-empty choice of fewer than `k` coins reaches the target. */
  ghost predicate Fewest(k: nat, coins: seq<Coin>, target: nat) {
    forall t | t != [] && ChosenFrom(t, coins) && SumOf(t, Value()) >= target :: |t| >= k
  }

  /** The value of the first k coins. */
  ghost function Worth(coins: seq<Coin>, k: nat): int
    requires k <= |coins|
  {
    SumOf(coins[..k], Value())
  }

  /** The first k coins, and no fewer, reach the target; at least one is taken. */
  ghost predicate FirstToReach(coins: seq<Coin>, k: nat, target: nat) {
    0 < k <= |coins| && Worth(coins, k) >= target && (k > 1 ==> Worth(coins, k - 1) < target)
  }

  lemma FirstToReachUnique(coins: seq<Coin>, j: nat, k: nat, target: nat)
    requires FirstToReach(coins, j, target) && FirstToReach(coins, k, target)
    ensures j == k
  {
    if j < k {
      PrefixSums(coins, j, k - 1);
    } else if k < j {
      PrefixSums(coins, k, j - 1);
    }
  }

  lemma ReachedIsFunded(coins: seq<Coin>, k: nat, target: nat)
    requires FirstToReach(coins, k, target)
    ensures coins != [] && SumOf(coins, Value()) >= target
  {
    PrefixSums(coins, k, |coins|);
    assert coins[..|coins|] == coins;
  }

  /** Takes coins from the front until the target is reached. */
  method TakeCoins(coins: seq<Coin>, target: nat) returns (r: Result<(nat, nat), WalletError>)
    requires target <= U64_MAX
    ensures r.Ok? ==> FirstToReach(coins, r.value.1, target) && Worth(coins, r.value.1) == r.value.0 <= U64_MAX
    ensures r.Err? ==> r.error in {NotEnoughFunds, AmountOverflow}
    ensures r == Err(NotEnoughFunds) ==> coins == [] || SumOf(coins, Value()) < target
    ensures r == Err(AmountOverflow) ==> exists k :: FirstToReach(coins, k, target) && Worth(coins, k) > U64_MAX
  {
    var total: nat := 0;
    for i := 0 to |coins|
      invariant total == Worth(coins, i)
      invariant i > 0 ==> total < target
    {
      NextPrefix(coins, i);
      if total + coins[i].value > U64_MAX {
        assert FirstToReach(coins, i + 1, target);
        return Err(AmountOverflow);
      }
      total := total + coins[i].value;
      if total >= target {
        return Ok((total, i + 1));
      }
    }
    assert coins[..|coins|] == coins;
    return Err(NotEnoughFunds);
  }

  /** There is no eligible coin, or all of them together are worth too little. */
  ghost predicate TooPoor(utxos: seq<Coin>, target: nat) {
    EligibleOf(utxos) == [] || SumOf(EligibleOf(utxos), Value()) < target
  }

  /** The fewest of the largest coins that reach the target are worth more than 64 bits hold. */
  ghost predicate Overflows(utxos: seq<Coin>, target: nat) {
    var coins := SortBy(EligibleOf(utxos), Descending());
    exists k :: FirstToReach(coins, k, target) && Worth(coins, k) > U64_MAX
  }

  /** `coins` is a smallest choice of eligible coins that reaches the target, worth `total`. */
  ghost predicate BestChoice(utxos: seq<Coin>, target: nat, total: nat, coins: seq<Coin>) {
    && total == SumOf(coins, Value()) && target <= total <= U64_MAX
    && coins != [] && ChosenFrom(coins, EligibleOf(utxos))
    && Fewest(|coins|, EligibleOf(utxos), target)
  }

  /**
   Largest coins first, until the target is reached. At least one coin is always taken, and no
   non-empty choice of fewer eligible coins reaches the target.
   */
  method SelectBitcoins(utxos: seq<Coin>, target: nat) returns (r: Result<(nat, seq<Coin>), WalletError>)
    requires Distinct(utxos) && target <= U64_MAX
    ensures r == Err(NotEnoughFunds) <==> TooPoor(utxos, target)
    ensures r == Err(AmountOverflow) <==> Overflows(utxos, target)
    ensures r.Err? ==> r.error in {NotEnoughFunds, AmountOverflow}
    ensures r.Ok? ==> BestChoice(utxos, target, r.value.0, r.value.1)
  {
    var eligible := CollectEligible(utxos);
    var coins := SortBy(eligible, Descending());
    var taken := TakeCoins(coins, target);
    SelectionCases(utxos, eligible, coins, target, taken);
    if taken.Err? {
      return Err(taken.error);
    }
    return Ok((taken.value.0, coins[..taken.value.1]));
  }

  lemma SelectionCases(utxos: seq<Coin>, eligible: seq<Coin>, coins: seq<Coin>, target: nat,
                       taken: Result<(nat, nat), WalletError>)
    requires Distinct(utxos) && eligible == EligibleOf(utxos) && coins == SortBy(eligible, Descending())
    requires taken.Ok? ==>
               FirstToReach(coins, taken.value.1, target) && Worth(coins, taken.value.1) == taken.value.0 <= U64_MAX
    requires taken == Err(NotEnoughFunds) ==> coins == [] || SumOf(coins, Value()) < target
    requires taken == Err(AmountOverflow) ==> exists k :: FirstToReach(coins, k, target) && Worth(coins, k) > U64_MAX
    requires taken.Err? ==> taken.error in {NotEnoughFunds, AmountOverflow}
    ensures taken == Err(NotEnoughFunds) <==> TooPoor(utxos, target)
    ensures taken == Err(AmountOverflow) <==> Overflows(utxos, target)
    ensures taken.Ok? ==> BestChoice(utxos, target, taken.value.0, coins[..taken.value.1])
  {
    SortedCoins(eligible, utxos, coins);
    forall k | FirstToReach(coins, k, target)
      ensures !TooPoor(utxos, target)
      ensures taken.Ok? ==> k == taken.value.1
    {
      ReachedIsFunded(coins, k, target);
      if taken.Ok? {
        FirstToReachUnique(coins, k, taken.value.1, target);
      }
    }
    if taken.Ok? {
      FewestCoins(coins, eligible, taken.value.1, target);
      PrefixChosen(coins, eligible, taken.value.1);
    }
  }

  lemma PrefixChosen(coins: seq<Coin>, eligible: seq<Coin>, k: nat)
    requires Distinct(coins) && k <= |coins| && SameCoins(coins, eligible)
    ensures ChosenFrom(coins[..k], eligible)
  {
  }

  ghost predicate SameCoins(s: seq<Coin>, t: seq<Coin>) {
    forall c :: c in s <==> c in t
  }

  lemma SortedCoins(eligible: seq<Coin>, utxos: seq<Coin>, coins: seq<Coin>)
    requires Distinct(utxos) && eligible == EligibleOf(utxos) && coins == SortBy(eligible, Descending())
    ensures Ascending(coins, Descending()) && Distinct(coins) && |coins| == |eligible|
    ensures SameCoins(coins, eligible)
    ensures SumOf(coins, Value()) == SumOf(eligible, Value())
    ensures coins == [] <==> eligible == []
  {
    EligibleDistinct(utxos);
    SortAscends(eligible, Descending());
    SortPermutes(eligible, Descending());
    PermutedDistinct(eligible, coins);
    SortSum(eligible, Descending(), Value());
    forall c
      ensures c in coins <==> c in eligible
    {
      assert c in coins <==> c in multiset(coins);
      assert c in eligible <==> c in multiset(eligible);
    }
    assert |multiset(coins)| == |coins| && |multiset(eligible)| == |eligible|;
  }

  lemma FewestCoins(coins: seq<Coin>, eligible: seq<Coin>, k: nat, target: nat)
    requires Ascending(coins, Descending()) && 0 < k <= |coins|
    requires SameCoins(coins, eligible)
    requires k > 1 ==> SumOf(coins[..k - 1], Value()) < target
    ensures Fewest(k, eligible, target)
  {
    forall t | t != [] && ChosenFrom(t, eligible) && SumOf(t, Value()) >= target
      ensures |t| >= k
    {
      GreedyIsBest(coins, t);
      if |t| < k {
        PrefixSums(coins, |t|, k - 1);
      }
    }
  }

  // ----- Transactions

  /** The coins spent and the bitcoin value of each output. */
  datatype Transaction = Transaction(inputs: seq<Coin>, outputs: seq<nat>)

  function Id(): nat -> int {
    (v: nat) => v
  }

  /** Inputs pay exactly for the outputs and the fee, and only the change is added. */
  ghost predicate Balanced(tx: Transaction, outputs: seq<nat>, fee: nat) {
    && SumOf(tx.inputs, Value()) == SumOf(tx.outputs, Id()) + fee
    && (tx.outputs == outputs ||
        (|tx.outputs| == |outputs| + 1 && tx.outputs[..|outputs|] == outputs && tx.outputs[|outputs|] > 0))
  }

  method PushChange(outputs: seq<nat>, change: nat) returns (r: seq<nat>)
    ensures SumOf(r, Id()) == SumOf(outputs, Id()) + change
    ensures r == outputs || (r == outputs + [change] && change > 0)
  {
    r := outputs;
    if change > 0 {
      SumOfPush(outputs, change, Id());
      r := outputs + [change];
    }
  }

  /** The total value of the outputs, unless it exceeds 64 bits. */
  method TotalValue(outputs: seq<nat>) returns (r: Option<nat>)
    ensures r == if SumOf(outputs, Id()) <= U64_MAX then Some(SumOf(outputs, Id())) else None
  {
    var total: nat := 0;
    for i := 0 to |outputs|
      invariant total == SumOf(outputs[..i], Id()) <= U64_MAX
    {
      assert outputs[..i + 1] == outputs[..i] + [outputs[i]];
      SumOfPush(outputs[..i], outputs[i], Id());
      OutputPrefix(outputs, i + 1);
      if total + outputs[i] > U64_MAX {
        return None;
      }
      total := total + outputs[i];
    }
    assert outputs[..|outputs|] == outputs;
    return Some(total);
  }

  lemma {:induction false} OutputPrefix(outputs: seq<nat>, i: nat)
    requires i <= |outputs|
    ensures 0 <= SumOf(outputs[..i], Id()) <= SumOf(outputs, Id())
    decreases |outputs|
  {
    if i == |outputs| {
      assert outputs[..i] == outputs;
      if i > 0 {
        OutputPrefix(outputs[..i - 1], i - 1);
        assert outputs[..i - 1][..i - 1] == outputs[..i - 1];
      }
    } else {
      OutputPrefix(outputs[..|outputs| - 1], i);
      assert outputs[..|outputs| - 1][..i] == outputs[..i];
    }
  }

  /** Funds outputs and a fee. */
  method CreateTransferTo(utxos: seq<Coin>, outputs: seq<nat>, fee: nat) returns (r: Result<Transaction, WalletError>)
    requires Distinct(utxos)
    ensures r.Ok? ==> Balanced(r.value, outputs, fee) && ChosenFrom(r.value.inputs, EligibleOf(utxos))
    ensures SumOf(outputs, Id()) + fee > U64_MAX ==> r == Err(AmountOverflow)
    ensures 0 <= SumOf(outputs, Id()) + fee <= U64_MAX ==> FundingErrors(utxos, SumOf(outputs, Id()) + fee, r)
  {
    OutputPrefix(outputs, |outputs|);
    var value := TotalValue(outputs);
    if value.None? || value.value + fee > U64_MAX {
      return Err(AmountOverflow);
    }
    r := Fund(utxos, outputs, value.value, fee);
  }

  /** Too little funds and overflow are reported exactly when they occur, and nothing else is. */
  ghost predicate FundingErrors(utxos: seq<Coin>, target: nat, r: Result<Transaction, WalletError>) {
    && (r == Err(NotEnoughFunds) <==> TooPoor(utxos, target))
    && (r == Err(AmountOverflow) <==> Overflows(utxos, target))
    && (r.Err? ==> r.error in {NotEnoughFunds, AmountOverflow})
  }

  /** Selects coins for outputs of the given value and a fee, and adds the change. */
  method Fund(utxos: seq<Coin>, outputs: seq<nat>, value: nat, fee: nat) returns (r: Result<Transaction, WalletError>)
    requires Distinct(utxos) && value == SumOf(outputs, Id()) && value + fee <= U64_MAX
    ensures r.Ok? ==> Balanced(r.value, outputs, fee) && ChosenFrom(r.value.inputs, EligibleOf(utxos))
    ensures FundingErrors(utxos, value + fee, r)
  {
    var selected := SelectBitcoins(utxos, value + fee);
    if selected.Err? {
      return Err(selected.error);
    }
    var (total, coins) := selected.value;
    var paid := PushChange(outputs, total - value - fee);
    return Ok(Transaction(coins, paid));
  }

  method CreateTransferMany(utxos: seq<Coin>, dests: seq<nat>, fee: nat) returns (r: Result<Transaction, WalletError>)
    requires Distinct(utxos)
    ensures r == Err(NoTransferDestination) <==> dests == []
    ensures r.Ok? ==> Balanced(r.value, dests, fee) && ChosenFrom(r.value.inputs, EligibleOf(utxos))
    ensures dests != [] && SumOf(dests, Id()) + fee > U64_MAX ==> r == Err(AmountOverflow)
    ensures dests != [] && 0 <= SumOf(dests, Id()) + fee <= U64_MAX ==>
              FundingErrors(utxos, SumOf(dests, Id()) + fee, r)
  {
    if dests == [] {
      return Err(NoTransferDestination);
    }
    OutputPrefix(dests, |dests|);
    r := CreateTransferTo(utxos, dests, fee);
  }

  /** A decision claim pays nothing but its fee. */
  method ClaimDecision(utxos: seq<Coin>, fee: nat) returns (r: Result<Transaction, WalletError>)
    requires Distinct(utxos) && fee <= U64_MAX
    ensures r.Ok? ==> Balanced(r.value, [], fee) && ChosenFrom(r.value.inputs, EligibleOf(utxos))
    ensures FundingErrors(utxos, fee, r)
  {
    r := Fund(utxos, [], 0, fee);
  }
}
