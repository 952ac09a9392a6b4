/**
 The books of a market over every run: outstanding shares, treasury and liquidity base are the
 sums of what the accepted trades and deposits moved, each priced by the cost function alone.
 */
module MarketLedger {
  import opened Common
  import opened SafeMath
  import opened Lmsr
  import opened RealSums
  import opened Trading

  // ----- What one operation moves

  /** C(q) at the beta of a market with this liquidity base. */
  ghost function CostAt(f: Analysis, base: nat, q: seq<int>): real
    requires q != [] && f.ln(|q| as real) != 0.0 && Beta(f, base, |q|) > 0.0
  {
    Cost(f, Beta(f, base, |q|), Reals(q))
  }

  /** The shares after `d` more of outcome `o`. */
  ghost function Moved(q: seq<int>, o: nat, d: int): seq<int>
    requires o < |q|
  {
    q[o := q[o] + d]
  }

  ghost predicate Priced(f: Analysis, m: Market) {
    m.shares != [] && f.ln(|m.shares| as real) != 0.0 && Beta(f, m.base, |m.shares|) > 0.0
  }

  /** What `amount` more shares of an outcome cost. */
  ghost function BuyPrice(f: Analysis, m: Market, o: nat, amount: nat): real
    requires Priced(f, m) && o < |m.shares|
  {
    CostAt(f, m.base, Moved(m.shares, o, amount)) - CostAt(f, m.base, m.shares)
  }

  /** What `amount` shares of an outcome pay when they are sold. */
  ghost function SellPrice(f: Analysis, m: Market, o: nat, amount: nat): real
    requires Priced(f, m) && o < |m.shares|
  {
    CostAt(f, m.base, m.shares) - CostAt(f, m.base, Moved(m.shares, o, -(amount as int)))
  }

  /** The outcome exists, beta is in range, and the conversion to satoshis succeeds. */
  ghost predicate Acceptable(f: Analysis, feePct: real, m: Market, op: Op)
    requires Priced(f, m)
  {
    match op
    case Amplify(_) => true
    case Buy(o, amount) =>
      && o < |m.shares| && MIN_BETA < Beta(f, m.base, |m.shares|) < MAX_BETA
      && CalculateBuyCost(BuyPrice(f, m, o, amount), feePct).Ok?
    case Sell(o, amount) =>
      && o < |m.shares| && amount <= m.shares[o] && MIN_BETA < Beta(f, m.base, |m.shares|) < MAX_BETA
      && CalculateSellProceeds(SellPrice(f, m, o, amount), feePct).Ok?
  }

  /** Shares of outcome i that an accepted operation adds. */
  ghost function SharesMoved(op: Op, i: nat): int {
    match op
    case Buy(o, amount) => if o == i then amount else 0
    case Sell(o, amount) => if o == i then -(amount as int) else 0
    case Amplify(_) => 0
  }

  /** Satoshis an accepted operation adds to the treasury: fees stay out of it. */
  ghost function MoneyMoved(f: Analysis, m: Market, op: Op): int
    requires Priced(f, m)
  {
    match op
    case Buy(o, amount) => if o < |m.shares| then Ceil(BuyPrice(f, m, o, amount)) else 0
    case Sell(o, amount) => if o < |m.shares| then -SellPrice(f, m, o, amount).Floor else 0
    case Amplify(deposit) => deposit
  }

  ghost function Deposited(op: Op): nat {
    if op.Amplify? then op.deposit else 0
  }

  /** `r` is the market after an accepted operation. */
  ghost predicate MovedBy(f: Analysis, m: Market, op: Op, r: Market)
    requires Priced(f, m)
  {
    && |r.shares| == |m.shares|
    && (forall i | 0 <= i < |m.shares| :: r.shares[i] == m.shares[i] + SharesMoved(op, i))
    && r.treasury == m.treasury + MoneyMoved(f, m, op)
    && r.base == m.base + Deposited(op)
  }

  /** An accepted operation moves exactly that; a refused one nothing. */
  lemma ApplyMoves(f: Analysis, feePct: real, m: Market, op: Op)
    requires Priced(f, m)
    ensures Acceptable(f, feePct, m, op) ==> MovedBy(f, m, op, Apply(f, feePct, m, op))
    ensures !Acceptable(f, feePct, m, op) ==> Apply(f, feePct, m, op) == m
  {
    match op
    case Amplify(_) =>
    case Buy(o, amount) => BuyMoves(f, feePct, m, o, amount);
    case Sell(o, amount) => SellMoves(f, feePct, m, o, amount);
  }

  lemma BuyMoves(f: Analysis, feePct: real, m: Market, o: nat, amount: nat)
    requires Priced(f, m)
    ensures Acceptable(f, feePct, m, Buy(o, amount)) ==>
              MovedBy(f, m, Buy(o, amount), Apply(f, feePct, m, Buy(o, amount)))
    ensures !Acceptable(f, feePct, m, Buy(o, amount)) ==> Apply(f, feePct, m, Buy(o, amount)) == m
  {
    if o < |m.shares| {
      BuyApplies(f, feePct, m, o, amount);
      RoundUp(BuyPrice(f, m, o, amount), feePct);
      var r := m.(shares := Moved(m.shares, o, amount), treasury := m.treasury + Ceil(BuyPrice(f, m, o, amount)));
      assert MovedBy(f, m, Buy(o, amount), r);
    }
  }

  lemma BuyApplies(f: Analysis, feePct: real, m: Market, o: nat, amount: nat)
    requires Priced(f, m) && o < |m.shares|
    ensures var q', buy := Moved(m.shares, o, amount), CalculateBuyCost(BuyPrice(f, m, o, amount), feePct);
            Apply(f, feePct, m, Buy(o, amount)) ==
            if MIN_BETA < Beta(f, m.base, |m.shares|) < MAX_BETA then Bought(m, q', buy) else m
  {
    var q' := Moved(m.shares, o, amount);
    UpdateIsDifference(f, m, m.shares, q');
    var cost := TradeCost(f, m.base, m.shares, q');
    assert Apply(f, feePct, m, Buy(o, amount)) ==
           if cost.Err? then m else Bought(m, q', CalculateBuyCost(cost.value, feePct));
  }

  lemma SellMoves(f: Analysis, feePct: real, m: Market, o: nat, amount: nat)
    requires Priced(f, m)
    ensures Acceptable(f, feePct, m, Sell(o, amount)) ==>
              MovedBy(f, m, Sell(o, amount), Apply(f, feePct, m, Sell(o, amount)))
    ensures !Acceptable(f, feePct, m, Sell(o, amount)) ==> Apply(f, feePct, m, Sell(o, amount)) == m
  {
    if o < |m.shares| && amount <= m.shares[o] {
      SellApplies(f, feePct, m, o, amount);
      RoundDown(SellPrice(f, m, o, amount), feePct);
      var q' := Moved(m.shares, o, -(amount as int));
      var r := m.(shares := q', treasury := m.treasury - SellPrice(f, m, o, amount).Floor);
      assert MovedBy(f, m, Sell(o, amount), r);
    }
  }

  lemma SellApplies(f: Analysis, feePct: real, m: Market, o: nat, amount: nat)
    requires Priced(f, m) && o < |m.shares| && amount <= m.shares[o]
    ensures var q' := Moved(m.shares, o, -(amount as int));
            var sell := CalculateSellProceeds(SellPrice(f, m, o, amount), feePct);
            Apply(f, feePct, m, Sell(o, amount)) ==
            if MIN_BETA < Beta(f, m.base, |m.shares|) < MAX_BETA then Sold(m, q', sell) else m
  {
    var q' := Moved(m.shares, o, -(amount as int));
    UpdateIsDifference(f, m, q', m.shares);
    var cost := TradeCost(f, m.base, q', m.shares);
    assert Apply(f, feePct, m, Sell(o, amount)) ==
           if cost.Err? then m else Sold(m, q', CalculateSellProceeds(cost.value, feePct));
  }

  lemma UpdateIsDifference(f: Analysis, m: Market, q: seq<int>, q': seq<int>)
    requires Priced(f, m) && |q| == |q'| == |m.shares|
    ensures TradeCost(f, m.base, q, q').Ok? <==> MIN_BETA < Beta(f, m.base, |m.shares|) < MAX_BETA
    ensures TradeCost(f, m.base, q, q').Ok? ==>
              TradeCost(f, m.base, q, q').value == CostAt(f, m.base, q') - CostAt(f, m.base, q)
  {
  }

  lemma RoundUp(x: real, feePct: real)
    ensures CalculateBuyCost(x, feePct).Ok? ==> CalculateBuyCost(x, feePct).value.base == Ceil(x)
  {
  }

  lemma RoundDown(x: real, feePct: real)
    ensures CalculateSellProceeds(x, feePct).Ok? ==> CalculateSellProceeds(x, feePct).value.gross == x.Floor
  {
  }

  // ----- What a run moves

  /** The sum of the first n moves that were accepted. */
  ghost function Accepted(moves: seq<int>, ok: seq<bool>, n: nat): int
    requires n <= |moves| && n <= |ok|
  {
    if n == 0 then 0 else Accepted(moves, ok, n - 1) + if ok[n - 1] then moves[n - 1] else 0
  }

  ghost predicate AllPriced(f: Analysis, ms: seq<Market>) {
    forall k | 0 <= k < |ms| :: Priced(f, ms[k])
  }

  ghost function ShareMoves(ops: seq<Op>, i: nat): seq<int> {
    seq(|ops|, k requires 0 <= k < |ops| => SharesMoved(ops[k], i))
  }

  ghost function MoneyMoves(f: Analysis, ms: seq<Market>, ops: seq<Op>): seq<int>
    requires AllPriced(f, ms) && |ops| <= |ms|
  {
    seq(|ops|, k requires 0 <= k < |ops| => MoneyMoved(f, ms[k], ops[k]))
  }

  ghost function Deposits(ops: seq<Op>): seq<int> {
    seq(|ops|, k requires 0 <= k < |ops| => Deposited(ops[k]))
  }

  /** `ms` are the markets along a run of `ops`, `ok` says which operations were accepted. */
  ghost predicate Books(f: Analysis, feePct: real, ms: seq<Market>, ops: seq<Op>, ok: seq<bool>) {
    && |ms| == |ops| + 1 && |ok| == |ops| && AllPriced(f, ms)
    && (forall k | 0 <= k < |ops| :: ok[k] <==> Acceptable(f, feePct, ms[k], ops[k]))
    && forall n | 0 <= n <= |ops| :: Balance(f, ms, ops, ok, n)
  }

  /** After n operations the market holds what it started with and what was moved since. */
  ghost predicate Balance(f: Analysis, ms: seq<Market>, ops: seq<Op>, ok: seq<bool>, n: nat)
    requires |ms| == |ops| + 1 && |ok| == |ops| && AllPriced(f, ms) && n <= |ops|
  {
    && |ms[n].shares| == |ms[0].shares|
    && (forall i | 0 <= i < |ms[0].shares| ::
          ms[n].shares[i] == ms[0].shares[i] + Accepted(ShareMoves(ops, i), ok, n))
    && ms[n].treasury == ms[0].treasury + Accepted(MoneyMoves(f, ms, ops), ok, n)
    && ms[n].base == ms[0].base + Accepted(Deposits(ops), ok, n)
  }

  /** The books of every run balance. */
  lemma RunBooks(f: Analysis, feePct: real, m: Market, ops: seq<Op>) returns (ms: seq<Market>, ok: seq<bool>)
    requires Laws(f) && Solvent(f, m)
    ensures f.ln(|m.shares| as real) != 0.0
    ensures Books(f, feePct, ms, ops, ok) && ms[0] == m && ms[|ops|] == Run(f, feePct, m, ops)
  {
    ms := seq(|ops| + 1, k requires 0 <= k <= |ops| => Run(f, feePct, m, ops[..k]));
    forall k | 0 <= k <= |ops|
      ensures Solvent(f, ms[k]) && Priced(f, ms[k])
    {
      RunSolvent(f, feePct, m, ops[..k]);
    }
    ok := seq(|ops|, k requires 0 <= k < |ops| => Acceptable(f, feePct, ms[k], ops[k]));
    forall n | 0 <= n <= |ops|
      ensures Balance(f, ms, ops, ok, n)
    {
      BalanceAt(f, feePct, m, ms, ops, ok, n);
    }
    assert ops[..|ops|] == ops;
  }

  lemma {:induction false} BalanceAt(f: Analysis, feePct: real, m: Market, ms: seq<Market>, ops: seq<Op>, ok: seq<bool>,
                                     n: nat)
    requires f.ln(|m.shares| as real) != 0.0
    requires |ms| == |ops| + 1 && |ok| == |ops| && AllPriced(f, ms) && n <= |ops|
    requires forall k | 0 <= k <= |ops| :: ms[k] == Run(f, feePct, m, ops[..k])
    requires forall k | 0 <= k < |ops| :: ok[k] <==> Acceptable(f, feePct, ms[k], ops[k])
    ensures Balance(f, ms, ops, ok, n)
  {
    if n > 0 {
      var k := n - 1;
      BalanceAt(f, feePct, m, ms, ops, ok, k);
      RunStep(f, feePct, m, ops, k);
      ApplyMoves(f, feePct, ms[k], ops[k]);
      BalanceStep(f, ms, ops, ok, k);
    }
  }

  lemma RunStep(f: Analysis, feePct: real, m: Market, ops: seq<Op>, k: nat)
    requires f.ln(|m.shares| as real) != 0.0 && k < |ops|
    ensures Run(f, feePct, m, ops[..k + 1]) == Apply(f, feePct, Run(f, feePct, m, ops[..k]), ops[k])
  {
    assert ops[..k + 1][..k] == ops[..k];
  }

  lemma BalanceStep(f: Analysis, ms: seq<Market>, ops: seq<Op>, ok: seq<bool>, k: nat)
    requires |ms| == |ops| + 1 && |ok| == |ops| && AllPriced(f, ms) && k < |ops|
    requires Balance(f, ms, ops, ok, k)
    requires if ok[k] then MovedBy(f, ms[k], ops[k], ms[k + 1]) else ms[k + 1] == ms[k]
    ensures Balance(f, ms, ops, ok, k + 1)
  {
  }
}
