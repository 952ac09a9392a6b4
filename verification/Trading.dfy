/**
 Trades against the market maker: rounding of costs and proceeds, and the treasury of a
 market over every run of buys, sells and liquidity deposits.
 */
module Trading {
  import opened Common
  import opened SafeMath
  import opened Lmsr
  import opened RealSums

  const MIN_TRADING_FEE_SATS: nat := 1000

  datatype BuyCost = BuyCost(base: nat, fee: nat, total: nat)

  datatype SellProceeds = SellProceeds(gross: nat, fee: nat, net: nat)

  function MaxNat(a: nat, b: nat): nat {
    if a >= b then a else b
  }

  /** A fee rounds the exact amount to nearest, and has a floor. */
  function FeeSats(exact: real): (fee: int)
    ensures fee >= MIN_TRADING_FEE_SATS && exact - 0.5 <= fee as real
    ensures fee > MIN_TRADING_FEE_SATS ==> Abs(fee as real - exact) <= 0.5
  {
    var nearest := RoundNearest(exact);
    if nearest >= MIN_TRADING_FEE_SATS then nearest else MIN_TRADING_FEE_SATS
  }

  /** Costs round up; the total is refused exactly when an amount is negative or 64 bits are exceeded. */
  function CalculateBuyCost(base: real, feePct: real): (r: Result<BuyCost, SatoshiError>)
    ensures r.Ok? ==> base <= r.value.base as real < base + 1.0
    ensures r.Ok? ==> r.value.fee == FeeSats(base * feePct) && r.value.total == r.value.base + r.value.fee
    ensures r.Ok? <==> base >= 0.0 && base * feePct >= 0.0 && Ceil(base) + FeeSats(base * feePct) < U64_BOUND
  {
    var sats, fee := ToSats(base, Up), ToSats(base * feePct, Nearest);
    if sats.Err? then Err(sats.error)
    else if fee.Err? then Err(fee.error)
    else
      var feeSats := MaxNat(fee.value, MIN_TRADING_FEE_SATS);
      if sats.value + feeSats >= U64_BOUND then Err(AdditionOverflow)
      else Ok(BuyCost(sats.value, feeSats, sats.value + feeSats))
  }

  /** Proceeds round down; a sale is refused exactly when they do not cover the fee, or are out of range. */
  function CalculateSellProceeds(gross: real, feePct: real): (r: Result<SellProceeds, SatoshiError>)
    ensures r.Ok? ==> gross - 1.0 < r.value.gross as real <= gross
    ensures r.Ok? ==> r.value.fee == FeeSats(gross * feePct) && r.value.gross == r.value.net + r.value.fee
    ensures r.Ok? <==>
            gross >= 0.0 && gross * feePct >= 0.0 && FeeSats(gross * feePct) <= gross.Floor < U64_BOUND
  {
    var sats, fee := ToSats(gross, Down), ToSats(gross * feePct, Nearest);
    if sats.Err? then Err(sats.error)
    else if fee.Err? then Err(fee.error)
    else
      var feeSats := MaxNat(fee.value, MIN_TRADING_FEE_SATS);
      if feeSats > sats.value then Err(Overflow)
      else Ok(SellProceeds(sats.value, feeSats, sats.value - feeSats))
  }

  /** Buying and selling back the same shares loses at least both fees. */
  lemma RoundTripNeverProfits(f: Analysis, beta: real, q: seq<real>, q': seq<real>, feePct: real)
    requires beta > 0.0 && q != [] && q' != []
    requires CalculateBuyCost(Cost(f, beta, q') - Cost(f, beta, q), feePct).Ok?
    requires CalculateSellProceeds(Cost(f, beta, q') - Cost(f, beta, q), feePct).Ok?
    ensures var cost := Cost(f, beta, q') - Cost(f, beta, q);
            var buy, sell := CalculateBuyCost(cost, feePct).value, CalculateSellProceeds(cost, feePct).value;
            sell.net + buy.fee + sell.fee <= buy.total
  {
  }

  // ----- A market over time

  /** Outstanding shares, the treasury, and the liquidity base that fixes beta. */
  datatype Market = Market(shares: seq<int>, treasury: int, base: nat)

  datatype Op = Buy(outcome: nat, amount: nat) | Sell(outcome: nat, amount: nat) | Amplify(deposit: nat)

  function Reals(q: seq<int>): (r: seq<real>)
    ensures |r| == |q| && forall i | 0 <= i < |q| :: r[i] == q[i] as real
  {
    seq(|q|, i requires 0 <= i < |q| => q[i] as real)
  }

  /** beta = liquidity / ln n. */
  function Beta(f: Analysis, base: nat, n: nat): real
    requires f.ln(n as real) != 0.0
  {
    base as real / f.ln(n as real)
  }

  ghost predicate LnPositive(f: Analysis, n: nat) {
    f.ln(n as real) > 0.0
  }

  lemma BetaFunds(f: Analysis, base: nat, n: nat)
    requires LnPositive(f, n)
    ensures Beta(f, base, n) * f.ln(n as real) == base as real
    ensures base > 0 ==> Beta(f, base, n) > 0.0
  {
    var l := f.ln(n as real);
    assert base as real / l * l == base as real;
    if base > 0 {
      QuotientPositive(base as real, l);
    }
  }

  function TradeCost(f: Analysis, base: nat, q: seq<int>, q': seq<int>): Result<real, LmsrError>
    requires f.ln(|q| as real) != 0.0
  {
    UpdateCost(f, Beta(f, base, |q|), Reals(q), Reals(q'))
  }

  /** The treasury takes the base cost; the fee goes elsewhere. */
  function Bought(m: Market, q': seq<int>, buy: Result<BuyCost, SatoshiError>): Market {
    if buy.Err? then m else m.(shares := q', treasury := m.treasury + buy.value.base)
  }

  function Sold(m: Market, q': seq<int>, sell: Result<SellProceeds, SatoshiError>): Market {
    if sell.Err? then m else m.(shares := q', treasury := m.treasury - sell.value.gross)
  }

  /** One accepted or refused operation; a refused one changes nothing. */
  function Apply(f: Analysis, feePct: real, m: Market, op: Op): Market
    requires f.ln(|m.shares| as real) != 0.0
  {
    match op
    case Amplify(deposit) => m.(treasury := m.treasury + deposit, base := m.base + deposit)
    case Buy(o, amount) =>
      if o >= |m.shares| then m else
      var q' := m.shares[o := m.shares[o] + amount];
      var cost := TradeCost(f, m.base, m.shares, q');
      if cost.Err? then m else Bought(m, q', CalculateBuyCost(cost.value, feePct))
    case Sell(o, amount) =>
      if o >= |m.shares| || m.shares[o] < amount then m else
      var q' := m.shares[o := m.shares[o] - amount];
      var proceeds := TradeCost(f, m.base, q', m.shares);
      if proceeds.Err? then m else Sold(m, q', CalculateSellProceeds(proceeds.value, feePct))
  }

  function Run(f: Analysis, feePct: real, m: Market, ops: seq<Op>): (r: Market)
    requires f.ln(|m.shares| as real) != 0.0
    ensures |r.shares| == |m.shares|
  {
    if ops == [] then m
    else Apply(f, feePct, Run(f, feePct, m, ops[..|ops| - 1]), ops[|ops| - 1])
  }

  /** The treasury covers the cost function, and no outcome is oversold. */
  ghost predicate Solvent(f: Analysis, m: Market) {
    && |m.shares| >= 2 && LnPositive(f, |m.shares|) && m.base > 0
    && Beta(f, m.base, |m.shares|) > 0.0
    && (forall i | 0 <= i < |m.shares| :: m.shares[i] >= 0)
    && m.treasury as real >= Cost(f, Beta(f, m.base, |m.shares|), Reals(m.shares))
  }

  /** A market created with no shares and its seed as treasury. */
  lemma NewMarketSolvent(f: Analysis, n: nat, seed: nat)
    requires Laws(f) && n >= 2 && seed > 0
    ensures Solvent(f, Market(seq(n, _ => 0), seed, seed))
  {
    var q := seq(n, _ => 0);
    LnAboveOne(f, n as real);
    BetaFunds(f, seed, n);
    CostAtStart(f, Beta(f, seed, n), Reals(q));
  }

  lemma AmplifySolvent(f: Analysis, m: Market, deposit: nat)
    requires Laws(f) && Solvent(f, m)
    ensures Solvent(f, m.(treasury := m.treasury + deposit, base := m.base + deposit))
  {
    var n := |m.shares|;
    var b, c, k := Beta(f, m.base, n), Beta(f, m.base + deposit, n), f.ln(n as real);
    BetaFunds(f, m.base, n);
    BetaFunds(f, m.base + deposit, n);
    BetaGrows(b, c, k, m.base as real, (m.base + deposit) as real);
    CostAmplify(f, b, c, Reals(m.shares));
  }

  lemma BetaGrows(b: real, c: real, k: real, x: real, y: real)
    requires k > 0.0 && b * k == x && c * k == y && x <= y
    ensures b <= c && (c - b) * k == y - x
  {
    assert (c - b) * k == y - x;
    assert c < b ==> (b - c) * k > 0.0;
  }

  /** Every operation keeps the market solvent. */
  lemma ApplySolvent(f: Analysis, feePct: real, m: Market, op: Op)
    requires Laws(f) && Solvent(f, m)
    ensures Solvent(f, Apply(f, feePct, m, op))
  {
    match op
    case Amplify(deposit) => AmplifySolvent(f, m, deposit);
    case Buy(o, amount) => BuySolvent(f, feePct, m, o, amount);
    case Sell(o, amount) => SellSolvent(f, feePct, m, o, amount);
  }

  lemma BuySolvent(f: Analysis, feePct: real, m: Market, o: nat, amount: nat)
    requires Solvent(f, m)
    ensures Solvent(f, Apply(f, feePct, m, Buy(o, amount)))
  {
    if o < |m.shares| {
      TradeSolvent(f, m, m.shares[o := m.shares[o] + amount]);
    }
  }

  lemma SellSolvent(f: Analysis, feePct: real, m: Market, o: nat, amount: nat)
    requires Solvent(f, m)
    ensures Solvent(f, Apply(f, feePct, m, Sell(o, amount)))
  {
    if o < |m.shares| && m.shares[o] >= amount {
      TradeSolvent(f, m, m.shares[o := m.shares[o] - amount]);
    }
  }

  /** A trade is covered if the treasury grows by at least the change in cost. */
  lemma TradeSolvent(f: Analysis, m: Market, q': seq<int>)
    requires Solvent(f, m) && |q'| == |m.shares| && forall i | 0 <= i < |q'| :: q'[i] >= 0
    ensures forall t: int :: t as real >= Cost(f, Beta(f, m.base, |q'|), Reals(q')) ==>
              Solvent(f, m.(shares := q', treasury := t))
  {
  }

  /** Buying costs, and selling pays, a non-negative amount: neither is refused as negative. */
  lemma TradesHaveSign(f: Analysis, base: nat, q: seq<int>, q': seq<int>)
    requires Laws(f) && |q| >= 2 && base > 0 && |q| == |q'| && forall i | 0 <= i < |q| :: q[i] <= q'[i]
    ensures f.ln(|q| as real) > 0.0
    ensures TradeCost(f, base, q, q').Ok? ==> TradeCost(f, base, q, q').value >= 0.0
  {
    LnAboveOne(f, |q| as real);
    BetaFunds(f, base, |q|);
    CostMono(f, Beta(f, base, |q|), Reals(q), Reals(q'));
  }

  lemma {:induction false} RunSolvent(f: Analysis, feePct: real, m: Market, ops: seq<Op>)
    requires Laws(f) && Solvent(f, m)
    ensures Solvent(f, Run(f, feePct, m, ops))
  {
    if ops != [] {
      RunSolvent(f, feePct, m, ops[..|ops| - 1]);
      ApplySolvent(f, feePct, Run(f, feePct, m, ops[..|ops| - 1]), ops[|ops| - 1]);
    }
  }

  // ----- Redemption

  ghost predicate Distribution(p: seq<real>) {
    Sum(p) == 1.0 && forall i | 0 <= i < |p| :: p[i] >= 0.0
  }

  ghost function Weighted(p: seq<real>, q: seq<real>): real
    requires |p| == |q|
  {
    if p == [] then 0.0 else Weighted(p[..|p| - 1], q[..|q| - 1]) + p[|p| - 1] * q[|q| - 1]
  }

  lemma {:induction false} WeightedAtMost(p: seq<real>, q: seq<real>, m: real)
    requires |p| == |q| && (forall i | 0 <= i < |p| :: p[i] >= 0.0) && forall i | 0 <= i < |q| :: q[i] <= m
    ensures Weighted(p, q) <= Sum(p) * m
  {
    if p != [] {
      var n := |p| - 1;
      var sum := Sum(p[..n]);
      WeightedAtMost(p[..n], q[..n], m);
      MulLe(p[n], q[n], m);
      AddFactor(sum, p[n], m);
    }
  }

  lemma MulLe(a: real, x: real, y: real)
    requires a >= 0.0 && x <= y
    ensures a * x <= a * y
  {
  }

  lemma AddFactor(a: real, b: real, m: real)
    ensures a * m + b * m == (a + b) * m
  {
  }

  /**
   After any run the treasury covers the redemption of all shares at any final prices, and is
   never negative.
   */
  lemma TreasuryCoversRedemption(f: Analysis, feePct: real, n: nat, seed: nat, ops: seq<Op>, prices: seq<real>)
    requires Laws(f) && n >= 2 && seed > 0
    requires |prices| == n && Distribution(prices)
    ensures f.ln(n as real) > 0.0
    ensures var m := Run(f, feePct, Market(seq(n, _ => 0), seed, seed), ops);
            0.0 <= Weighted(prices, Reals(m.shares)) <= m.treasury as real
  {
    LnAboveOne(f, n as real);
    var start := Market(seq(n, _ => 0), seed, seed);
    var m := Run(f, feePct, start, ops);
    NewMarketSolvent(f, n, seed);
    RunSolvent(f, feePct, start, ops);
    var q := Reals(m.shares);
    CostBounds(f, Beta(f, m.base, n), q, f.ln(n as real));
    WeightedAtMost(prices, q, Max(q));
    WeightedNonnegative(prices, q);
    assert Sum(prices) * Max(q) == Max(q);
  }

  lemma {:induction false} WeightedNonnegative(p: seq<real>, q: seq<real>)
    requires |p| == |q| && (forall i | 0 <= i < |p| :: p[i] >= 0.0) && forall i | 0 <= i < |q| :: q[i] >= 0.0
    ensures Weighted(p, q) >= 0.0
  {
    if p != [] {
      var n := |p| - 1;
      WeightedNonnegative(p[..n], q[..n]);
      MulLe(p[n], 0.0, q[n]);
    }
  }
}
