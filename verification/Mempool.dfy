/**
 The mempool: transactions, and four indexes over them (spent outpoints, addresses, pending
 decision claims, trade order) that every operation keeps exact.
 */
module Mempool {
  import opened Common

  type Txid = nat
  type Address = nat
  type DecisionId = nat

  datatype OutPoint = Regular(txid: Txid, vout: nat) | Other(id: nat)

  datatype InPoint = InPoint(txid: Txid, vin: nat)

  /** A transaction, reduced to what the mempool looks at. */
  datatype Tx = Tx(
    txid: Txid,
    inputs: seq<OutPoint>,
    outputs: nat,
    addresses: set<Address>,
    claims: seq<DecisionId>,
    isTrade: bool)

  type Txs = map<Txid, Tx>

  datatype Pool = Pool(
    txs: Txs,
    spent: map<OutPoint, InPoint>,
    byAddress: map<Address, set<Txid>>,
    claims: map<DecisionId, Txid>,
    order: map<nat, Txid>,
    counter: nat)

  datatype Error = MempoolFull | DecisionAlreadyClaimed | UtxoDoubleSpent

  const MAX_TRANSACTIONS := 5000

  // ----- The invariant

  ghost predicate Keyed(txs: Txs) {
    forall t | t in txs :: txs[t].txid == t
  }

  /** Each spent outpoint maps to the one input that spends it. */
  ghost predicate SpentExact(txs: Txs, spent: map<OutPoint, InPoint>) {
    && (forall t, i | t in txs && 0 <= i < |txs[t].inputs| ::
          txs[t].inputs[i] in spent && spent[txs[t].inputs[i]] == InPoint(t, i))
    && forall o | o in spent ::
         var ip := spent[o];
         ip.txid in txs && ip.vin < |txs[ip.txid].inputs| && txs[ip.txid].inputs[ip.vin] == o
  }

  ghost predicate ClaimedBy(txs: Txs, d: DecisionId, t: Txid) {
    t in txs && d in txs[t].claims
  }

  /** Each pending decision id maps to the one transaction that claims it. */
  ghost predicate ClaimsExact(txs: Txs, claims: map<DecisionId, Txid>) {
    && (forall d, t | ClaimedBy(txs, d, t) :: d in claims && claims[d] == t)
    && forall d | d in claims :: ClaimedBy(txs, d, claims[d])
  }

  ghost function Relevant(txs: Txs, a: Address): set<Txid> {
    set t | t in txs && a in txs[t].addresses
  }

  /** Each address maps to exactly its relevant transactions, and no entry is empty. */
  ghost predicate AddressesExact(txs: Txs, byAddress: map<Address, set<Txid>>) {
    forall a {:trigger a in byAddress} {:trigger Relevant(txs, a)} ::
      if a in byAddress then byAddress[a] == Relevant(txs, a) != {} else Relevant(txs, a) == {}
  }

  /** Each trade has exactly one order entry, no later than the counter. */
  ghost predicate OrderExact(txs: Txs, order: map<nat, Txid>, counter: nat) {
    && (forall k | k in order :: 1 <= k <= counter && order[k] in txs && txs[order[k]].isTrade)
    && (forall j, k | j in order && k in order && order[j] == order[k] :: j == k)
    && forall t | t in txs && txs[t].isTrade :: t in order.Values
  }

  ghost predicate Inv(p: Pool) {
    && Keyed(p.txs)
    && SpentExact(p.txs, p.spent)
    && ClaimsExact(p.txs, p.claims)
    && AddressesExact(p.txs, p.byAddress)
    && OrderExact(p.txs, p.order, p.counter)
    && |p.txs| <= MAX_TRANSACTIONS
  }

  // ----- Cascades

  /** `c` spends a listed output of `p`. */
  ghost predicate Child(txs: Txs, p: Txid, c: Txid) {
    && p in txs && c in txs
    && exists i | 0 <= i < |txs[c].inputs| ::
         txs[c].inputs[i].Regular? && txs[c].inputs[i].txid == p && txs[c].inputs[i].vout < txs[p].outputs
  }

  ghost predicate Reach(txs: Txs, p: Txid, c: Txid, n: nat)
    decreases n
  {
    if n == 0 then p == c && p in txs
    else exists q :: Reach(txs, p, q, n - 1) && Child(txs, q, c)
  }

  /** Everything reachable from `roots` by spending listed outputs, roots included. */
  ghost function Cascade(txs: Txs, roots: set<Txid>): set<Txid> {
    set c | c in txs && exists r, n: nat :: r in roots && Reach(txs, r, c, n)
  }

  ghost predicate ChildClosed(txs: Txs, X: set<Txid>) {
    forall p, c | p in X && Child(txs, p, c) :: c in X
  }

  /** No survivor of a cascade spends a listed output of a removed transaction. */
  lemma CascadeClosed(txs: Txs, roots: set<Txid>)
    ensures ChildClosed(txs, Cascade(txs, roots))
    ensures roots * txs.Keys <= Cascade(txs, roots)
  {
    forall p, c | p in Cascade(txs, roots) && Child(txs, p, c)
      ensures c in Cascade(txs, roots)
    {
      var r, n: nat :| r in roots && Reach(txs, r, p, n);
      assert Reach(txs, r, c, n + 1);
    }
    forall r | r in roots && r in txs
      ensures r in Cascade(txs, roots)
    {
      assert Reach(txs, r, r, 0);
    }
  }

  lemma {:induction false} ReachInClosed(txs: Txs, X: set<Txid>, p: Txid, c: Txid, n: nat)
    requires ChildClosed(txs, X) && p in X && Reach(txs, p, c, n)
    ensures c in X
    decreases n
  {
    if n > 0 {
      var q :| Reach(txs, p, q, n - 1) && Child(txs, q, c);
      ReachInClosed(txs, X, p, q, n - 1);
    }
  }

  /** A cascade is the least child-closed set that holds its roots. */
  lemma CascadeLeast(txs: Txs, roots: set<Txid>, X: set<Txid>)
    requires ChildClosed(txs, X) && roots * txs.Keys <= X
    ensures Cascade(txs, roots) <= X
  {
    forall c | c in Cascade(txs, roots)
      ensures c in X
    {
      var r, n: nat :| r in roots && Reach(txs, r, c, n);
      ReachStartsStored(txs, r, c, n);
      ReachInClosed(txs, X, r, c, n);
    }
  }

  lemma {:induction false} ReachStartsStored(txs: Txs, p: Txid, c: Txid, n: nat)
    requires Reach(txs, p, c, n)
    ensures p in txs
    decreases n
  {
    if n > 0 {
      var q :| Reach(txs, p, q, n - 1) && Child(txs, q, c);
      ReachStartsStored(txs, p, q, n - 1);
    }
  }

  /** Whether one transaction spends another does not depend on third ones. */
  lemma ChildRestrict(txs: Txs, gone: set<Txid>, p: Txid, c: Txid)
    ensures Child(txs - gone, p, c) <==> Child(txs, p, c) && p !in gone && c !in gone
  {
    var left := txs - gone;
    assert p in left ==> left[p] == txs[p];
    assert c in left ==> left[c] == txs[c];
  }

  /** Cascading one more root after the rest is cascading all of them at once. */
  lemma CascadeSequential(txs: Txs, roots: set<Txid>, z: Txid)
    ensures var left := txs - Cascade(txs, roots);
            left - Cascade(left, {z}) == txs - Cascade(txs, roots + {z})
  {
    var first := Cascade(txs, roots);
    var left := txs - first;
    var second := Cascade(left, {z});
    var all := Cascade(txs, roots + {z});
    CascadeClosed(txs, roots);
    CascadeClosed(txs, roots + {z});
    CascadeClosed(left, {z});
    forall p, c | p in first + second && Child(txs, p, c)
      ensures c in first + second
    {
      ChildRestrict(txs, first, p, c);
    }
    CascadeLeast(txs, roots + {z}, first + second);
    CascadeLeast(txs, roots, all);
    forall p, c | p in all && Child(left, p, c)
      ensures c in all
    {
      ChildRestrict(txs, first, p, c);
    }
    CascadeLeast(left, {z}, all);
  }

  // ----- Updating one index at a time

  /** No id is held by another transaction. */
  ghost predicate Unclaimed(claims: map<DecisionId, Txid>, txid: Txid, ids: seq<DecisionId>) {
    forall d | d in ids :: d in claims ==> claims[d] == txid
  }

  method ClaimsFree(claims: map<DecisionId, Txid>, txid: Txid, ids: seq<DecisionId>) returns (free: bool)
    ensures free <==> Unclaimed(claims, txid, ids)
  {
    for i := 0 to |ids|
      invariant forall d | d in ids[..i] :: d in claims ==> claims[d] == txid
    {
      if ids[i] in claims && claims[ids[i]] != txid {
        return false;
      }
    }
    assert ids[..|ids|] == ids;
    return true;
  }

  ghost predicate ClaimsAfter(claims: map<DecisionId, Txid>, txid: Txid, ids: seq<DecisionId>,
                              r: map<DecisionId, Txid>)
  {
    && (forall d {:trigger d in r} :: d in r <==> d in claims || d in ids)
    && forall d | d in r :: r[d] == if d in ids then txid else claims[d]
  }

  method AddClaims(claims: map<DecisionId, Txid>, txid: Txid, ids: seq<DecisionId>) returns (r: map<DecisionId, Txid>)
    ensures ClaimsAfter(claims, txid, ids, r)
  {
    r := claims;
    for i := 0 to |ids|
      invariant forall d {:trigger d in r} :: d in r <==> d in claims || d in ids[..i]
      invariant forall d | d in r :: r[d] == if d in ids[..i] then txid else claims[d]
    {
      r := r[ids[i] := txid];
    }
    assert ids[..|ids|] == ids;
  }

  ghost function ClaimsWithout(claims: map<DecisionId, Txid>, ids: seq<DecisionId>): map<DecisionId, Txid> {
    map d | d in claims && d !in ids :: claims[d]
  }

  method DeleteClaims(claims: map<DecisionId, Txid>, ids: seq<DecisionId>) returns (r: map<DecisionId, Txid>)
    ensures r == ClaimsWithout(claims, ids)
  {
    r := claims;
    for i := 0 to |ids|
      invariant r == ClaimsWithout(claims, ids[..i])
    {
      r := r - {ids[i]};
    }
    assert ids[..|ids|] == ids;
  }

  ghost predicate SpentAfter(spent: map<OutPoint, InPoint>, txid: Txid, inputs: seq<OutPoint>,
                             r: map<OutPoint, InPoint>)
  {
    && r.Keys == spent.Keys + (set o | o in inputs)
    && (forall i | 0 <= i < |inputs| :: r[inputs[i]] == InPoint(txid, i))
    && forall o | o in spent :: r[o] == spent[o]
  }

  ghost predicate Unspent(spent: map<OutPoint, InPoint>, inputs: seq<OutPoint>) {
    Distinct(inputs) && forall i | 0 <= i < |inputs| :: inputs[i] !in spent
  }

  /** Marks every input as spent; refuses an outpoint that is spent already, here or before. */
  method SpendInputs(spent: map<OutPoint, InPoint>, txid: Txid, inputs: seq<OutPoint>)
    returns (r: Option<map<OutPoint, InPoint>>)
    ensures r.Some? <==> Unspent(spent, inputs)
    ensures r.Some? ==> SpentAfter(spent, txid, inputs, r.value)
  {
    var m := spent;
    for i := 0 to |inputs|
      invariant m.Keys == spent.Keys + (set o | o in inputs[..i])
      invariant forall k | 0 <= k < i :: m[inputs[k]] == InPoint(txid, k)
      invariant forall o | o in spent :: m[o] == spent[o]
      invariant Distinct(inputs[..i]) && forall k | 0 <= k < i :: inputs[k] !in spent
    {
      if inputs[i] in m {
        if inputs[i] !in spent {
          assert inputs[i] in inputs[..i];
          var k :| 0 <= k < i && inputs[k] == inputs[i];
        }
        return None;
      }
      m := m[inputs[i] := InPoint(txid, i)];
      assert inputs[..i + 1] == inputs[..i] + [inputs[i]];
    }
    assert inputs[..|inputs|] == inputs;
    return Some(m);
  }

  ghost function SpentWithout(spent: map<OutPoint, InPoint>, inputs: seq<OutPoint>): map<OutPoint, InPoint> {
    map o | o in spent && o !in inputs :: spent[o]
  }

  method UnspendInputs(spent: map<OutPoint, InPoint>, inputs: seq<OutPoint>) returns (r: map<OutPoint, InPoint>)
    ensures r == SpentWithout(spent, inputs)
  {
    r := spent;
    for i := 0 to |inputs|
      invariant r == SpentWithout(spent, inputs[..i])
    {
      r := r - {inputs[i]};
    }
    assert inputs[..|inputs|] == inputs;
  }

  ghost predicate AddressesAfter(byAddress: map<Address, set<Txid>>, txid: Txid, addresses: set<Address>,
                                 r: map<Address, set<Txid>>)
  {
    && r.Keys == byAddress.Keys + addresses
    && forall a | a in r ::
         r[a] == (if a in byAddress then byAddress[a] else {}) + (if a in addresses then {txid} else {})
  }

  method IndexAddresses(byAddress: map<Address, set<Txid>>, txid: Txid, addresses: set<Address>)
    returns (r: map<Address, set<Txid>>)
    ensures AddressesAfter(byAddress, txid, addresses, r)
  {
    r := byAddress;
    var todo := addresses;
    while todo != {}
      invariant todo <= addresses && r.Keys == byAddress.Keys + (addresses - todo)
      invariant forall a | a in r ::
        r[a] == (if a in byAddress then byAddress[a] else {}) + (if a in addresses - todo then {txid} else {})
      decreases todo
    {
      var a :| a in todo;
      r := r[a := (if a in r then r[a] else {}) + {txid}];
      todo := todo - {a};
    }
  }

  ghost predicate AddressesLeft(byAddress: map<Address, set<Txid>>, txid: Txid, addresses: set<Address>,
                                r: map<Address, set<Txid>>)
  {
    && (forall a {:trigger a in r} :: a in r <==> a in byAddress && (a in addresses ==> byAddress[a] != {txid}))
    && forall a | a in r :: r[a] == if a in addresses then byAddress[a] - {txid} else byAddress[a]
  }

  method UnindexAddresses(byAddress: map<Address, set<Txid>>, txid: Txid, addresses: set<Address>)
    returns (r: map<Address, set<Txid>>)
    requires forall a | a in byAddress :: byAddress[a] != {}
    ensures AddressesLeft(byAddress, txid, addresses, r)
  {
    r := byAddress;
    var todo := addresses;
    while todo != {}
      invariant todo <= addresses
      invariant forall a {:trigger a in r} ::
        a in r <==> a in byAddress && (a in addresses - todo ==> byAddress[a] != {txid})
      invariant forall a | a in r :: r[a] == if a in addresses - todo then byAddress[a] - {txid} else byAddress[a]
      decreases todo
    {
      var a :| a in todo;
      if a in r {
        var rest := r[a] - {txid};
        r := if rest != {} then r[a := rest] else r - {a};
      }
      todo := todo - {a};
    }
  }

  /** Drops the first order entry that holds the transaction. */
  method DeleteTradeOrder(order: map<nat, Txid>, txid: Txid) returns (r: map<nat, Txid>)
    requires forall j, k | j in order && k in order && order[j] == order[k] :: j == k
    ensures r == OrderWithout(order, {txid})
  {
    var todo := order.Keys;
    while todo != {}
      invariant todo <= order.Keys
      invariant forall k | k in order && k !in todo :: order[k] != txid
      decreases todo
    {
      var k :| k in todo;
      if order[k] == txid {
        return order - {k};
      }
      todo := todo - {k};
    }
    return order;
  }

  // ----- What one put or one removal does to the pool

  /** What a put must meet, besides room: unspent distinct inputs and unclaimed decisions. */
  ghost predicate Admissible(p: Pool, tx: Tx) {
    && Unclaimed(p.claims, tx.txid, tx.claims)
    && Unspent(p.spent, tx.inputs)
  }

  ghost predicate FirstInputSpent(txs: Txs, spent: map<OutPoint, InPoint>, t: Txid) {
    t in txs && txs[t].inputs != [] ==> txs[t].inputs[0] in spent
  }

  /** A transaction whose inputs are all unspent is not in the pool yet. */
  lemma NotPooled(txs: Txs, spent: map<OutPoint, InPoint>, tx: Tx)
    requires SpentExact(txs, spent) && Unspent(spent, tx.inputs)
    requires tx.txid in txs ==> tx.inputs == txs[tx.txid].inputs != []
    ensures tx.txid !in txs
  {
    assert FirstInputSpent(txs, spent, tx.txid);
  }

  lemma PutSpent(txs: Txs, spent: map<OutPoint, InPoint>, tx: Tx, spent': map<OutPoint, InPoint>)
    requires SpentExact(txs, spent) && tx.txid !in txs
    requires Unspent(spent, tx.inputs) && SpentAfter(spent, tx.txid, tx.inputs, spent')
    ensures SpentExact(txs[tx.txid := tx], spent')
  {
  }

  lemma PutAddresses(txs: Txs, byAddress: map<Address, set<Txid>>, tx: Tx, r: map<Address, set<Txid>>)
    requires AddressesExact(txs, byAddress) && tx.txid !in txs
    requires AddressesAfter(byAddress, tx.txid, tx.addresses, r)
    ensures AddressesExact(txs[tx.txid := tx], r)
  {
    forall a
      ensures Relevant(txs[tx.txid := tx], a) == Relevant(txs, a) + if a in tx.addresses then {tx.txid} else {}
    {
    }
  }

  lemma RemoveAddresses(txs: Txs, byAddress: map<Address, set<Txid>>, t: Txid, r: map<Address, set<Txid>>)
    requires AddressesExact(txs, byAddress) && t in txs
    requires AddressesLeft(byAddress, t, txs[t].addresses, r)
    ensures AddressesExact(txs - {t}, r)
  {
    forall a
      ensures Relevant(txs - {t}, a) == Relevant(txs, a) - {t}
      ensures a !in txs[t].addresses ==> t !in Relevant(txs, a)
    {
    }
  }

  /** A trade is appended under the next counter value. */
  ghost predicate OrderAfter(order: map<nat, Txid>, counter: nat, tx: Tx, order': map<nat, Txid>, counter': nat) {
    if tx.isTrade then counter' == counter + 1 && order' == order[counter' := tx.txid]
    else counter' == counter && order' == order
  }

  lemma PutOrder(txs: Txs, order: map<nat, Txid>, counter: nat, tx: Tx, order': map<nat, Txid>, counter': nat)
    requires OrderExact(txs, order, counter) && tx.txid !in txs
    requires OrderAfter(order, counter, tx, order', counter')
    ensures OrderExact(txs[tx.txid := tx], order', counter')
  {
    if tx.isTrade {
      assert order'[counter'] == tx.txid;
      forall t | t in txs && txs[t].isTrade
        ensures t in order'.Values
      {
        var k :| k in order && order[k] == t;
        assert order'[k] == t;
      }
    }
  }

  /** The order entries that survive a removal. */
  ghost function OrderWithout(order: map<nat, Txid>, gone: set<Txid>): map<nat, Txid> {
    map k | k in order && order[k] !in gone :: order[k]
  }

  /** The order entries of the transactions that are left. */
  ghost function OrderKept(order: map<nat, Txid>, txs: Txs): map<nat, Txid> {
    map k | k in order && order[k] in txs :: order[k]
  }

  lemma KeptAll(txs: Txs, order: map<nat, Txid>, counter: nat)
    requires OrderExact(txs, order, counter)
    ensures OrderKept(order, txs) == order
  {
  }

  lemma KeptWithout(txs: Txs, order: map<nat, Txid>, counter: nat, gone: set<Txid>)
    requires OrderExact(txs, order, counter)
    ensures OrderWithout(order, gone) == OrderKept(order, txs - gone)
  {
  }

  lemma KeptTwice(order: map<nat, Txid>, txs: Txs, txs': Txs, order': map<nat, Txid>)
    requires txs'.Keys <= txs.Keys && order' == OrderKept(order, txs)
    ensures OrderKept(order', txs') == OrderKept(order, txs')
  {
  }

  lemma RemoveOrder(txs: Txs, order: map<nat, Txid>, counter: nat, t: Txid)
    requires OrderExact(txs, order, counter)
    ensures OrderExact(txs - {t}, OrderWithout(order, {t}), counter)
  {
    forall x | x in txs - {t} && txs[x].isTrade
      ensures x in OrderWithout(order, {t}).Values
    {
      var k :| k in order && order[k] == x;
      assert OrderWithout(order, {t})[k] == x;
    }
  }

  lemma RemoveOrderNonTrade(txs: Txs, order: map<nat, Txid>, counter: nat, t: Txid)
    requires OrderExact(txs, order, counter) && t in txs && !txs[t].isTrade
    ensures OrderWithout(order, {t}) == order
  {
  }

  lemma PutClaims(txs: Txs, claims: map<DecisionId, Txid>, tx: Tx, r: map<DecisionId, Txid>)
    requires ClaimsExact(txs, claims) && tx.txid !in txs
    requires Unclaimed(claims, tx.txid, tx.claims)
    requires ClaimsAfter(claims, tx.txid, tx.claims, r)
    ensures ClaimsExact(txs[tx.txid := tx], r)
  {
    var txs' := txs[tx.txid := tx];
    forall d, t | ClaimedBy(txs', d, t)
      ensures d in r && r[d] == t
    {
      assert t != tx.txid ==> ClaimedBy(txs, d, t);
    }
    forall d | d in r
      ensures ClaimedBy(txs', d, r[d])
    {
      assert d in claims ==> ClaimedBy(txs, d, claims[d]);
    }
  }

  lemma PutKeepsInv(p: Pool, tx: Tx, q: Pool)
    requires Inv(p) && tx.txid !in p.txs && Admissible(p, tx) && |p.txs| < MAX_TRANSACTIONS
    requires q.txs == p.txs[tx.txid := tx]
    requires SpentAfter(p.spent, tx.txid, tx.inputs, q.spent)
    requires AddressesAfter(p.byAddress, tx.txid, tx.addresses, q.byAddress)
    requires ClaimsAfter(p.claims, tx.txid, tx.claims, q.claims)
    requires OrderAfter(p.order, p.counter, tx, q.order, q.counter)
    ensures Inv(q)
  {
    PutSpent(p.txs, p.spent, tx, q.spent);
    PutAddresses(p.txs, p.byAddress, tx, q.byAddress);
    PutClaims(p.txs, p.claims, tx, q.claims);
    PutOrder(p.txs, p.order, p.counter, tx, q.order, q.counter);
    assert |q.txs| == |p.txs| + 1;
  }

  lemma RemoveKeepsInv(p: Pool, t: Txid, q: Pool)
    requires Inv(p) && t in p.txs
    requires q.txs == p.txs - {t}
    requires q.spent == SpentWithout(p.spent, p.txs[t].inputs)
    requires AddressesLeft(p.byAddress, t, p.txs[t].addresses, q.byAddress)
    requires q.claims == ClaimsWithout(p.claims, p.txs[t].claims)
    requires q.order == OrderWithout(p.order, {t}) && q.counter == p.counter
    ensures Inv(q)
  {
    RemoveSpent(p.txs, p.spent, t, q.spent);
    RemoveAddresses(p.txs, p.byAddress, t, q.byAddress);
    RemoveClaims(p.txs, p.claims, t, q.claims);
    RemoveOrder(p.txs, p.order, p.counter, t);
    RemoveCount(p.txs, t);
  }

  // ----- The mempool object

  class MemPool {
    var txs: Txs
    var spent: map<OutPoint, InPoint>
    var byAddress: map<Address, set<Txid>>
    var claims: map<DecisionId, Txid>
    var order: map<nat, Txid>
    var counter: nat

    ghost function P(): Pool
      reads this
    {
      Pool(txs, spent, byAddress, claims, order, counter)
    }

    constructor ()
      ensures Inv(P()) && txs == map[] && order == map[] && counter == 0
    {
      txs, spent, byAddress, claims, order, counter := map[], map[], map[], map[], map[], 0;
    }

    /**
     Adds a transaction. A transaction id determines the inputs, so one that is already in the
     pool is refused as a double spend, provided it has an input at all.
     */
    method Put(tx: Tx) returns (r: Result<(), Error>)
      requires Inv(P())
      requires tx.txid in txs ==> tx.inputs == txs[tx.txid].inputs != []
      modifies this
      ensures Inv(P())
      ensures r.Ok? <==> old(|txs| < MAX_TRANSACTIONS && Admissible(P(), tx))
      ensures r.Err? ==> P() == old(P())
      ensures r == Err(MempoolFull) <==> old(|txs| >= MAX_TRANSACTIONS)
      ensures r == Err(DecisionAlreadyClaimed) <==>
              old(|txs| < MAX_TRANSACTIONS && !Unclaimed(claims, tx.txid, tx.claims))
      ensures r.Ok? ==>
                && tx.txid !in old(txs) && txs == old(txs)[tx.txid := tx]
                && OrderAfter(old(order), old(counter), tx, order, counter)
    {
      if |txs| >= MAX_TRANSACTIONS {
        return Err(MempoolFull);
      }
      var free := ClaimsFree(claims, tx.txid, tx.claims);
      if !free {
        return Err(DecisionAlreadyClaimed);
      }
      var claims' := AddClaims(claims, tx.txid, tx.claims);
      var spent' := SpendInputs(spent, tx.txid, tx.inputs);
      if spent'.None? {
        return Err(UtxoDoubleSpent);
      }
      NotPooled(txs, spent, tx);
      var byAddress' := IndexAddresses(byAddress, tx.txid, tx.addresses);
      ghost var p := P();
      txs, spent, byAddress, claims := txs[tx.txid := tx], spent'.value, byAddress', claims';
      if tx.isTrade {
        counter := counter + 1;
        order := order[counter := tx.txid];
      }
      PutKeepsInv(p, tx, P());
      return Ok(());
    }

    /** Takes one transaction out of every table. */
    method RemoveTx(t: Txid)
      requires Inv(P()) && t in txs
      modifies this
      ensures Inv(P())
      ensures txs == old(txs) - {t} && order == OrderWithout(old(order), {t}) && counter == old(counter)
    {
      var tx := txs[t];
      var spent' := UnspendInputs(spent, tx.inputs);
      var byAddress' := UnindexAddresses(byAddress, t, tx.addresses);
      var claims' := DeleteClaims(claims, tx.claims);
      ghost var p := P();
      if tx.isTrade {
        order := DeleteTradeOrder(order, t);
      } else {
        RemoveOrderNonTrade(txs, order, counter, t);
      }
      txs, spent, byAddress, claims := txs - {t}, spent', byAddress', claims';
      RemoveKeepsInv(p, t, P());
    }

    /** The transactions that spend one of the first `outputs` outputs of `t`. */
    method Spenders(t: Txid, outputs: nat) returns (r: seq<Txid>)
      ensures SpendersListed(spent, t, outputs, r)
    {
      r := [];
      for i := 0 to outputs
        invariant SpendersListed(spent, t, i, r)
      {
        if Regular(t, i) in spent {
          r := r + [spent[Regular(t, i)].txid];
        }
      }
    }

    /** Takes one transaction out and lists the transactions that spend its outputs. */
    method RemoveAndListSpenders(x: Txid) returns (children: seq<Txid>)
      requires Inv(P()) && x in txs
      modifies this
      ensures Inv(P())
      ensures txs == old(txs) - {x} && order == OrderWithout(old(order), {x}) && counter == old(counter)
      ensures |txs| < |old(txs)|
      ensures SpendersListed(spent, x, old(txs[x].outputs), children)
    {
      RemoveCount(txs, x);
      var outputs := txs[x].outputs;
      RemoveTx(x);
      children := Spenders(x, outputs);
    }

    /** Removes a transaction and everything that depends on its listed outputs. */
    method Delete(t: Txid)
      requires Inv(P())
      modifies this
      ensures Inv(P())
      ensures txs == old(txs) - Cascade(old(txs), {t})
      ensures order == OrderWithout(old(order), Cascade(old(txs), {t})) && counter == old(counter)
    {
      ghost var p, gone: set<Txid> := P(), {};
      var pending := [t];
      DeletingStart(p.txs, t);
      while pending != []
        invariant Inv(P()) && counter == p.counter
        invariant txs == p.txs - gone && order == OrderWithout(p.order, gone)
        invariant Deleting(p.txs, t, gone, pending)
        decreases |txs|, |pending|
      {
        var x := pending[0];
        if x in txs {
          var children := RemoveAndListSpenders(x);
          RemoveMore(p.txs, p.order, gone, x);
          DeletingStep(p.txs, t, gone, pending, x, spent, children);
          gone, pending := gone + {x}, pending[1..] + children;
        } else {
          DeletingSkip(p.txs, t, gone, pending);
          pending := pending[1..];
        }
      }
      DeletingDone(p.txs, t, gone);
    }

    /**
     Drops every pending transaction that claims a decision the confirmed one claims. `at` says
     which confirmed id each evicted transaction was found under.
     */
    method EvictDecisionClaimConflicts(confirmed: Tx) returns (evicted: seq<Txid>, ghost at: seq<nat>)
      requires Inv(P())
      modifies this
      ensures Inv(P())
      ensures txs == old(txs) - Cascade(old(txs), old(Conflicts(claims, confirmed.claims, confirmed.txid)))
      ensures Unclaimed(claims, confirmed.txid, confirmed.claims)
      ensures order == OrderKept(old(order), txs) && counter == old(counter)
      ensures Distinct(evicted)
      ensures forall z | z in evicted ::
                z in old(txs) && z !in txs && z in old(Conflicts(claims, confirmed.claims, confirmed.txid))
      ensures txs == old(txs) - Cascade(old(txs), Listed(evicted))
      ensures old(Conflicts(claims, confirmed.claims, confirmed.txid)) <= Cascade(old(txs), Listed(evicted))
      ensures Found(old(P()), confirmed.claims, |confirmed.claims|, confirmed.txid, evicted, at)
      ensures Covered(old(P()), confirmed.claims, |confirmed.claims|, confirmed.txid, evicted, at)
    {
      evicted, at := [], [];
      var ids, keep := confirmed.claims, confirmed.txid;
      ghost var p := P();
      EvictStart(p, ids, keep);
      KeptAll(txs, order, counter);
      for i := 0 to |ids|
        invariant Inv(P()) && Evicting(p, ids, i, keep, txs, evicted, at)
        invariant order == OrderKept(p.order, txs) && counter == p.counter
      {
        ghost var q := P();
        evicted, at := EvictHolder(ids, i, keep, evicted, at, p);
        KeptTwice(p.order, q.txs, txs, q.order);
      }
      assert ids[..|ids|] == ids;
      NoConflictLeft(p, P(), ids, keep);
      EvictedDistinct(p, ids, |ids|, keep, evicted, at);
      ConflictsCovered(p, ids, keep, evicted, at);
    }

    /** Drops the holder of one id, if it is not the confirmed transaction. */
    method EvictHolder(ids: seq<DecisionId>, i: nat, keep: Txid, evicted: seq<Txid>, ghost at: seq<nat>, ghost p: Pool)
      returns (r: seq<Txid>, ghost at': seq<nat>)
      requires Inv(P()) && ClaimsExact(p.txs, p.claims) && i < |ids| && Evicting(p, ids, i, keep, txs, evicted, at)
      modifies this
      ensures Inv(P()) && Evicting(p, ids, i + 1, keep, txs, r, at')
      ensures order == OrderKept(old(order), txs) && counter == old(counter) && txs.Keys <= old(txs.Keys)
    {
      ghost var q := P();
      ConflictsGrow(p, P(), ids, i, keep);
      if ids[i] in claims && claims[ids[i]] != keep {
        var zombie := claims[ids[i]];
        EvictStep(p, P(), ids, i, keep, evicted, at);
        Delete(zombie);
        KeptWithout(q.txs, q.order, q.counter, Cascade(q.txs, {zombie}));
        return evicted + [zombie], at + [i];
      }
      KeptAll(q.txs, q.order, q.counter);
      EvictSkip(p, P(), ids, i, keep, evicted, at);
      return evicted, at;
    }
  }

  /** `r` lists the holders of the inputs that spend one of the first `outputs` outputs of `t`. */
  ghost predicate SpendersListed(spent: map<OutPoint, InPoint>, t: Txid, outputs: nat, r: seq<Txid>) {
    forall c :: c in r <==>
      exists v :: 0 <= v < outputs && Regular(t, v) in spent && spent[Regular(t, v)].txid == c
  }

  lemma RemoveSpent(txs: Txs, spent: map<OutPoint, InPoint>, t: Txid, r: map<OutPoint, InPoint>)
    requires SpentExact(txs, spent) && t in txs
    requires r == SpentWithout(spent, txs[t].inputs)
    ensures SpentExact(txs - {t}, r)
  {
  }

  lemma RemoveClaims(txs: Txs, claims: map<DecisionId, Txid>, t: Txid, r: map<DecisionId, Txid>)
    requires ClaimsExact(txs, claims) && t in txs
    requires r == ClaimsWithout(claims, txs[t].claims)
    ensures ClaimsExact(txs - {t}, r)
  {
    forall d, x | ClaimedBy(txs - {t}, d, x)
      ensures d in r && r[d] == x
    {
      assert ClaimedBy(txs, d, x);
      assert ClaimedBy(txs, d, t) <==> d in txs[t].claims;
    }
    forall d | d in r
      ensures ClaimedBy(txs - {t}, d, r[d])
    {
      assert ClaimedBy(txs, d, claims[d]);
    }
  }

  lemma RemoveCount(txs: Txs, t: Txid)
    requires t in txs
    ensures |txs - {t}| == |txs| - 1
  {
    assert txs == (txs - {t})[t := txs[t]];
  }

  lemma RemoveMore(txs: Txs, order: map<nat, Txid>, gone: set<Txid>, x: Txid)
    ensures (txs - gone) - {x} == txs - (gone + {x})
    ensures OrderWithout(OrderWithout(order, gone), {x}) == OrderWithout(order, gone + {x})
  {
  }

  /** Half way through a cascade: every child of a removed transaction is removed or queued. */
  ghost predicate Deleting(txs: Txs, t: Txid, gone: set<Txid>, pending: seq<Txid>) {
    && gone <= Cascade(txs, {t})
    && (forall q | q in pending :: q in Cascade(txs, {t}) || q !in txs)
    && (forall p, c | p in gone && Child(txs, p, c) :: c in gone || c in pending)
    && (t in gone || t in pending || t !in txs)
  }

  lemma DeletingStart(txs: Txs, t: Txid)
    ensures Deleting(txs, t, {}, [t])
    ensures txs - {} == txs && forall order :: OrderWithout(order, {}) == order
  {
    CascadeClosed(txs, {t});
  }

  lemma DeletingSkip(txs: Txs, t: Txid, gone: set<Txid>, pending: seq<Txid>)
    requires Deleting(txs, t, gone, pending) && pending != [] && pending[0] !in txs - gone
    ensures Deleting(txs, t, gone, pending[1..])
  {
    assert forall q | q in pending :: q == pending[0] || q in pending[1..];
  }

  lemma DeletingStep(txs: Txs, t: Txid, gone: set<Txid>, pending: seq<Txid>,
                     x: Txid, spent: map<OutPoint, InPoint>, children: seq<Txid>)
    requires pending != [] && pending[0] == x && x in txs && x !in gone
    requires Deleting(txs, t, gone, pending)
    requires SpentExact(txs - (gone + {x}), spent)
    requires SpendersListed(spent, x, txs[x].outputs, children)
    ensures Deleting(txs, t, gone + {x}, pending[1..] + children)
  {
    CascadeClosed(txs, {t});
    forall c | c in children
      ensures Child(txs, x, c)
    {
      var v :| 0 <= v < txs[x].outputs && Regular(x, v) in spent && spent[Regular(x, v)].txid == c;
      assert txs[c].inputs[spent[Regular(x, v)].vin] == Regular(x, v);
    }
    forall c | Child(txs, x, c) && c !in gone + {x}
      ensures c in children
    {
      var left := txs - (gone + {x});
      var i :| 0 <= i < |txs[c].inputs| && txs[c].inputs[i].Regular? &&
               txs[c].inputs[i].txid == x && txs[c].inputs[i].vout < txs[x].outputs;
      assert left[c].inputs[i] in spent && spent[left[c].inputs[i]] == InPoint(c, i);
      assert Regular(x, txs[c].inputs[i].vout) in spent;
    }
  }

  lemma DeletingDone(txs: Txs, t: Txid, gone: set<Txid>)
    requires Deleting(txs, t, gone, [])
    ensures gone == Cascade(txs, {t})
  {
    CascadeLeast(txs, {t}, gone);
  }

  /** The pending transactions, other than `keep`, that claim one of the ids. */
  ghost function Conflicts(claims: map<DecisionId, Txid>, ids: seq<DecisionId>, keep: Txid): set<Txid> {
    set d | d in ids && d in claims && claims[d] != keep :: claims[d]
  }

  lemma ConflictsStep(claims: map<DecisionId, Txid>, ids: seq<DecisionId>, i: nat, keep: Txid)
    requires i < |ids|
    ensures Conflicts(claims, ids[..i + 1], keep) ==
            Conflicts(claims, ids[..i], keep) +
            if ids[i] in claims && claims[ids[i]] != keep then {claims[ids[i]]} else {}
  {
    assert ids[..i + 1] == ids[..i] + [ids[i]];
  }

  /** The current holder of an id is its original holder; a vanished holder was cascaded away. */
  lemma ConflictsGrow(p: Pool, q: Pool, ids: seq<DecisionId>, i: nat, keep: Txid)
    requires ClaimsExact(p.txs, p.claims) && ClaimsExact(q.txs, q.claims) && i < |ids|
    requires q.txs == p.txs - Cascade(p.txs, Conflicts(p.claims, ids[..i], keep))
    ensures var d := ids[i];
            var before, after := Conflicts(p.claims, ids[..i], keep), Conflicts(p.claims, ids[..i + 1], keep);
            if d in q.claims && q.claims[d] != keep
            then after == before + {q.claims[d]}
            else Cascade(p.txs, after) == Cascade(p.txs, before)
  {
    var d := ids[i];
    var before, after := Conflicts(p.claims, ids[..i], keep), Conflicts(p.claims, ids[..i + 1], keep);
    ConflictsStep(p.claims, ids, i, keep);
    if d in q.claims {
      assert ClaimedBy(p.txs, d, q.claims[d]);
    } else if d in p.claims {
      VanishedHolder(p, q, d, Cascade(p.txs, before));
      CascadeAbsorbs(p.txs, before, p.claims[d]);
    }
  }

  lemma VanishedHolder(p: Pool, q: Pool, d: DecisionId, gone: set<Txid>)
    requires ClaimsExact(p.txs, p.claims) && ClaimsExact(q.txs, q.claims) && q.txs == p.txs - gone
    requires d in p.claims && d !in q.claims
    ensures p.claims[d] in gone
  {
    assert ClaimedBy(p.txs, d, p.claims[d]) && !ClaimedBy(q.txs, d, p.claims[d]);
  }

  /** A root that a cascade already contains adds nothing to it. */
  lemma CascadeAbsorbs(txs: Txs, roots: set<Txid>, z: Txid)
    requires z in Cascade(txs, roots)
    ensures Cascade(txs, roots + {z}) == Cascade(txs, roots)
  {
    CascadeClosed(txs, roots);
    CascadeClosed(txs, roots + {z});
    CascadeLeast(txs, roots + {z}, Cascade(txs, roots));
    CascadeLeast(txs, roots, Cascade(txs, roots + {z}));
  }

  ghost function Listed(s: seq<Txid>): set<Txid> {
    set z | z in s
  }

  /** Entry k is the holder of id number at[k], and no earlier entry had taken it away. */
  ghost predicate FoundAt(p: Pool, ids: seq<DecisionId>, keep: Txid, evicted: seq<Txid>, k: nat, i: nat)
    requires i < |ids| && k < |evicted|
  {
    && ids[i] in p.claims && p.claims[ids[i]] == evicted[k] != keep
    && evicted[k] in p.txs && evicted[k] !in Cascade(p.txs, Listed(evicted[..k]))
  }

  /** The evicted transactions were found under ascending ids below `n`. */
  ghost predicate Found(p: Pool, ids: seq<DecisionId>, n: nat, keep: Txid, evicted: seq<Txid>, at: seq<nat>)
    requires n <= |ids|
  {
    && |at| == |evicted|
    && (forall j, k | 0 <= j < k < |at| :: at[j] < at[k])
    && (forall k | 0 <= k < |at| :: at[k] < n)
    && forall k | 0 <= k < |at| :: FoundAt(p, ids, keep, evicted, k, at[k])
  }

  /** No other transaction holds id number i, or its holder fell with the first k evicted ones. */
  ghost predicate TakenBy(p: Pool, ids: seq<DecisionId>, keep: Txid, evicted: seq<Txid>, k: nat, i: nat)
    requires i < |ids| && k <= |evicted|
  {
    ids[i] in p.claims && p.claims[ids[i]] != keep ==> p.claims[ids[i]] in Cascade(p.txs, Listed(evicted[..k]))
  }

  /** Every conflict named before the k-th find, or before `n`, fell with the finds before it. */
  ghost predicate Covered(p: Pool, ids: seq<DecisionId>, n: nat, keep: Txid, evicted: seq<Txid>, at: seq<nat>)
    requires n <= |ids| && |at| == |evicted|
  {
    forall i, k | 0 <= i < n && 0 <= k <= |at| && (k < |at| ==> i < at[k]) :: TakenBy(p, ids, keep, evicted, k, i)
  }

  lemma EvictedDistinct(p: Pool, ids: seq<DecisionId>, n: nat, keep: Txid, evicted: seq<Txid>, at: seq<nat>)
    requires n <= |ids| && Found(p, ids, n, keep, evicted, at)
    ensures Distinct(evicted)
    ensures forall z | z in evicted ::
              z in p.txs && z in Cascade(p.txs, Listed(evicted)) && z in Conflicts(p.claims, ids, keep)
  {
    forall j, k | 0 <= j < k < |evicted|
      ensures evicted[j] != evicted[k]
    {
      assert FoundAt(p, ids, keep, evicted, j, at[j]) && FoundAt(p, ids, keep, evicted, k, at[k]);
      CascadeClosed(p.txs, Listed(evicted[..k]));
      assert evicted[j] in evicted[..k];
    }
    CascadeClosed(p.txs, Listed(evicted));
    forall z | z in evicted
      ensures z in p.txs && z in Conflicts(p.claims, ids, keep)
    {
      var k :| 0 <= k < |evicted| && evicted[k] == z;
      assert FoundAt(p, ids, keep, evicted, k, at[k]);
    }
  }

  lemma ConflictsCovered(p: Pool, ids: seq<DecisionId>, keep: Txid, evicted: seq<Txid>, at: seq<nat>)
    requires |at| == |evicted| && Covered(p, ids, |ids|, keep, evicted, at)
    ensures Conflicts(p.claims, ids, keep) <= Cascade(p.txs, Listed(evicted))
  {
    assert evicted[..|at|] == evicted;
    forall z | z in Conflicts(p.claims, ids, keep)
      ensures z in Cascade(p.txs, Listed(evicted))
    {
      var d :| d in ids && d in p.claims && p.claims[d] == z != keep;
      var i :| 0 <= i < |ids| && ids[i] == d;
      assert TakenBy(p, ids, keep, evicted, |at|, i);
    }
  }

  /** After `i` of the ids: exactly the conflicts so far, and their cascades, are gone. */
  ghost predicate Evicting(p: Pool, ids: seq<DecisionId>, i: nat, keep: Txid, txs: Txs,
                           evicted: seq<Txid>, at: seq<nat>)
    requires i <= |ids|
  {
    var before := Conflicts(p.claims, ids[..i], keep);
    && txs == p.txs - Cascade(p.txs, before)
    && Cascade(p.txs, Listed(evicted)) == Cascade(p.txs, before)
    && Found(p, ids, i, keep, evicted, at)
    && Covered(p, ids, i, keep, evicted, at)
  }

  lemma EvictStart(p: Pool, ids: seq<DecisionId>, keep: Txid)
    ensures Evicting(p, ids, 0, keep, p.txs, [], [])
  {
    assert Conflicts(p.claims, ids[..0], keep) == {} == Listed([]);
    assert p.txs - Cascade(p.txs, {}) == p.txs;
  }

  /** Two sets of roots with the same cascade still have it with one more root. */
  lemma CascadeSameMore(txs: Txs, A: set<Txid>, B: set<Txid>, z: Txid)
    requires Cascade(txs, A) == Cascade(txs, B)
    ensures Cascade(txs, A + {z}) == Cascade(txs, B + {z})
  {
    CascadeWithin(txs, A, B, z);
    CascadeWithin(txs, B, A, z);
  }

  lemma CascadeWithin(txs: Txs, A: set<Txid>, B: set<Txid>, z: Txid)
    requires Cascade(txs, A) == Cascade(txs, B)
    ensures Cascade(txs, A + {z}) <= Cascade(txs, B + {z})
  {
    CascadeClosed(txs, A);
    CascadeClosed(txs, B + {z});
    CascadeLeast(txs, B, Cascade(txs, B + {z}));
    CascadeLeast(txs, A + {z}, Cascade(txs, B + {z}));
  }

  lemma EvictStep(p: Pool, q: Pool, ids: seq<DecisionId>, i: nat, keep: Txid, evicted: seq<Txid>, at: seq<nat>)
    requires ClaimsExact(p.txs, p.claims) && ClaimsExact(q.txs, q.claims)
    requires i < |ids| && Evicting(p, ids, i, keep, q.txs, evicted, at)
    requires ids[i] in q.claims && q.claims[ids[i]] != keep
    requires Conflicts(p.claims, ids[..i + 1], keep) == Conflicts(p.claims, ids[..i], keep) + {q.claims[ids[i]]}
    ensures var z := q.claims[ids[i]];
            Evicting(p, ids, i + 1, keep, q.txs - Cascade(q.txs, {z}), evicted + [z], at + [i])
  {
    var z := q.claims[ids[i]];
    var before := Conflicts(p.claims, ids[..i], keep);
    CascadeSequential(p.txs, before, z);
    CascadeSameMore(p.txs, before, Listed(evicted), z);
    assert Listed(evicted + [z]) == Listed(evicted) + {z};
    HolderKept(p, q, ids[i], Cascade(p.txs, before));
    FoundMore(p, ids, i, keep, evicted, at, z);
    CoveredMore(p, ids, i, keep, evicted, at, z);
  }

  lemma HolderKept(p: Pool, q: Pool, d: DecisionId, gone: set<Txid>)
    requires ClaimsExact(p.txs, p.claims) && ClaimsExact(q.txs, q.claims) && q.txs == p.txs - gone && d in q.claims
    ensures q.claims[d] in p.txs && q.claims[d] !in gone && d in p.claims && p.claims[d] == q.claims[d]
  {
    assert ClaimedBy(q.txs, d, q.claims[d]) && ClaimedBy(p.txs, d, q.claims[d]);
  }

  lemma FoundMore(p: Pool, ids: seq<DecisionId>, i: nat, keep: Txid, evicted: seq<Txid>, at: seq<nat>, z: Txid)
    requires i < |ids| && Found(p, ids, i, keep, evicted, at)
    requires ids[i] in p.claims && p.claims[ids[i]] == z != keep && z in p.txs && z !in Cascade(p.txs, Listed(evicted))
    ensures Found(p, ids, i + 1, keep, evicted + [z], at + [i])
  {
    forall k | 0 <= k < |at + [i]|
      ensures FoundAt(p, ids, keep, evicted + [z], k, (at + [i])[k])
    {
      assert (evicted + [z])[..k] == evicted[..k];
      if k < |at| {
        assert FoundAt(p, ids, keep, evicted, k, at[k]);
      } else {
        assert evicted[..k] == evicted;
      }
    }
  }

  lemma CoveredMore(p: Pool, ids: seq<DecisionId>, i: nat, keep: Txid, evicted: seq<Txid>, at: seq<nat>, z: Txid)
    requires i < |ids| && |at| == |evicted| && Covered(p, ids, i, keep, evicted, at)
    requires ids[i] in p.claims && p.claims[ids[i]] == z && z in p.txs && forall k | 0 <= k < |at| :: at[k] < i
    ensures Covered(p, ids, i + 1, keep, evicted + [z], at + [i])
  {
    var evicted', at' := evicted + [z], at + [i];
    forall x, k | 0 <= x < i + 1 && 0 <= k <= |at'| && (k < |at'| ==> x < at'[k])
      ensures TakenBy(p, ids, keep, evicted', k, x)
    {
      if k <= |at| {
        assert evicted'[..k] == evicted[..k];
        assert TakenBy(p, ids, keep, evicted, k, x);
      } else {
        assert evicted'[..k] == evicted';
        AllTaken(p, ids, i, keep, evicted, at, z, x);
      }
    }
  }

  lemma AllTaken(p: Pool, ids: seq<DecisionId>, i: nat, keep: Txid, evicted: seq<Txid>, at: seq<nat>, z: Txid, x: nat)
    requires x <= i < |ids| && |at| == |evicted| && Covered(p, ids, i, keep, evicted, at)
    requires ids[i] in p.claims && p.claims[ids[i]] == z && z in p.txs
    ensures ids[x] in p.claims && p.claims[ids[x]] != keep ==>
              p.claims[ids[x]] in Cascade(p.txs, Listed(evicted + [z]))
  {
    assert Listed(evicted + [z]) == Listed(evicted) + {z};
    CascadeClosed(p.txs, Listed(evicted) + {z});
    CascadeLeast(p.txs, Listed(evicted), Cascade(p.txs, Listed(evicted) + {z}));
    assert evicted[..|at|] == evicted;
    assert x < i ==> TakenBy(p, ids, keep, evicted, |at|, x);
  }

  lemma EvictSkip(p: Pool, q: Pool, ids: seq<DecisionId>, i: nat, keep: Txid, evicted: seq<Txid>, at: seq<nat>)
    requires ClaimsExact(p.txs, p.claims) && ClaimsExact(q.txs, q.claims)
    requires i < |ids| && Evicting(p, ids, i, keep, q.txs, evicted, at)
    requires !(ids[i] in q.claims && q.claims[ids[i]] != keep)
    requires Cascade(p.txs, Conflicts(p.claims, ids[..i + 1], keep)) ==
             Cascade(p.txs, Conflicts(p.claims, ids[..i], keep))
    ensures Evicting(p, ids, i + 1, keep, q.txs, evicted, at)
  {
    var gone := Cascade(p.txs, Conflicts(p.claims, ids[..i], keep));
    if ids[i] in q.claims {
      HolderKept(p, q, ids[i], gone);
    } else if ids[i] in p.claims {
      VanishedHolder(p, q, ids[i], gone);
    }
    assert evicted[..|at|] == evicted;
    forall x, k | 0 <= x < i + 1 && 0 <= k <= |at| && (k < |at| ==> x < at[k])
      ensures TakenBy(p, ids, keep, evicted, k, x)
    {
    }
  }

  lemma NoConflictLeft(p: Pool, q: Pool, ids: seq<DecisionId>, keep: Txid)
    requires ClaimsExact(p.txs, p.claims) && ClaimsExact(q.txs, q.claims)
    requires q.txs == p.txs - Cascade(p.txs, Conflicts(p.claims, ids, keep))
    ensures Unclaimed(q.claims, keep, ids)
  {
    CascadeClosed(p.txs, Conflicts(p.claims, ids, keep));
    forall d | d in ids && d in q.claims
      ensures q.claims[d] == keep
    {
      var z := q.claims[d];
      assert ClaimedBy(q.txs, d, z) && ClaimedBy(p.txs, d, z);
      assert z != keep ==> z in Conflicts(p.claims, ids, keep);
    }
  }

  // ----- Runs

  datatype Op = Put(tx: Tx) | Delete(t: Txid) | Evict(confirmed: Tx)

  /** A transaction id determines the inputs, and every transaction has one. */
  ghost predicate IdsDetermineInputs(ops: seq<Op>) {
    && (forall i | 0 <= i < |ops| && ops[i].Put? :: ops[i].tx.inputs != [])
    && forall i, j | 0 <= i < j < |ops| && ops[i].Put? && ops[j].Put? && ops[i].tx.txid == ops[j].tx.txid ::
         ops[i].tx.inputs == ops[j].tx.inputs
  }

  /** Every pooled transaction was put by one of the operations. */
  ghost predicate FromPuts(txs: Txs, ops: seq<Op>) {
    forall t | t in txs :: exists i :: 0 <= i < |ops| && ops[i].Put? && ops[i].tx == txs[t]
  }

  lemma FromPutsMore(txs: Txs, ops: seq<Op>, op: Op, txs': Txs)
    requires FromPuts(txs, ops)
    requires forall t | t in txs' :: (t in txs && txs'[t] == txs[t]) || (op.Put? && txs'[t] == op.tx)
    ensures FromPuts(txs', ops + [op])
  {
    forall t | t in txs'
      ensures exists i :: 0 <= i < |ops + [op]| && (ops + [op])[i].Put? && (ops + [op])[i].tx == txs'[t]
    {
      if t in txs && txs'[t] == txs[t] {
        var i :| 0 <= i < |ops| && ops[i].Put? && ops[i].tx == txs[t];
        assert (ops + [op])[i].Put?;
      } else {
        assert (ops + [op])[|ops|].Put?;
      }
    }
  }

  lemma FromPutsNext(txs: Txs, ops: seq<Op>, i: nat, txs': Txs)
    requires i < |ops| && FromPuts(txs, ops[..i])
    requires forall t | t in txs' :: (t in txs && txs'[t] == txs[t]) || (ops[i].Put? && txs'[t] == ops[i].tx)
    ensures FromPuts(txs', ops[..i + 1])
  {
    FromPutsMore(txs, ops[..i], ops[i], txs');
    assert ops[..i] + [ops[i]] == ops[..i + 1];
  }

  ghost predicate Repeats(txs: Txs, op: Op) {
    op.Put? && op.tx.txid in txs ==> op.tx.inputs == txs[op.tx.txid].inputs != []
  }

  lemma RepeatsSameInputs(ops: seq<Op>, i: nat, txs: Txs)
    requires i < |ops| && IdsDetermineInputs(ops) && FromPuts(txs, ops[..i]) && Keyed(txs)
    ensures Repeats(txs, ops[i])
  {
    if ops[i].Put? && ops[i].tx.txid in txs {
      var t := ops[i].tx.txid;
      var j :| 0 <= j < |ops[..i]| && ops[..i][j].Put? && ops[..i][j].tx == txs[t];
      assert ops[j].tx.txid == t;
    }
  }

  /** One operation of a run. */
  method Apply(pool: MemPool, op: Op)
    requires Inv(pool.P())
    requires Repeats(pool.txs, op)
    modifies pool
    ensures Inv(pool.P())
    ensures forall t | t in pool.txs ::
              (t in old(pool.txs) && pool.txs[t] == old(pool.txs)[t]) || (op.Put? && pool.txs[t] == op.tx)
  {
    match op
    case Put(tx) => var _ := pool.Put(tx);
    case Delete(t) => pool.Delete(t);
    case Evict(confirmed) => var _, _ := pool.EvictDecisionClaimConflicts(confirmed);
  }

  /** The i-th operation of a run. */
  method ApplyNth(pool: MemPool, ops: seq<Op>, i: nat)
    requires i < |ops| && IdsDetermineInputs(ops)
    requires Inv(pool.P()) && FromPuts(pool.txs, ops[..i])
    modifies pool
    ensures Inv(pool.P()) && FromPuts(pool.txs, ops[..i + 1])
  {
    ghost var was := pool.txs;
    RepeatsSameInputs(ops, i, was);
    Apply(pool, ops[i]);
    FromPutsNext(was, ops, i, pool.txs);
  }

  /** Any run of puts, deletes and evictions keeps every index exact. */
  method Replay(ops: seq<Op>) returns (pool: MemPool)
    requires IdsDetermineInputs(ops)
    ensures fresh(pool) && Inv(pool.P()) && FromPuts(pool.txs, ops)
  {
    pool := new MemPool();
    for i := 0 to |ops|
      invariant fresh(pool) && Inv(pool.P()) && FromPuts(pool.txs, ops[..i])
    {
      ApplyNth(pool, ops, i);
    }
    assert ops[..|ops|] == ops;
  }
}
