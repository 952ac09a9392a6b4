/**
 Reading trades back. The database walks its keys in the byte order of their encoding; the
 keys are 64-bit counters in little-endian fixed width, so trades do not always come back in
 the order they were put.
 */
module TradeOrder {
  import opened Common
  import opened Mempool

  // ----- The byte order of keys

  /** The first `n` little-endian bytes of a key. */
  function LittleEndian(k: nat, n: nat): (r: seq<nat>)
    ensures |r| == n
    decreases n
  {
    if n == 0 then [] else [k % 256] + LittleEndian(k / 256, n - 1)
  }

  predicate ByteLess(a: seq<nat>, b: seq<nat>) {
    if a == [] then b != []
    else if b == [] then false
    else a[0] < b[0] || (a[0] == b[0] && ByteLess(a[1..], b[1..]))
  }

  /** The database comes to key `j` before key `k`. */
  predicate KeyLess(j: nat, k: nat) {
    ByteLess(LittleEndian(j, 8), LittleEndian(k, 8))
  }

  lemma {:induction false} ByteLessTotal(a: seq<nat>, b: seq<nat>)
    ensures a == b || ByteLess(a, b) || ByteLess(b, a)
    ensures !(ByteLess(a, b) && ByteLess(b, a)) && !ByteLess(a, a)
  {
    if a != [] && b != [] {
      ByteLessTotal(a[1..], b[1..]);
      if a[0] == b[0] && a[1..] == b[1..] {
        assert a == [a[0]] + a[1..] && b == [b[0]] + b[1..];
      }
    }
    if a != [] {
      ByteLessTotal(a[1..], a[1..]);
    }
  }

  lemma {:induction false} ByteLessTransitive(a: seq<nat>, b: seq<nat>, c: seq<nat>)
    requires ByteLess(a, b) && ByteLess(b, c)
    ensures ByteLess(a, c)
  {
    if a != [] && a[0] == b[0] == c[0] {
      ByteLessTransitive(a[1..], b[1..], c[1..]);
    }
  }

  function Power256(n: nat): nat {
    if n == 0 then 1 else 256 * Power256(n - 1)
  }

  lemma {:induction false} LittleEndianInjective(j: nat, k: nat, n: nat)
    requires j < Power256(n) && k < Power256(n) && LittleEndian(j, n) == LittleEndian(k, n)
    ensures j == k
    decreases n
  {
    if n > 0 {
      assert LittleEndian(j, n)[0] == j % 256 && LittleEndian(k, n)[0] == k % 256;
      assert LittleEndian(j, n)[1..] == LittleEndian(j / 256, n - 1);
      assert LittleEndian(k, n)[1..] == LittleEndian(k / 256, n - 1);
      LittleEndianInjective(j / 256, k / 256, n - 1);
    }
  }

  lemma KeysOf64Bits()
    ensures Power256(8) == U64_MAX + 1
  {
    assert Power256(4) == 0x1_0000_0000;
  }

  /** The byte order is a strict total order on 64-bit keys. */
  lemma KeyLessTotal(j: nat, k: nat)
    requires j <= U64_MAX && k <= U64_MAX
    ensures j != k ==> KeyLess(j, k) || KeyLess(k, j)
    ensures !(KeyLess(j, k) && KeyLess(k, j)) && !KeyLess(j, j)
  {
    ByteLessTotal(LittleEndian(j, 8), LittleEndian(k, 8));
    if LittleEndian(j, 8) == LittleEndian(k, 8) {
      KeysOf64Bits();
      LittleEndianInjective(j, k, 8);
    }
  }

  lemma KeyLessTransitive(i: nat, j: nat, k: nat)
    requires KeyLess(i, j) && KeyLess(j, k)
    ensures KeyLess(i, k)
  {
    ByteLessTransitive(LittleEndian(i, 8), LittleEndian(j, 8), LittleEndian(k, 8));
  }

  lemma FirstByteDecides(j: nat, k: nat)
    requires j % 256 < k % 256
    ensures KeyLess(j, k) && !KeyLess(k, j)
  {
    assert LittleEndian(j, 8)[0] == j % 256 && LittleEndian(k, 8)[0] == k % 256;
  }

  // ----- Listing the order entries

  /** `keys` holds exactly the keys of `order`. */
  ghost predicate Lists(order: map<nat, Txid>, keys: seq<nat>) {
    forall k :: k in keys <==> k in order
  }

  ghost predicate ByteOrdered(order: map<nat, Txid>, keys: seq<nat>) {
    Lists(order, keys) && forall i, j | 0 <= i < j < |keys| :: KeyLess(keys[i], keys[j])
  }

  /** Keys grow with every put, so this is the order in which the trades were put. */
  ghost predicate InsertionOrdered(order: map<nat, Txid>, keys: seq<nat>) {
    Lists(order, keys) && forall i, j | 0 <= i < j < |keys| :: keys[i] < keys[j]
  }

  /** The pending keys up to `n` in the order they were put. */
  ghost function Inserted(order: map<nat, Txid>, n: nat): seq<nat> {
    if n == 0 then [] else Inserted(order, n - 1) + if n in order then [n] else []
  }

  lemma {:induction false} InsertedAscends(order: map<nat, Txid>, n: nat)
    ensures forall k :: k in Inserted(order, n) <==> 1 <= k <= n && k in order
    ensures forall i, j | 0 <= i < j < |Inserted(order, n)| :: Inserted(order, n)[i] < Inserted(order, n)[j]
  {
    if n > 0 {
      InsertedAscends(order, n - 1);
      var before := Inserted(order, n - 1);
      assert forall i | 0 <= i < |before| :: before[i] in before && before[i] < n;
    }
  }

  /** The byte order agrees with the insertion order on all pending keys. */
  ghost predicate OrderPreserved(order: map<nat, Txid>) {
    forall j, k | j in order && k in order && j < k :: KeyLess(j, k)
  }

  ghost predicate Keys64(keys: set<nat>) {
    forall k | k in keys :: k <= U64_MAX
  }

  /** The key a cursor moves to first. */
  method FirstKey(keys: set<nat>) returns (first: nat)
    requires keys != {} && Keys64(keys)
    ensures first in keys && forall k | k in keys && k != first :: KeyLess(first, k)
  {
    first :| first in keys;
    var todo := keys - {first};
    while todo != {}
      invariant first in keys && todo <= keys
      invariant forall k | k in keys - todo && k != first :: KeyLess(first, k)
    {
      var k :| k in todo;
      KeyLessTotal(first, k);
      if KeyLess(k, first) {
        forall j | j in keys - todo && j != first
          ensures KeyLess(k, j)
        {
          KeyLessTransitive(k, first, j);
        }
        first := k;
      }
      todo := todo - {k};
    }
  }

  /** Walks all keys with a cursor. */
  method WalkKeys(order: map<nat, Txid>) returns (keys: seq<nat>)
    requires Keys64(order.Keys)
    ensures ByteOrdered(order, keys)
  {
    keys := [];
    var todo := order.Keys;
    while todo != {}
      invariant todo <= order.Keys
      invariant Walked(order.Keys, keys, todo)
    {
      var k := FirstKey(todo);
      WalkOn(order.Keys, keys, todo, k);
      keys, todo := keys + [k], todo - {k};
    }
  }

  /** `keys` are those met so far, in byte order, and all before those still to come. */
  ghost predicate Walked(all: set<nat>, keys: seq<nat>, todo: set<nat>) {
    && (forall k :: k in keys <==> k in all - todo)
    && (forall i, j | 0 <= i < j < |keys| :: KeyLess(keys[i], keys[j]))
    && forall i, k | 0 <= i < |keys| && k in todo :: KeyLess(keys[i], k)
  }

  lemma WalkOn(all: set<nat>, keys: seq<nat>, todo: set<nat>, first: nat)
    requires Walked(all, keys, todo) && todo <= all
    requires first in todo && forall k | k in todo && k != first :: KeyLess(first, k)
    ensures Walked(all, keys + [first], todo - {first})
  {
    var keys', todo' := keys + [first], todo - {first};
    forall k
      ensures k in keys' <==> k in all - todo'
    {
      assert k in keys' <==> k in keys || k == first;
    }
  }

  // ----- Reading the trades

  ghost predicate Readable(p: Pool, keys: seq<nat>) {
    forall k | k in keys :: k in p.order && p.order[k] in p.txs
  }

  /** The trades under the given keys. */
  ghost function TradesAt(p: Pool, keys: seq<nat>): (r: seq<Tx>)
    requires Readable(p, keys)
    ensures |r| == |keys|
  {
    seq(|keys|, i requires 0 <= i < |keys| => p.txs[p.order[keys[i]]])
  }

  /**
   Every pending trade is read exactly once and nothing else, in the byte order of the keys;
   this is insertion order exactly when the two orders agree on the pending keys.
   */
  method TakeTradesOrdered(p: Pool) returns (trades: seq<Tx>, ghost keys: seq<nat>)
    requires Inv(p) && p.counter <= U64_MAX
    ensures ByteOrdered(p.order, keys) && Readable(p, keys) && trades == TradesAt(p, keys)
    ensures Distinct(trades)
    ensures forall tx :: tx in trades <==> tx.isTrade && tx.txid in p.txs && p.txs[tx.txid] == tx
    ensures InsertionOrdered(p.order, Inserted(p.order, p.counter)) && Readable(p, Inserted(p.order, p.counter))
    ensures trades == TradesAt(p, Inserted(p.order, p.counter)) <==> OrderPreserved(p.order)
  {
    var cursor := WalkKeys(p.order);
    keys := cursor;
    trades := [];
    assert Readable(p, keys);
    for i := 0 to |cursor|
      invariant Readable(p, keys[..i]) && trades == TradesAt(p, keys[..i])
    {
      var txid := p.order[cursor[i]];
      NextTrade(p, keys, i);
      if txid in p.txs {
        trades := trades + [p.txs[txid]];
      }
    }
    assert keys[..|keys|] == keys;
    EachTradeOnce(p, keys);
    InsertionOrderIff(p, keys);
  }

  lemma NextTrade(p: Pool, keys: seq<nat>, i: nat)
    requires Readable(p, keys) && i < |keys|
    ensures Readable(p, keys[..i]) && Readable(p, keys[..i + 1])
    ensures TradesAt(p, keys[..i + 1]) == TradesAt(p, keys[..i]) + [p.txs[p.order[keys[i]]]]
  {
  }

  lemma ByteOrderedDistinct(order: map<nat, Txid>, keys: seq<nat>)
    requires Keys64(order.Keys) && ByteOrdered(order, keys)
    ensures Distinct(keys)
  {
    forall i, j | 0 <= i < j < |keys|
      ensures keys[i] != keys[j]
    {
      assert keys[i] in order && keys[j] in order;
      KeyLessTotal(keys[i], keys[j]);
    }
  }

  lemma EachTradeOnce(p: Pool, keys: seq<nat>)
    requires Inv(p) && p.counter <= U64_MAX && ByteOrdered(p.order, keys) && Readable(p, keys)
    ensures Distinct(TradesAt(p, keys))
    ensures forall tx :: tx in TradesAt(p, keys) <==> tx.isTrade && tx.txid in p.txs && p.txs[tx.txid] == tx
  {
    var trades := TradesAt(p, keys);
    ByteOrderedDistinct(p.order, keys);
    forall i, j | 0 <= i < j < |keys|
      ensures trades[i] != trades[j]
    {
      SameTrade(p, keys[i], keys[j]);
    }
    forall tx: Tx | tx.isTrade && tx.txid in p.txs && p.txs[tx.txid] == tx
      ensures tx in trades
    {
      var k :| k in p.order && p.order[k] == tx.txid;
      var i :| 0 <= i < |keys| && keys[i] == k;
      assert trades[i] == tx;
    }
  }

  /** No trade is pending under two keys. */
  lemma SameTrade(p: Pool, j: nat, k: nat)
    requires Inv(p) && j in p.order && k in p.order
    ensures p.txs[p.order[j]] == p.txs[p.order[k]] <==> j == k
  {
  }

  // ----- When trades come back in insertion order

  /**
   The trades are read in the order they were put exactly when the byte order of the pending
   keys is their numeric order.
   */
  lemma InsertionOrderIff(p: Pool, read: seq<nat>)
    requires Inv(p) && p.counter <= U64_MAX && ByteOrdered(p.order, read)
    ensures var put := Inserted(p.order, p.counter);
            && InsertionOrdered(p.order, put) && Readable(p, put) && Readable(p, read)
            && (TradesAt(p, read) == TradesAt(p, put) <==> OrderPreserved(p.order))
  {
    var put := Inserted(p.order, p.counter);
    InsertedAscends(p.order, p.counter);
    if TradesAt(p, read) == TradesAt(p, put) {
      SameTradesSameKeys(p, read, put);
      SortedBothWays(p.order, put);
    }
    if OrderPreserved(p.order) {
      PreservedIsByteOrdered(p.order, put);
      ByteOrderUnique(p.order, read, put);
    }
  }

  lemma PreservedIsByteOrdered(order: map<nat, Txid>, put: seq<nat>)
    requires OrderPreserved(order) && InsertionOrdered(order, put)
    ensures ByteOrdered(order, put)
  {
    assert forall i | 0 <= i < |put| :: put[i] in order;
  }

  lemma SortedBothWays(order: map<nat, Txid>, keys: seq<nat>)
    requires ByteOrdered(order, keys) && InsertionOrdered(order, keys)
    ensures OrderPreserved(order)
  {
    forall j, k | j in order && k in order && j < k
      ensures KeyLess(j, k)
    {
      var x :| 0 <= x < |keys| && keys[x] == j;
      var y :| 0 <= y < |keys| && keys[y] == k;
      assert x < y;
    }
  }

  lemma SameTradesSameKeys(p: Pool, s: seq<nat>, t: seq<nat>)
    requires Inv(p) && Readable(p, s) && Readable(p, t) && TradesAt(p, s) == TradesAt(p, t)
    ensures s == t
  {
    assert |s| == |TradesAt(p, s)| == |t|;
    forall i | 0 <= i < |s|
      ensures s[i] == t[i]
    {
      assert TradesAt(p, s)[i] == TradesAt(p, t)[i];
      SameTrade(p, s[i], t[i]);
    }
  }

  /** There is one way to list the keys in byte order. */
  lemma {:induction false} ByteOrderUnique(order: map<nat, Txid>, s: seq<nat>, t: seq<nat>)
    requires Keys64(order.Keys) && ByteOrdered(order, s) && ByteOrdered(order, t)
    ensures s == t
    decreases |s|
  {
    if s == [] || t == [] {
      assert FirstStored(order, s) && FirstStored(order, t);
    } else {
      SameFirst(order, s, t);
      ByteOrderedRest(order, s);
      ByteOrderedRest(order, t);
      ByteOrderUnique(order - {s[0]}, s[1..], t[1..]);
      assert s == [s[0]] + s[1..] && t == [t[0]] + t[1..];
    }
  }

  ghost predicate FirstStored(order: map<nat, Txid>, s: seq<nat>) {
    s != [] ==> s[0] in order
  }

  lemma SameFirst(order: map<nat, Txid>, s: seq<nat>, t: seq<nat>)
    requires Keys64(order.Keys) && ByteOrdered(order, s) && ByteOrdered(order, t) && s != [] && t != []
    ensures s[0] == t[0]
  {
    assert s[0] in order && t[0] in order;
    var i :| 0 <= i < |t| && t[i] == s[0];
    var j :| 0 <= j < |s| && s[j] == t[0];
    KeyLessTotal(s[0], t[0]);
  }

  lemma ByteOrderedRest(order: map<nat, Txid>, s: seq<nat>)
    requires Keys64(order.Keys) && ByteOrdered(order, s) && s != []
    ensures ByteOrdered(order - {s[0]}, s[1..])
  {
    ByteOrderedDistinct(order, s);
    assert s == [s[0]] + s[1..];
  }

  /** Insertion order holds as long as the counter fits one byte. */
  lemma OneByteKeysPreserved(p: Pool)
    requires Inv(p) && p.counter <= 255
    ensures OrderPreserved(p.order)
  {
    forall j, k | j in p.order && k in p.order && j < k
      ensures KeyLess(j, k)
    {
      FirstByteDecides(j, k);
    }
  }

  /** If no trade ever left the pool, insertion order holds exactly for counters up to 255. */
  lemma FullPoolPreservedIff(p: Pool)
    requires Inv(p) && forall k | 1 <= k <= p.counter :: k in p.order
    ensures OrderPreserved(p.order) <==> p.counter <= 255
  {
    if p.counter <= 255 {
      OneByteKeysPreserved(p);
    } else {
      FirstByteDecides(256, 1);
      assert 1 in p.order && 256 in p.order;
    }
  }

  // ----- A pool that is read out of order

  /** A trade that spends one outpoint. */
  function SampleTrade(t: Txid): Tx {
    Tx(t, [Other(t)], 0, {}, [], true)
  }

  /** Trade 7 was put first and trade 9 as number 256; those in between have left. */
  function LongRunningPool(): Pool {
    Pool(map[7 := SampleTrade(7), 9 := SampleTrade(9)],
         map[Other(7) := InPoint(7, 0), Other(9) := InPoint(9, 0)],
         map[], map[], map[1 := 7, 256 := 9], 256)
  }

  lemma LongRunningPoolKeepsInv()
    ensures Inv(LongRunningPool())
  {
    var p := LongRunningPool();
    LongRunningSpent(p.txs, p.spent);
    LongRunningOrder(p.txs, p.order);
    assert forall a :: Relevant(p.txs, a) == {};
  }

  lemma LongRunningSpent(txs: Txs, spent: map<OutPoint, InPoint>)
    requires txs == map[7 := SampleTrade(7), 9 := SampleTrade(9)]
    requires spent == map[Other(7) := InPoint(7, 0), Other(9) := InPoint(9, 0)]
    ensures SpentExact(txs, spent)
  {
  }

  lemma LongRunningOrder(txs: Txs, order: map<nat, Txid>)
    requires txs == map[7 := SampleTrade(7), 9 := SampleTrade(9)] && order == map[1 := 7, 256 := 9]
    ensures OrderExact(txs, order, 256)
  {
    assert order[1] == 7 && order[256] == 9;
  }

  /** Trade 9 is read before trade 7. */
  lemma ReadOutOfOrder(p: Pool)
    requires p == LongRunningPool()
    ensures Inv(p)
    ensures ByteOrdered(p.order, [256, 1]) && Readable(p, [256, 1])
    ensures TradesAt(p, [256, 1]) == [SampleTrade(9), SampleTrade(7)]
    ensures !OrderPreserved(p.order)
  {
    LongRunningPoolKeepsInv();
    assert p.order.Keys == {1, 256};
    OutOfOrder(p.order);
    ReadNineFirst(p);
  }

  lemma ReadNineFirst(p: Pool)
    requires p == LongRunningPool()
    ensures Readable(p, [256, 1]) && TradesAt(p, [256, 1]) == [SampleTrade(9), SampleTrade(7)]
  {
    assert p.order[256] == 9 && p.order[1] == 7;
  }

  lemma OutOfOrder(order: map<nat, Txid>)
    requires order.Keys == {1, 256}
    ensures ByteOrdered(order, [256, 1]) && !OrderPreserved(order)
  {
    FirstByteDecides(256, 1);
    assert 1 in order && 256 in order;
  }

  ghost predicate AllSamples(txs: Txs) {
    forall t | t in txs :: txs[t] == SampleTrade(t)
  }

  lemma SamplesSpendTheirOwn(txs: Txs, spent: map<OutPoint, InPoint>)
    requires SpentExact(txs, spent) && AllSamples(txs)
    ensures forall o | o in spent :: o.Other? && o.id in txs
  {
    forall o | o in spent
      ensures o == Other(spent[o].txid) && spent[o].txid in txs
    {
      assert txs[spent[o].txid] == SampleTrade(spent[o].txid);
    }
  }

  method PutSample(pool: MemPool, t: Txid)
    requires Inv(pool.P()) && AllSamples(pool.txs) && t !in pool.txs && |pool.txs| < MAX_TRANSACTIONS
    modifies pool
    ensures Inv(pool.P()) && Came(old(pool.P()), pool.P(), t)
  {
    SamplesSpendTheirOwn(pool.txs, pool.spent);
    var _ := pool.Put(SampleTrade(t));
  }

  /** A trade without outputs leaves alone. */
  lemma SampleLeavesAlone(txs: Txs, t: Txid)
    requires AllSamples(txs) && t in txs
    ensures Cascade(txs, {t}) == {t}
  {
    CascadeClosed(txs, {t});
    CascadeLeast(txs, {t}, {t});
  }

  method DeleteSample(pool: MemPool, t: Txid)
    requires Inv(pool.P()) && AllSamples(pool.txs) && t in pool.txs
    modifies pool
    ensures Inv(pool.P()) && Went(old(pool.P()), pool.P(), t)
  {
    SampleLeavesAlone(pool.txs, t);
    pool.Delete(t);
  }

  /** Trade `t` was put. */
  ghost predicate Came(p: Pool, q: Pool, t: Txid) {
    q.txs == p.txs[t := SampleTrade(t)] && q.counter == p.counter + 1 && q.order == p.order[q.counter := t]
  }

  /** Trade `t` was deleted. */
  ghost predicate Went(p: Pool, q: Pool, t: Txid) {
    q.txs == p.txs - {t} && q.counter == p.counter && q.order == OrderWithout(p.order, {t})
  }

  lemma PassThroughLeavesNothing(p: Pool, q: Pool, r: Pool, t: Txid)
    requires OrderExact(p.txs, p.order, p.counter) && t !in p.txs && Came(p, q, t) && Went(q, r, t)
    ensures r.txs == p.txs && r.order == p.order && r.counter == p.counter + 1
  {
  }

  /** A trade that comes and goes uses up one key. */
  method PassThrough(pool: MemPool, t: Txid)
    requires Inv(pool.P()) && AllSamples(pool.txs) && t !in pool.txs && |pool.txs| < MAX_TRANSACTIONS
    modifies pool
    ensures Inv(pool.P()) && pool.txs == old(pool.txs)
    ensures pool.counter == old(pool.counter) + 1 && pool.order == old(pool.order)
  {
    ghost var p := pool.P();
    PutSample(pool, t);
    ghost var q := pool.P();
    DeleteSample(pool, t);
    PassThroughLeavesNothing(p, q, pool.P(), t);
  }

  /** Trade 7 is pending under key 1, and keys up to `counter` are used up. */
  ghost predicate OnlySeven(p: Pool, counter: nat) {
    Inv(p) && p.counter == counter && p.txs == map[7 := SampleTrade(7)] && p.order == map[1 := 7]
  }

  method StartWithSeven() returns (pool: MemPool)
    ensures fresh(pool) && OnlySeven(pool.P(), 1)
  {
    pool := new MemPool();
    PutSample(pool, 7);
  }

  /** That pool is reached by puts and deletes alone. */
  method ReachLongRunningPool() returns (pool: MemPool)
    ensures Inv(pool.P()) && pool.counter == 256
    ensures pool.txs == LongRunningPool().txs && pool.order == LongRunningPool().order
  {
    pool := StartWithSeven();
    for i := 1 to 255
      invariant fresh(pool) && OnlySeven(pool.P(), i)
    {
      PassThrough(pool, 8);
    }
    PutSample(pool, 9);
  }
}
