# Verified model of the truthcoin sidechain core

Dafny models of the parts of truthcoin-dc whose correctness rests on several tables or several
functions agreeing with each other, with proofs of what they keep. `dafny verify dfyconfig.toml`
checks the whole project.

- **Archive** (`ChainIndex`, `Bmm`, `Inclusions`, `ArchiveState`, `ArchiveHistory`, `Archive`,
  `AncestorIter`, `ForkChoice`, `ForkOutcome`). Two block trees with heights, skip lists and successor sets; total work; the
  table of blind-merged-mining results; the transaction index. The source writes the ancestor code
  twice, once per chain; `ChainIndex` is one copy, generic in the hash type and the rest of the
  header, used for both. The all-zero mainchain hash is `None`. The object `Archive.Archive` takes
  the stored facts (headers, commitments, bodies, invalid marks) one `Step` per operation; the
  invariant `ArchiveState.Inv` says that every other table is what the facts determine, and
  `ArchiveHistory.History` reads the facts off the accepted operations and their order.
- **Mempool** (`Mempool`, `TradeOrder`). Transactions with four exact indexes, cascading deletion,
  conflict eviction, trade order.
- **Money** (`Reprice`, `Pow2Accuracy`, `SafeMath`, `Lmsr`, `Trading`, `MarketLedger`, `RealSums`,
  `Allocation`, `Sorting`, `Wallet`). The fixed-point reprice curve, exact in its integers, and its
  distance from the true power of two; the market maker, its books and the allocators over `real`;
  coin selection.
- **Refinements** (`Authorization`, `Markets`, `LineBuffer`). Chunked batch verification, outcome
  enumeration, the bounded log buffer.

## Assumptions

Each is a `requires` of the members that need it.

- A block hash determines its header, and a main block hash its commitment
  (`ArchiveState.Allowed`); `put_header` is not called for an invalidated block, as
  lib/archive/mod.rs:833-839 demands. An operation that returns an error changes nothing, because
  its write transaction is dropped.
- One mainchain genesis, for fork choice (`ForkChoice.SingleGenesis`). Without it
  `last_common_main_ancestor` is off; `ChainIndex.LastCommonMainAncestor` says exactly when and how.
- A transaction id determines the inputs; a transaction that is put twice has an input
  (`Mempool.IdsDetermineInputs`).
- `exp` and `ln` are parameters (`Lmsr.Analysis`) known by the laws of `Lmsr.Laws`: exp is positive,
  increasing, additive, at most its chord from 0, and inverse to ln, which is increasing. Doubles
  are `real`.
- 2^x, to which the reprice curve is compared, is any positive, increasing function that turns sums
  into products and is 2 at 1 (`Pow2Accuracy.IsPow2`).
- A signature batch is accepted exactly when it is non-empty and all its items are valid.
- The trade counter fits its 64 bits (`TradeOrder.TakeTradesOrdered`).
- Sets that the source walks in hash order are walked in any order.

## Where the code differs from what it says

- `better_tip` documents that equal height and greater work wins within one main lineage
  (lib/archive/mod.rs:1399); the code prefers the lower work there (`ForkOutcome.EqualHeightWins`).
  It also documents that neither tip may be better (lib/archive/mod.rs:1395-1397). Between known tips
  the code leaves the choice open exactly for the same tip twice or for two tips at height 0; it fails
  exactly when the choice is contested and the walk to the fork meets a block with no main parent; and
  otherwise it picks one (`ForkChoice.DecidedUnlessSame`). Its answer depends on the argument order
  exactly for the ties of `ForkChoice.Tied` (`ForkChoice.OrderMattersIffTied`).
- `put_body` and `delete_body` keep the transaction index exact exactly when the given body has
  every transaction of the stored one (`Inclusions.PutBodyExactIff`, `Inclusions.DeleteBodyExactIff`).
- Trades are read in the byte order of their keys, not in insertion order. With the little-endian
  fixed-width integers that bincode 1.3.3 writes by default (the version is in Cargo.toml:17; bincode
  itself is not part of this model), the two orders agree exactly when every earlier pending key comes
  before every later one byte by byte (`TradeOrder.InsertionOrderIff`). That is always so while the
  counter is at most 255 (`TradeOrder.OneByteKeysPreserved`). A pool with trades pending under keys 1
  and 256 is read the wrong way round (`TradeOrder.ReadOutOfOrder`), and 256 puts and 254 deletes lead
  to it (`TradeOrder.ReachLongRunningPool`).
- The unsigned allocator adds its rounded shares in 64 bits. With no negligible weight it succeeds
  exactly when their total fits (`Allocation.AllocateU64`), which a pool at least n/2 below 2^64
  guarantees (`Allocation.NeverOverflowsBelow`); the largest pool shared by two equal weights does not
  fit (`Allocation.HalvesOverflow`).
- For prices from 2^63 on the last multiplication of `reprice` can be truncated to 64 bits, and then
  the price falls although most slots were sold (`Reprice.LargestPriceWraps`); it stays at or above
  the old price exactly when the scaled price fits (`Reprice.RisesIffFits`).
- `reprice` recognizes half of the slots by a doubling that saturates. With the largest number of
  slots every sale above half then counts as half and leaves the price alone
  (`Pow2Accuracy.SaturatedTestSticks`, `Pow2Accuracy.StuckPrice`); the test is right exactly under
  `Pow2Accuracy.HalfTestSound`.
- The log buffer keeps one line less than its capacity. With a capacity of 0 every write drops what it
  stored and then panics, and with any other it never does (`LineBuffer.Buffer.Write`).

## Model

| member | source | states |
|---|---|---|
| ChainIndex.NthAncestor | lib/archive/mod.rs:438-503 | The walk over skip lists terminates and returns the n-fold parent when n is at most the height, an error otherwise; an unknown block is an error unless n is 0. |
| ChainIndex.SkipInRange | lib/archive/mod.rs:458-466 | The entry the walk indexes exists and is the ancestor at the largest power of two not above n. |
| ChainIndex.AncHeight | lib/archive/mod.rs:27-28 | A stored height counts exactly the ancestors there are and falls by one per step. |
| ChainIndex.IndexesDetermined | lib/archive/mod.rs:840-907 | The header table determines heights, skip lists and successor sets: two exact chains with the same headers are equal. |
| ChainIndex.IsDescendant | lib/archive/mod.rs:524-576 | True exactly when the first block is an ancestor-or-self of the second; the error cases. |
| ChainIndex.LastCommonAncestor | lib/archive/mod.rs:1252-1310 | None exactly when the blocks share no ancestor; otherwise the common ancestor of which every other common ancestor is an ancestor. |
| ChainIndex.LastCommonMainAncestor | lib/archive/mod.rs:1314-1361 | The last common ancestor exactly when the blocks share one, else the oldest ancestor of the first argument. |
| ChainIndex.MeetDepth | lib/archive/mod.rs:1291-1309 | The binary search finds the shallowest depth at which two equally high blocks agree. |
| ChainIndex.LastCommonUnique | lib/archive/mod.rs:1252-1361 | The last common ancestor does not depend on the order of the blocks. |
| ChainIndex.SharedLineage | lib/archive/mod.rs:1365-1391 | True exactly when one block descends from the other. |
| ChainIndex.BuildSkips | lib/archive/mod.rs:878-907 | The loop builds the list whose entry i is the 2^(i+1)-th ancestor, of length floor(log2 height). |
| ChainIndex.Insert | lib/archive/mod.rs:840-907 | Refused exactly when the parent is unknown; otherwise the header is added and every index is exact again, also for a header stored before. |
| ChainIndex.WithoutValid | lib/archive/mod.rs:781-831 | Striking a set of blocks that holds its children leaves every index exact. |
| Bmm.CommittedTransfer | lib/archive/mod.rs:940-970 | Whether a commitment is valid depends only on the stored facts about the two ancestries: later arrivals and removals elsewhere change nothing. |
| Bmm.CommitmentChain | lib/archive/mod.rs:940-970 | If m validly commits to b, every side ancestor of b is validly committed to in the ancestry of m, at strictly decreasing main heights; so b is no higher than m. |
| Bmm.CommittedIff | lib/archive/mod.rs:940-970 | A commitment is valid exactly when a chain of main blocks, each in the ancestry of the one before, names the side ancestry block by block, each following the main block that side block was built on. |
| ArchiveState.ArrivalOrderIrrelevant | lib/archive/mod.rs:908-1029 | Two archives with the same facts agree on both chains' indexes, total work, the transaction index and every verified commitment, whatever the order of arrival. |
| ArchiveState.VerifiedAncestry | lib/archive/mod.rs:29-34 | Every ancestor of a block marked Verified is marked Verified, in the ancestry of the committing block. |
| ArchiveState.ChecksExact | lib/archive/mod.rs:914-970 | The check both update paths run against the table of results agrees with the recursive definition after the update. |
| ArchiveState.MainInfoKeepsInv | lib/archive/mod.rs:980-1029 | Recording a main block's commitment keeps the result table exact for every pair of blocks. |
| ArchiveState.HeaderKeepsInv | lib/archive/mod.rs:908-974 | Storing a header and its outcomes at all candidate main blocks keeps the result table exact for every pair. |
| ArchiveState.MainHeaderKeepsInv | lib/archive/mod.rs:1031-1115 | Storing a main header keeps total work, the other indexes and all results exact. |
| ArchiveState.InvalidateKeepsInv | lib/archive/mod.rs:779-831 | Removing a block and its descendants, leaving the results as they are, keeps the invariant. |
| ArchiveState.TotalWorkIsSum | lib/archive/mod.rs:1052-1060 | The stored total work is the sum of the work of the whole ancestry. |
| Archive.SearchVerified | lib/archive/mod.rs:940-953 | Finds a verified commitment in the ancestry of a main block exactly when there is one. |
| Archive.CheckCommitment | lib/archive/mod.rs:918-970 | Decides, from the stored results of the parent, whether a commitment validates a block. |
| Archive.RecordOutcomes | lib/archive/mod.rs:908-974 | Records an outcome at every main block that follows the header's main parent; fails exactly when one of them has no block info. |
| Archive.Archive.constructor | lib/archive/mod.rs:109-199 | The empty archive meets the invariant. |
| Archive.Archive.PutMainHeaderInfo | lib/archive/mod.rs:1031-1115 | Stores the header and nothing else, keeps the invariant, and fails exactly when the parent is unknown. |
| Archive.Archive.PutMainBlockInfo | lib/archive/mod.rs:978-1029 | Stores the commitment, records one outcome, keeps the invariant, and fails exactly when the header or the parent's info is missing. |
| Archive.Archive.PutHeader | lib/archive/mod.rs:833-976 | Stores the header, records the outcomes, keeps the invariant, and fails exactly when a parent or the info of a main successor is missing. |
| Archive.Archive.PutBody | lib/archive/mod.rs:651-668 | Stores the body under a known header, and nothing else, and keeps the transaction index exact. |
| Archive.Archive.DeleteBody | lib/archive/mod.rs:742-759 | Removes that body alone and keeps the transaction index exact. |
| Archive.Archive.StrikeAll | lib/archive/mod.rs:781-831 | The work list terminates and strikes exactly the block and its descendants from every table, in whatever order they are taken. |
| Archive.Archive.InvalidateBlock | lib/archive/mod.rs:779-831 | Removes header and body of exactly the block and its descendants, marks exactly these as newly invalid, keeps the invariant, and leaves results and mainchain tables alone. |
| Archive.Replay | lib/archive/mod.rs:651-1115 | Any interleaving of the six operations from an empty archive ends with the invariant; which operations were accepted, and what is stored, is what the history says. |
| ArchiveHistory.HistoryStep | lib/archive/mod.rs:651-1115 | A header is stored exactly if it was put and neither it nor an ancestor was invalidated since; a body exactly if it was put last and not deleted or struck since; a block is marked invalid exactly if it, or an ancestor after it was put, was invalidated; main headers and commitments stay. |
| ArchiveHistory.AcceptsIff | lib/archive/mod.rs:833-1115 | An operation is accepted exactly if its parents are alive in the history and every main successor of its main parent has its info. |
| Inclusions.IndexBody | lib/archive/mod.rs:659-668 | Each transaction of the body is listed under the block with its last position; other entries stay. |
| Inclusions.UnindexBody | lib/archive/mod.rs:749-759 | The block is struck from the entry of each given transaction, other entries stay, and no entry is empty. |
| Inclusions.PutBodyExactIff | lib/archive/mod.rs:651-668 | Storing a body over another keeps the index exact exactly when it has all transactions of the other. |
| Inclusions.DeleteBodyExactIff | lib/archive/mod.rs:742-759 | Deleting keeps the index exact exactly when the given body has all transactions of the stored one. |
| AncestorIter.PathAscends | lib/archive/iter.rs:59-61 | The path from a start height holds each ancestor from that height on exactly once, in ascending height, and ends with the block. |
| AncestorIter.MissingMembers | lib/archive/mod.rs:1149-1187 | Exactly the listed blocks without a stored body are missing. |
| AncestorIter.AncestorsRev.constructor | lib/archive/iter.rs:74-88 | A new iterator has the whole path left; the mainchain copy needs the header info to state the true height. |
| AncestorIter.AncestorsRev.Fill | lib/archive/iter.rs:111-136 | Loading a batch of at most 32 changes nothing about what is left to yield. |
| AncestorIter.AncestorsRev.Next | lib/archive/iter.rs:94-143 | Yields the first remaining block and leaves the rest, for both chains; None when nothing is left; an error for an unknown end block. |
| AncestorIter.Drain | lib/archive/iter.rs:197-247 | Running the iterator to its end yields the whole path. |
| AncestorIter.IterMissingBodies | lib/archive/mod.rs:1173-1187 | The blocks without a body from the start height on, oldest first. |
| AncestorIter.GetMissingBodies | lib/archive/mod.rs:1145-1170 | The blocks without a body above the given ancestor, oldest first; down to the oldest block if it is not an ancestor. |
| AncestorIter.ListBothWays | lib/archive/mod.rs:1145-1187 | Run side by side, listing from height h and listing above the ancestor at height h - 1 give the same blocks. |
| ForkChoice.BetterTip | lib/archive/mod.rs:1409-1608 | The procedure, with its searches, computes the rule whose winners the rows of `ForkOutcome` give; its height subtraction never underflows. |
| ForkChoice.BeforeForkIsHighest | lib/archive/mod.rs:1478-1494 | The walk finds the highest ancestor built strictly before the common main ancestor. |
| ForkChoice.MainStep | lib/archive/mod.rs:1551-1562 | The main block whose work is compared is the child of the block's main parent on the way to the common ancestor. |
| ForkChoice.OrderMattersIffTied | lib/archive/mod.rs:1409-1608 | The choice depends on the order of the tips exactly when they tie on work, height and fork rank, or share the side block; then the first wins. |
| ForkChoice.BeforeForkFailsIff | lib/archive/mod.rs:1478-1494 | The walk fails exactly when some ancestor has no main parent and none above it was built before the fork. |
| ForkChoice.AnchoredNeverFails | lib/archive/mod.rs:1409-1608 | If every header names a main parent, the choice between known tips never fails. |
| ForkChoice.DecidedUnlessSame | lib/archive/mod.rs:1393-1608 | Between known tips: an error exactly when the choice is contested and a walk meets a block with no main parent; no tip exactly when they are the same or both at height 0; otherwise one of the two. |
| ForkOutcome.AboveTheRootWins | lib/archive/mod.rs:1409-1429 | A tip above height 0 beats one at height 0, in either order. |
| ForkOutcome.HigherAndNoLighterWins | lib/archive/mod.rs:1431-1441 | A strictly higher tip whose work is no smaller wins, in either order. |
| ForkOutcome.EqualHeightWins | lib/archive/mod.rs:1443-1470 | At equal height the lighter tip wins within one main lineage, the heavier one across lineages, in either order. |
| ForkOutcome.LighterWinsIfAhead | lib/archive/mod.rs:1471-1526 | Of a lighter, higher tip and a heavier, lower one, the lighter wins exactly when some ancestor of its block, built before the last common main ancestor, is at least as high as the rival. |
| ForkOutcome.LevelOneBegun | lib/archive/mod.rs:1541-1608 | At equal work and height, a tip that had begun before the fork beats one that had not. |
| ForkOutcome.LevelNoneBegun | lib/archive/mod.rs:1541-1608 | If neither had, the first argument wins. |
| ForkOutcome.LevelBothBegun | lib/archive/mod.rs:1541-1608 | If both had, the one that was higher before the fork wins, then the one whose next main block has less total work, then the first. |
| Mempool.SpendInputs | lib/mempool.rs:122-139 | Succeeds exactly when the inputs are distinct and unspent, and then maps each to its spending input. |
| Mempool.AddClaims | lib/mempool.rs:279-283 | Every listed id is held by the transaction, every other as before. |
| Mempool.IndexAddresses | lib/mempool.rs:156-184 | The transaction is added under exactly the given addresses. |
| Mempool.UnindexAddresses | lib/mempool.rs:186-219 | The transaction is removed under exactly the given addresses, and emptied entries go. |
| Mempool.DeleteTradeOrder | lib/mempool.rs:423-446 | Removes exactly the order entry of the transaction. |
| Mempool.PutKeepsInv | lib/mempool.rs:309-359 | After a put all four indexes are exact and the limit of 5000 holds. |
| Mempool.RemoveKeepsInv | lib/mempool.rs:364-373 | After one removal all four indexes are exact. |
| Mempool.CascadeClosed | lib/mempool.rs:374-386 | No survivor of a cascade spends a listed output of a removed transaction. |
| Mempool.CascadeLeast | lib/mempool.rs:361-390 | A cascade is the least set with its roots that is closed under spending listed outputs. |
| Mempool.CascadeSequential | lib/mempool.rs:404-419 | Cascading one root after others removes the same as cascading all at once. |
| Mempool.MemPool.Put | lib/mempool.rs:309-359 | Accepted exactly when there is room, no claim conflict and no double spend; keeps the invariant; appends a trade under the next counter; a refusal changes nothing. |
| Mempool.MemPool.Delete | lib/mempool.rs:361-390 | Terminates and removes exactly the transaction and everything reachable by spending listed outputs; keeps the invariant. |
| Mempool.MemPool.EvictDecisionClaimConflicts | lib/mempool.rs:392-421 | Removes exactly the conflicting claims and their cascades, which are the cascades of the returned transactions; each of these is the holder of a confirmed id, in the order of the ids, that no earlier one had taken away, and every other conflict fell with an earlier one; no id of the confirmed transaction is held by another; the order of the other trades stays. |
| Mempool.Replay | lib/mempool.rs:309-421 | Any run of puts, deletes and evictions keeps the invariant. |
| TradeOrder.KeyLessTotal | lib/mempool.rs:65-66 | The byte order of little-endian keys is a strict total order on 64-bit keys. |
| TradeOrder.WalkKeys | lib/mempool.rs:474-489 | A cursor meets every pending key exactly once, in byte order. |
| TradeOrder.TakeTradesOrdered | lib/mempool.rs:474-489 | Exactly the pending trades are returned, each once, in the byte order of their keys; this is insertion order exactly when both orders agree on the pending keys. |
| TradeOrder.ByteOrderUnique | lib/mempool.rs:474-489 | There is only one way to read the keys in byte order. |
| TradeOrder.InsertionOrderIff | lib/mempool.rs:350-356 | The trades come back in the order they were put exactly when every earlier pending key precedes every later one in byte order. |
| TradeOrder.OneByteKeysPreserved | lib/mempool.rs:350-356 | So they do while the counter is at most 255. |
| TradeOrder.FullPoolPreservedIff | lib/mempool.rs:350-356 | If no trade ever left the pool they do exactly for counters up to 255. |
| TradeOrder.ReadOutOfOrder | lib/mempool.rs:474-489 | A pool that keeps the invariant and holds keys 1 and 256 is read with key 256 first. |
| TradeOrder.ReachLongRunningPool | lib/mempool.rs:309-390 | Puts and deletes alone lead to that pool. |
| Reprice.Pow2FracQ62 | lib/math/decisions.rs:153-167 | The loop computes the truncated series with no product over 128 bits, and its value lies in [1, 2). |
| Reprice.FracBounds | lib/math/decisions.rs:153-167 | The truncated series is monotone on fractions in [0, 1) and stays below 2. |
| Reprice.FactorBounds | lib/math/decisions.rs:130-151 | Below exponent 0 the factor lies in [1/2, 1), from 0 on in [1, 2). |
| Reprice.FactorMono | lib/math/decisions.rs:130-151 | The fixed-point power of two is monotone across the change of sign. |
| Reprice.RepriceBand | lib/math/decisions.rs:111-128 | For prices below 2^63 the new price lies in [p/2, 2p], at most p below half sales, p at half, at least p above. |
| Reprice.RepriceMonotone | lib/math/decisions.rs:111-128 | More sales never lower the new price, across the special-cased anchors. |
| Reprice.RisesIffFits | lib/math/decisions.rs:125-127 | For every 64-bit price, above half sales the price does not fall exactly when the scaled price fits 64 bits. |
| Reprice.LargestPriceWraps | lib/math/decisions.rs:125-127 | The largest price falls when three quarters are sold. |
| Pow2Accuracy.AccurateFrac | lib/math/decisions.rs:153-167 | The sum the loop returns is within 2^28 units of 2^62 * 2^(frac / 2^32). |
| Pow2Accuracy.GridClose | lib/math/decisions.rs:153-167 | Along a grid on [0, ln 2] the truncated series stays within 252800000 units of the powers of the root of 2. |
| Pow2Accuracy.SeriesRounds | lib/math/decisions.rs:161-165 | The rounded terms together lose at most one unit per rounding, passed on. |
| Pow2Accuracy.FactorAccurate | lib/math/decisions.rs:130-151 | The fixed-point power is within two units of 2^32 * 2^(e / 2^32). |
| Pow2Accuracy.RepriceAccurate | lib/math/decisions.rs:111-128 | The new price is within one part in 2^30 and one satoshi of p * 2^(2s/a - 1), for prices below 2^63, and above while that fits 64 bits. |
| Pow2Accuracy.HalfTestSoundIff | lib/math/decisions.rs:121-123 | The saturating test for half of the slots is right exactly when it cannot be misled by the largest number. |
| Pow2Accuracy.StuckPrice | lib/math/decisions.rs:121-123 | With the largest number of slots and three quarters sold the price stays, against a true rise of 41 per cent. |
| SafeMath.ToSats | lib/math/safe_math.rs:46-64 | Up, down and nearest rounding bounds; negative exactly for negative values; in-range values never overflow. |
| SafeMath.ToSatsSigned | lib/math/safe_math.rs:71-97 | Up rounds away from zero and down towards it, by less than one, keeping the sign; nearest within a half; in-range values never overflow. |
| Lmsr.CostAnyShift | lib/math/lmsr.rs:90-129 | The max-shifted cost equals the cost computed with any other shift. |
| Lmsr.CostTextbook | lib/math/lmsr.rs:90-129 | The stable form is beta ln(sum exp(q/beta)). |
| Lmsr.CostBounds | lib/math/lmsr.rs:91-129 | max(q) <= C(q) <= max(q) + beta ln n. |
| Lmsr.CostMono | lib/math/lmsr.rs:234-251 | More shares never cost less. |
| Lmsr.CostAmplify | lib/state/block.rs:1559-1604 | Raising beta raises the cost by at most the extra liquidity (c - b) ln n. |
| Lmsr.PricesAreDistribution | lib/math/lmsr.rs:142-163 | Prices are positive and sum to one. |
| Lmsr.PriceRatio | lib/math/lmsr.rs:142-163 | Prices are in proportion to exp(q / beta), which with their sum fixes them. |
| Trading.CalculateBuyCost | lib/math/trading.rs:69-88 | The base covers the cost by less than a satoshi, the fee is the nearest rounding above its floor, the total is their sum; accepted exactly when nothing is negative and the total fits 64 bits. |
| Trading.CalculateSellProceeds | lib/math/trading.rs:90-115 | The gross never exceeds the proceeds and splits into net plus fee; accepted exactly when nothing is negative or out of range and the gross covers the fee. |
| Trading.TradesHaveSign | lib/math/trading.rs:26-36 | Buying costs and selling pays a non-negative amount. |
| Trading.RoundTripNeverProfits | lib/math/trading.rs:69-115 | Buying and selling back the same shares loses at least the fees of both. |
| Trading.NewMarketSolvent | lib/math/trading.rs:117-133 | A market seeded with its liquidity base has a treasury equal to its cost. |
| Trading.ApplySolvent | lib/state/block.rs:1901-1999 | Every buy, sell or deposit keeps the treasury at least at the cost; what each one moves is `MarketLedger.ApplyMoves`. |
| Trading.RunSolvent | lib/state/block.rs:1901-1999 | So does every run of them. |
| Trading.TreasuryCoversRedemption | lib/math/lmsr.rs:234-251 | After any run the treasury covers the redemption of all shares at any final prices. |
| MarketLedger.ApplyMoves | lib/state/block.rs:1879-1999 | A trade is accepted exactly when its price converts to satoshis; it then moves its own outcome's shares and the rounded price alone, and a refused one nothing. |
| MarketLedger.RunBooks | lib/state/block.rs:1879-1999 | Over every run the shares of each outcome are the accepted buys less the accepted sells, and the treasury is the start plus deposits plus the rounded-up cost of each buy less the rounded-down gross of each sell. |
| Allocation.RoundShares | lib/math/allocation.rs:76-102 | Each participant holds its share rounded to nearest, or nothing if its weight is negligible; the fallback is the first of the heaviest; with no negligible weight it fails only if the running total exceeds 64 bits. |
| Allocation.TakeExcess | lib/math/allocation.rs:123-137 | The loop takes exactly the excess, never below zero, and touches an entry only after every one before it is at zero. |
| Allocation.AddRemainder | lib/math/allocation.rs:104-121 | The remainder goes to the last of the largest entries, or to the heaviest participant if there is none. |
| Allocation.RemoveExcess | lib/math/allocation.rs:123-139 | The excess is taken from the smallest entries first. |
| Allocation.AllocateU64 | lib/math/allocation.rs:54-146 | Whatever is returned sums to the pool; with no negligible weight it fails exactly when the rounded shares together exceed 64 bits, and otherwise all participants together are within n of their exact shares. |
| Allocation.NeverOverflowsBelow | lib/math/allocation.rs:76-102 | A pool at least n/2 below 2^64 never overflows the running total. |
| Allocation.HalvesOverflow | lib/math/allocation.rs:76-102 | The pool 2^64 - 1 shared by two equal weights does. |
| Allocation.RepairSigned | lib/math/allocation.rs:206-240 | The repair sums to the pool, moves the last largest or the first smallest entry alone, and its checked addition never fails. |
| Allocation.AllocateI64 | lib/math/allocation.rs:163-249 | Whatever is returned outside the empty cases sums to the pool; with no negligible weight it fails exactly when the rounded shares together exceed 64 bits, and otherwise all participants together are within n of their exact shares. |
| Allocation.RepairStaysClose | lib/math/allocation.rs:104-139 | Repairing the remainder at most doubles the total rounding error n/2. |
| Wallet.GreedyIsBest | lib/wallet.rs:731-735 | No choice of k coins is worth more than the first k in descending order. |
| Wallet.SelectBitcoins | lib/wallet.rs:709-754 | The total is the sum of the chosen coins and reaches the target; no smaller non-empty choice does; too little funds are reported exactly when there are none or their sum is too small, an overflow exactly when the fewest largest coins that reach the target exceed 64 bits. |
| Wallet.CreateTransferTo | lib/wallet.rs:688-707 | Inputs equal outputs plus fee, only positive change is added; the exact error cases. |
| Wallet.CreateTransferMany | lib/wallet.rs:667-686 | The same for several destinations, with the same error cases; no destination is the only other error. |
| Wallet.ClaimDecision | lib/wallet.rs:770-797 | A claim pays exactly its fee and returns the rest; the exact error cases. |
| Authorization.BatchVerifier.Verify | lib/authorization.rs:230-250 | Accepts exactly non-empty batches of valid items. |
| Authorization.VerifyAuthorizedTransaction | lib/authorization.rs:295-326 | Accepts exactly when the counts match and every signature is valid; no input needs no signature. |
| Authorization.FlatteningIsSound | lib/authorization.rs:350-361 | The flattened items are all valid exactly when every transaction with its own slice is accepted alone. |
| Authorization.VerifyAuthorizations | lib/authorization.rs:328-376 | For any chunk size a body is accepted exactly when the counts match and every transaction with its consecutive slice is accepted alone. |
| Markets.CartesianProduct | lib/math/markets.rs:8-30 | One entry per point of the outcome space, entry i being the mixed-radix digits of i, last dimension fastest. |
| Markets.IndexOfDigits | lib/math/markets.rs:8-30 | An index is recovered from its digits. |
| Markets.DigitsOfIndex | lib/math/markets.rs:8-30 | A combination in range is recovered from its index, which lies in the space. |
| Markets.OutcomeSpaceSize | lib/math/markets.rs:32-36 | The product, or None exactly when a partial product exceeds 64 bits. |
| LineBuffer.LinesConcat | app/line_buffer.rs:70-92 | The lines of a text written in two parts are the lines of the first, continued if unterminated, then those of the second. |
| LineBuffer.FlatLines | app/line_buffer.rs:70-92 | Splitting into lines loses nothing. |
| LineBuffer.KeptJoin | app/line_buffer.rs:93-101 | Trimming before a write loses nothing that would be kept after it. |
| LineBuffer.Buffer.constructor | app/line_buffer.rs:33-40 | An empty buffer shows an empty log. |
| LineBuffer.Buffer.Trim | app/line_buffer.rs:93-99 | The loop drops exactly the oldest lines beyond the room there is, and pops from an empty list exactly at capacity 0. |
| LineBuffer.Buffer.Write | app/line_buffer.rs:64-106 | After any writes the buffer is the last capacity - 1 lines of everything written, or all of it, with the length of each line; it panics exactly at capacity 0. |
| LineBuffer.Buffer.LengthsMatch | app/line_buffer.rs:13-15 | The recorded lengths sum to the buffer length, and every stored line but the last ends in a newline. |
| LineBuffer.Buffer.NothingLost | app/line_buffer.rs:11-12 | Below the capacity, or without one, the buffer is the whole log. |

## Left out

- Side tips: their updates in `put_body` and `delete_body`, and lib/archive/side_tips.
- LMDB, codecs, version checks and watch streams: a database is a map.
- Integer width of heights, depths, counters and work: they are unbounded here; the midpoint sum of
  the binary search needs heights below 2^31.
- The database key order of the mempool beyond trades, and its read-only queries.
- Doubles: rounding, NaN and infinity, and with them the finiteness and precision errors of lmsr.rs.
- Allocation.AllocateU64: participants are named by position instead of by key; an overflowing addition
  is an outcome of its own, as in builds that check for it, and the wrap-around of other builds is not
  modelled.
- Allocation.AllocateI64: signs are not claimed, since the repaired entry can change its sign.
- Trading.CalculateBuyCost: here too the wrap-around of an overflowing addition is not modelled.
- Trading.ApplySolvent: price limits and share ownership are left to the caller; a sale is refused
  here when it exceeds the outstanding shares, which ownership implies.
- Wallet.SelectBitcoins: the order among coins of equal value, which the unstable sort leaves open,
  is fixed by insertion.
- LineBuffer.Buffer.Write: text is taken as valid UTF-8; the source refuses other bytes unchanged.
- Cryptography, hashing, key derivation and actor proofs; network, RPC, GUI, miner.
- Listing-fee tiers, basis points and storage fees: short formulas that would add only easy members.
- Voting, two-way peg and market state beyond the treasury.

Nothing was executed.
