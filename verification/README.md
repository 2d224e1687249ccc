# A model of the trading engine's feeds, statistics, pools and orders

The C++ repository keeps local copies of exchange order books, derives statistics and signals from
prices, and manages memory and order ids by hand.  This Dafny project models the parts of it in which a
mistake would go unnoticed longest, and proves what they keep over every run.

**Feed synchronisation.**  `BinanceProtocol` is the snapshot/diff protocol of the spot and futures
`OrderBookSync` as one atomic step per event, parameterised by how a diff names its predecessor.
`BinancePhases` proves the four phases, the shape of what the order book sees and the balance of requests;
`BinanceConvergence` that a synced machine holds the exchange's book; `BinanceExactness` that the hypothesis
of that theorem is the right one; `BinanceProgress` what a gap leads to and exactly when a round of
buffering, snapshot and replay ends synced; `BinanceRecovery` exactly when such a round is right, by a condition
on the buffer and the snapshot id, and the runs in which it is not.  `BinanceSync` is the object with its fields changed in place, proved
to follow the protocol.  `OrderBook` is the local book: per side a hash index and a sorted tree over shared
mutable nodes.  `BookStrand` runs posted jobs on it.  `BybitSync` is Bybit's sibling of the protocol, and
`BookTheory` what lists of overwrites do and what the exchange's own history is.

**Statistics and signals.**  `Trackers` and `SlidingWindow` are the incremental caches over windows;
`Histograms`, `FiniteSums`, `MutualInformation` and `WindowMutualInformation` lead from windows to a mutual
information that is never negative; `Strategy` and `DeviationStrategy` are the queue cascade and its four
stages.  `double` is `real`, and the logarithm is a parameter: that the sum is not negative needs only
K(1 - 1/t) <= log2(t), that it is H(X) + H(Y) - H(X, Y) only that log2 turns products into sums.

**Pools.**  `LockFreePool` is the lock-free free list as interleaved loads, link reads and writes and
compare-and-swaps, with the two steps of an unsynchronised malloc behind it; `AbaRace` shows that one thread
inside Allocate is exactly what it supports; `RefCounts` puts intrusive reference counts on top.  `CircularPool` is the circular allocator on its array.

**Orders.**  `OrderIds` specifies id generator, queue of returned ids and order storage, `OrderManagement` is
the objects.  `MinQuantity` is Bybit's minimum-quantity calculator.

`dafny verify dfyconfig.toml` checks everything.

## What the code does that its comments or documentation do not say

- The last diff update id is never set from the snapshot.  The first replayed diff has to chain to the last
  dropped diff, so a recovery whose first buffered diff straddles the snapshot never syncs, unless a stale id
  happens to chain (`BinanceProgress.RecoveryIsExact`).  There is a gapless feed on which it never does
  (`BinanceRecovery.NeverSyncs`).
- The trim also drops diffs that start beyond the snapshot.  If that empties the buffer, the machine can sync
  on a book that misses updates (`BinanceExactness.OvershootMissesAnUpdate`, `UnreportedGoesUnnoticed`).  For a
  gapless buffer this is when the snapshot is older than the buffer
  (`BinanceRecovery.TrimOvershootsExactlyIf`).
- On futures it is also when the snapshot ends between two buffered diffs whose ids jump, although they chain
  (`BinanceRecovery.SnapshotBetweenDiffsMissesAnUpdate`, `RecoveryIsRightExactlyIf`).
- Bybit's handler merges a snapshot with a new id other than 1 into the book it has, and takes the snapshot of
  a second restart in a row for a re-push (`BybitSync.SnapshotReplacesExactlyIf`, `MergeKeepsAnOldBid`,
  `SecondRestartIsIgnored`).
- `MemoryPoolThreadSafety` is called thread safe; it hands out live blocks as soon as two threads are inside
  Allocate, by a stale link of the list or by the unsynchronised malloc of the pool behind it
  (`AbaRace.SafeExactlyForOneAllocator`, `TwoPoppersAreUnsafe`, `TwoFallbacksAreUnsafe`).
- `MemPool::allocate` does not return when it takes the last free block: the scan behind it has no exit for a
  full pool (`CircularPool.AllocateReturnsExactlyIf`).
- `OrderManager::Remove` returns an id to the pool even if no order is stored under it.  An order that ends
  twice, which for Bybit includes an order that is triggered and then filled, makes two later orders share an
  id (`OrderIds.EndedTwiceLosesAnOrder`, `RunKeepsExactlyIf`).
- `OrderManager::PlaceOrderManualId` under an id that is stored sends the new request and keeps the old one in
  the storage (`OrderIds.ManualPlacementIsNotStored`, `StoredAsSentExactlyIf`).

## Model

| member | source | states |
|---|---|---|
| BinanceConvergence.Convergence | aoe/binance/order_book_sync/order_book_sync.h:76-212 | End to end, spot and futures, every run: whatever is lost, repeated or reordered and whatever went wrong before, if every delivery is true of the exchange and the trim of the last snapshot did not overshoot, a synced machine whose last diff has reached the snapshot holds the exchange's book at that diff |
| BinanceConvergence.StraddleConverges | aoe/binance/order_book_sync/order_book_sync.h:120-134 | When the trim leaves a straddling head no hypothesis about overshooting is needed: the step into synced ends beyond the snapshot with the exchange's book |
| BinanceExactness.ConvergenceIsExact | aoe/binance/order_book_sync/order_book_sync.h:132-191 | For a synced run past its snapshot, the local book is what the book was told since its last clear, and that is right for every history it is true of if and only if the first replayed diff starts at or before the snapshot |
| BinanceExactness.ViewIsExact | aoe/binance/order_book_sync/order_book_sync.h:181-205 | A snapshot and a chain of diffs that has reached it fix the exchange's book if and only if the chain starts at or before the snapshot |
| BinanceExactness.OvershootMissesAnUpdate | aoe/binance/order_book_sync/order_book_sync.h:120-134 | A concrete run with true deliveries whose trim overshoots: it syncs, and its book is not the exchange's |
| BinanceExactness.GapGoesUnnoticed | aoe/binance/order_book_sync/order_book_sync.h:188-205 | Whenever the replay starts beyond the snapshot there is a second history, consistent with everything the book was told since its last clear, whose book differs from the local one |
| BinanceExactness.UnreportedGoesUnnoticed | aoe/binance/order_book_sync/order_book_sync.h:120-205 | Over everything a run was given: if an update id up to the last one is reported by no diff of a synced run and contained in none of its snapshots, there is a history of which every delivery is true and whose book is not the local one |
| BinanceConvergence.ViewConverges | aoe/binance/order_book_sync/order_book_sync.h:181-205 | A snapshot followed by a chain of true diffs that starts at or before it and reaches it is the exchange's book at the end of the chain |
| BinanceConvergence.ReplayIsARange | aoe/binance/order_book_sync/order_book_sync.h:189-205 | Replaying a chain of true diffs is applying one contiguous range of exchange updates |
| BinanceConvergence.ViewDeterminesBook | aos/order_book/order_book.h:328-336 | What the book was told since its last clear determines its contents, and the diffs in it chain |
| BinanceConvergence.RunTrue | aoe/binance/order_book_sync/order_book_sync.h:111-212 | Buffer, saved snapshot and everything the book was told stay true of the exchange in every run |
| BinanceConvergence.RunAnchored | aoe/binance/order_book_sync/order_book_sync.h:111-212 | In every run whose last snapshot did not make its trim overshoot, a synced machine replayed from at or before that snapshot |
| BinanceConvergence.AnchoredReady | aoe/binance/order_book_sync/order_book_sync.h:123-126 | A straddling head that passes the loss check chains to an update the snapshot contains |
| BinanceConvergence.TrimKeepsSuffix | aoe/binance/order_book_sync/order_book_sync.h:120-134 | The trim keeps a suffix of the buffer, and the last update id becomes that of the last dropped diff or stays |
| BinanceConvergence.TrimStopsAtFirstFit | aoe/binance/order_book_sync/order_book_sync.h:120-134 | The trim drops exactly the diffs in front of the first one whose ids cover the id after the snapshot, and no other |
| BinanceConvergence.LostExactlyIf | aoe/binance/order_book_sync/order_book_sync.h:76-88 | Both rules: a numbered diff counts as lost if and only if it does not start right after the last update id |
| BinanceConvergence.ChainedExactlyIfGapless | aoe/binance/order_book_sync/order_book_sync.h:188-205 | The replay loop goes through the whole of a list of numbered diffs if and only if each starts right after the end of the one before |
| BinancePhases.RunInv | aoe/binance/order_book_sync/order_book_sync.h:36-50 | In every reachable state the flags encode one of four phases with the buffer that belongs to it, the packet-lost flag is up exactly while the machine is not synced, and the book has been shown a well-shaped sequence of calls |
| BinancePhases.RunShape | aoe/binance/order_book_sync/order_book_sync.h:155-209 | At every moment of every run a snapshot is applied only to a book cleared and told nothing since, and a diff only after a snapshot and chained to the diff before it |
| BinancePhases.RequestBalance | aoe/binance/order_book_sync/order_book_sync.h:165-180 | In every run requests minus responses is one while the in-flight flag is up and zero otherwise |
| BinancePhases.ReadyDiff | aoe/binance/order_book_sync/order_book_sync.h:181-211 | The step out of snapshot-ready feeds the snapshot and exactly the chained part of the buffer, and ends synced if all of it chains, idle with an empty buffer otherwise |
| BinancePhases.SyncedDiff | aoe/binance/order_book_sync/order_book_sync.h:155-163 | A synced machine applies a chained diff and stays synced; a lost packet tells the book nothing and leads to idle |
| BinancePhases.IdleDiff | aoe/binance/order_book_sync/order_book_sync.h:164-176 | An idle machine answers any diff with a clear and one request, and buffers the diff |
| BinancePhases.InvSnapshot | aoe/binance/order_book_sync/order_book_sync.h:111-147 | A snapshot response in flight leads to snapshot-ready, or back to idle when its pair is unknown |
| BinancePhases.FreshMeansEmpty | aoe/binance/order_book_sync/order_book_sync.h:167-167 | A book that has been told nothing since its last clear is empty |
| BinanceProgress.SyncedExactlyWhileGapless | aoe/binance/order_book_sync/order_book_sync.h:155-163 | A synced machine stays synced through every diff of a stream if and only if the stream chains from its last update id, for numbered diffs if and only if each starts right after the id at which the one before ended, and then it is at the end of the stream |
| BinanceProgress.SyncedStreamIsApplied | aoe/binance/order_book_sync/order_book_sync.h:155-163 | And its book is then the old book with every diff of the stream applied in order |
| BinanceProgress.GapLeadsToRequest | aoe/binance/order_book_sync/order_book_sync.h:165-200 | After any detected gap the very next diff, whatever it is, clears the book and puts a fresh request in flight |
| BinanceProgress.RecoveryIsExact | aoe/binance/order_book_sync/order_book_sync.h:120-212 | From any idle state, buffering up to a gapless stretch, a snapshot and one more diff of the stretch ends synced if and only if the trim drops a diff or the stale last update id happens to chain; otherwise it starts again with the id as stale as before |
| BinanceRecovery.TrimOvershootsExactlyIf | aoe/binance/order_book_sync/order_book_sync.h:120-134 | On both rules, the trim of a gapless buffer overshoots if and only if the snapshot is older than the buffer or ends between two of its diffs in ids that neither names |
| BinanceRecovery.AnyTrimOvershootsExactlyIf | aoe/binance/order_book_sync/order_book_sync.h:120-134 | The trim of any buffer overshoots if and only if no diff straddles the snapshot and the last one ends beyond it |
| BinanceRecovery.SpotFallsBetween | aoe/binance/order_book_sync/order_book_sync.h:84-87 | On spot a gapless buffer names every id, so only a snapshot older than the buffer falls between |
| BinanceRecovery.RecoveryIsRightExactlyIf | aoe/binance/order_book_sync/order_book_sync.h:120-205 | On both rules a round that ends synced at or past its snapshot is right for every history consistent with what it told the book if and only if the snapshot is neither older than the buffer nor ends between two of its diffs |
| BinanceRecovery.SyncedRunIsRightExactlyIf | aoe/binance/order_book_sync/order_book_sync.h:111-212 | Every true run synced at or past its snapshot, with gaps in its buffers or without: the book is right for every history consistent with what it was told if and only if the trim of the last snapshot did not overshoot |
| BinanceRecovery.RecoveryConverges | aoe/binance/order_book_sync/order_book_sync.h:111-212 | On both rules a round whose trim drops a diff and whose snapshot does not fall between ends synced with the exchange's book at the end of the stretch |
| BinanceRecovery.SnapshotBetweenDiffsMissesAnUpdate | aoe/binance/order_book_sync/order_book_sync.h:321-335 | A concrete futures run with true deliveries over a gapless stretch that reaches back behind the snapshot: the snapshot ends between two of its diffs, and the machine syncs on a book that is not the exchange's |
| BinanceRecovery.RoundIsARun | aoe/binance/order_book_sync/order_book_sync.h:148-180 | A round of recovery after any run that ends idle is itself an admissible run |
| BinanceRecovery.NeverSyncs | aoe/binance/order_book_sync/order_book_sync.h:120-212 | A feed on which the machine, from its start and under both rules, is not synced at any moment however many rounds it runs: in each the snapshot falls into the first diff buffered |
| BinanceRecovery.StuckStreamIsTrue | aoe/binance/order_book_sync/order_book_sync.h:120-212 | The deliveries of that feed are true and its diffs chain |
| BinanceProgress.TrimmedChains | aoe/binance/order_book_sync/order_book_sync.h:120-205 | What a trim leaves of a gapless stretch chains with the next diff exactly unless nothing was dropped and the stretch does not chain to the old id |
| BinanceSync.SyncedBookIsTheExchangeBook | aoe/binance/order_book_sync/order_book_sync.h:148-212 | Convergence on the objects: once the strand has run everything, the mutable nodes of the order book of a synced OrderBookSync hold the exchange's book |
| BinanceSync.DeliverEvent | aoe/binance/order_book_sync/order_book_sync.h:61-73 | A delivery keeps machine, strand and nodes connected: no job that ran is lost |
| BinanceSync.Interleave | aoe/binance/order_book_sync/order_book_sync.h:53-73 | The two objects from their construction through any interleaving of deliveries with jobs of the book's strand, until that has nothing left: the machine is where the protocol is after the deliveries, and if it is synced at or past a snapshot whose trim did not overshoot, the nodes hold the exchange's book |
| BinanceSync.JobsMakeTheBook | aos/order_book/order_book.h:328-336 | Running the posted jobs in order gives the book of the calls made |
| BinanceSync.ReplayIsChained | aoe/binance/order_book_sync/order_book_sync.h:188-205 | The replay loop applies exactly the longest chained prefix of the buffer, whatever its state at entry |
| BinanceSync.OrderBookSync.constructor | aoe/binance/order_book_sync/order_book_sync.h:36-59 | The object starts in the initial state of the protocol |
| BinanceSync.OrderBookSync.CheckPacketLost | aoe/binance/order_book_sync/order_book_sync.h:76-88 | A numbered diff is lost if and only if it does not start right after the last update id; in fields, First != last + 1 on spot and Previous != last on futures (futures: lines 275-288) |
| BinanceSync.OrderBookSync.AcceptSnapshot | aoe/binance/order_book_sync/order_book_sync.h:61-66 | The object stays where the protocol is after its whole history of events, for the event added |
| BinanceSync.OrderBookSync.AcceptDiff | aoe/binance/order_book_sync/order_book_sync.h:68-73 | The object stays where the protocol is after its whole history of events, the strand of the book was sent exactly the protocol's outputs, and the jobs it has run stay as they were |
| BinanceSync.OrderBookSync.ProcessSnapshot | aoe/binance/order_book_sync/order_book_sync.h:111-147 | The whole new state of the snapshot step, every field |
| BinanceSync.OrderBookSync.SkipEarlierDiffs | aoe/binance/order_book_sync/order_book_sync.h:120-134 | The trim loop drops exactly the diffs in front of the first one whose ids cover the id after the snapshot, and the last update id becomes that of the last dropped diff |
| BinanceSync.OrderBookSync.ProcessDiff | aoe/binance/order_book_sync/order_book_sync.h:148-212 | The whole new state of the diff step, every field, and the jobs posted |
| BinanceSync.OrderBookSync.ReplayChain | aoe/binance/order_book_sync/order_book_sync.h:188-205 | The replay loop ends with the chained prefix applied and says whether the rest is to be cleared |
| BookTheory.OverlapIsHarmless | aos/order_book/order_book.h:258-272 | For k <= s <= n, applying the updates k+1..n to the book at s gives the book at n, wherever s falls |
| BookTheory.OverwriteAllReads | aos/order_book/order_book.h:258-272 | After any list of overwrites a price holds its last write, zero meaning no level, or what it held before |
| BookTheory.OverwriteAllIdempotent | aos/order_book/order_book.h:258-272 | Writing the same overwrites twice is writing them once |
| BookTheory.ReportApplies | aos/order_book/order_book.h:383-395 | An event that names the touched prices with their final quantities does what the whole range of updates does |
| BookTheory.ApplyRangeSplit | aos/order_book/order_book.h:383-395 | Applying a range of updates is applying its two halves |
| OrderBook.BookSide.AddLevel | aos/order_book/order_book.h:68-91 | Index and tree keep holding the same nodes in strict order, the pool balance stays the number of levels, and the side becomes the old map with the price overwritten |
| OrderBook.BookSide.ChangeLevel | aos/order_book/order_book.h:70-75 | A write through the hash index shows in the tree: only that price changes |
| OrderBook.BookSide.InsertNode | aos/order_book/order_book.h:78-78 | Insertion keeps the tree strictly ordered and adds exactly the node |
| OrderBook.BookSide.EraseNode | aos/order_book/order_book.h:100-100 | Erasure keeps the tree strictly ordered and takes out exactly the node |
| OrderBook.BookSide.RemoveLevel | aos/order_book/order_book.h:92-113 | The side becomes the old map without the price, which need not be there; all links between index, tree and pool are kept |
| OrderBook.BookSide.Clear | aos/order_book/order_book.h:51-67 | The side becomes empty and every node has been given back to the pool |
| OrderBook.BookSide.Walk | aos/order_book/order_book.h:215-216 | An in-order walk over the tree is the ranking of the map: strictly best first, each price of the map once with its quantity |
| OrderBook.RankingIsUnique | aos/order_book/order_book.h:22-29 | A map has one ranking only, so the n best levels are well defined |
| OrderBook.BookSide.UpdateTopN | aos/order_book/order_book.h:208-243 | The first min(n, depth) entries become the best levels and no other entry changes; true if and only if some entry changed, and the level is then the greatest changed index (Top5: n = 5, lines 176-207) |
| OrderBook.OrderBookInner.GetBBO | aos/order_book/order_book.h:114-127 | Found if and only if both sides have a level; then the greatest bid and the least ask with their quantities |
| OrderBook.OrderBookInner.AddBidOrder | aos/order_book/order_book.h:258-264 | One overwrite of the bid side, zero deleting the level; the ask side is untouched |
| OrderBook.OrderBookInner.AddAskOrder | aos/order_book/order_book.h:266-272 | One overwrite of the ask side, zero deleting the level; the bid side is untouched |
| OrderBook.OrderBookInner.ProcessEvent | aos/order_book/order_book.h:383-395 | The nodes refine the abstract book: an event is applied as all its bid and ask overwrites |
| OrderBook.OrderBookInner.Clear | aos/order_book/order_book.h:51-67 | Both sides are empty |
| BookStrand.OrderBookEventListener.RunOne | aos/order_book/order_book.h:328-336 | The oldest posted job is run on the nodes, and the nodes hold the result of all jobs run |
| BookStrand.OrderBookEventListener.RunAll | aos/order_book/order_book.h:328-336 | Once the queue is empty the nodes hold the result of everything ever posted, in order |
| BybitSync.RunInv | aoe/bybit/order_book_sync/order_book_sync.h:44-84 | In every run no received snapshot means an empty book, and the book is fed one snapshot and consecutive diffs if and only if every new non-restart snapshot found none received |
| BybitSync.Convergence | aoe/bybit/order_book_sync/order_book_sync.h:44-84 | In every received state whose last new snapshot was a restart or found an empty book, whatever was merged before, the book is that snapshot plus the diffs with consecutive ids up to the current one, hence the exchange's book there |
| BybitSync.RunFollows | aoe/bybit/order_book_sync/order_book_sync.h:44-84 | In every run, while a snapshot is received, the book is known to be one snapshot and consecutive diffs if and only if the last new snapshot was a restart or found an empty book |
| BybitSync.CleanRunFits | aoe/bybit/order_book_sync/order_book_sync.h:44-68 | A run in which every new non-restart snapshot found none received meets that condition |
| BybitSync.GapEndsAMerge | aoe/bybit/order_book_sync/order_book_sync.h:69-80 | A concrete run that merges and, after a gap, converges again |
| BybitSync.SnapshotReplacesExactlyIf | aoe/bybit/order_book_sync/order_book_sync.h:47-66 | Over all runs that leave the fields as they are, a snapshot message leaves exactly its own book if and only if its id is new and it is a restart or none is received |
| BybitSync.SnapshotStep | aoe/bybit/order_book_sync/order_book_sync.h:47-66 | Any snapshot message in any state: both ids and the whole book afterwards, for a repeated id, a restart and a merge |
| BybitSync.DiffStep | aoe/bybit/order_book_sync/order_book_sync.h:69-84 | Any diff in any state: it is applied if and only if a snapshot is received and its id is the next one; otherwise a received book is cleared with both ids |
| BybitSync.ReceivedExactlyWhileConsecutive | aoe/bybit/order_book_sync/order_book_sync.h:69-84 | From any received state, a list of diffs leaves the book received if and only if their ids are consecutive from the current id; the book is then the old one with each diff applied, and empty otherwise |
| BybitSync.MergeKeepsAnOldBid | aoe/bybit/order_book_sync/order_book_sync.h:57-66 | A concrete run in which a new snapshot leaves a bid of the one before in the book |
| BybitSync.SecondRestartIsIgnored | aoe/bybit/order_book_sync/order_book_sync.h:49-55 | A concrete run with two restarts: the snapshot of the second one is taken for a re-push |
| BybitSync.RepushChangesNothing | aoe/bybit/order_book_sync/order_book_sync.h:49-55 | In any run a snapshot message changes nothing if and only if it repeats the id of the last one |
| BybitSync.ReceivedBookIsTheExchangeBook | aoe/bybit/order_book_sync/order_book_sync.h:44-84 | The same convergence on the mutable nodes behind the strand, on the last new snapshot only |
| BybitSync.Interleave | aoe/bybit/order_book_sync/order_book_sync.h:20-41 | The two objects from their construction through any interleaving of deliveries with jobs of the book's strand: if a snapshot is received and the last new one fitted, the nodes hold the exchange's book |
| BybitSync.OrderBookSync.AcceptSnapshot | aoe/bybit/order_book_sync/order_book_sync.h:31-36 | The object stays where the protocol is after its whole history of events, and the jobs that ran stay as they were |
| BybitSync.OrderBookSync.AcceptDiff | aoe/bybit/order_book_sync/order_book_sync.h:37-41 | The object stays where the protocol is after its whole history of events, and the jobs that ran stay as they were |
| BybitSync.OrderBookSync.ProcessSnapshot | aoe/bybit/order_book_sync/order_book_sync.h:44-68 | The whole new state of the snapshot step and the jobs posted |
| BybitSync.OrderBookSync.ProcessDiff | aoe/bybit/order_book_sync/order_book_sync.h:69-84 | The whole new state of the diff step and the jobs posted; a received book stays received if and only if the id is the next one, and the diff is then applied |
| MutualInformation.NonNegative | aos/mutual_information/c_mutual_information_calculator.h:49-74 | For any logarithm above K(1 - 1/t), K > 0, the sum over the joint histogram is never negative, for any two series of which the second is not shorter, and any set of bins |
| MutualInformation.IsEntropyGap | aos/mutual_information/c_mutual_information_calculator.h:49-74 | For every logarithm that turns products into sums and any two series of the same length, the sum over the joint histogram is H(X) + H(Y) - H(X, Y), with H the sum of -p log2(p) over a histogram |
| MutualInformation.AverageTold | aos/mutual_information/c_mutual_information_calculator.h:49-74 | With a second series that may be longer: the sum is the average over the data of how much likelier each pair is than if its two values were independent |
| MutualInformation.EveryCellCounts | aos/mutual_information/c_mutual_information_calculator.h:61-71 | Every cell of the joint histogram passes the test that all three probabilities are positive |
| MutualInformation.TermBound | aos/mutual_information/c_mutual_information_calculator.h:68-70 | A term of the sum is at least K(p_xy - p_x p_y) |
| MutualInformation.SumInAnyOrder | aos/mutual_information/c_mutual_information_calculator.h:61-71 | The accumulating loop gives the same total in whatever order the hash map is walked |
| MutualInformation.Accumulate | aos/mutual_information/c_mutual_information_calculator.h:60-73 | The loop computes the order-free sum over the cells |
| MutualInformation.ComputeMutualInformation | aos/mutual_information/mutual_information_calculator.h:49-74 | For any ranges, flat ones included, and any number of bins: histograms, joint histogram and loop together give H(X) + H(Y) - H(X, Y) of the two series of bins if they are equally long, and never a negative value |
| MutualInformation.HistogramsGiveMI | aos/mutual_information/mutual_information_calculator.h:53-58 | Any histograms that satisfy the histogram contract give the same mutual information |
| Histograms.ComputeHistogram | aos/histogram/histogram_calculator.h:36-53 | Exactly the bins that occur, each with its share of the data; over a range with extent the entry of a bin is the share of the data that lies in its interval |
| Histograms.ComputeJointHistogram | aos/joint_histogram/joint_histogram_calculator.h:63-84 | Exactly the pairs of bins that occur at the same index; over ranges with extent the entry of a cell is the share of the pairs that lie in it |
| Histograms.Normalise | aos/histogram/histogram_calculator.h:47-50 | The second loop divides every count once, in any order |
| Histograms.BinInRange | aos/histogram/histogram_calculator.h:43-43 | Values within the range fall into the bins 0..bins, and the extra last bin holds exactly the values equal to the maximum |
| Histograms.BinOfExactlyIf | aos/histogram/histogram_calculator.h:43-43 | For any positive width and any value, below the range as well, the bin is b if and only if the value lies in the interval of b |
| Histograms.BinFromMin | aos/histogram/histogram_calculator.h:43-43 | At or above the minimum, bin b is exactly the interval from b widths to b + 1 widths above it |
| Histograms.EntryIsShare | aos/histogram/histogram_calculator.h:36-53 | An entry of the histogram is the share of the data in its interval |
| Histograms.JointEntryIsShare | aos/joint_histogram/joint_histogram_calculator.h:63-84 | An entry of the joint histogram is the share of the pairs in its cell |
| Histograms.HistogramSumsToOne | aos/histogram/histogram_calculator.h:47-50 | A histogram of data is a probability distribution |
| Histograms.RowsAreTheMarginal | aos/joint_histogram/joint_histogram_calculator.h:72-81 | The rows of the joint histogram add up to the marginal histogram of x |
| Histograms.ColumnsAreTheMarginal | aos/joint_histogram/joint_histogram_calculator.h:72-81 | The columns of the joint histogram add up to the marginal histogram of y |
| Histograms.EntriesArePositive | aos/histogram/histogram_calculator.h:44-50 | Every entry of a histogram is positive |
| Histograms.HistogramIsUnique | aos/histogram/histogram_calculator.h:36-53 | The histogram contract determines the map |
| FiniteSums.ProductBound | aos/mutual_information/c_mutual_information_calculator.h:61-71 | Over some cells of a grid the products of two probability vectors sum to at most one |
| FiniteSums.SumRemove | aos/mutual_information/c_mutual_information_calculator.h:61-71 | A finite sum may begin with any element |
| WindowMutualInformation.ComputeMutualInformation | aos/mutual_information/c_mutual_information_calculator.h:76-105 | For any windows and number of bins: succeeds if and only if both windows are full and not empty; then the result is H(X) + H(Y) - H(X, Y) of the two windows binned over their true ranges, and never negative. Array bounds hold and the min/max guard never fires because the windows are in step with the trackers |
| WindowMutualInformation.WindowBinsInRange | aos/mutual_information/c_mutual_information_calculator.h:100-102 | All bins of a window over its own range lie in 0..bins |
| WindowMutualInformation.WindowBinExactlyIf | aos/mutual_information/c_mutual_information_calculator.h:100-102 | The bin of a value of a window with extent is the one whose interval it lies in, between the window's own extremes |
| WindowMutualInformation.FlatWindowsShareNothing | aos/mutual_information/c_mutual_information_calculator.h:53-73 | If the values of either window are all equal, the two have no mutual information, whatever the division by zero is converted to, so neither is signalled for the other above a threshold that is not negative |
| SlidingWindow.SlidingWindowStorage.AddData | aos/sliding_window_storage/sliding_window_storage.h:37-48 | Over every interleaving of assets, each window is the last min(count, size) values of its asset and all trackers stay in step with the windows |
| SlidingWindow.SlidingWindowStorage.UpdateTrackersOnAdd | aos/sliding_window_storage/sliding_window_storage.h:106-112 | All three trackers follow a value pushed at the back |
| SlidingWindow.SlidingWindowStorage.UpdateTrackersOnRemove | aos/sliding_window_storage/sliding_window_storage.h:114-120 | All three trackers follow a value popped from the front |
| SlidingWindow.SlidingWindowStorage.HasEnoughData | aos/sliding_window_storage/sliding_window_storage.h:90-93 | True if and only if at least a window of values was added; the window then has exactly that size |
| SlidingWindow.SlidingWindowStorage.GetMin | aos/sliding_window_storage/sliding_window_storage.h:95-97 | The true minimum of the last values, absent if and only if there are none |
| SlidingWindow.SlidingWindowStorage.GetMax | aos/sliding_window_storage/sliding_window_storage.h:99-101 | The true maximum of the last values, absent if and only if there are none |
| SlidingWindow.SlidingWindowStorage.GetAvg | aos/sliding_window_storage/sliding_window_storage.h:54-56 | The exact mean of the last values, absent if and only if there are none |
| SlidingWindow.SlidingWindowStorage.GetDeviationRatio | aos/deviation_tracker/deviation_tracker.h:45-50 | The ratio times the sum of the last values is the value times their number minus that sum; absent, and zero, if and only if there are no values or their mean is zero |
| SlidingWindow.ExceedsExactlyIf | aos/deviation_tracker/deviation_tracker.h:45-50 | Over a positive mean the ratio exceeds a threshold if and only if the value is above the mean times one plus the threshold; a negative mean turns this round, and without a mean the ratio is zero |
| SlidingWindow.LastCountsFromTheEnd | aos/sliding_window_storage/sliding_window_storage.h:37-47 | The window holds, counted from the end, the values added last, as many as fit |
| SlidingWindow.WindowsSlide | aos/sliding_window_storage/sliding_window_storage.h:38-47 | Push and pop keep every window the last values of its asset |
| SlidingWindow.AddedInStep | aos/sliding_window_storage/sliding_window_storage.h:106-112 | Multisets, sum and count grow with the window and no other asset is affected |
| SlidingWindow.DroppedInStep | aos/sliding_window_storage/sliding_window_storage.h:114-120 | Multisets, sum and count shrink with the window and no other asset is affected |
| Trackers.ExtremumTracker.OnAdd | aos/min_tracker/min_tracker.h:16-33 | For every asset the frequency map stays the multiset of tracked values and the cache its extremum (maximum: max_tracker.h:13-30) |
| Trackers.ExtremumTracker.OnRemove | aos/min_tracker/min_tracker.h:35-70 | The same when one occurrence is taken away; an unknown asset or value changes nothing (maximum: max_tracker.h:32-67) |
| Trackers.ExtremumTracker.Get | aos/min_tracker/min_tracker.h:72-78 | The true extremum of the tracked multiset, absent if and only if it is empty |
| Trackers.AddAgrees | aos/min_tracker/min_tracker.h:24-29 | The incremental update on insertion agrees with the multiset |
| Trackers.RemoveAgrees | aos/max_tracker/max_tracker.h:45-62 | Looking the extremum up again only when it was removed agrees with the multiset |
| Trackers.AvgTracker.OnAdd | aos/avg_tracker/avg_tracker.h:15-20 | Sum and count of one asset grow and no other changes |
| Trackers.AvgTracker.OnRemove | aos/avg_tracker/avg_tracker.h:21-26 | Sum and count of one asset shrink, the unsigned count wrapping below zero |
| Trackers.AvgTracker.GetAvg | aos/avg_tracker/avg_tracker.h:27-35 | Found if and only if the count is positive, and then the quotient is exact |
| Strategy.CoreStrategy.Cascade | aos/strategy/strategy.h:30-66 | The queue loop calls stage k exactly on what stage k-1 produced, in order, stopping at the first empty level or the last stage |
| Strategy.CoreStrategy.RunLevel | aos/strategy/strategy.h:39-44 | One callback is called on exactly the assets queued before it, in order, and the queue becomes what it pushed |
| Strategy.CoreStrategy.AnalyzeToBuy | aos/strategy/strategy.h:30-47 | The calls made are those of the iterated flat-map of the buy stages |
| Strategy.CoreStrategy.AnalyzeToSell | aos/strategy/strategy.h:49-66 | The calls made are those of the iterated flat-map of the sell stages |
| Strategy.NothingAfterEmpty | aos/strategy/strategy.h:34-34 | Once a level is empty nothing is called any more |
| Strategy.CalledExactlyIfReachable | aos/strategy/strategy.h:30-47 | A callback is called with an asset if and only if a path of pushes, one per callback before it, leads there from the analysed asset |
| Strategy.FlatMapConcat | aos/strategy/strategy.h:38-45 | What a queue pushes is what its parts push, one after the other |
| DeviationStrategy.SignalledExactlyIf | aos/strategies/deviation_and_mutual_info/c_strategy.h:34-82 | An asset is signalled if and only if it is paired with the allowed asset, the value deviates beyond its threshold, and the two full windows have a mutual information beyond theirs |
| DeviationStrategy.SignalledInTermsOfData | aos/strategies/deviation_and_mutual_info/c_strategy.h:34-82 | For every logarithm that turns products into sums: an asset is signalled if and only if it is paired with the allowed asset, the value stands out above the mean of that asset's window, both windows are full, and H(X) + H(Y) - H(X, Y) of their bins exceeds the threshold |
| DeviationStrategy.DependentPairsConcat | aos/strategies/deviation_and_mutual_info/c_strategy.h:55-67 | The dependent pairs come in the order of the pairs, as often as there |
| DeviationStrategy.SignalsAreTheDependentPairs | aos/strategies/deviation_and_mutual_info/c_strategy.h:34-82 | The signals are the dependent pairs in order, or nothing, and no callback is reached after them |
| DeviationStrategy.PairStrategy.PushAllowed | aos/strategies/deviation_and_mutual_info/c_strategy.h:35-41 | The first lambda pushes what the first abstract stage produces |
| DeviationStrategy.PairStrategy.PushDeviating | aos/strategies/deviation_and_mutual_info/c_strategy.h:43-53 | The second lambda, through the window's average, pushes what the second abstract stage produces |
| DeviationStrategy.PairStrategy.PushPairs | aos/strategies/deviation_and_mutual_info/c_strategy.h:55-67 | The third lambda, through windows, trackers, histograms and the accumulated sum, pushes what the third abstract stage produces: exactly the dependent pairs, in order |
| DeviationStrategy.PairStrategy.Analyze | aos/strategy/strategy.h:30-47 | The queue loop over the object's own lambdas reports exactly what reaches the last abstract stage |
| DeviationStrategy.PairStrategy.AnalyzeToBuy | aos/strategies/deviation_and_mutual_info/c_strategy.h:145-147 | The queue run over the four lambdas of the object: what the last one reports are exactly the signals, in order |
| DeviationStrategy.PairStrategy.AnalyzeToSell | aos/strategies/deviation_and_mutual_info/c_strategy.h:149-151 | The same for the sell side |
| DeviationStrategy.PairStrategy.AddData | aos/strategies/deviation_and_mutual_info/c_strategy.h:152-154 | The value is added to its asset's history and everything stays in step |
| LockFreePool.RunKeeps | aos/common/mem_pool.h:176-214 | In every interleaving with at most one thread inside Allocate and any number of pushing threads the free list has no repeats, live, listed and being-pushed blocks partition all blocks ever obtained, and each thread's stale reads are still true |
| LockFreePool.StepKeeps | aos/common/mem_pool.h:176-214 | Each atomic step keeps that invariant |
| LockFreePool.PopKeeps | aos/common/mem_pool.h:180-189 | The compare-and-swap of Allocate either takes the first listed block, leaves the rest of the list and hands the block out, or changes nothing and leads to the underlying pool |
| LockFreePool.PushKeeps | aos/common/mem_pool.h:207-213 | The compare-and-swap of Deallocate either puts its block in front of the list and is done, or is tried again with the head it saw |
| LockFreePool.FailedSwapCanFallBack | aos/common/mem_pool.h:187-194 | After a failed compare-and-swap in Allocate every new block can still be picked from the underlying pool |
| LockFreePool.AllocatesAlone | aos/common/mem_pool.h:176-189 | A thread that allocates alone gets the first listed block in three steps, and the list keeps the rest |
| LockFreePool.AllocatesNew | aos/common/mem_pool.h:180-196 | From an empty list it gets a new block of the underlying pool |
| LockFreePool.DeallocatesAlone | aos/common/mem_pool.h:199-213 | A thread that deallocates alone puts its block in front of the list in four steps |
| LockFreePool.PopperHoldsFirst | aos/common/mem_pool.h:180-187 | A popper whose block is the head holds the first block of the list and its true successor, and the block is not live |
| LockFreePool.FallbackKeeps | aos/common/mem_pool.h:191-196 | A block from the underlying pool is new to one allocating thread and keeps the partition |
| LockFreePool.OneAllocatorIsSafe | aos/common/mem_pool.h:176-214 | With at most one thread inside Allocate no live block is ever handed out, neither from the list nor from the underlying pool |
| AbaRace.TwoPoppersAreUnsafe | aos/common/mem_pool.h:180-188 | A concrete interleaving of two threads in the popping part hands out a live block |
| AbaRace.TwoFallbacksAreUnsafe | aos/common/mem_pool.h:191-194 | A concrete interleaving of two threads that both find the list empty hands out one block twice, from the unsynchronised malloc of the underlying pool |
| AbaRace.SafeExactlyForOneAllocator | aos/common/mem_pool.h:162-197 | The pool never hands out a live block if and only if at most one thread is inside Allocate at a time, whatever the comment above the class says |
| RefCounts.DestroyedExactlyOnce | aos/common/ref_counted.h:17-32 | In every interleaving with one thread inside Allocate and any number of releasing threads: a block has been handed out as often as destroyed, plus once if live; and destroyed once for each release that took its count from 1 to 0, short of one pending |
| RefCounts.NothingLeaks | aos/common/ref_counted.h:21-32 | When no pointer, fresh object or pending destruction is left, every block ever obtained is back in the free list or on its way, destroyed as often as handed out |
| RefCounts.DestroyIsAllowed | aos/common/ref_counted.h:22-27 | What the last release deallocates is live, unreferenced and due to no one else, so the pool's own precondition holds |
| RefCounts.MoveKeeps | aos/common/ref_counted.h:17-32 | Every step keeps the counters equal to the number of pointers, for every live object |
| RefCounts.ReleaseKeeps | aos/common/ref_counted.h:21-22 | A release makes the object due for destruction if and only if it was the last reference |
| CircularPool.AllocateReturnsExactlyIf | aos/common/mem_pool.h:29-40 | An allocation returns if and only if two blocks are free when it is called: taking the last one leaves the scan without an end |
| CircularPool.ScanEndsExactlyIf | aos/common/mem_pool.h:81-94 | The scan ends if and only if some block is free, and then within one round |
| CircularPool.MemPool.UpdateNextFreeIndex | aos/common/mem_pool.h:81-94 | The scan terminates across the wrap, stops at the first free block on its way, and the out-of-space warning is never reached by a scan that ends |
| CircularPool.MemPool.Allocate | aos/common/mem_pool.h:29-40 | The object goes into a block that was not in use, no other block changes, and the next free index points at a free block again |
| CircularPool.MemPool.Deallocate | aos/common/mem_pool.h:44-59 | Only the flag of that block changes and the next free index still points at a free block |
| CircularPool.MemPool.Reset | aos/common/mem_pool.h:61-66 | Every block is free and the index is back at the start |
| CircularPool.MemPool.constructor | aos/common/mem_pool.h:18-24 | All blocks are free and the next free index points at one |
| CircularPool.FirstStop | aos/common/mem_pool.h:83-93 | From any start, if the scan can stand on a free block at all, it stops at the first one |
| CircularPool.PositionIs | aos/common/mem_pool.h:84-88 | The index after k turns is start + k, wrapped once |
| OrderIds.RunKeepsExactlyIf | aoe/binance/order_manager/order_manager.h:42-97 | Over all runs of placements and events: stored and pooled ids partition [0, counter) at every moment if and only if every ending event and every manual id names a stored order and the counter never wraps |
| OrderIds.StepKeepsExactlyIf | aoe/binance/order_manager/order_manager.h:27-97 | The same for one command, as a condition checkable before it |
| OrderIds.NeverReissued | aoe/binance/order_manager/order_manager.h:42-56 | After any clean run no live id is reissued, the insertion never collides, and all other orders stay |
| OrderIds.StoredAsPlaced | aoe/binance/order_manager/order_manager.h:42-97 | After any clean run every stored order, whatever updates it has had, is the request that last took its id from the counter or the pool |
| OrderIds.StoredAsLastSaid | aoe/binance/order_event/order_event.h:7-114 | After any clean run an order is stored under an id if and only if the last command that brought or ended an order under it was a placement; its status and pending action are those of the last command that set them, and its price and quantity those of the last fill, where quantity left and quantity executed make up the order, or of the request before any |
| OrderIds.StoredAsSentExactlyIf | aoe/binance/order_manager/order_manager.h:27-56 | After any clean run a stored order is the request last sent under its id if and only if nothing was placed manually under it since it was taken, or the last such placement repeated the request |
| OrderIds.ManualPlacementIsNotStored | aoe/binance/order_manager/order_manager.h:27-41 | A concrete clean run in which the request sent last under an id is not the stored one |
| OrderManagement.LastSentIsInTheMessages | aoe/binance/order_manager/order_manager.h:27-56 | The request last sent under an id is the one in the last message that places an order under it |
| OrderIds.CounterIsPeak | aos/uid/unique_id_generator.h:14-14 | After any clean run the counter is the greatest number of orders ever stored at once, and the stored orders are those placed and not ended |
| OrderIds.FewOrdersFit | aos/uid/unique_id_generator.h:14-14 | The 64-bit counter does not wrap while fewer than 2^64 - 1 orders are live at once, however many are placed |
| OrderIds.EndedTwiceLosesAnOrder | aoe/binance/order_manager/order_manager.h:94-97 | After any clean run, any two events that end the same order put its id into the pool twice; once the pool is drained down to the two, two orders are sent with one id and the second is not stored |
| OrderIds.PlaceKeepsExactlyIf | aos/uid/uid_manager.h:20-26 | Taking an id from the pool or the counter keeps the partition if and only if the counter does not wrap, and the id is not in use |
| OrderIds.EndKeepsExactlyIf | aoe/binance/order_manager/order_manager.h:94-97 | Returning an id keeps the partition if and only if its order was stored |
| OrderIds.ManualKeepsExactlyIf | aoe/binance/order_manager/order_manager.h:27-41 | A manual placement keeps the partition if and only if its id is stored already |
| OrderManagement.UIDGenerator.GenerateUniqueID | aos/uid/unique_id_generator.h:14-14 | Hands out the counter and advances it, wrapping at 64 bits |
| OrderManagement.NumberPool.GetFromPool | aos/uid/number_pool.h:16-23 | The id that was returned first comes out first; an empty pool gives none |
| OrderManagement.NumberPool.ReturnToPool | aos/uid/number_pool.h:14-14 | The id is appended |
| OrderManagement.UIDManager.GetUniqueID | aos/uid/uid_manager.h:20-26 | A pooled id if there is one, else a new one, with the matching new state |
| OrderManagement.OrderStorage.Add | aoe/binance/order_storage/order_storage.h:88-90 | An order under a new id is stored; under a stored id nothing changes |
| OrderManagement.OrderStorage.Remove | aoe/binance/order_storage/order_storage.h:109-118 | Exactly that order is gone, if it was there |
| OrderManagement.OrderStorage.UpdateStatus | aoe/binance/order_storage/order_storage.h:97-108 | Status and pending action of that order change, nothing else, and nothing if it is not stored |
| OrderManagement.OrderStorage.UpdateState | aoe/binance/order_storage/order_storage.h:119-129 | Price and quantity of that order change, nothing else, and nothing if it is not stored |
| OrderManagement.OrderManager.PlaceOrderAutoId | aoe/binance/order_manager/order_manager.h:42-56 | The objects move as the specification does, and the request is sent with the id taken |
| OrderManagement.OrderManager.PlaceOrderManualId | aoe/binance/order_manager/order_manager.h:27-41 | The objects move as the specification does, and the request is sent with the given id |
| OrderManagement.OrderManager.CancelOrder | aoe/binance/order_manager/order_manager.h:57-66 | The objects move as the specification does, and a cancel is sent whether or not the order is stored |
| OrderManagement.OrderManager.AmendOrder | aoe/binance/order_manager/order_manager.h:67-77 | The objects move as the specification does, and an amend is sent whether or not the order is stored |
| OrderManagement.OrderManager.Remove | aoe/binance/order_manager/order_manager.h:94-97 | The order goes and its id returns to the pool, stored or not |
| OrderManagement.OrderManager.OnResponse | aoe/binance/order_event/order_event.h:7-114 | Every event of both exchanges moves the objects as the specification does; after a partial fill of a stored order on Binance quantity left and quantity executed make up the order (lines 46-51; Bybit: aoe/bybit/order_event/order_event.h) |
| OrderManagement.ServeAll | aoe/bybit/order_manager/order_manager.h:27-97 | Any sequence of commands on the objects is a run of the specification, and sends exactly its messages in order |
| OrderManagement.PlaceAfter | aoe/bybit/order_manager/order_manager.h:42-56 | After any clean run of the objects the next order is stored under the very id that is sent, which no stored order has |
| MinQuantity.CalculateExactly | aoe/bybit/order_min_qty_calculator/calculator.h:33-55 | The calculation succeeds if and only if the price is aligned and some multiple of the step satisfies all four limits, and then returns the least multiple that meets both minima |
| MinQuantity.AlignedExactlyIf | aoe/bybit/order_min_qty_calculator/calculator.h:20-23 | A price is aligned if and only if it is within the tolerance of some multiple of the tick |
| MinQuantity.RoundUpIsLeast | aoe/bybit/order_min_qty_calculator/calculator.h:16-18 | Rounding up gives the least multiple of the step that is not below the value |
| MinQuantity.RoundIsNearest | aoe/bybit/order_min_qty_calculator/calculator.h:21-21 | Rounding half away from zero gives the nearest integer |
| MinQuantity.SteppedIsLeastEnough | aoe/bybit/order_min_qty_calculator/calculator.h:38-41 | The stepped quantity is the least multiple that meets the minimum quantity and the minimum amount |

## Left out

- WebSocket and REST sessions, signing, credentials, request building and JSON parsing: events enter decoded, and `RequestNewSnapshot` is the output `Request`.
- Executors and coroutines: a strand is a queue of atomic steps; exporters that wait on the strand are left out.
- Snapshots are assumed to be full depth and to arrive only while a request is in flight (`Admissible`); without the latter the flags leave the four phases.
- Update ids do not wrap at 64 bits.  Bybit's two ids, uninitialised in C++, start at zero, and ids of messages are at least one.
- The boost AVL tree is a sorted sequence of the same nodes; rotations and hooks are not part of this model. The hash map is a map.
- OrderBook.BookSide.AddLevel: the pool always supplies a new node; a pool of no levels or without memory, after which the source dereferences a null pointer, and the reuse of returned nodes are not modelled.
- The exporters of only the best level, and the notifier with its subscribers: easier forms of what is there.
- Weak memory orderings: the lock-free pool and the counters run on sequentially consistent memory. The unsynchronised fallback of the lock-free pool is two atomic steps; with several threads inside it the language promises nothing, and the underlying pool's own bookkeeping is left out. Reset and Clear of the pools, which must not run beside anything else, and a pool of size zero are left out.
- A RefCounted object without a memory pool, which is only logged, is left out.
- Floating-point rounding and overflow of doubles to int: `double` is `real`.
- A division by a zero bin width gives infinity or no number, whose conversion to int the language leaves open: the model takes an unknown but fixed int for each, and what is proved holds for all of them.
- MutualInformation.ComputeMutualInformation: requires that the second series is not shorter, because the source indexes it by the length of the first.
- The overloads that look up the range with min_element and max_element: the same algorithm over the range the windows give.
- Trackers.AvgTracker.OnAdd: requires a count below the maximum of size_t, because memory ends before.
- SlidingWindow.SlidingWindowStorage.constructor: takes a window size from 0 up; the source takes an int.
- CircularPool.MemPool.Allocate: requires two free blocks, because with one the source does not return (`AllocateReturnsExactlyIf`) and with none its assertion fails.
- CircularPool.MemPool.Deallocate: requires a block in use, as the source's assertions do. Constructors and destructors of the objects are left out.
- DeviationStrategy.PairStrategy.AnalyzeToBuy: the pairs of an asset come in one order of iteration, given as a sequence; placing the signalled orders is commented out in the source.
- The queries of the order storage by category, side, mode and status: the container keeps its secondary indexes.
- Variants of the same classes allocated from pools, interface headers, builders, enum printers and converters.
- Position and profit storages: what they are to keep is not what the code keeps.
- MinQuantity.CalculateExactly: requires a positive price, tick and step; the source divides by all three.
