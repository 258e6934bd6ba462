# Combee: a verified model

Combee gives every application a *Cell*: one SQLite file that serves SQL and a Redis-style key/value store. Around the
Cells stand a data node (which opens Cells, caches key/value reads and archives files), a directory (which says which
node may write a Cell) and a metering chain (usage counters, settlement, a credit ledger).

This project models the parts of Combee that are state machines or index loops, and proves what they keep over every
input, every interleaving or every run. `dafny verify dfyconfig.toml` checks all of it.

## How the model is laid out

| files | what they model |
|---|---|
| Base, Ttl, Decimal | option and result types, machine integers, expiry arithmetic, decimal text |
| KvRow, KvTable, KvScan | the `__sys_kv` table: one row, the whole table (`Connection`), page-by-page SCAN |
| KvNode, KvRuns | the cached key/value methods of a data node (`CellKv`, `KvCache`) and whole runs of them against the uncached table |
| KvIdeal | the table against an ideal store that forgets a key the moment its time is up |
| KvConcurrent, KvDrift, KvWrites | the same methods as interleaved steps: lock-free reads, writes under the mutex, late invalidation, eviction, GC, a ticking clock; what the two clock readings of a SET show; what writes leave and reads then show |
| Fencing | directory, generation check, one failover as code, and the failover protocol with lost, late and repeated fences, crashes and stale routes |
| Usage, UsageQuery, Rating, Metering | usage keys and totals, the usage query, floor rating, the usage meter and its flush |
| Ledger | the append-only credit ledger and vouchers |
| Settlement, Charges, FullCharges, DoubleCharge, SettleOnce | settlement interleaved with metering and other ledger traffic: what is charged at most and at least, when it could be charged twice, and the settlement run as code |
| Lease | the leader lease of the storage sampler |
| Manager | open connections under a bound, a Cell on disk as main file plus log |
| ArchiveKeys, Archive | incremental archive keys, upload, and restore of the newest round |
| SqlScanner | the SQL text scanners against a small lexer; result truncation |

Code that works in place is a class or a method with loops, tied by its `ensures` to functions on values. Protocols are
functions `Next` and `Run` over lists of events. An event that is not enabled changes nothing, so a theorem over all
lists of events is a theorem over all interleavings. Clocks, random ids, network outcomes, cache evictions and the
results of SQLite and the object store are parameters or events, never assumptions about a particular value.

## What the code does and does not guarantee

Where a property one would expect turned out false of the code, the model keeps the code, shows an input and proves
the condition.

- *Split brain.* Exactly the generations 0 and `i64::MAX` can be accepted on two nodes (`Fencing.NoSplitBrain`); a
  generation opened by reset or migrate is accepted nowhere (`Fencing.BumpedGenerationIsNeverAccepted`), so a Cell that
  was just migrated or reset takes no writes (`Fencing.BumpedCellCannotServe`). A failover
  whose replica changed between its read and its promotion installs a primary that refuses its own generation
  (`Fencing.PromotionServesExactly`). A node forgets its fence when it restarts, so a primary serves exactly while a
  fence of the directory's generation is the last it heard since then (`Fencing.PrimaryServesExactly`), and its restart
  stops the Cell (`Fencing.RestartStopsTheCell`).
- *Cached reads.* The cache is invisible as long as no operation reads a clock earlier than a past GC
  (`KvRuns.ServeCached`), and every such clock shows it (`KvRuns.ClockStepBackIsVisible`). TTL differs exactly on a persistent key served from the
  cache (`KvNode.CellKv.KvTtl`). NX and XX look at presence, not liveness (`KvRow.ConditionalSetAgreesWithLiveness`);
  these and DEL are the only operations that show an expired row still lying in the table (`KvIdeal.RunIsIdeal`).
  Because a SET reads the clock twice, an entry can outlive its row, and a DEL miss it, exactly inside a bounded
  window (`KvDrift.DelMissesExactlyInDriftWindow`, `KvConcurrent.BoundedExpiryDrift`).
- *Double charging.* A settlement run that fails part-way may be followed by one under an earlier clock. Charges stay
  disjoint while every completed run leaves earlier charges in place (`Charges.ChargesDisjoint`), which a clock that
  never steps back guarantees (`Charges.ForwardIsSteady`). A charge left out of place is charged again
  (`DoubleCharge.OutOfPlaceIsChargedAgain`), and such states are reachable (`DoubleCharge.ClockStepBackChargesTwice`).
- *Refused ledger entries.* A comment at crates/api-server/src/settlement.rs:127 says a failed entry is retried in the
  next round under the same reference. It is not: the watermark has moved, and nothing before it is ever charged again
  (`Charges.SettledBucketsAreClosed`). The model follows the code.
- *Vouchers.* Redeeming does not look its own reference up first; it keeps the ledger sound exactly when nothing else
  used that reference and the balance does not saturate (`Ledger.RedeemSound`).
- *Archive rounds in one millisecond* share their keys. The last round with the highest revision is restored exactly
  when it has a log of its own or no other round of that revision has one (`Archive.RestoresNewestRoundExactly`).
- *Statement counting.* After a block comment the scan skips one byte too many. For every text its verdict is the right
  one for the text with those bytes blanked (`SqlScanner.VerdictOnBlanked`), so it is right exactly when blanking them
  does not matter (`SqlScanner.VerdictRightExactly`).

## Model

| member | source | states |
|---|---|---|
| Decimal.IntRoundTrip | crates/data-node/src/kv.rs:185-216 | printing an integer and parsing it as an i64 gives it back, or fails exactly when it is out of range |
| Decimal.OtherSpellings | crates/data-node/src/kv.rs:185-216 | one leading plus and leading zeros parse to the same number; a sign alone or nothing does not parse |
| Ttl.LivesForItsTtl | crates/data-node/src/ttl.rs:18-31 | a key given a ttl lives for exactly that many seconds, the seconds left count down to 0, and without a ttl it never expires |
| KvRow.SetThenRead | crates/data-node/src/kv.rs:84-117 | a value that was set reads back until its expiry and is absent from then on |
| KvRow.ExpireThenRead | crates/data-node/src/kv.rs:170-181 | after EXPIRE or PERSIST on a live key reads and TTL follow the new expiry at every later time and the value stays; any other key is left as it is |
| KvRow.TtlAgreesWithRead | crates/data-node/src/kv.rs:158-167 | no TTL exactly when there is nothing to read, -1 exactly for a persistent key, else the seconds to the expiry |
| KvRow.IncrThenRead | crates/data-node/src/kv.rs:185-216 | a successful INCR reads back as its answer, with the given, kept or no expiry |
| KvRow.ReadClears | crates/data-node/src/kv.rs:55-69 | a read changes no later answer, and after it NX and XX agree with GET |
| KvRow.ConditionalSetAgreesWithLiveness | crates/data-node/src/kv.rs:84-117 | NX and XX agree with what a GET reports exactly when no expired row lies in the table |
| KvRow.IncrRunRefinesCounter | crates/data-node/src/kv.rs:185-216 | any run of INCRs from any row answers as an integer counter without text: sums, kept TTL, restart after expiry, failures that change nothing |
| KvRow.IncrAnswersRunningSums | crates/data-node/src/kv.rs:185-216 | on a live key whose text is an integer a run of INCRs, with or without TTLs, answers the running sums exactly when all of them are i64 |
| KvTable.Connection.ReadWithExpiry | crates/data-node/src/kv.rs:55-69 | reads the live value, rejects a binary one, deletes an expired row; nothing else changes |
| KvTable.Connection.Set | crates/data-node/src/kv.rs:84-117 | the row, flag and error of a SET with NX/XX and TTL, for the empty key too |
| KvTable.Connection.Del | crates/data-node/src/kv.rs:120-128 | the row is gone, and the answer says whether it was there |
| KvTable.Connection.Exists | crates/data-node/src/kv.rs:131-137 | true exactly for a live row |
| KvTable.Connection.TtlOf | crates/data-node/src/kv.rs:158-167 | the remaining seconds of a live row, -1 for a persistent one |
| KvTable.Connection.Expire | crates/data-node/src/kv.rs:170-181 | a live row gets the new expiry, anything else stays |
| KvTable.Connection.Incr | crates/data-node/src/kv.rs:185-216 | the row and answer of one INCR, with every error case |
| KvTable.Connection.MGet | crates/data-node/src/kv.rs:140-146 | all live values in order, or an error at the first unreadable key; expired rows among the visited keys are gone |
| KvTable.MGetDetermined | crates/data-node/src/kv.rs:140-146 | that outcome fixes both the answer and the table |
| KvTable.Connection.MSet | crates/data-node/src/kv.rs:149-155 | the table after setting the items in order, stopping at an empty key |
| KvTable.MSetLastWins | crates/data-node/src/kv.rs:149-155 | each key holds its last item |
| KvTable.MSetElsewhere | crates/data-node/src/kv.rs:149-155 | keys no item names are untouched |
| KvTable.MSetStopsAtEmptyKey | crates/data-node/src/kv.rs:149-155 | an empty key stops the batch with exactly the items before it written |
| KvTable.Connection.GcExpired | crates/data-node/src/ttl.rs:37-50 | a GC batch removes all picked expired rows and nothing else |
| KvScan.PagesListEverything | crates/data-node/src/kv.rs:219-253 | while the keys stay as they are, following the cursor from any key terminates and lists everything after it in order, for every limit |
| KvScan.PageHolds | crates/data-node/src/kv.rs:225-253 | a page holds the smallest keys after the cursor, as many as the clamped limit allows, and a next cursor exactly when some are left |
| KvScan.ScanListsLiveMatchingKeys | crates/data-node/src/kv.rs:219-253 | with a clock reading per page that does not step back, for every limit and predicate: no key twice, in order, each live when its page was read, and every matching key live at the last reading is listed |
| KvNode.KvCache.Get | crates/data-node/src/cache.rs:51-75 | answers an unexpired entry with its remaining seconds and drops an expired one |
| KvNode.SetThenGet | crates/data-node/src/kv.rs:72-117 | a GET after a SET returns the value with the seconds left of its ttl, and nothing once they are over |
| KvNode.PutKeepsCoherent | crates/data-node/src/cache.rs:78-89 | putting what a row holds keeps cache and table coherent, whatever was cached before |
| KvNode.InvalidateKeepsCoherent | crates/data-node/src/cache.rs:92-97 | once an entry is dropped its row may change in any way and they stay coherent |
| KvNode.StaleEntryBreaksCoherence | crates/data-node/src/lib.rs:565-578 | without dropping it they stay coherent exactly when the entry still repeats the row or had expired by the latest GC |
| KvNode.KvCache.ClearDatabase | crates/data-node/src/cache.rs:100-111 | drops exactly the entries of one Cell |
| KvNode.HitAgrees | crates/data-node/src/lib.rs:451-472 | in a coherent state a cache hit is what the table would answer |
| KvNode.CellKv.KvGet | crates/data-node/src/lib.rs:451-472 | answers from the cache if it can, keeps coherence under any clock, and answers as the table when the clock is not behind a GC |
| KvNode.CellKv.KvSet | crates/data-node/src/lib.rs:502-562 | the cached SET writes and answers as the table and keeps coherence |
| KvNode.CellKv.KvDel | crates/data-node/src/lib.rs:565-578 | the cached DEL does, and keeps coherence |
| KvNode.CellKv.KvExists | crates/data-node/src/lib.rs:581-589 | the cached EXISTS answers liveness in the table |
| KvNode.CellKv.KvMGet | crates/data-node/src/lib.rs:593-622 | probing the cache first and reading only the misses has the outcome of the uncached MGET |
| KvNode.CellKv.KvMSet | crates/data-node/src/lib.rs:625-670 | the cached MSET leaves the same table and keeps coherence |
| KvNode.CellKv.KvTtl | crates/data-node/src/lib.rs:674-682 | the cached TTL equals the table's exactly unless the key is persistent and served from the cache |
| KvNode.CellKv.KvExpire | crates/data-node/src/lib.rs:685-705 | the cached EXPIRE changes row and entry alike |
| KvNode.CellKv.KvIncr | crates/data-node/src/lib.rs:708-727 | the cached INCR changes row and entry alike |
| KvNode.CellKv.Gc | crates/data-node/src/manager.rs:338-377 | a background GC keeps coherence, given that later readings of the clock are not earlier |
| KvRuns.ServeCached | crates/data-node/src/lib.rs:451-727 | every run of operations, evictions and GCs gives the answers and the table of the uncached run |
| KvRuns.PlainRunDetermined | crates/data-node/src/kv.rs:55-216 | the uncached run is fixed by the first table and the events |
| KvRuns.StepUncached | crates/data-node/src/kv.rs:55-253 | the table operations take exactly the steps of the uncached run |
| KvIdeal.StepIsIdeal | crates/data-node/src/kv.rs:55-216 | an operation answers as the ideal store exactly unless it is a DEL, SET NX or SET XX that meets an expired row, and except after such a SET what is left is the same |
| KvIdeal.RunIsIdeal | crates/data-node/src/kv.rs:55-216 | over every run with a forward clock the answers are the ideal store's, exactly up to those |
| KvRuns.ClockStepBackIsVisible | crates/data-node/src/lib.rs:451-472 | the clock condition is tight: for every GC reading and every earlier one, every key, value and expiry between them, a valid Cell serves what its table does not hold |
| KvConcurrent.ReadsAreLinearizable | crates/data-node/src/lib.rs:451-472 | in every interleaving every GET returns what the writes up to one instant explain, with expiry judged by one clock reading, both between its first step and its answer |
| KvConcurrent.NoOlderValueAfterReturn | crates/data-node/src/lib.rs:451-727 | a GET begun after a write returned is explained by a history with that write in it and a clock reading not before that return |
| KvConcurrent.HistoryGrows | crates/data-node/src/manager.rs:194-261 | no step takes a committed write back |
| KvWrites.WriteIsPlain | crates/data-node/src/lib.rs:502-727 | an interleaved write does to the table what the uncached operation does, and goes on to the cache exactly when that answers yes |
| KvWrites.LockedReadIsPlain | crates/data-node/src/lib.rs:451-472 | so does a read under the mutex |
| KvWrites.GcIsPlain | crates/data-node/src/manager.rs:338-377 | and so does a background GC |
| KvWrites.CommitsWhatWasAsked | crates/data-node/src/lib.rs:502-727 | in every interleaving a finished SET, DEL, EXPIRE or INCR leaves the value and expiry its caller asked for, judged when it got the mutex |
| KvWrites.ReadShowsLastWrite | crates/data-node/src/lib.rs:451-472 | a GET answered as of the moment after a finished write shows that write: nothing after DEL, else the value until its expiry |
| KvWrites.GetIsAnswered | crates/data-node/src/lib.rs:451-472 | whatever the cache holds, a GET that runs alone is answered, as of the writes and the clock it began with |
| KvWrites.WriteThenGet | crates/data-node/src/lib.rs:451-727 | from every reachable state a write followed by a GET of its key is answered with what was written |
| KvConcurrent.BoundedExpiryDrift | crates/data-node/src/lib.rs:547-560 | in every reachable state a cached expiry is at or after the stored one, by at most the clock advance inside the write |
| KvDrift.DelMissesExactlyInDriftWindow | crates/data-node/src/lib.rs:547-578 | with the mutex free and a key live in the cache, some GC makes a DEL miss a value a GET still returns exactly when the stored expiry has passed, that is inside the drift window of a SET |
| KvDrift.SlowSetReachable | crates/data-node/src/lib.rs:502-562 | for every key, value, TTL and drift, a SET whose two clock readings differ leaves a stored and a later cached expiry |
| KvDrift.DelMayMissACachedValue | crates/data-node/src/lib.rs:565-578 | for every key, value, positive TTL and drift a run reaches that window |
| Fencing.Directory.CreateDatabase | crates/metadata/src/store.rs:407-443 | an existing Cell or a name in use is refused and changes nothing; otherwise the record starts at its node without a replica and its name, given or made from the id unchecked, leads to it |
| Fencing.DefaultNameIsFirstEight | crates/metadata/src/store.rs:425-428 | the default name is made of the first eight digits of the id |
| Fencing.BumpedCellCannotServe | crates/metadata/src/store.rs:632-647 | in every run, after a migrate to a node (or a reset) the record names that node and a new generation, and no primary can be made to serve before the directory changes again |
| Fencing.PromotionServesExactly | crates/api-server/src/failover.rs:22-43 | the primary a promotion installs can be made to serve the new generation, before the directory changes again, exactly when the replica the failover read is the one promoted |
| Fencing.PrimaryServesExactly | crates/data-node/src/lib.rs:95-142 | in every run the primary takes writes of the directory's generation exactly when the last it heard since its last restart is a fence of that generation, for generation 0 when it heard none |
| Fencing.RestartStopsTheCell | crates/data-node/src/lib.rs:85-142 | after a restart of a serving primary with a generation between 0 and i64::MAX no node takes writes of the directory's generation |
| Fencing.ReplicaChangeStrandsTheCell | crates/metadata/src/store.rs:589-602 | changing the replica between the two installs a primary that refuses its own generation, for any two nodes |
| Fencing.Directory.PromoteReplica | crates/metadata/src/store.rs:616-631 | the replica becomes the primary and the generation goes up by one; without a replica it fails and changes nothing |
| Fencing.AcceptsLastFence | crates/data-node/src/lib.rs:95-142 | after any fences and restarts a node accepts exactly the generation of the last fence since it started, 0 without one |
| Fencing.FailoverCell | crates/api-server/src/failover.rs:22-65 | succeeds exactly when there is a known, caught-up replica; then it promotes and fences at most the two nodes, otherwise nothing changes |
| Fencing.FailoverFences | crates/api-server/src/failover.rs:41-57 | the new primary that hears its fence takes exactly the new generation, the former one only i64::MAX, all others what they took before |
| Fencing.FailoverCellIsARun | crates/api-server/src/failover.rs:22-65 | the failover as code does to record and nodes what the protocol's steps with the delivered fences do |
| Fencing.AcceptedByOwner | crates/api-server/src/failover.rs:22-65 | over every interleaving a write is accepted only by the node its generation was handed to |
| Fencing.NoSplitBrain | crates/data-node/src/lib.rs:95-142 | a generation is never accepted on two nodes, exactly unless it is 0 or i64::MAX |
| Fencing.GenerationZeroSplits | crates/data-node/src/lib.rs:121-142 | two nodes accept generation 0 |
| Fencing.DemotedMarkerSplits | crates/api-server/src/failover.rs:39-57 | after two failovers two demoted nodes accept the marker |
| Fencing.RunMonotone | crates/metadata/src/store.rs:616-646 | generations never go down, and what was handed out, opened by reset or migrate, or accepted stays so |
| Fencing.StaleRouteIsHarmless | crates/api-server/src/client.rs:629-679 | a write with a generation read after a promotion is accepted by no node but the one it was handed to, wherever it is routed and whichever fences were lost |
| Fencing.BumpedGenerationIsNeverAccepted | crates/metadata/src/store.rs:515-525 | no node ever accepts a generation opened by reset or migrate |
| Fencing.QuietFailover | crates/api-server/src/failover.rs:22-65 | an undisturbed failover leaves the new generation accepted on the new primary alone and the old primary refusing all but the marker |
| Rating.RawRateIsFloor | crates/common/src/credit.rs:195-204 | the price is units times price over unit size, rounded down, and 0 for a missing or non-positive rule |
| Rating.RateOfWholeUnits | crates/common/src/credit.rs:195-204 | whole units cost their price each, capped; less than a micro-credit's worth costs nothing |
| Rating.RateIsCapped | crates/common/src/credit.rs:195-204 | the rate is that price capped at i64::MAX, never negative |
| Rating.RawRateMonotone | crates/common/src/credit.rs:195-204 | more usage never costs less |
| Rating.SlicedRawRate | crates/common/src/credit.rs:195-204 | before the cap, n slices cost at most the whole and at most n - 1 less |
| Rating.SlicedRate | crates/common/src/credit.rs:195-204 | with the cap the lower bound always holds, the upper one exactly when the slices' sum fits an i64 |
| Rating.ProductFitsU128 | crates/common/src/credit.rs:195-204 | the product fits the 128-bit intermediate |
| Usage.MetricRoundTrip | crates/common/src/usage.rs:35-62 | a metric's name parses back to it and contains no colon |
| Usage.BucketStart | crates/common/src/usage.rs:69-71 | the start of the minute that holds a time, for negative times too |
| Metering.UsageAddsUp | crates/metadata/src/store.rs:792-796 | any additions to the store add up per key |
| Metering.RecordsAddUp | crates/api-server/src/usage.rs:61-79 | any recordings add up per key, and a key appears only once something was recorded for it |
| Metering.UsageMeter.FlushOnce | crates/api-server/src/usage.rs:126-146 | accepted amounts are in the store, refused ones back in the counters, and the count is that of accepted keys |
| Metering.FlushKeepsSums | crates/api-server/src/usage.rs:126-146 | refused amounts stay, all others move to the store, and every key's sum of stored and pending is kept |
| Metering.MeteringConserves | crates/api-server/src/usage.rs:61-146 | at every step, with records arriving mid-flush and any failures, stored + pending + in flight is what was recorded plus what was stored twice |
| Metering.NothingReplayed | crates/api-server/src/usage.rs:126-146 | nothing is stored twice unless an acknowledgement is lost |
| Ledger.CreditStore.AppendCreditTransaction | crates/metadata/src/store.rs:963-995 | books an entry with its balance, or returns the known one and changes nothing |
| Ledger.CreditStore.RedeemVoucher | crates/metadata/src/store.rs:1027-1077 | pays an active, unexpired voucher once, and refuses otherwise |
| Ledger.AppendSound | crates/metadata/src/store.rs:963-995 | an append keeps balances, prefix sums and references right exactly when it is known or does not saturate |
| Ledger.AppendOutcome | crates/metadata/src/store.rs:963-995 | a known reference changes nothing; any other entry is added at the end and its amount goes to its tenant's balance and no other, saturating |
| Ledger.AppendOnce | crates/metadata/src/store.rs:963-995 | after any fair run in between, a second append with a reference changes nothing and returns the first entry |
| Ledger.RedeemSound | crates/metadata/src/store.rs:1027-1077 | a redemption keeps them right exactly when it does not saturate and its reference is unused |
| Ledger.RedeemOutcome | crates/metadata/src/store.rs:1027-1077 | an unknown, used, revoked or expired code changes nothing; any other credits the tenant once and uses the voucher up |
| Ledger.ExpiredVoucherNeverPays | crates/metadata/src/store.rs:1043-1045 | after issue and any fair run, a redemption past the expiry pays nothing, and one not past it pays exactly if the voucher is still active |
| Ledger.RedeemOnce | crates/metadata/src/store.rs:1027-1077 | after a redemption and any fair run every further one is refused and changes nothing, for any tenant and time |
| Ledger.LedgerConserves | crates/metadata/src/store.rs:963-1077 | over every fair run each balance is the sum of its entries, each balance_after a prefix sum, each reference one entry; repeated appends may be anything |
| Ledger.NewLedgerConserves | crates/metadata/src/store.rs:963-1077 | in particular from an empty store |
| Settlement.UsageRefInjective | crates/api-server/src/settlement.rs:92-98 | the reference tells tenant, metric, window start and price version apart |
| Settlement.CompletedWindowsTile | crates/api-server/src/settlement.rs:51-58 | for any clock readings the first completed window is one minute and the others follow each other without gap or overlap, except after a run in the first minute of 1970 |
| Charges.LedgerHoldsCharges | crates/api-server/src/settlement.rs:84-124 | after every run the ledger's usage entries are exactly the recorded charges |
| Charges.ChargesDisjoint | crates/api-server/src/settlement.rs:46-139 | no tenant, metric and bucket is charged twice while completed runs leave earlier charges in place, across failed attempts and retries |
| Charges.ForwardIsSteady | crates/api-server/src/settlement.rs:46-58 | a clock that never steps back guarantees that |
| Charges.ChargesAreGenuine | crates/api-server/src/settlement.rs:84-98 | in every run every charge has a window, a price and is not for the storage gauge |
| Charges.NeverOvercharged | crates/api-server/src/settlement.rs:46-139 | what the ledger takes is at most the price of the usage recorded and replayed, across flush failures, late flushes and failed runs |
| Charges.ChargedAtMostTheRate | crates/common/src/credit.rs:195-204 | with a forward clock and no lost acknowledgement it is at most the rate of everything recorded, if that fits |
| FullCharges.EveryWindowChargedOnce | crates/api-server/src/settlement.rs:46-139 | without failed runs, refused entries or late flushes the ledger takes exactly the price of each completed window, once |
| FullCharges.NeverUndercharged | crates/common/src/credit.rs:195-204 | that is at least the price of all usage the completed windows cover, less one micro-credit per further window, and at most that price exactly when it fits an i64 |
| FullCharges.SlicesSpan | crates/api-server/src/settlement.rs:51-78 | the completed windows together cover the usage of the span from the first to the last |
| Charges.SettledBucketsAreClosed | crates/api-server/src/settlement.rs:123-130 | nothing before the watermark of a completed run is ever charged again, so a refused entry is not retried |
| DoubleCharge.OutOfPlaceIsChargedAgain | crates/api-server/src/settlement.rs:127-130 | in every reachable state a charge left out of place by a completed run is charged again by some continuation without failures and with a forward clock, if the reference is free |
| DoubleCharge.ClockStepBackChargesTwice | crates/api-server/src/settlement.rs:51-58 | for every tenant, metric and amount a failed run and a clock step back charge usage recorded once twice |
| UsageQuery.QueryUsage | crates/metadata/src/store.rs:837-866 | exactly the buckets that pass the tenant, Cell, metric and window filters, by minute, metric name and Cell |
| UsageQuery.OrderedMeans | crates/metadata/src/store.rs:864-865 | minutes, then metric names, then Cells never go back |
| UsageQuery.AnswerUnique | crates/metadata/src/store.rs:864-865 | that answer is unique |
| SettleOnce.WithDefault | crates/api-server/src/settlement.rs:61-72 | the listed tenants and the default tenant are settled, and no others |
| SettleOnce.Aggregate | crates/api-server/src/settlement.rs:79-83 | the map per metric holds the window totals over all Cells |
| SettleOnce.Settler.ChargeMetric | crates/api-server/src/settlement.rs:84-124 | one metric is the machine's step; a billable one that is not refused is booked |
| SettleOnce.Settler.ChargeTenant | crates/api-server/src/settlement.rs:84-125 | every billable metric of a tenant that is not refused is booked, in any order, and counted |
| SettleOnce.Settler.SettleOnce | crates/api-server/src/settlement.rs:46-139 | a run is a run of the machine; it fails exactly when listing or a query fails and then keeps the watermark; otherwise it advances it and books all that is due |
| LeaderLease.LeaseStore.TryAcquireLease | crates/metadata/src/store.rs:804-822 | grants a free, own or expired lease and renews it, otherwise changes nothing |
| LeaderLease.SucceedsExactly | crates/metadata/src/store.rs:804-822 | a call succeeds exactly when nobody had the lease, the caller had it last, or it is strictly after the last success plus its ttl |
| LeaderLease.SuccessesAreApart | crates/metadata/src/store.rs:804-822 | with a forward clock successes of different owners are more than the ttl apart, for all pairs |
| LeaderLease.SamplingPermitsAreApart | crates/api-server/src/usage.rs:180-204 | sampling permits of different replicas are more than two intervals and a minute apart |
| LeaderLease.SamplingPermitIsFreed | crates/api-server/src/usage.rs:180-204 | a replica that asks later than that after the last permit gets one |
| LeaderLease.ClockStepBackShortensTheLease | crates/metadata/src/store.rs:804-822 | with a clock that steps back they need not be |
| Manager.LastFrameWins | crates/data-node/src/storage.rs:161-164 | a page holds what the last frame for it in the log says |
| Manager.CheckpointKeepsContent | crates/data-node/src/storage.rs:161-164 | a complete, partial or failed checkpoint keeps a Cell's content |
| Manager.Disk.CheckpointCell | crates/data-node/src/storage.rs:161-164 | no Cell's content changes |
| Manager.Disk.Commit | crates/data-node/src/manager.rs:254-256 | a committed transaction adds its pages to that Cell's content only |
| Manager.DbManager.EvictLru | crates/data-node/src/manager.rs:381-387 | exactly an oldest connection is closed and no content changes |
| Manager.DbManager.WithConn | crates/data-node/src/manager.rs:194-261 | keeps the bound; on success the Cell is open and freshest, the closure sees and changes exactly its content; a failed open may cost a connection and marks the Cell read-only only if opening failed |
| Manager.ServeAll | crates/data-node/src/manager.rs:194-387 | over every run of calls, closes and idle passes with successful opens, answers and contents are those of a node that keeps every Cell open |
| Manager.DbManager.CloseDatabase | crates/data-node/src/manager.rs:309-326 | closes that connection and changes no content |
| Manager.DbManager.CloseAll | crates/data-node/src/manager.rs:329-335 | closes all connections and changes no content |
| Manager.DbManager.SleepIdle | crates/data-node/src/manager.rs:355-366 | closes exactly the idle connections and changes no content |
| Manager.DbManager.DeleteDatabase | crates/data-node/src/manager.rs:264-283 | closes the connection and removes that Cell's content only |
| Manager.UseAll | crates/data-node/src/manager.rs:194-261 | any successful uses of a new manager, made one after the other, go through the states of a run of LRU steps that ends in its open connections |
| Manager.OpenAreMostRecent | crates/data-node/src/manager.rs:194-261 | after any run of successful uses with increasing stamps the open Cells are the most recently used, as many as fit |
| Manager.MostRecentUnique | crates/data-node/src/manager.rs:381-387 | that set is unique |
| ArchiveKeys.SnapKeyReads | crates/data-node/src/backup.rs:316-325 | a snapshot key gives its revision back |
| ArchiveKeys.WalKeyReads | crates/data-node/src/backup.rs:316-325 | a log key gives its revision back and is not taken for a snapshot |
| Archive.LatestIncr | crates/data-node/src/backup.rs:366-398 | for any listing in any order: the snapshot of the highest revision and the log of that revision if listed |
| Archive.StoreHolds | crates/data-node/src/backup.rs:328-363 | after any uploads a revision holds the snapshot of its last round and the log of its last round that had one |
| Archive.ArchiveStore.RestoreFromIncr | crates/data-node/src/backup.rs:402-419 | brings back the files of the newest listed round, or reports that there is none |
| Archive.RestoresTopRevision | crates/data-node/src/lib.rs:197-301 | after any rounds of any Cells a restore gives the main file of the last round with the Cell's highest revision and the log of the last such round that has one |
| Archive.FindsNothing | crates/data-node/src/backup.rs:366-398 | without a round of the Cell nothing is found |
| Archive.RestoresNewestRoundExactly | crates/data-node/src/backup.rs:366-419 | the last round with the highest revision comes back exactly when it has a log or no other round of that revision has one |
| Archive.SameRevisionRestoresOldPage | crates/data-node/src/backup.rs:328-419 | otherwise an overwritten page can come back, after any earlier rounds |
| SqlScanner.SkipQuoted | crates/data-node/src/sql.rs:59-72 | finds the closing quote, or the end |
| SqlScanner.QuotedTextCloses | crates/data-node/src/sql.rs:59-72 | for any text with its quotes doubled that is the quote after it |
| SqlScanner.SkipLeadingTrivia | crates/data-node/src/sql.rs:106-129 | stops at the first position the lexer gives to a statement |
| SqlScanner.SkipsExactlyTrivia | crates/data-node/src/sql.rs:106-129 | for any blanks, line and block comments before a statement that is where they end |
| SqlScanner.OpenCommentIsTrivia | crates/data-node/src/sql.rs:106-129 | a comment that is never closed takes up the rest |
| SqlScanner.TrailingHasSql | crates/data-node/src/sql.rs:75-100 | true exactly when a statement byte follows |
| SqlScanner.TrailingIsLeading | crates/data-node/src/sql.rs:75-129 | scanning from a position is scanning the rest of the text from its start |
| SqlScanner.HasMultipleStatements | crates/data-node/src/sql.rs:29-56 | the verdict of the scan with its extra step after block comments |
| SqlScanner.CountsStatements | crates/data-node/src/sql.rs:23-28 | for any statement of plain bytes, text in any of the three quotes and comments, then a semicolon and trivia, the lexer sees more than one statement exactly when something follows |
| SqlScanner.OneStatement | crates/data-node/src/sql.rs:23-28 | without a semicolon outside quotes and comments it sees no more than one |
| SqlScanner.ScanCountsStatements | crates/data-node/src/sql.rs:29-56 | so does the scan, if the statement holds no block comment |
| SqlScanner.VerdictOnBlanked | crates/data-node/src/sql.rs:29-56 | for every text the verdict is the right one for the text with the byte after each block comment blanked |
| SqlScanner.VerdictRightExactly | crates/data-node/src/sql.rs:40-53 | so it is right exactly when blanking those bytes does not change whether there is more than one statement |
| SqlScanner.NoBlockCommentIsRight | crates/data-node/src/sql.rs:29-56 | without a block comment before the first semicolon outside quotes and comments it is right |
| SqlScanner.UnpaddedCommentMisleads | crates/data-node/src/sql.rs:40-53 | two texts where the verdict is wrong, one each way |
| SqlScanner.CollectRows | crates/data-node/src/sql.rs:194-216 | delivers the longest prefix of rows within the quota, marked truncated exactly when it is not all |

## Left out

- HTTP routing, authentication, the web console, logging, metrics and benchmarks: plumbing around the modelled code.
- The Postgres metadata store: its SQL runs in an engine outside this model. One edge differs: a voucher that expires
  at the current second is redeemable in memory and not in Postgres.
- SQLite, the cache library and the object store themselves: a row table, a map that may lose entries at any time, and
  a map from keys to objects. User SQL, the authorizer and the full-snapshot backup path are not part of this model.
- Admission checks (write quota, maximum TTL, disk limits, read-only refusal): each is one comparison before the
  modelled call.
- The route cache of the routing client: `Fencing` lets a write go to any node, which covers every cached route.
- Overflow of the u64 usage counters and of the lease arithmetic; panics of debug builds where release builds wrap.
- Restore, reset and replication interleaved with key/value traffic of the same Cell, durability of writes that were
  not archived at a failover, and a crash between the two uploads of one archive round.
- MSET and MGET inside the interleaved model: they appear in the sequential one; interleaved, an MSET is its SETs.
- Pricing refresh, the storage sampling loop, transaction paging, the waitlist and API keys: they would only add easy
  members.
- KvIdeal.RunIsIdeal: for TTLs that do not wrap an i64, which is what the maximum-TTL check ensures.
- KvConcurrent.BoundedExpiryDrift: the bound is stated for TTLs that do not wrap an i64, which is what the maximum-TTL check ensures.
- Charges.NeverOvercharged: one settlement instance and one price version, because another instance or version writes different references.
- FullCharges.EveryWindowChargedOnce: likewise, and a run in the first minute of 1970 is excluded, because its watermark 0 reads as "no run yet".
- DoubleCharge.OutOfPlaceIsChargedAgain: asks for a free reference, because another ledger entry may hold it and then the repeated window is not booked.
- Fencing.Directory.CreateDatabase: the state and creation time of a record are not modelled, because nothing in the model reads them.
- Manager.DbManager.WithConn: the file access of the format check and of the manifest is not modelled; it only decides whether the open succeeds.
