# UCSB, modelled in Dafny

UCSB runs key-value workloads from many threads against one database. This
project models the parts of it that carry the hard obligations and proves them
for all inputs, all runs and all interleavings:

- the reusable spin barrier (`ThreadsFence.dfy`) as an interleaved step system,
  one program point per atomic access;
- the protocol around it (`BenchLifecycle.dfy`): thread 0 opens and closes the
  database between two calls of the barrier, all threads count their operations
  in shared counters, and one of them flushes. `BenchTrace.dfy` says what
  every thread does to the database, event by event, and `BenchRun.dfy` connects it
  to the workload split;
- the acknowledgement window (`AckWindow.dfy`), a ring of bits that stands for an
  unbounded set;
- the workload split and the worker's key and value loops (`WorkSplit.dfy`,
  `Worker.dfy`, with the workload's fields in `Workloads.dfy`);
- what the adapters do themselves: byte-swapped keys (`KeyEncoding.dfy`,
  `RocksDb.dfy`), batches cut and packed by a running offset (`LevelDb.dfy`) and
  the chunked scan (`UStoreScan.dfy`);
- the FNV-1a scrambling (`FnvScramble.dfy`, over the bit operations of
  `Bits.dfy`), weighted choice (`OperationChooser.dfy`), the running average
  (`MemProfiler.dfy`), the pausing timer (`Timer.dfy`), the merge of results
  (`Reporter.dfy`) and the token splitter with the workload filter
  (`Tokens.dfy`).

`Sums.dfy`, `Sequences.dfy`, `Buffers.dfy` and `Wrappers.dfy` hold what several of these share.

`dafny verify dfyconfig.toml` checks everything.

## Form

Objects whose methods update fields are classes (`AcknowledgedCounter`,
`Worker`, `RocksDb`, `LevelDb`, `OperationChooser`, `MemProfiler`, `Timer`);
loops are methods with loops. Each such method is proved equal to a
specification function of the old state, and the properties are lemmas about
that function. The barrier and the life of the database are step systems: a
state, a step of one thread, and runs over arbitrary schedules.

## Assumptions

- Atomics are sequentially consistent and `compare_exchange_weak` does not fail
  spuriously.
- Google Benchmark starts and ends its `KeepRunningBatch` loop with a barrier
  over all threads, and every thread runs exactly one batch of its own
  `operations_count`.
- Thread 0 clears the shared counters, and adds to them, as one step each; the
  relaxed increment of `done_iterations` is atomic and returns the new value.
- Counters, keys and sizes are unbounded naturals, except where 64-bit
  arithmetic is the point (hash, rounding). Weights are exact reals.
- An engine is an ordered map from key bytes to value bytes (RocksDB, LevelDB),
  or the ascending list of its keys (UStore), and its calls succeed.
- Hosts are little-endian. Random draws and clock readings are parameters.

## What the code does not promise

- **Elapsed time after `stop`.** `stop` refreshes only the operations time, so
  `elapsed_time` afterwards gives what the last query left behind
  (`StoppedElapsedIsStale`). It falls short of operations time plus paused time
  by exactly the time between the last start or query and the stop
  (`TimerConservation`), so the times add up if and only if there was none
  (`ConservedIff`); `ElapsedQueryInsensitiveIff` says exactly when the answer does
  not depend on earlier queries.
- **Window.** Nothing in `acknowledge` enforces the window. Its bound is exact: a
  fresh value keeps the ring in agreement with the set if and only if it is less
  than the window size above the limit (`WindowIsExact`); any other accepted value
  comes to light later, as an exception or a wrong limit after values that were all
  within the window (`WindowObservable`). Beyond it, for example,
  a value `limit + size` is accepted but the limit can lag behind it
  (`BoundaryLags`), and one value further makes the limit pass a value nobody has
  acknowledged (`BeyondSkips`).
- **The worker never acknowledges.** Its constructor moves the generator's
  pointer away, so the later tests of it are false and the limit stays at
  `db_records_count - 1`; the worker model has a constant limit.
- **Mixed workloads.** Unless one inserting proportion is 1, every thread's
  upsert sequence starts at `db_records_count`, and the threads' keys collide:
  `NoCollisionIffInsertOnly`.
- **Flush flag.** `do_flash` is a local variable of each thread, so it does not
  arbitrate between threads. That the flush is unique rests on the distinct
  results of the increment, as the invariant `Tickets` of `BenchLifecycle` says.
- **LevelDB keys.** They are stored unswapped and the numeric comparator is
  commented out, so the store's order is not numeric
  (`UnswappedOrderIsNotNumeric`). Within a range of keys it is numeric if and only
  if the range crosses no multiple of 256 (`UnswappedNumericIff`).
- **Chunked scan.** It equals one scan if and only if each chunk boundary falls
  behind a gapless run of keys or behind the last key (`ChunkedScanIffClean`);
  otherwise keys are visited twice. Its length is truncated to 32 bits first
  (`TruncatedScanIff`).
- **Average.** Truncation at each sample can lose everything: a steadily growing
  usage averages to 0 (`RampAveragesToZero`). Nothing is lost if and only if the
  average of every prefix is a whole number (`AverageExactIff`).
- **Empty request.** Joining no workload names gives the empty filter, which
  selects every workload (`RequestSelects`).

## Model

| member | source | states |
|---|---|---|
| `ThreadsFence.StepInv` | src/core/threads_fence.hpp:18-33 | Any access by any thread keeps the invariant of the barrier: it is gathering, releasing or clearing, with both counters and all threads in agreement. |
| `ThreadsFence.NobodyOvertakes` | src/core/threads_fence.hpp:18-33 | In an invariant state no thread has returned from more calls than any other has arrived in. |
| `ThreadsFence.BarrierSafety` | src/core/threads_fence.hpp:18-33 | For any number of threads, schedule and round: when a thread has returned from its k-th `sync`, every thread has begun, and counted itself into, its k-th. |
| `ThreadsFence.ResetSafety` | src/core/threads_fence.hpp:26-32 | A compare-and-swap finds its expected value only while all threads are in the caller's round; `waiting` is already zero when `released` is reset. |
| `ThreadsFence.LateResetFails` | src/core/threads_fence.hpp:26-32 | A compare-and-swap left over from an earlier round changes nothing. |
| `ThreadsFence.OneResetPerRound` | src/core/threads_fence.hpp:26-32 | In every reachable state each thread has left the last fully reset round and is at most one round further; the resets of the two counters differ by at most the one in flight; after k full rounds there were exactly k of each. |
| `ThreadsFence.NoDeadlock` | src/core/threads_fence.hpp:18-33 | With equal numbers of calls, a reachable state is unfinished if and only if some thread has a step that does not spin; at the end both counters are zero. |
| `ThreadsFence.StepDecreases` | src/core/threads_fence.hpp:18-33 | A measure over remaining calls and program points falls at every step that does not spin; a spinning step changes nothing. |
| `ThreadsFence.BoundedRuns` | src/core/threads_fence.hpp:18-33 | A schedule of non-spinning steps has at most 8 * calls * threads steps. |
| `ThreadsFence.FairRunFinishes` | src/core/threads_fence.hpp:18-33 | After more than 8 * calls * threads blocks of turns, each with one for every thread, all calls of all threads have returned. |
| `BenchLifecycle.InvStep` | src/bench.cxx:384-503 | Every step of every thread keeps the invariant that ties the barrier, the threads' places, both shared counters, the tickets and the database together. |
| `BenchLifecycle.LastTicketMeansAllDone` | src/bench.cxx:433-441 | Whoever drew the last result of the increment knows that all operations of all threads have ended while the database still serves. |
| `BenchLifecycle.ProtocolHolds` | src/bench.cxx:384-503 | For any threads, workloads and interleaving the database sees only: open, operations, one flush after all of them, close, then the next workload. |
| `BenchLifecycle.TraceDescribed` | src/bench.cxx:478-503 | Whatever sequence of events the protocol accepts contains, for each workload, exactly the opens, operations, flushes and closes its state says. |
| `BenchLifecycle.Lifecycle` | src/bench.cxx:398-503 | At each event of each run: a workload is opened when all before it are complete; operations come after the open and before the flush; the flush begins once, when all operations have ended; the close comes after its end. |
| `BenchLifecycle.NoDeadlock` | src/bench.cxx:384-503 | While a thread has a workload left, some thread has a step that does not spin; when none has, the database is closed, the counters are zero and every workload was run, flushed and closed exactly once. |
| `BenchLifecycle.StepDecreases` | src/bench.cxx:384-503 | A measure over all threads' remaining work falls at every step that does not spin. |
| `BenchLifecycle.BoundedWork` | src/bench.cxx:384-503 | No run has more productive steps than the initial measure. |
| `BenchLifecycle.FairRunFinishes` | src/bench.cxx:384-503 | After 6 blocks of turns for each operation and 40 for each thread and workload, every thread is through with everything. |
| `BenchTrace.ThreadFollowsScript` | src/bench.cxx:478-503 | Whatever the interleaving, the events of each thread, but for flushing, are exactly a script: open (thread 0), create the transaction (if transactional), the operations one by one, ask for the size (thread 0), end the transaction, close (thread 0), for one workload after the other. |
| `BenchTrace.OperationsInTransaction` | src/bench.cxx:488-495 | When an operation begins, its thread has created the workload's transaction and not ended it, if the run is transactional; otherwise it has never created one. |
| `BenchTrace.TransactionsCounted` | src/bench.cxx:487-495 | When all threads are through, each has created and ended exactly one transaction for each workload, or none without transactions; the size was asked for once. |
| `BenchTrace.TraceIsThreads` | src/bench.cxx:478-503 | What the database sees is what the threads do, event for event. |
| `BenchTrace.FlagMeansFlushed` | src/bench.cxx:390-444 | A thread's local flag says exactly whether it has begun the flush of its current workload. |
| `BenchRun.PlanInNumbers` | src/bench.cxx:231-248 | Each thread's own number of operations of each workload. |
| `BenchRun.SplitGivesPlan` | src/bench.cxx:227-262 | The split always hands out operation counts the protocol can run, with the totals it should have. |
| `BenchRun.EveryOperationRuns` | src/bench.cxx:587-592 | When all threads are through, the database has run exactly max(operations, threads) operations of each workload, between one open and one flush and close. |
| `BenchRun.FairRunRunsEverything` | src/bench.cxx:478-503 | Every run with that many fair blocks ends with the database closed, and has opened, run, flushed and closed every workload with exactly its operations. |
| `AckWindow.AcknowledgedCounter.constructor` | src/core/generators/acknowledged_counter_generator.hpp:15-16 | All bits clear, the limit one below the start. |
| `AckWindow.AcknowledgedCounter.Generate` | src/core/generators/counter_generator.hpp:13-13 | Hands out the counter and advances it. |
| `AckWindow.AcknowledgedCounter.Last` | src/core/generators/acknowledged_counter_generator.hpp:18-18 | The limit. |
| `AckWindow.AcknowledgedCounter.ClearRun` | src/core/generators/acknowledged_counter_generator.hpp:26-34 | The loop clears the run of set bits from the limit on, and stops where the specification does. |
| `AckWindow.AcknowledgedCounter.Acknowledge` | src/core/generators/acknowledged_counter_generator.hpp:20-36 | Throws or moves to the state the specification gives, for any power of two as window; masks are proved to be remainders. |
| `AckWindow.CreateRefines` | src/core/generators/acknowledged_counter_generator.hpp:15-16 | A new ring stands for the empty set. |
| `AckWindow.LimitIsLargest` | src/core/generators/acknowledged_counter_generator.hpp:18-36 | While the ring stands for a set, all of start..l have been acknowledged if and only if l is at most the limit. |
| `AckWindow.BitsArePending` | src/core/generators/acknowledged_counter_generator.hpp:20-36 | A bit is set if and only if its slot belongs to an acknowledged value above the limit. |
| `AckWindow.ThrowsOnlyOnCollision` | src/core/generators/acknowledged_counter_generator.hpp:21-24 | The exception is raised if and only if a pending value occupies the slot. |
| `AckWindow.AcknowledgeRefines` | src/core/generators/acknowledged_counter_generator.hpp:20-36 | A new value less than the window above the limit is accepted, the ring then stands for the larger set, and the limit does not fall. |
| `AckWindow.RunRefines` | src/core/generators/acknowledged_counter_generator.hpp:20-36 | The same over any sequence of distinct values in any order. |
| `AckWindow.WindowIsExact` | src/core/generators/acknowledged_counter_generator.hpp:20-36 | For any fresh value from the start on: it is less than the window above the limit if and only if it is accepted and the ring then stands for the larger set. |
| `AckWindow.WindowObservable` | src/core/generators/acknowledged_counter_generator.hpp:18-36 | The same for what a caller can see, for any window of at least two slots: the value is within the window if and only if it is accepted and no sequence of in-window values after it throws or leaves a limit that is not the largest. |
| `AckWindow.BoundaryLags` | src/core/generators/acknowledged_counter_generator.hpp:26-35 | At distance exactly the window the value is accepted, yet the limit ends one short once all others are in. |
| `AckWindow.BeyondSkips` | src/core/generators/acknowledged_counter_generator.hpp:21-35 | One value further, the limit passes a value that was never acknowledged. |
| `WorkSplit.Split` | src/bench.cxx:227-262 | The loop with its leftovers gives each thread the closed-form share and start key. |
| `WorkSplit.AssignedInNumbers` | src/bench.cxx:238-245 | Each thread's record and operation counts in numbers; all other fields but the start key are the workload's. |
| `WorkSplit.SharesConserve` | src/bench.cxx:231-248 | The record shares add up to the total, and differ by at most one. |
| `WorkSplit.OperationsConserve` | src/bench.cxx:239-241 | The operation counts add up to max(operations, threads). |
| `WorkSplit.StartKeyClosedForm` | src/bench.cxx:236-259 | Without inserts, thread i starts at start + i * q + min(i, r). |
| `WorkSplit.RangesTile` | src/bench.cxx:236-259 | Without inserts, the threads' ranges cover [start, start + records) and nothing else, and are disjoint. |
| `WorkSplit.StartKeyInserting` | src/bench.cxx:248-256 | If one of the three inserting proportions is 1, thread i starts behind one key, one longest batch and one longest load, as far as they occur, for each operation of the threads before it. |
| `WorkSplit.ReservedCovers` | src/bench.cxx:249-256 | The keys reserved for an inserting thread are enough for any run of its operations, for any batch lengths up to the maximum. |
| `WorkSplit.RunInRange` | src/bench.cxx:249-256 | If one of the three inserting proportions is 1, a thread's keys ascend and stay in its reserved range. |
| `WorkSplit.NoCollisionIffInsertOnly` | src/core/worker.hpp:94-102 | Two threads' inserted keys are disjoint if and only if the proportion of upserts, of batch upserts or of bulk loads is 1. |
| `Worker.Worker.constructor` | src/core/worker.hpp:91-114 | Buffer sizes, first key of the sequence and the limit for every workload. |
| `Worker.Worker.GenerateKeys` | src/core/worker.hpp:330-341 | Fills the buffer with the next consecutive keys and leaves the rest of it alone. |
| `Worker.Worker.InsertRun` | src/core/worker.hpp:359-370 | Batches of any lengths together are one consecutive run of keys. |
| `Worker.Worker.GenerateKey` | src/core/worker.hpp:320-328 | Gives the first draw that is not above the last key of the sequence; it is always a record that was loaded, and none comes out if and only if all draws are beyond them. |
| `Worker.Worker.GenerateBatchReadKeys` | src/core/worker.hpp:343-357 | Fills the buffer with the accepted draws without repetition, all of them loaded records. |
| `Worker.Worker.GenerateValues` | src/core/worker.hpp:377-389 | Values and sizes land in the buffers, the total is the sum of the sizes, and everything fits. |
| `Worker.ValuesFit` | src/core/worker.hpp:103-113 | For any batch up to the maximum the values fit into the span handed out, and the span into the allocation. |
| `Worker.ValueSlot` | src/core/worker.hpp:104-105 | Every value is given the least multiple of 4096 bytes that holds it. |
| `Worker.FirstAcceptedIsFirst` | src/core/worker.hpp:323-325 | No key comes out if and only if all draws are above the cut-off; else it is the first that is not. |
| `Worker.CutOffIsAcknowledged` | src/core/worker.hpp:320-328 | Over a generator that stands for a set, the key that comes out is an old one or acknowledged, like every value up to it; none comes out if and only if something is missing up to every draw. |
| `Worker.InsertingThread` | src/bench.cxx:589-592 | Splitting, building the worker and inserting batch after batch gives exactly the keys the collision theorems speak of. |
| `Worker.UniqueAcceptedDistinct` | src/core/worker.hpp:346-355 | The keys of a batch read are distinct. |
| `Worker.UniqueAcceptedComplete` | src/core/worker.hpp:346-355 | They are exactly the draws at or below the cut-off. |
| `Worker.UniqueAcceptedOrder` | src/core/worker.hpp:346-355 | They stand in the order in which they were first drawn. |
| `Bits.RoundUpLeastMultiple` | src/core/helper.hpp:25-31 | In 64-bit arithmetic the mask gives the least multiple not below the number, unless the sum wraps; then it gives 0. |
| `Bits.MaskIsModulo` | src/core/generators/acknowledged_counter_generator.hpp:12-13 | Masking with size - 1 is the remainder for any power of two. |
| `KeyEncoding.MemoryDigit` | src/rocksdb/rocksdb_transaction.hpp:25-29 | The memory of a key holds its digits to the base 256, the lowest first. |
| `KeyEncoding.SwapTwice` | src/rocksdb/rocksdb_transaction.hpp:25-29 | The byte swap is its own inverse, at any key width. |
| `KeyEncoding.SwapPreservesOrder` | src/rocksdb/rocksdb_transaction.hpp:25-29 | Memory of swapped keys compares bytewise as the keys compare numerically, at any key width. |
| `KeyEncoding.LexIsBigEndian` | src/rocksdb/rocksdb_transaction.hpp:25-29 | Bytewise order on keys of one length is the numeric order of their big-endian values, and equality goes both ways. |
| `KeyEncoding.UnswappedOrder` | src/leveldb/leveldb.hpp:38-38 | Without the swap, bytewise order is the order of the swapped numbers. |
| `KeyEncoding.UnswappedOrderIsNotNumeric` | src/leveldb/leveldb.hpp:147-147 | With the numeric comparator commented out, key 256 comes before key 1. |
| `KeyEncoding.UnswappedNumericIff` | src/leveldb/leveldb.hpp:38-38 | Within a range of keys, at any width, the order without the swap is numeric if and only if the range crosses no multiple of 256. |
| `RocksDb.ToSlice` | src/rocksdb/rocksdb_transaction.hpp:25-29 | Changes the variable in place; the bytes it views stand for the old number. |
| `RocksDb.RocksDb.Upsert` | src/rocksdb/rocksdb.hpp:211-214 | Over the engine's bytes, the map over numbers gets exactly this entry. |
| `RocksDb.RocksDb.Update` | src/rocksdb/rocksdb.hpp:216-230 | Reads and writes the same key in spite of the swap: changes an entry that exists, and nothing otherwise. |
| `RocksDb.RocksDb.Read` | src/rocksdb/rocksdb.hpp:237-248 | Copies the value of that number to the front of the buffer and keeps the rest, or leaves the buffer alone and says not found. |
| `RocksDb.RocksDb.RangeSelect` | src/rocksdb/rocksdb.hpp:348-359 | Packs the values of the `length` smallest keys not below `key`, in numeric order, keeps the buffer behind them, and returns their number. |
| `RocksDb.RocksDb.Scan` | src/rocksdb/rocksdb.hpp:361-373 | Visits the same keys, in order, each value copied over the one before it. |
| `Buffers.OverwrittenByLast` | src/rocksdb/rocksdb.hpp:370-371 | After such copies the buffer starts with the value of the last key. |
| `Buffers.OverwrittenByte` | src/rocksdb/rocksdb.hpp:370-371 | Byte for byte, the last value that reaches a position decides it. |
| `Buffers.OverwrittenElsewhere` | src/rocksdb/rocksdb.hpp:370-371 | Where no value reaches, the buffer is as it was. |
| `RocksDb.SelectionIsSmallest` | src/rocksdb/rocksdb.hpp:352-354 | The entries from the sought key on are the `length` smallest keys not below it. |
| `RocksDb.RangeSelectFits` | src/core/worker.hpp:393-397 | What a range select exports stays inside the span the worker hands out. |
| `RocksDb.PutContents` | src/rocksdb/rocksdb.hpp:211-214 | Writing under a swapped key keeps the engine sorted and changes the number's entry only. |
| `RocksDb.GetContents` | src/rocksdb/rocksdb.hpp:237-248 | Looking up a swapped key finds what the map over numbers has. |
| `RocksDb.IterationSelects` | src/rocksdb/rocksdb.hpp:352-357 | Iterating from the seek position passes the smallest keys not below the sought number. |
| `RocksDb.SmallestUnique` | src/rocksdb/rocksdb.hpp:348-359 | There is only one such list of keys. |
| `LevelDb.LevelDb.BatchUpsert` | src/leveldb/leveldb.hpp:211-223 | The offset loop equals one upsert after the other of the consecutive slices. |
| `LevelDb.UpsertAllFrame` | src/leveldb/leveldb.hpp:211-223 | A batch adds its own keys and leaves every other entry of the store as it was. |
| `LevelDb.LastValueWins` | src/leveldb/leveldb.hpp:211-223 | For a repeated key the last value of the batch is stored. |
| `LevelDb.FoundOfParts` | src/leveldb/leveldb.hpp:228-239 | A batch read of two lists of keys finds what the two reads find, one after the other. |
| `LevelDb.FoundOfOne` | src/leveldb/leveldb.hpp:231-237 | One key contributes its value, or nothing when it is absent. |
| `LevelDb.LevelDb.BatchRead` | src/leveldb/leveldb.hpp:225-240 | Packs the values found at the front of the buffer, counts them, and leaves the rest of the buffer alone. |
| `LevelDb.SlicesCover` | src/leveldb/leveldb.hpp:213-219 | The slices put together are the buffer. |
| `LevelDb.SliceAtOffset` | src/leveldb/leveldb.hpp:213-219 | The i-th slice starts at the sum of the sizes before it and stays inside the buffer. |
| `LevelDb.BatchRoundTrip` | src/leveldb/leveldb.hpp:211-240 | Reading back the distinct keys just written finds all of them and packs the identical bytes. |
| `LevelDb.BatchReadFits` | src/core/worker.hpp:393-397 | A batch read of values of the workload's length stays inside the span the worker hands out. |
| `UStoreScan.Scan` | src/ustore/ustore.hpp:476-498 | The loop ends, visits and counts what the chunks of the truncated length give, copies each value over the one before it, and reports whether anything was found; the 32-bit count does not wrap. |
| `UStoreScan.ChunkedScanIffClean` | src/ustore/ustore.hpp:476-498 | For any store, length and chunk limit: the chunks visit what a single scan visits, in the same order, if and only if all chunk boundaries are clean. |
| `UStoreScan.ContiguousScan` | src/ustore/ustore.hpp:476-498 | Over a contiguous run of m keys from `key`, the first min(length, m) keys are visited once each, ascending. |
| `UStoreScan.ScanOnceSelects` | src/ustore/ustore.hpp:479-479 | One scan of the engine gives the `limit` smallest keys not below the start, ascending. |
| `UStoreScan.TruncatedInNumbers` | src/ustore/ustore.hpp:441-476 | A length survives if and only if it is below 2^32. |
| `UStoreScan.TruncatedScanIff` | src/ustore/ustore.hpp:441-477 | Over such a run the scan is complete if and only if the length has 32 bits or the run is over before the truncated length. |
| `FnvScramble.Hash64` | src/core/generators/scrambled_zipfian_generator.hpp:36-48 | The shifting loop computes FNV-1a of the eight octets, low octet first. |
| `FnvScramble.HashOfNothing` | src/core/generators/scrambled_zipfian_generator.hpp:37-39 | The empty string hashes to 14695981039346656037, the 64-bit offset basis. |
| `FnvScramble.HashOfA` | src/core/generators/scrambled_zipfian_generator.hpp:41-46 | The octet of "a" hashes to 0xaf63dc4c8601ec8c, as section 2 of draft-eastlake-fnv makes it. |
| `FnvScramble.HashOfFoobar` | src/core/generators/scrambled_zipfian_generator.hpp:41-46 | The octets of "foobar" hash to 0x85944171f73967e8. |
| `FnvScramble.HashOfZero` | src/core/generators/scrambled_zipfian_generator.hpp:36-48 | The number 0 hashes to 0xa8c7f832281a39c5. |
| `FnvScramble.PrimeInvertible` | src/core/generators/scrambled_zipfian_generator.hpp:38-45 | Multiplying by the prime modulo 2^64 can be undone. |
| `FnvScramble.RoundInjective` | src/core/generators/scrambled_zipfian_generator.hpp:41-46 | A round is injective in the state. |
| `FnvScramble.RoundOnto` | src/core/generators/scrambled_zipfian_generator.hpp:41-46 | A round reaches every state. |
| `FnvScramble.RoundSeparates` | src/core/generators/scrambled_zipfian_generator.hpp:41-46 | Different octets lead one state to different states. |
| `FnvScramble.OneOctetApart` | src/core/generators/scrambled_zipfian_generator.hpp:36-48 | Octet strings of any length that differ in one place hash differently from any state. |
| `FnvScramble.HashSeparates` | src/core/generators/scrambled_zipfian_generator.hpp:36-48 | 64-bit values that differ in exactly one octet never hash equal. |
| `FnvScramble.Scramble` | src/core/generators/scrambled_zipfian_generator.hpp:30-34 | The result lies in [base, base + num_items). |
| `OperationChooser.OperationChooser.Add` | src/core/operation.hpp:58-61 | Appends the entry and keeps the sum of the weights. |
| `OperationChooser.OperationChooser.Choose` | src/core/operation.hpp:63-74 | Returns the kind whose share holds the draw; falls through if and only if the draw is not below 1. |
| `OperationChooser.SharesPartition` | src/core/operation.hpp:63-74 | The shares between consecutive prefix sums, divided by the total, partition [0, 1), and entries of zero weight get nothing. |
| `OperationChooser.ShareWidth` | src/core/operation.hpp:66-69 | A share is as wide as its weight divided by the total. |
| `MemProfiler.MemProfiler.Start` | src/core/profiler.hpp:124-139 | The statistics begin again, unless sampling is running already. |
| `MemProfiler.MemProfiler.Stop` | src/core/profiler.hpp:140-146 | Sampling ends and the statistics stay. |
| `MemProfiler.MemProfiler.Sample` | src/core/profiler.hpp:152-170 | Minimum, maximum and running average of all samples so far. |
| `MemProfiler.AverageRoundsDown` | src/core/profiler.hpp:155-155 | Each new average is the carried sum plus the sample, divided and rounded down. |
| `MemProfiler.AverageBounds` | src/core/profiler.hpp:155-155 | sum - n(n-1)/2 <= n * avg <= sum for any samples. |
| `MemProfiler.TriangleClosedForm` | src/core/profiler.hpp:155-155 | The slack of that bound is n(n-1)/2. |
| `MemProfiler.AverageExactIff` | src/core/profiler.hpp:155-155 | n * avg is the sum if and only if every prefix has a whole average. |
| `MemProfiler.AverageWithinRange` | src/core/profiler.hpp:152-160 | The average never leaves the range of the samples. |
| `MemProfiler.ReportOrdered` | src/core/profiler.hpp:152-160 | min <= avg <= max in every reported state. |
| `MemProfiler.RampAveragesToZero` | src/core/profiler.hpp:155-155 | The lower bound is reached: the samples 0, 1, .., n - 1 average to 0. |
| `Timer.Timer.DoStart` | src/core/timer.hpp:45-53 | Clears both accumulators and starts both clocks at one reading. |
| `Timer.Timer.DoPause` | src/core/timer.hpp:29-35 | Books the running time and pauses. |
| `Timer.Timer.DoResume` | src/core/timer.hpp:36-42 | Restarts the operations clock only. |
| `Timer.Timer.DoStop` | src/core/timer.hpp:54-58 | Books the running time and stops. |
| `Timer.Timer.OperationsElapsedTime` | src/core/timer.hpp:59-63 | Refreshes only while running. |
| `Timer.Timer.ElapsedTime` | src/core/timer.hpp:64-68 | Refreshes unless stopped. |
| `Timer.TimerConservation` | src/core/timer.hpp:29-80 | After any legal history, operations time is the time spent running since the start, and elapsed time is that plus the time paused, less what was unrefreshed at the stop. |
| `Timer.ConservedIff` | src/core/timer.hpp:54-68 | Elapsed time is operations time plus paused time if and only if the timer is not stopped, or stopped at the moment of its last start or query. |
| `Timer.QueriesAreHarmless` | src/core/timer.hpp:59-80 | Leaving all queries out of a history changes no later answer (of the elapsed time: unless stopped). |
| `Timer.StoppedElapsedIsStale` | src/core/timer.hpp:54-68 | After `stop` a query made earlier does change the elapsed time. |
| `Timer.ElapsedQueryInsensitiveIff` | src/core/timer.hpp:54-68 | No query can change the elapsed time if and only if the timer is not stopped or no time passed since the start. |
| `Reporter.ParseName` | src/core/reporter.hpp:216-224 | A part without a slash that is the whole name or is followed by one. |
| `Reporter.ParseNameUnique` | src/core/reporter.hpp:216-224 | There is only one such part. |
| `Reporter.MergeResults` | src/core/reporter.hpp:226-272 | Without a source nothing changes, without a destination the source is taken as it is, else the entries are merged under the destination's context. |
| `Reporter.MergeOverrides` | src/core/reporter.hpp:241-265 | For any entries, even with repeated names: old names keep their positions, unmatched new names follow in source order, the first entry of a matching name becomes the last new one, all others stay. |
| `Reporter.MergeDistinct` | src/core/reporter.hpp:241-265 | With distinct names on each side, position by position: the new entry of the name, else the old one, then the unmatched new entries in order. |
| `Reporter.MergeKeepsDistinct` | src/core/reporter.hpp:241-265 | Names stay distinct. |
| `Reporter.MergeIdempotent` | src/core/reporter.hpp:241-265 | Merging the same source again changes nothing, whatever the names. |
| `Tokens.Split` | src/core/helper.hpp:35-46 | The loop computes the tokens of the string. |
| `Tokens.TokensAreMaximalRuns` | src/core/helper.hpp:35-46 | The tokens are non-empty and delimiter-free, and with non-empty gaps of delimiters between them they make up the string. |
| `Tokens.MaximalRunsAreUnique` | src/core/helper.hpp:35-46 | No other tokens do. |
| `Tokens.SplitInvertsJoin` | run.py:152-152 | Splitting the join of names gives the names back if and only if all are non-empty and delimiter-free. |
| `Tokens.JoinOfSplit` | src/core/helper.hpp:35-46 | Joining the tokens of any string splits to the same tokens. |
| `Tokens.FilterWorkloads` | src/bench.cxx:210-225 | An empty filter selects all workloads, any other the workloads named by its tokens. |
| `Tokens.NamedOfParts` | src/bench.cxx:218-221 | Workloads of one name are all taken, in order, also when the name is repeated. |
| `Tokens.SelectedOfParts` | src/bench.cxx:217-222 | The requested names are served one after the other. |
| `Tokens.JoinOfParts` | run.py:152-152 | The join puts one delimiter between two names and nothing else. |
| `Tokens.SelectedAreKnown` | src/bench.cxx:215-222 | With unique workload names the selection is the known names, in the order and as often as requested. |
| `Tokens.RequestSelects` | run.py:152-152 | A request of non-empty comma-free names selects exactly the known ones in order; only the empty request joins to the empty filter. |

## Left out

- Engine calls, configuration, storage directories and every other adapter: library behaviour is not visible here.
- Errors: a failing `db.open`, failing engine calls and exceptions that end a thread in the middle of a workload.
- `batch_read` of the RocksDB adapters: its thread-local vectors keep stale entries; the packing claim is about the LevelDB loop.
- Commit and retry of the RocksDB and UStore transactions: a transaction appears only as two moments, its creation and its end.
- The other progress counters of `bench` (entries, bytes, failures, printing) and the profilers' threads.
- `BenchLifecycle.ProtocolHolds`: operations are one begin and one end event; what an operation does to the data is not part of that model.
- Zipfian, beta and skewed generators, and uniform draws: a draw is an arbitrary parameter.
- `Worker.Worker.GenerateKey`: the rejection loop runs over a finite list of draws; that a random source ends it is not claimed. The same holds for the loop of `Worker.Worker.GenerateBatchReadKeys`.
- `Worker.Worker.GenerateValues`: value lengths are taken to be at most the workload's value length, as the length generators promise.
- `AckWindow.AcknowledgedCounter.constructor`: a start of 0, for which the limit would wrap to 2^64 - 1, is excluded (the start is `db_records_count`, which src/bench.cxx:169 asserts to be positive); counters do not wrap.
- `AckWindow.AcknowledgedCounter.Acknowledge`: the window size is a parameter; the fixed 2^16 is one instance.
- `UStoreScan.Scan`: the key does not wrap, and the store does not change between the chunks.
- `OperationChooser.OperationChooser.Choose`: weights are exact reals; with `float` rounding the last draws may fall through.
- `FnvScramble.Scramble`: for the full range [0, 2^64 - 1] the source's item count wraps to 0; that range is excluded.
- `Timer.Timer.DoPause`: Google Benchmark's own timer, which the source pauses and resumes alongside, is not part of the model. Neither is an illegal call, which the source's assertions stop.
- `MemProfiler.MemProfiler.Sample`: one of the two statistics; the other follows the same rules. Reading `/proc` and the CPU profiler are left out.
- Reading and writing the JSON files: `Reporter.MergeResults` works on parsed documents, with the entries' other fields as an opaque body.
- Console output, argument parsing, `run.py` process control, scripts and builds.
