# HybridKV data path: a verified model

HybridKV is a Redis-like key-value store. This project models its data path in
Dafny, from the bytes a client prints to the bytes it reads back, and proves
what the path promises: a client that pipelines GET, SET, SET EX, DEL, EXPIRE
and TTL over any fragmentation of the byte stream reads exactly the replies of
a plain map with deadlines.

| module | what it models |
|---|---|
| `Prelude`, `Decimal` | machine widths, byte strings; the four decimal printers and parsers |
| `Store` | the reference: a map from key to value and optional deadline |
| `LruList`, `Shard` | one shard: index, slot arena, free list, LRU links, lazily cleaned deadline heap |
| `Masking` | power-of-two shard counts, masks, the eviction cursor |
| `EngineState`, `LruCache` | the map the shards stand for; the engine as a plain LRU cache: lists, budget, eviction log |
| `Engine`, `EngineRuns` | the sharded engine, one call and whole runs |
| `Accounting` | the engine's byte counter under every interleaving of lock sections and atomic steps |
| `Protocol`, `Grammar` | the server's resumable RESP2 parser and its buffer loop; the language it accepts, refuses and overflows on |
| `ClientResp`, `ReplyGrammar`, `Replies`, `RoundTrip` | the client's encoder and recursive reply reader, the language it accepts, the server's reply printers, and the round trips between the two sides |
| `Server`, `Commands`, `EndToEnd`, `Client` | dispatch, the connection loop, the reply to every list of arguments, the whole path and the client's reading of replies |
| `Pool`, `PoolProtocol` | the connection pool and retry loop, sequentially and under every interleaving |
| `Metrics`, `Snapshots` | the latency histogram, its percentile scan, and snapshots taken while samples are recorded |
| `Hotness` | the exact hot-key ranking fed by command dispatch |

Main results: `EndToEnd.Exchange` with `Client.Call`, `EngineRuns.Run`,
`LruCache.EvictMeaning`, `Engine.MemoryEngine.PurgeExpired`,
`Accounting.EveryInterleaving`, `Server.Connection.HandleConnection`,
`Protocol.ChunkIndependence`, `Grammar.RefusedIff`, `Grammar.StreamMeaning`,
`ReplyGrammar.ReplyIff`, `Commands.RefusedCommand`,
`RoundTrip.PipelineRoundTrip`, `ClientResp.ReadIsLocalIff`,
`PoolProtocol.EveryInterleaving`, `PoolProtocol.ExhaustedMeansFull`,
`Pool.KVClient.ExecWithRetry`, `Metrics.PercentileMeaning`,
`Snapshots.FallbackIffMissed`, and `Hotness.CountsMatchCommands` with
`Hotness.TopKeysAreHottest`.

How the model reads the code:

- Time is a natural number. Each engine call gets one clock reading; runs use a
  non-decreasing clock, as a monotonic clock gives. A second is
  `TICKS_PER_SECOND` ticks.
- Hashing is an arbitrary function from keys to naturals, the deadline heap is a
  multiset from which a least entry is taken, and locks are steps.
- `usize` and `u64` are 64 bits wide, and arithmetic is that of a release build:
  saturation in the parsers, wrap-around of the eviction cursor, of the scan's
  `start + offset`, of the histogram's sum and of `bulk_len + 2` in the server's
  parser (cutting off such a length then panics), and truncation of the recorded
  latency are written out.
- In `Accounting` and `Snapshots` every atomic operation, relaxed loads
  included, is one step of a sequentially consistent interleaving.
- Ghost state: a shard's `order` (its LRU order), an engine's `store` (the map
  it stands for) and `victims` (a log of its evictions), a pool's `out` and
  `failed` connections, its count of acquisitions and its history of attempts, a
  histogram's `recorded` samples, an evaluator's `events`.

Where the code does not do what a reader might expect, the model follows the
code:

- The client's reply reader accepts a line that ends with the input instead of a
  line feed, and drops its last two bytes if the first of them is a carriage
  return. So a success need not be stable under further input:
  `ClientResp.UnterminatedLineAccepted` gives an input, and
  `ClientResp.ReadIsLocalIff` shows that stability holds exactly when the last
  byte taken is a line feed. On the input: it always holds if the input ends in a
  line feed (`ClientResp.LocalWhenTerminated`), and for replies of one line it
  holds exactly if the input has one (`ClientResp.LocalWhenOneLine`).
- `-9223372036854775808` is read as `-9223372036854775807`, because the client
  saturates the magnitude before it negates (`Decimal.SignedRoundTrip`,
  `RoundTrip.IntegerRoundTrip`).
- Simple strings and errors survive the trip exactly when they hold no line feed
  (`RoundTrip.SimpleRoundTrip`, `RoundTrip.ErrorRoundTrip`).
- `PoolExhausted` is documented as "no idle connections are available"
  (hkv-client/src/client.rs:63-64). Looking for an idle connection and reserving
  a slot are two lock sections, so a connection returned in between can sit idle
  while the caller is told the pool is exhausted:
  `PoolProtocol.ExhaustedWithIdleConnection` gives the schedule.
  `PoolProtocol.ExhaustedMeansFull` shows that this happens exactly if, between
  the two sections, more connections came back than were taken, so the documented
  reading holds whenever nobody drops a connection in between
  (`PoolProtocol.ExhaustedAsDocumented`), and always without concurrency
  (`Pool.KVClient.TryOnce`).
- The percentile scan can run off the end of the buckets, because `record` bumps
  the sample count before the bucket and `snapshot` loads the buckets first:
  `Snapshots.FallbackHappens` gives the schedule, and
  `Snapshots.FallbackIffMissed` says for exactly which ranks.

## Model

| member | source | states |
|---|---|---|
| `Decimal.DigitsRoundTrip` | hkv-client/src/resp.rs:158-175 | the digits printed for any number have that number as their decimal value |
| `Decimal.DigitsCanonical` | hkv-client/src/resp.rs:158-175 | printed numbers have no leading zero, except zero itself |
| `Decimal.DigitsFit20` | hkv-client/src/client.rs:311-326 | no 64-bit number needs more than the 20 bytes of the digit buffers |
| `Decimal.ParseDigits` | hkv-server/src/protocol.rs:130-142 | the saturating loop returns the smaller of the decimal value and the type's maximum, for digit strings of any length, and fails exactly on empty or non-digit input (the same loop is `parse_u64` of the server) |
| `Decimal.ParseI64` | hkv-client/src/resp.rs:134-156 | the signed parser clamps the magnitude to `i64::MAX`, then applies the sign; it never returns `i64::MIN` |
| `Decimal.WriteDigits` | hkv-client/src/resp.rs:163-171 | the digit loop stays inside its 20 bytes and leaves the number's digits in reverse |
| `Decimal.PushUsize` | hkv-client/src/resp.rs:158-175 | appends the decimal digits and nothing else |
| `Decimal.EncodeU64` | hkv-client/src/client.rs:311-326 | after the in-place reversal the buffer's used part is the decimal digits |
| `Decimal.UnsignedRoundTrip` | hkv-server/src/server.rs:687-699 | what the client prints the server reads back; larger numbers saturate |
| `Decimal.SignedRoundTrip` | hkv-client/src/resp.rs:134-156 | every `i64` is read back as itself, except `i64::MIN`, which loses one |
| `Store.StepKeepsVisible` | hkv-engine/src/engine.rs:32-55 | two maps showing the same entries still do after one makes the call as the engine does, deleting expired entries on the way, and the other does not delete them |
| `Store.SweepingIsUnobservable` | hkv-engine/src/engine.rs:32-55 | over every run with a non-decreasing clock, deleting expired entries early, late or never gives the same answers to every call but the purge count |
| `Store.WrittenStays` | hkv-engine/src/engine.rs:37-39 | a value set is there at any later time and has no deadline, whatever deadline its key had |
| `Store.WrittenExpires` | hkv-engine/src/engine.rs:41-45 | a value set with a time to live shows until exactly that long has passed, with the remaining time, and nothing shows from then on |
| `Store.RescheduledExpires` | hkv-engine/src/engine.rs:50-51 | a new time to live counts from the call, keeps the value, and has no effect on a key that shows nothing |
| `Store.DeletedIsGone` | hkv-engine/src/engine.rs:47-48 | a deleted key shows nothing, and the answer tells whether it showed before |
| `Store.OthersUntouched` | hkv-engine/src/engine.rs:32-55 | reads and purges change nothing visible, and no call touches what other keys show |
| `Store.PurgeKeeps` | hkv-engine/src/memory.rs:403-415 | a purge keeps exactly the entries without deadline or with one after now, and counts the rest |
| `Shard.UnlinkedIsLinked` | hkv-engine/src/memory.rs:166-192 | cutting one slot out of the links leaves head/next and tail/prev tracing the same order without it |
| `Shard.PushedIsLinked` | hkv-engine/src/memory.rs:197-213 | linking a slot at the tail leaves both directions tracing the order with it at the end |
| `Shard.RemovedSlot` | hkv-engine/src/memory.rs:284-295 | clearing an unlinked slot keeps the whole structure: index onto live slots, free list exactly the empty slots, heap exact, links tracing all live slots |
| `Shard.TouchedSlot` | hkv-engine/src/memory.rs:218-224 | a touch keeps the structure and moves one item to the end, the rest in order |
| `Shard.PlacedSlot` | hkv-engine/src/memory.rs:229-247 | filling a free or new slot keeps the structure, stale heap entries of a reused slot included |
| `Shard.RewrittenSlot` | hkv-engine/src/memory.rs:485-508 | rewriting value, deadline and token in place keeps the structure but for that slot's own heap entry |
| `Shard.StalePopped` | hkv-engine/src/memory.rs:260-279 | dropping a heap entry that no longer matches its slot loses no live deadline |
| `Shard.HeapDrained` | hkv-engine/src/memory.rs:260-279 | if no heap entry is due, no live node is expired, because every live deadline has exactly one matching heap entry |
| `Shard.ItemsDistinct` | hkv-engine/src/memory.rs:124-145 | the LRU order lists every key of the map exactly once, with its entry, and nothing else |
| `Shard.ShardInner.constructor` | hkv-engine/src/memory.rs:152-161 | a new shard is valid and empty |
| `Shard.ShardInner.LruRemove` | hkv-engine/src/memory.rs:166-192 | the order loses exactly the given slot; both link directions trace the rest; keys, values, deadlines and sizes stay |
| `Shard.ShardInner.LruPushBack` | hkv-engine/src/memory.rs:197-213 | the order gains exactly the given slot at its end; nothing but links changes |
| `Shard.ShardInner.Touch` | hkv-engine/src/memory.rs:218-224 | the item moves to the end of the LRU order, the rest keep their order, the contents are the same |
| `Shard.ShardInner.InsertNew` | hkv-engine/src/memory.rs:229-247 | the new key takes a free or new slot, goes last in LRU order and is added to the contents |
| `Shard.ShardInner.UpdateNode` | hkv-engine/src/memory.rs:489-494 | the node's new value, deadline and token replace the old ones in place; only its own heap entry is then owed |
| `Shard.ShardInner.ScheduleExpiration` | hkv-engine/src/memory.rs:250-256 | pushing the fresh token's entry restores the exactness of the heap |
| `Shard.ShardInner.PopDueExpiration` | hkv-engine/src/memory.rs:260-279 | an entry returned matches a live expired node; none means every heap entry lies after `now` |
| `Shard.ShardInner.RemoveIdx` | hkv-engine/src/memory.rs:284-295 | an empty slot changes nothing; a live one leaves map, order and arena, its size is returned, its heap entries become stale |
| `Shard.ShardInner.PopLru` | hkv-engine/src/memory.rs:300-303 | removes exactly the least recently used item and returns its size; nothing if the shard is empty |
| `Shard.ShardInner.Reschedule` | hkv-engine/src/memory.rs:683-689 | only the deadline of one item changes, in place in LRU order |
| `Shard.ShardInner.Overwrite` | hkv-engine/src/memory.rs:487-508 | the item gets the new value and deadline (or loses its deadline) and moves to the end |
| `Shard.ShardInner.Insert` | hkv-engine/src/memory.rs:509-525 | a new item with its deadline goes to the end and, with a deadline, has its heap entry |
| `Masking.MaskIsModulo` | hkv-engine/src/memory.rs:447-451 | a bitwise and with a power of two less one is the remainder |
| `Masking.ScanIndexIsModulo` | hkv-engine/src/memory.rs:552-558 | the scan's masked wrapping sum is round-robin order from the cursor |
| `Masking.ScanVisitsOnce` | hkv-engine/src/memory.rs:552-562 | from any cursor, each shard is visited at exactly one offset of the scan |
| `Masking.NormalizeShardCount` | hkv-engine/src/memory.rs:738-741 | the least power of two that is at least the count and at least one |
| `Masking.CursorModulo` | hkv-engine/src/memory.rs:552 | wrapping the 64-bit cursor does not disturb the rotation |
| `Masking.RoundRobinIsFair` | hkv-engine/src/memory.rs:541-568 | if rounds take their turns, any k consecutive evictions hit each of n shards k/n times, rounded down or up |
| `EngineState.AgreesPut` | hkv-engine/src/memory.rs:447-456 | writing a key in the shard that owns it writes it in the one map the shards stand for |
| `EngineState.AgreesRemove` | hkv-engine/src/memory.rs:476-483 | removing a key from its shard removes it from the one map |
| `EngineState.FullScanEmpty` | hkv-engine/src/memory.rs:554-566 | a scan that finds nothing in any shard means no byte is in use |
| `LruCache.VictimHasEntries` | hkv-engine/src/memory.rs:554-566 | while bytes are in use, the next round of eviction finds an entry |
| `LruCache.ScanFindsVictim` | hkv-engine/src/memory.rs:552-562 | the scan from a wrapped cursor stops at the shard the reference round picks |
| `LruCache.RoundEvicts` | hkv-engine/src/memory.rs:546-567 | one more round keeps: the log accounts for every entry lost, dry marks are honest, turns are taken, no longer suffix fits |
| `LruCache.EvictMeaning` | hkv-engine/src/memory.rs:541-568 | eviction ends within the budget; each shard loses exactly as many of its oldest entries as the log charges to it; a round takes the shard whose turn it is unless that is empty; one shard keeps the longest recent suffix that fits |
| `LruCache.TurnsAreFair` | hkv-engine/src/memory.rs:541-568 | any k consecutive evictions with no shard found dry on its turn hit each of n shards k/n times, rounded down or up, across calls |
| `LruCache.ListStepIs` | hkv-engine/src/memory.rs:590-732 | how a call moves, rewrites or drops the entry in its shard's list, in terms of what the map shows |
| `LruCache.WithinBudgetEvictsNothing` | hkv-engine/src/memory.rs:541-568 | a run whose bytes would never exceed the budget, and any run without a limit, evicts nothing |
| `Engine.MakeShards` | hkv-engine/src/memory.rs:379-398 | the shards built are distinct, valid and empty |
| `Engine.MemoryEngine.constructor` | hkv-engine/src/memory.rs:379-398 | a valid empty engine with the normalised number of shards |
| `Engine.MemoryEngine.ShardIndex` | hkv-engine/src/memory.rs:447-451 | every key has one existing shard, its hash modulo the count |
| `Engine.MemoryEngine.Get` | hkv-engine/src/memory.rs:590-617 | the reference map's answer; an expired entry is deleted; a hit moves to the end of its shard's order, all else in order |
| `Engine.MemoryEngine.Delete` | hkv-engine/src/memory.rs:636-656 | true exactly when a visible entry was there; the key is gone either way |
| `Engine.MemoryEngine.Expire` | hkv-engine/src/memory.rs:661-692 | succeeds exactly on a visible key, which gets the new deadline in place |
| `Engine.MemoryEngine.Ttl` | hkv-engine/src/memory.rs:697-732 | missing, no deadline or the remaining time, as the reference map says; an expired entry is deleted |
| `Engine.MemoryEngine.RemoveSlot` | hkv-engine/src/memory.rs:476-483 | slot, byte count and map lose the same entry together |
| `Engine.MemoryEngine.AdjustUsed` | hkv-engine/src/memory.rs:497-503 | the byte count changes by the difference of the sizes, whichever branch is taken |
| `Engine.MemoryEngine.Put` | hkv-engine/src/memory.rs:467-525 | the map gains or replaces one entry, which goes last in its shard's order; byte count, tokens and heap stay exact |
| `Engine.MemoryEngine.EvictOne` | hkv-engine/src/memory.rs:573-577 | the least recently used entry of one shard leaves, or the shard was empty |
| `Engine.MemoryEngine.AdvanceCursor` | hkv-engine/src/memory.rs:552 | each round starts one after the last, modulo 2^64 |
| `Engine.MemoryEngine.EvictRound` | hkv-engine/src/memory.rs:546-567 | while bytes are in use a scan always evicts; shards, log and map change as one reference round |
| `Engine.MemoryEngine.EvictIfNeeded` | hkv-engine/src/memory.rs:541-568 | terminates within the budget, never by the "nothing evicted" exit; equals the reference eviction; the map loses exactly the logged keys, each shard exactly the logged number of its oldest entries; with one shard the longest fitting suffix stays; within budget nothing changes |
| `Engine.MemoryEngine.WriteValue` | hkv-engine/src/memory.rs:467-529 | the written map and lists, less exactly what the log says was evicted; nothing if the written bytes fit or there is no limit |
| `Engine.MemoryEngine.Set` | hkv-engine/src/memory.rs:622-624 | map and LRU cache after the write of a key without deadline, evictions included, within the budget |
| `Engine.MemoryEngine.SetWithTtl` | hkv-engine/src/memory.rs:628-631 | the same with the deadline `now + ttl`, value and deadline in one write |
| `Engine.MemoryEngine.PurgeShard` | hkv-engine/src/memory.rs:405-412 | one shard keeps exactly its unexpired items in order, and the count is the number removed |
| `Engine.MemoryEngine.PurgeExpired` | hkv-engine/src/memory.rs:403-415 | removes exactly the entries with deadline at or before `now`, returns their number, leaves only later heap entries and keeps the order of the rest |
| `EngineRuns.Apply` | hkv-engine/src/memory.rs:586-733 | any call answers as the reference map and as the LRU cache do, and leaves the engine as the cache is left |
| `EngineRuns.StepBelow` | hkv-engine/src/engine.rs:32-55 | a map that shows what another does but for keys that are gone still does after both make the same call |
| `EngineRuns.Run` | hkv-engine/src/memory.rs:403-733 | every run: the engine ends as the LRU cache does, eviction log included, and answers as it does; an answer differs from the plain map's only if the key was evicted earlier in the run, and is then that of a missing key; with no limit, or if the bytes would never exceed it, every answer is the plain map's; evictions are spread fairly across calls |
| `Accounting.BalancedStep` | hkv-engine/src/memory.rs:476-617 | every lock section, LRU reordering by a hit included, and every atomic step keeps: used bytes = live sizes + sizes popped but not subtracted, corrected by what lock holders owe |
| `Accounting.LocksStep` | hkv-engine/src/memory.rs:403-412 | every step keeps what lock holders owe consistent with the shard they hold |
| `Accounting.GrowthIsOwed` | hkv-engine/src/memory.rs:497-525 | a step that adds live bytes leaves its thread owing their addition |
| `Accounting.DutyEnds` | hkv-engine/src/memory.rs:541-568 | when the last thread that added bytes stops evicting, live bytes fit the budget, whatever the others did meanwhile |
| `Accounting.BudgetStep` | hkv-engine/src/memory.rs:541-577 | every step keeps: the budget is met, or an addition is pending, or the last adder is still on duty with a clean scan so far |
| `Accounting.RunInv` | hkv-engine/src/memory.rs:403-617 | the invariant holds after every possible sequence of steps |
| `Accounting.EveryInterleaving` | hkv-engine/src/memory.rs:403-692 | in every interleaving of writes, reads that reorder, deletions, purges and evictions the balance holds and the counter is never negative; once all calls have returned it equals the live sizes and is within a finite budget |
| `Accounting.NoUnderflow` | hkv-engine/src/memory.rs:403-692 | no subtraction, of any reachable step, exceeds the counter |
| `Protocol.ReadLine` | hkv-server/src/protocol.rs:117-128 | splits at the first carriage-return line-feed pair, or leaves the buffer alone if there is none |
| `Protocol.RespParser.AtArrayLen` | hkv-server/src/protocol.rs:60-77 | the header and inline-command step, error and zero-count cases included |
| `Protocol.RespParser.AtBulkLen` | hkv-server/src/protocol.rs:78-89 | the bulk-length step and its error cases |
| `Protocol.RespParser.AtBulkData` | hkv-server/src/protocol.rs:90-105 | the data step: waits for data and terminator, completes the command on the last argument |
| `Protocol.RespParser.ParseCommand` | hkv-server/src/protocol.rs:57-108 | the resumable loop follows the parse function from whatever state an earlier read left |
| `Protocol.ParseKeepsSize` | hkv-server/src/protocol.rs:78-105 | inside a frame, wherever the input breaks off, arguments held plus arguments outstanding stay the same, and a completed frame has that many |
| `Protocol.FrameHoldsDeclared` | hkv-server/src/protocol.rs:57-108 | a command that starts with an array header has exactly the declared number of arguments; while incomplete, held and outstanding add up to it |
| `Protocol.TransitionStable` | hkv-server/src/protocol.rs:57-128 | a step that could be taken is taken the same way with more bytes behind it |
| `Protocol.ParseSplit` | hkv-server/src/protocol.rs:57-108 | parsing a buffer in two pieces equals parsing it whole, from any parser state |
| `Protocol.DrainSplit` | hkv-server/src/server.rs:195-226 | the same for the loop that takes every complete command |
| `Protocol.FeedIsDrain` | hkv-server/src/server.rs:195-226 | reading any list of chunks equals draining their concatenation |
| `Protocol.ChunkIndependence` | hkv-server/src/server.rs:195-226 | two ways of cutting a stream give the same commands, the same outcome and, without error, the same parser state and leftover bytes |
| `Grammar.CompleteIff` | hkv-server/src/protocol.rs:57-156 | from the start of a command, the parser yields it and leaves the rest if and only if the stream is that command's text, an array header and as many bulk strings as it announces or a line with at least one word, followed by the rest |
| `Grammar.RefusedIff` | hkv-server/src/protocol.rs:57-156 | the parser refuses a stream if and only if its header is `*` and a non-number, or its first line is blank, or after fewer good bulk strings than announced comes a bad length line or data without CR LF; it panics if and only if such a length wraps |
| `Grammar.StreamMeaning` | hkv-server/src/server.rs:195-226 | a stream is the texts of the commands served followed by a rest that holds no whole command, and the connection is refused if and only if that rest is refusable |
| `Grammar.BulkTaken` | hkv-server/src/protocol.rs:78-105 | `$`, any spelling of the length, CR LF, the data and CR LF is taken as one argument |
| `Grammar.FrameParsed` | hkv-server/src/protocol.rs:78-105 | good bulk strings become the arguments, and what follows them decides a refusal or an overflow |
| `ClientResp.AppendCommand` | hkv-client/src/resp.rs:43-55 | appends the array header and one bulk string per argument, keeping what the buffer held |
| `ClientResp.ReplyReader.ReadLine` | hkv-client/src/resp.rs:121-132 | consumes through the first line feed and yields the line without its terminator |
| `ClientResp.ReplyReader.ParseBulkLen` | hkv-client/src/resp.rs:83-103 | null for negative lengths, otherwise exactly that many bytes and a checked terminator |
| `ClientResp.ReplyReader.ReadResponse` | hkv-client/src/resp.rs:58-81 | terminates on every input, any nesting and any declared length, returning the value and the unread rest |
| `ClientResp.ReplyReader.ParseArrayLen` | hkv-client/src/resp.rs:105-119 | non-positive lengths give an empty array; otherwise the items in order, failing where the first item fails |
| `ClientResp.ReadValueEnds` | hkv-client/src/resp.rs:58-132 | a success stops right after a line feed or at the end of the input |
| `ClientResp.ReadValueLocal` | hkv-client/src/resp.rs:58-132 | the bytes taken, if they end in a line feed, give the same value and the same length whatever follows |
| `ClientResp.ReadValueEats` | hkv-client/src/resp.rs:121-132 | otherwise any further byte is swallowed too |
| `ClientResp.ReadIsLocalIff` | hkv-client/src/resp.rs:58-132 | reading is independent of what follows if and only if the last byte taken is a line feed |
| `ClientResp.LocalWhenTerminated` | hkv-client/src/resp.rs:58-132 | a reply is read independently of what follows if and only if the input ends in a line feed or goes on after the reply |
| `ClientResp.LocalWhenOneLine` | hkv-client/src/resp.rs:121-132 | for simple strings, errors and integers: if and only if the input holds a line feed |
| `ClientResp.UnterminatedLineAccepted` | hkv-client/src/resp.rs:121-132 | a concrete truncated reply that is accepted and read differently once it is completed |
| `ReplyGrammar.SpelledRead` | hkv-client/src/resp.rs:58-156 | every text of a value, nested arrays and odd number spellings included, is read as that value and no further |
| `ReplyGrammar.ReadSpells` | hkv-client/src/resp.rs:58-156 | whatever is accepted is a text of the value returned, but for the last byte of a stream cut inside a line end |
| `ReplyGrammar.ReplyIff` | hkv-client/src/resp.rs:58-156 | the reader returns a value and a rest, having read a line feed last, if and only if the input is a text of that value followed by the rest |
| `ReplyGrammar.NumberIff` | hkv-client/src/resp.rs:134-156 | which texts the signed parser takes for which number, a lone minus sign for zero included |
| `RoundTrip.CommandRoundTrip` | hkv-client/src/resp.rs:43-55 | the server's parser returns exactly the arguments encoded, any bytes, and leaves what follows unread |
| `RoundTrip.PipelineRoundTrip` | hkv-server/src/protocol.rs:57-142 | a concatenation of encoded commands drains to exactly those commands in order, then goes on with what follows |
| `RoundTrip.ChunkedPipeline` | hkv-server/src/server.rs:195-226 | the same through any chunking, with nothing left over |
| `RoundTrip.InlineRoundTrip` | hkv-server/src/protocol.rs:144-156 | words joined by spaces on one line parse back to those words |
| `RoundTrip.SplitJoined` | hkv-server/src/protocol.rs:144-156 | splitting at spaces inverts joining words |
| `RoundTrip.SplitIff` | hkv-server/src/protocol.rs:144-156 | the words of any line are exactly its maximal runs of bytes other than spaces, in order |
| `RoundTrip.SimpleRoundTrip` | hkv-server/src/server.rs:419-425 | a simple string is read back, consuming exactly its bytes, if and only if it holds no line feed |
| `RoundTrip.ErrorRoundTrip` | hkv-server/src/server.rs:427-433 | the same for errors with their `ERR` prefix |
| `RoundTrip.IntegerRoundTrip` | hkv-server/src/server.rs:435-441 | every `i64` is read back, `i64::MIN` as one more |
| `RoundTrip.BulkRoundTrip` | hkv-server/src/server.rs:443-451 | any bytes are read back |
| `RoundTrip.NullRoundTrip` | hkv-server/src/server.rs:453-455 | the null bulk string is read back |
| `Server.Connection.HandleGet` | hkv-server/src/server.rs:285-294 | reply and new map of GET, arity error included |
| `Server.Connection.HandleSet` | hkv-server/src/server.rs:296-328 | reply and new map of SET and SET EX; no write on any error |
| `Server.Connection.HandleDel` | hkv-server/src/server.rs:330-345 | the reply counts the keys that were visible when their turn came, repeated keys counted once |
| `Server.Connection.HandleExpire` | hkv-server/src/server.rs:347-362 | reply and new map of EXPIRE; `Commands.AcceptedExpire` and `Commands.RefusedCommand` say what they are |
| `Server.Connection.HandleTtl` | hkv-server/src/server.rs:364-375 | -2, -1 or whole remaining seconds |
| `Server.Connection.Observe` | hkv-server/src/server.rs:457-474 | the log gains the command's events exactly when it is enabled and the reply is no error; the `Commands` lemmas say which events |
| `Server.Connection.DispatchCommand` | hkv-server/src/server.rs:231-275 | every command, known or not, follows the dispatch function in reply, map, clock readings and log |
| `Server.Connection.AnswerCommand` | hkv-server/src/server.rs:203-214 | one more command adds one reply and moves map, clock and log as the session says, with or without a byte limit |
| `Server.Connection.DrainBuffer` | hkv-server/src/server.rs:201-225 | all complete commands of the buffer are answered in order; a protocol error closes the connection with its error reply |
| `Server.Connection.HandleConnection` | hkv-server/src/server.rs:195-229 | however the stream was cut, the bytes written are one reply per command in order; clock and log end as in the reference session; without a limit the replies and the map are the reference's; with one, each reply is the reference's or that of a missing key the engine evicted |
| `Server.ServeAppend` | hkv-server/src/server.rs:201-225 | serving a list of commands in two parts equals serving it whole |
| `Server.DispatchAlike` | hkv-server/src/server.rs:231-375 | whether a command is answered with an error does not depend on the map |
| `Server.DeletesBelow` | hkv-server/src/server.rs:330-345 | a DEL on a map that lost keys counts fewer only if it names one of them |
| `Server.DispatchBelow` | hkv-server/src/server.rs:231-375 | any command on a map that lost keys gets the expected reply, or that of a missing key if it names one that is gone |
| `Commands.VerbIff` | hkv-server/src/server.rs:231-275 | each command, and the option EX, has exactly one name, in any mix of cases |
| `Commands.RefusedCommand` | hkv-server/src/server.rs:231-375 | an empty, unknown, wrongly counted, wrongly optioned or non-numeric command gets its own error line; map, clock and log stay as they were |
| `Commands.ErrorIff` | hkv-server/src/server.rs:231-375 | a command is answered with an error if and only if there is such a complaint |
| `Commands.AcceptedGet` | hkv-server/src/server.rs:285-294 | GET replies with the visible value or null and logs a read |
| `Commands.AcceptedSet` | hkv-server/src/server.rs:296-315 | SET replies OK, writes without deadline and logs a write with the value's size |
| `Commands.AcceptedSetEx` | hkv-server/src/server.rs:316-328 | SET EX the same with the deadline any spelling of the seconds gives |
| `Commands.AcceptedDel` | hkv-server/src/server.rs:330-345 | DEL removes all keys named, counts those that showed in turn and logs a write of each |
| `Commands.AcceptedExpire` | hkv-server/src/server.rs:347-362 | EXPIRE replies 1 or 0 as the key showed and logs a write |
| `Commands.AcceptedTtl` | hkv-server/src/server.rs:364-375 | TTL replies -2, -1 or the whole seconds left and logs a read |
| `Commands.AcceptedPingOrInfo` | hkv-server/src/server.rs:277-283 | PING and INFO touch nothing and log nothing |
| `Commands.FarewellIs` | hkv-server/src/server.rs:216-223 | a refused connection gets the protocol error line, byte for byte |
| `EndToEnd.Routed` | hkv-server/src/server.rs:231-275 | each request's encoding reaches its own handler with its own arguments |
| `EndToEnd.DeletesAgree` | hkv-server/src/server.rs:330-345 | deleting many keys counts and leaves what the plain map does |
| `EndToEnd.RequestAgrees` | hkv-server/src/server.rs:231-375 | one dispatched request prints the plain map's reply and shows the plain map's entries afterwards |
| `EndToEnd.SessionAgrees` | hkv-server/src/server.rs:195-375 | a session's output is the concatenation of the plain map's printed replies |
| `EndToEnd.PrintedIsRead` | hkv-client/src/resp.rs:58-119 | every reply the plain map can give is read back with exactly its bytes |
| `EndToEnd.StreamAgrees` | hkv-server/src/server.rs:195-375 | all bytes written for an encoded pipeline are the plain map's printed replies |
| `EndToEnd.Send` | hkv-client/src/resp.rs:43-55 | the pipelined wire bytes of a list of requests |
| `EndToEnd.Receive` | hkv-client/src/resp.rs:58-119 | reading as many replies as were printed yields them all in order |
| `EndToEnd.Exchange` | hkv-server/src/server.rs:195-375 | for any requests, any chunking and any engine state of unlimited capacity, the replies read are exactly those of a plain map with deadlines run on the same requests in order |
| `Client.CallerSeesEngineAnswer` | hkv-client/src/client.rs:176-243 | the client's reading of each reference reply is the engine's answer, times in whole seconds |
| `Client.ErrorsReachCaller` | hkv-client/src/client.rs:176-243 | a server error reaches the caller of any call, word for word |
| `Client.UnexpectedIff` | hkv-client/src/client.rs:176-243 | any other reply is unexpected exactly if it is not of the kind the call asks for |
| `Client.IntegersMean` | hkv-client/src/client.rs:210-243 | what an integer reply means to delete, expire and ttl |
| `Client.Call` | hkv-client/src/client.rs:176-243 | get, set, set_with_ttl, delete, expire and ttl, through encoder, network, server, engine and reader, return the engine's answer |
| `Pool.PoppedIdle` | hkv-client/src/pool.rs:77-104 | popping an idle connection, kept or released, keeps the slot count, and the connection was neither out nor failed |
| `Pool.DroppedConnection` | hkv-client/src/pool.rs:120-175 | returning or releasing a checked-out connection keeps the slot count and both limits |
| `Pool.ConnectionPool.PopIdle` | hkv-client/src/pool.rs:101-104 | takes the oldest idle connection, total unchanged |
| `Pool.ConnectionPool.TryReserve` | hkv-client/src/pool.rs:106-113 | takes a slot exactly when one is free |
| `Pool.ConnectionPool.ReleaseSlot` | hkv-client/src/pool.rs:115-118 | gives one slot back, idle unchanged |
| `Pool.ConnectionPool.ReturnConnection` | hkv-client/src/pool.rs:120-127 | to the back of the idle queue if there is room, otherwise its slot is released |
| `Pool.ConnectionPool.Acquire` | hkv-client/src/pool.rs:77-99 | terminates; connections are taken from the idle queue oldest first, and a new one is opened, or the call fails, only when the queue has run out; success checks out one connection that was not out and never failed; failure checks out none, and exhaustion means every slot is checked out |
| `Pool.ConnectionPool.Drop` | hkv-client/src/pool.rs:158-175 | the connection is no longer out; an invalid one does not enter the idle queue |
| `Pool.PooledConnection.Exec` | hkv-client/src/pool.rs:147-155 | any failure marks the connection invalid |
| `Pool.PooledConnection.Drop` | hkv-client/src/pool.rs:158-175 | gives the slot back once; an invalid connection is not reused |
| `Pool.KVClient.TryOnce` | hkv-client/src/client.rs:275-291 | one acquisition and one attempt more in the history; the caller gets that attempt's reply or error, and it is retryable exactly for a passing connect error or a retryable round trip; the checked-out set is restored |
| `Pool.KVClient.ExecWithRetry` | hkv-client/src/client.rs:272-293 | acquisitions and history grow by one to max_retries + 1 attempts; every attempt but the last was a retryable failure, no connection is tried twice; the result is the reply of the last attempt or its error, and with budget left that is not a retryable one; the checked-out set is restored, exactly the connections that failed are marked, and none of them is idle |
| `Pool.WorthRetryingIff` | hkv-client/src/client.rs:272-310 | which attempts may be followed by another: a retryable connect error or a retryable round trip, and no other |
| `PoolProtocol.AccountedStep` | hkv-client/src/pool.rs:77-128 | every lock section of every caller keeps total = idle + popped + reserved + checked out, within both limits |
| `PoolProtocol.PlacedStep` | hkv-client/src/pool.rs:77-175 | every step keeps each connection in one place and failed ones out of the idle queue |
| `PoolProtocol.EveryInterleaving` | hkv-client/src/pool.rs:77-175 | both hold after every interleaving of any number of callers |
| `PoolProtocol.NeverSaturates` | hkv-client/src/pool.rs:115-127 | no reachable `saturating_sub` saturates |
| `PoolProtocol.QueueBalance` | hkv-client/src/pool.rs:101-127 | over any steps of other callers the idle queue changes by connections returned less connections taken |
| `PoolProtocol.ExhaustedMeansFull` | hkv-client/src/pool.rs:77-113 | when a caller that found the queue empty is refused a slot, idle and held slots fill the pool, and a connection is idle if and only if more came back than were taken since it looked |
| `PoolProtocol.ExhaustedAsDocumented` | hkv-client/src/client.rs:63-64 | if nobody dropped a connection in between, none is idle and callers hold every slot |
| `PoolProtocol.ExhaustedWithIdleConnection` | hkv-client/src/client.rs:63-64 | a schedule in which exhaustion is reported while a connection is idle |
| `Metrics.LatencyHistogram.Record` | hkv-server/src/metrics.rs:190-204 | bucket counts, sample count, wrapped sum and maximum stay those of all samples recorded |
| `Metrics.LatencyHistogram.UpdateMax` | hkv-server/src/metrics.rs:261-269 | the larger of old maximum and value |
| `Metrics.MaxIsExact` | hkv-server/src/metrics.rs:261-269 | under every schedule of concurrent compare-exchange loops the final maximum is the true one |
| `Metrics.CountsSum` | hkv-server/src/metrics.rs:190-204 | bucket counts sum to the number of samples |
| `Metrics.PercentileUs` | hkv-server/src/metrics.rs:240-258 | the scan finds the first bucket reaching the rank; the trailing fallback is reached exactly when the counts fall short of the rank |
| `Metrics.PercentileMeaning` | hkv-server/src/metrics.rs:235-258 | for every rank up to the sample count, the smallest bound with at least that many samples at or below it, or the true maximum if there is none |
| `Metrics.ReportCoversRankth` | hkv-server/src/metrics.rs:235-258 | the report is at least the rank-th smallest sample, and every bound below the report is below that sample |
| `Metrics.PercentileMonotone` | hkv-server/src/metrics.rs:235-258 | a higher rank never reports less |
| `Metrics.PercentileOf` | hkv-server/src/metrics.rs:235-258 | the same meaning for the live histogram; none exactly without samples |
| `Snapshots.FallbackIffMissed` | hkv-server/src/metrics.rs:190-258 | under every schedule a snapshot counts as many samples more than its buckets hold as it missed, and the scan reaches the trailing fallback for exactly that many of the highest ranks |
| `Snapshots.FallbackHappens` | hkv-server/src/metrics.rs:190-258 | a schedule in which it does |
| `Hotness.ExactHotnessEvaluator.FromEvents` | hkv-server/src/observation/exact.rs:91-98 | the table is exact for the events given |
| `Hotness.ExactHotnessEvaluator.Record` | hkv-server/src/observation/exact.rs:100-108 | the table is exact for one event more |
| `Hotness.RecordExact` | hkv-server/src/observation/exact.rs:100-108 | bumping one entry turns the exact counts of a log into those of the longer log |
| `Hotness.AccessesPermuted` | hkv-server/src/observation/exact.rs:91-98 | counts do not depend on the order of events |
| `Hotness.ExactUnique` | hkv-server/src/observation/exact.rs:91-98 | two exact tables of logs with the same events in any order are equal |
| `Hotness.SortedIsRanking` | hkv-server/src/observation/exact.rs:110-132 | sorting the entries, in whatever order the hash map yields them, gives every entry once, hottest first |
| `Hotness.RankingUnique` | hkv-server/src/observation/exact.rs:110-132 | the ranking order admits one arrangement only |
| `Hotness.TopKeysAreTop` | hkv-server/src/observation/exact.rs:110-132 | the report is the first `limit` entries of the one ranking, whatever the iteration order |
| `Hotness.TopKeysAreHottest` | hkv-server/src/observation/exact.rs:110-132 | the report lists table entries with their counts, as many as asked for or as there are, by total, then reads, then writes, all descending, then by key in byte order; no key left out is hotter |
| `Hotness.LoggedKeys` | hkv-server/src/server.rs:457-549 | a dispatched command logs exactly the keys it names, or none if its reply is an error |
| `Hotness.LogNamesServedKeys` | hkv-server/src/server.rs:457-549 | over a whole session the log names exactly the keys of the commands answered without error, in order |
| `Hotness.TotalsMatchCommands` | hkv-server/src/server.rs:457-549 | each key's total is its number of occurrences in commands answered without error, and equals reads plus writes |
| `Hotness.AccessesLogged` | hkv-server/src/server.rs:457-549 | a command adds to the log a read of the key of an accepted GET or TTL, a write of the key of an accepted SET or EXPIRE and of every key of a DEL, and nothing else |
| `Hotness.CountsMatchCommands` | hkv-server/src/server.rs:457-549 | after any session a key's reads are its occurrences in accepted GET and TTL commands, its writes those in SET, EXPIRE and DEL, its total their sum, and no other key is in the table |

## Left out

- Sockets, the Tokio accept, drain and shutdown loops, keepalive settings, `is_healthy` and the error-kind tables: their outcomes are arbitrary choices in `Pool` and `PoolProtocol`.
- The classification of read errors by an empty line buffer: whether a failed exchange may be retried is an arbitrary choice.
- The background expirer thread and real clocks: clock readings and purge calls are explicit.
- `Instant + Duration` overflow: `EndToEnd` assumes that `now + ttl` is representable, and the engine's instants are unbounded.
- Wrap-around of the TTL token and of the byte counter, and allocation sizes: both counters are unbounded naturals.
- Hashing, the hash map, the binary heap and the lock implementations: an arbitrary hash function, maps, a multiset and lock steps.
- Concurrent engine calls beyond the byte counter: `Engine` makes calls one at a time, `Accounting` interleaves their lock sections for the bytes only.
- The unreachable second expiry test at the end of `ttl` (hkv-engine/src/memory.rs:697-732).
- Client.Call: assumes an exchange that succeeds; the retry loop of `Pool` is not composed with it.
- Finite capacity end to end: the client's reading of replies that differ by an eviction is not composed; `Server.Connection.HandleConnection` bounds each reply.
- EndToEnd.Exchange: assumes arguments no longer than `isize::MAX` bytes and non-empty reads, as Rust slices and a read of zero bytes (end of stream) imply.
- Engine.MemoryEngine.constructor: takes shard counts up to 2^63, beyond which `next_power_of_two` overflows.
- Metrics.PercentileUs: takes the rank as an integer; the float rounding that computes it is not modelled, and `Snapshots` does not follow the maximum and the sum, which are loaded last.
- The request and error counters, INFO text, queries per second, error rate and averages: counters, formatting and floating point.
- PING and INFO on the client side, and hkv-common, hkv-kernel, hkv-gui and hkv-bench: enumerations, stubs, user interface and a timing program.
