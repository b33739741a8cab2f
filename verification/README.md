# LightFS in Dafny

LightFS is an object store written in C. This project models the parts of it that carry
invariants and proves what holds of them for every input and every run.

| files | component |
|---|---|
| `Statfs`, `StatfsEndToEnd` | STATFS fan-out over the shard threads |
| `Wire`, `ReplyBuffer`, `Bytes` | RPC bodies, client and server side |
| `Bridge`, `BridgeRuns` | deferred replies as tokens, and what a run does to each request |
| `ManifestCache`, `ManifestCacheRuns`, `ManifestCacheClass` | the gateway's manifest cache |
| `MetaShard`, `MetaList`, `MetaServer` | metadata shard, listing, write stamping |
| `Checkpoint`, `CheckpointStore` | shard checkpoints |
| `Replication` | last-write-wins merge |
| `Mkfs`, `MkfsHandOut`, `MkfsClass` | segment hand-out of mkfs |
| `ErasureCoding`, `ErasureEngine` | erasure coding |
| `HttpParser`, `HttpBody`, `ParserContext` | llhttp callbacks |
| `HttpServer` | connection life cycle and poll loop |
| `Affinity` | core affinity validation |
| `MetaTypes`, `Ring`, `Sums` | shared values and counting |

Each imperative component has a value (a datatype), functions that say what an operation does to
the value, lemmas about those functions, and a class or method that changes state in place and is
proved to compute them. Concurrent code is a step relation whose runs are arbitrary interleavings.

## Findings

Places where the code does less than its name or its documentation suggests, each with the lemma
that says so and, where there is one, the exact condition.

- The manifest cache has no tombstones. For any two keys with one home slot a stored key can be
  missed after an invalidate, stay missed when it is inserted again, and come back after it was
  invalidated (`DroppedKeyComesBack`); such keys exist in every bucket (`CollidingKeys`). An
  invalidate hides another key exactly when it empties a slot on that key's way (`DropHidesIff`), and
  lookups agree with a map for a key exactly when no hole cuts the key off
  (`LookupAgreesIff`). A full cache only ever replaces the key in slot 0
  (`FullTablePinsAllButSlotZero`).
- All parity fragments of the erasure code are the same XOR (`ParityRow`). The fragments kept
  determine the object exactly when no data fragment is lost, or one is and some parity fragment is
  kept, however many parity fragments there are (`DeterminedIff`, `AlwaysDeterminedIff`). The decoder
  does not use parity at all: it recovers an object exactly when every data fragment is listed
  (`DecodeRecoversIff`).
- The core mask the server derives by itself is never accepted (`AutoMaskNeverAccepted`).
- A listing whose marker is not below any key starts over (`PageIsNextIff`). The shard does not sort,
  so chaining pages by their last key can lose keys (`UnsortedKeyIsLost`), and keys over 63 bytes
  never lead past themselves (`LongKeyLoops`). Pages of every size list everything exactly when each
  matching key starts the scan after its own entry and not after the next match
  (`EveryPageSizeListsAllIff`).
- Shards of more than 803 entries can exceed the checkpoint buffer, and the code has no bound
  (`AlwaysFitsIff`). The checkpoint id given to the reader is ignored (`FirstIdReadsSecond`).
- A READ reply needs eight bytes beside the data, so a successful read of a full 1 MiB frame does not
  come back; nothing else is lost on the wire (`TransparentIff`). From 2^32 - 8 bytes on the size of
  the reply buffer wraps and the reply is written past it (`CapacityFitsIff`). The design document
  promises the number of bytes actually read; the code sends the requested length
  (`ReadLengthIsRequested`).
- The body buffer cannot grow from a capacity of 2^31: the doubling wraps to zero and its loop does
  not end (`GrowthEndsIff`). A first chunk of more than 2^30 and at most 2^31 bytes leads there and any
  second one beyond 2^31 hangs (`SecondChunkHangs`). A body of n bytes is dealt with however it is cut
  exactly when no more than 2^31 of its bytes can come in (`EveryCutEndsIff`), and a limit rules hangs
  out exactly when it is set and at most 2^31 (`LimitPreventsHangIff`).
- A header name delivered in several callbacks keeps only its last piece. The table is right exactly
  when, for each header kept, the last piece reads like the whole name (`HeaderTableMeansIff`).
- No connection is ever IDLE, so the keep-alive timeout of the HTTP design has no effect (it is no
  argument of `PollValue`, which `Server.Poll` computes). Every READING connection is read in every
  poll, so the request timeout acts only in a poll that takes longer than that timeout
  (`PromptRunsNeverTimeOut`). A READING connection for which no bytes have arrived is closed by the
  very next poll, kept alive or just accepted, where the design lets it idle until a timeout: a poll
  in which no socket has bytes leaves only the connections still writing (`SilentPollLeavesWriters`).

## Modelling choices

- Integers are unbounded. Where the C width matters it is written out: the 64-bit STATFS sums and
  write counter, the 31-bit hash, the 32-bit reply and body capacities, the 8-bit coefficients.
- Bytes on the wire and in a checkpoint are little-endian, as on the machines the project builds
  for and as `docs/superpowers/specs/2026-05-19-storage-server-design.md` says; that document also
  gives the result codes 0 and 1 and the frame limit of 1 MiB.
- Plain `char` is signed and the hash's signed overflow is taken to wrap.
- C strings are byte sequences without their terminator.
- `MAX_OPEN_SEGMENTS`, `META_SEGMENT_SLOT_B` and the segment type codes are parameters (`Layout`).
- The HTTP server's time of the last timeout check, a static variable, is a field of the server.
- Sockets, the clock, the parser library, the RPC framework, the engine and the allocator are inputs: each
  step takes their answers as arguments. The engine is assumed to call back once per accepted call
  and never after a refusal.
- Object identity is kept for connections, shards and buffers; fragments of a manifest are a value.

## Model

| member | source | states |
|---|---|---|
| `Statfs.StatfsSafety` | src/storage_server/rpc_handler.c:302-342 | in every interleaving for any number of shards: freed memory is never touched or freed again, at most one reply is sent, and it carries the 64-bit sums of the succeeding shards and an error exactly when a shard failed |
| `Statfs.StatfsCompletes` | src/storage_server/rpc_handler.c:302-342 | a run that can go no further has freed aggregator, contexts and array, and sent exactly one right reply unless the message allocation failed; with all allocations granted the reply carries the sums |
| `Statfs.ReplyFailsIff` | src/storage_server/rpc_handler.c:318-338 | over every run: the reply is given up exactly if its message could not be allocated, and goes without sums exactly if its payload could not be |
| `Statfs.AfterFreeOnlyContexts` | src/storage_server/rpc_handler.c:339-342 | once the aggregator is freed, all that any thread still does is free the array or a context; a freed context is never worked on or dispatched again |
| `Statfs.RunsAreShort` | src/storage_server/rpc_handler.c:302-408 | every interleaving stops within ten steps per shard and one more |
| `Statfs.StepKeepsInv` | src/storage_server/rpc_handler.c:302-342 | every atomic step of any thread keeps the inductive invariant |
| `Statfs.AllCounted` | src/storage_server/rpc_handler.c:309-316 | when the counter reaches zero every shard's contribution is in the aggregator |
| `Statfs.Prepare` | src/storage_server/rpc_handler.c:352-398 | the handler dispatches exactly when there are shards and every allocation succeeds; otherwise it leaves no allocation behind |
| `StatfsEndToEnd.StatfsDelivered` | src/storage_server/rpc_handler.c:316-340 | any finished interleaving with allocations granted delivers the sums and the error flag to the user's callback |
| `Wire.RequestRoundTrip` | src/storage_client/storage_client.c:13-80 | the server decodes exactly the request the client encoded, for all eight operations |
| `Wire.RequestLayout` | src/storage_client/storage_client.c:13-80 | where each field of each request body lies |
| `Wire.ClientAcceptsIff` | src/storage_client/storage_client.c:204-208 | the client sends exactly the requests whose body fits one frame |
| `Wire.DecodedIsEncoded` | src/storage_server/rpc_handler.c:39-122 | a decoded body starts with the encoding of what was decoded; a WRITE body is exactly that encoding |
| `Wire.DecodeSimple` | src/storage_client/storage_client.c:309-349 | a four-byte body gives every call type its status and no data |
| `Wire.DecodeRead` | src/storage_client/storage_client.c:328-337 | the READ reply decodes to the data, or to the error without data |
| `Wire.DecodeStatfs` | src/storage_client/storage_client.c:339-347 | the STATFS reply decodes to result and both sums |
| `Wire.TransparentIff` | src/storage_server/rpc_handler.c:31-298 | for every operation, every argument the client accepts and every engine answer, the callback gets what a direct call would give, exactly unless a successful read with its header exceeds one frame |
| `Wire.LongReadFails` | src/storage_server/callback_bridge.c:25-38 | such a read reaches the callback without data, whether the frame is not delivered or its 32-bit length wraps |
| `Wire.ReadLengthIsRequested` | src/storage_server/callback_bridge.c:29-31 | a delivered read is told the requested length, which is the number of bytes actually read exactly when the engine filled the buffer |
| `Wire.FaultsBecomeIoError` | src/storage_client/storage_client.c:297-319 | a failed allocation, a dropped reply or a transport error becomes IO_ERROR without data |
| `Wire.RejectedBody` | src/storage_server/rpc_handler.c:39-43 | a body the server rejects reaches the client as IO_ERROR |
| `Wire.ReadLengthInBounds` | src/storage_client/storage_client.c:329-333 | the length handed to a read callback stays inside the body, for every length and also when the body length wraps |
| `ReplyBuffer.CapacityFitsIff` | src/storage_server/callback_bridge.c:12-15 | the 32-bit buffer size holds the reply exactly when the read length leaves room for the header |
| `ReplyBuffer.Build` | src/storage_server/callback_bridge.c:12-56 | the writes stay inside the buffer exactly when its 32-bit size does not wrap, and then its first bytes are the reply body |
| `Bridge.OneTokenPerRequest` | src/storage_server/callback_bridge.c:8-94 | over every run each request is in exactly one of: answered at once, in the engine, queued, sent, dropped; each buffer is freed once or held once |
| `Bridge.QuietMeansSettled` | src/storage_server/callback_bridge.c:58-70 | with nothing pending, every request is answered or dropped once and every buffer freed exactly once |
| `Bridge.SentIsTransparent` | src/storage_server/callback_bridge.c:58-66 | however often a busy transport put it back, what is sent for a request decodes to what the engine reported for that request, exactly unless the 32-bit body length wraps |
| `BridgeRuns.SentIsTraced` | src/storage_server/callback_bridge.c:58-94 | every reply sent in a run goes back to a request received before and to the engine's callback for it, and tells the client what that callback reported, exactly unless the body length wraps |
| `BridgeRuns.SentAndDroppedIff` | src/storage_server/callback_bridge.c:16-94 | a reply is sent exactly if the transport took it, and dropped exactly if its message or body could not be allocated or the transport failed |
| `BridgeRuns.RunSizes` | src/storage_server/callback_bridge.c:8-94 | over every run the numbers of requests rejected, in the engine, sent and dropped are those its acts give |
| `BridgeRuns.ReceivedIsAnsweredOrAccepted` | src/storage_server/rpc_handler.c:31-191 | every request received is answered at once with IO_ERROR or the engine's refusal, as it deserves, or known to the engine as the request that was sent |
| `BridgeRuns.OnlyReceivesIffQuiet` | src/storage_server/callback_bridge.c:58-94 | nothing gets stuck: only new requests are possible exactly when nothing is pending |
| `BridgeRuns.BusyTakesTurns` | src/storage_server/callback_bridge.c:62-66 | while the transport is busy the queued replies are tried in turn |
| `BridgeRuns.MessagesHoldTheirData` | src/storage_server/callback_bridge.c:72-94 | over every run a message owns a buffer exactly if it carries data |
| `Bridge.HandleConserves` | src/storage_server/rpc_handler.c:144-191 | a handler makes one token per request and frees a buffer it does not hand over |
| `Bridge.FinishConserves` | src/storage_server/callback_bridge.c:72-94 | the engine's callback moves token and buffer from context to message, or drops both |
| `Bridge.TransmitConserves` | src/storage_server/callback_bridge.c:58-70 | sending, failing or re-queueing a message loses and duplicates nothing |
| `Bridge.StepKeepsInv` | src/storage_server/callback_bridge.c:8-94 | every step keeps conservation and the link of queued and sent bytes to their request |
| `ManifestCacheRuns.EveryRun` | src/gateway/gateway_manifest_cache.c:44-124 | over every run: no key in two valid slots, count is the number of stored keys and within capacity, a hit is the last manifest inserted for the key, a lookup right after an invalidate misses |
| `ManifestCacheRuns.RunsWithoutDropsAreExact` | src/gateway/gateway_manifest_cache.c:44-105 | without invalidates a lookup is a lookup in a bounded map that replaces one victim: the slot 0 key when the table fills, then always the latest newcomer |
| `ManifestCacheRuns.RunKeepsHoleFree` | src/gateway/gateway_manifest_cache.c:64-105 | without invalidates every entry stays reachable from its home slot without a hole |
| `ManifestCacheRuns.LookupAgreesIff` | src/gateway/gateway_manifest_cache.c:44-62 | a lookup agrees with the map exactly when the key is absent or no hole lies before it |
| `ManifestCacheRuns.PutThenLookup` | src/gateway/gateway_manifest_cache.c:64-105 | an insert is seen by the next lookup exactly when the key was not stored behind a hole |
| `ManifestCacheRuns.DropThenLookup` | src/gateway/gateway_manifest_cache.c:107-124 | after an invalidate the key is missed, in any table |
| `ManifestCacheRuns.DropContents` | src/gateway/gateway_manifest_cache.c:107-124 | an invalidate leaves other keys alone and removes its own exactly when it is not hidden |
| `ManifestCacheRuns.CountIsSize` | src/gateway/gateway_manifest_cache.c:126-128 | the cache size is the number of distinct keys stored |
| `ManifestCacheRuns.FullTablePinsAllButSlotZero` | src/gateway/gateway_manifest_cache.c:81-104 | in a full table all keys outside slot 0 survive every further insert |
| `ManifestCacheRuns.PutIntoFull` | src/gateway/gateway_manifest_cache.c:81-104 | a new key takes slot 0 of a full table |
| `ManifestCacheRuns.DroppedKeyComesBack` | src/gateway/gateway_manifest_cache.c:107-124 | for any two keys with one home slot, any manifests and any capacity from 2: a hidden key stays hidden on re-insert, is untouched by its invalidate, and returns with its last manifest when the other key is inserted |
| `ManifestCacheRuns.DropHidesIff` | src/gateway/gateway_manifest_cache.c:107-124 | in any table, after an invalidate another stored key is missed exactly when it was missed before, or the invalidate emptied a slot between that key's home slot and its slot |
| `ManifestCacheRuns.CollidingKeys` | src/gateway/gateway_manifest_cache.c:37-42 | every bucket has two keys with one home slot in tables of every capacity |
| `ManifestCacheRuns.InsertIsSafeIffFits` | src/gateway/gateway_manifest_cache.c:97-98 | inserting a key keeps keys unique in every table exactly when the key fits the entry's arrays |
| `ManifestCacheRuns.StoredIsLongestPrefix` | src/gateway/gateway_manifest_cache.c:97-98 | of each name the longest leading part that fits its array is stored |
| `ManifestCache.InsertContents` | src/gateway/gateway_manifest_cache.c:64-105 | an insert is a map update, with the slot 0 key dropped when a new key meets a full table |
| `ManifestCache.InsertKeepsGood` | src/gateway/gateway_manifest_cache.c:64-105 | an insert keeps keys unique and the count right |
| `ManifestCache.InvalidateKeepsGood` | src/gateway/gateway_manifest_cache.c:107-124 | an invalidate keeps keys unique and the count right |
| `ManifestCacheClass.MakeIndex` | src/gateway/gateway_manifest_cache.c:37-42 | the two hash loops compute the home slot |
| `ManifestCache.HomeIsWeighted` | src/gateway/gateway_manifest_cache.c:37-42 | the home slot is bucket and key, read as signed digits of one number to the base 31, kept to 31 bits and reduced by the capacity |
| `ManifestCacheClass.Cache.constructor` | src/gateway/gateway_manifest_cache.c:18-29 | a new cache is the empty table |
| `ManifestCacheClass.Cache.Lookup` | src/gateway/gateway_manifest_cache.c:44-62 | the probe loop returns the manifest found before the first hole |
| `ManifestCacheClass.Cache.Insert` | src/gateway/gateway_manifest_cache.c:64-105 | the three loops turn the entry array and count into those of the insert on tables |
| `ManifestCacheClass.Cache.Invalidate` | src/gateway/gateway_manifest_cache.c:107-124 | the probe loop clears the entry found before the first hole |
| `MetaShard.InsertRefines` | src/meta/meta_shard.c:68-107 | an insert keeps keys unique and is a map update |
| `MetaShard.DeleteRefines` | src/meta/meta_shard.c:121-137 | a delete removes the key from the map and keeps the order of the rest |
| `MetaShard.LookupIsGet` | src/meta/meta_shard.c:109-119 | a lookup is a lookup in the map |
| `MetaShard.InsertAllRefines` | src/meta/meta_server.c:51-59 | inserting a batch is putting it in order: the last duplicate wins |
| `MetaShard.Shard.constructor` | src/meta/meta_shard.c:22-44 | a new shard is empty |
| `MetaShard.Shard.FindEntry` | src/meta/meta_shard.c:58-66 | the first entry with the key, or -1 |
| `MetaShard.Shard.InsertEntry` | src/meta/meta_shard.c:68-107 | overwrites in place or appends, growing when full |
| `MetaShard.Shard.Grow` | src/meta/meta_shard.c:85-92 | doubles the array and keeps the entries |
| `MetaShard.Shard.LookupEntry` | src/meta/meta_shard.c:109-119 | the entry with the key, if any |
| `MetaShard.Shard.DeleteEntry` | src/meta/meta_shard.c:121-137 | closes the gap by shifting and reports whether the key was there |
| `MetaList.List` | src/meta/meta_shard.c:139-174 | the first max_keys matching keys from the start index |
| `MetaList.PageIsNextIff` | src/meta/meta_shard.c:148-158 | in key order a page is the next keys after the marker exactly when some key exceeds the marker or nothing would be listed |
| `MetaList.ChainListsAllIff` | src/meta/meta_shard.c:139-174 | in any shard, chaining pages of n by their last key lists each matching entry after the marker once and in order exactly when the last key of each such page starts the scan after its entry and skips no match |
| `MetaList.EveryPageSizeListsAllIff` | src/meta/meta_shard.c:139-174 | in any shard this holds for every page size exactly when every matching entry's key does so |
| `MetaList.ChainListsAll` | src/meta/meta_shard.c:139-174 | in key order with keys of 1 to 63 bytes, chaining pages of any size by their last key lists every matching key after the marker |
| `MetaList.UnsortedKeyIsLost` | src/meta/meta_shard.c:148-158 | a smaller key stored second is not listed by pages of one |
| `MetaList.LongKeyLoops` | src/meta/meta_shard.c:167-168 | a key over 63 bytes finds its own entry again |
| `MetaList.MatchingAscends` | src/meta/meta_shard.c:160-170 | what is listed is exactly the matching keys, each once, ascending |
| `MetaList.MatchingIff` | src/meta/meta_shard.c:160-170 | in any shard, listed from an index on are exactly the cut keys of the entries in the bucket whose key starts with the prefix |
| `MetaList.BeforeIff` | src/meta/meta_shard.c:153 | strcmp orders two names by the first byte that differs, or by which one ends |
| `MetaServer.RunRefines` | src/meta/meta_server.c:47-70 | over every run of pushes and deletes the array has unique keys and is the reference map |
| `MetaServer.LookupIsLastPushed` | src/meta/meta_server.c:47-70 | over every run a lookup finds, stamp aside, the manifest last pushed for the key, and nothing exactly if none was or it was deleted since |
| `MetaServer.StampsCountUp` | src/meta/meta_server.c:54-55 | before the counter wraps, the i-th manifest ever pushed carries sequence number i+1 and the server's datacenter |
| `MetaServer.StoredSequences` | src/meta/meta_server.c:51-59 | every stored sequence number is positive and within the counter, and they are pairwise distinct |
| `MetaServer.StoredWereStamped` | src/meta/meta_server.c:51-59 | every stored manifest is one the server stamped |
| `MetaServer.StampKeepsPayload` | src/meta/meta_server.c:54-55 | stamping a batch changes the stamps alone |
| `MetaServer.Server.PushBatch` | src/meta/meta_server.c:47-62 | stamps the batch in place, advances the counter and inserts front to back; an empty batch is refused |
| `MetaServer.Server.GetManifest` | src/meta/meta_server.c:64-70 | a lookup in the map the shard stands for |
| `Replication.Converge` | src/gateway/gateway_replication.c:36-44 | replicas that receive the same writes in any order, with repeats, end equal if no two writes of a key tie for the greatest stamp |
| `Replication.ConvergeIff` | src/gateway/gateway_replication.c:36-44 | that condition is exact: with a tie two orders end differently |
| `Replication.EndsUnbeaten` | src/gateway/gateway_replication.c:36-44 | a replica ends with an unbeaten write for each key written and nothing else |
| `Replication.LastWriteWins` | src/gateway/gateway_replication.c:36-44 | what a replica ends with for a key is a write of that key, and none carries a greater sequence number, or the same with a greater datacenter id |
| `Replication.ClearWinnersIff` | src/gateway/gateway_replication.c:36-44 | the condition for convergence, in terms of stamps: two different writes of a key with one stamp are both older than another |
| `Replication.StampsIdentify` | src/meta/meta_server.c:54-55 | servers with distinct datacenter ids never give two writes the same stamp |
| `Replication.ServersConverge` | src/gateway/gateway_replication.c:36-44 | replicas of such servers' pushes converge on every key |
| `Checkpoint.EncodeSize` | src/meta/meta_checkpoint.c:32-57 | a checkpoint is 32 bytes and both names and 26 bytes per entry |
| `Checkpoint.FitsUpTo803` | src/meta/meta_checkpoint.c:17-57 | any shard of at most 803 entries fits the buffer |
| `Checkpoint.AlwaysFitsIff` | src/meta/meta_checkpoint.c:17-57 | for every entry count: all shards of that many entries fit the buffer exactly when it is at most 803 |
| `Checkpoint.DecodeEntryAt` | src/meta/meta_checkpoint.c:75-94 | an entry written anywhere in the buffer reads back without its fragments |
| `Checkpoint.DecodedFits` | src/meta/meta_checkpoint.c:75-83 | whatever the buffer holds, an entry read from it fits the arrays of a manifest |
| `Checkpoint.HeaderFields` | src/meta/meta_checkpoint.c:25-30 | magic number, sequence, shard id and count lie at bytes 0, 8, 16 and 24 |
| `Checkpoint.RestoreInserts` | src/meta/meta_checkpoint.c:64-100 | reading a checkpoint inserts the written entries in order, whatever follows in the buffer |
| `Checkpoint.RoundTrip` | src/meta/meta_checkpoint.c:20-100 | into an empty shard: the same entries in the same order, without fragments |
| `Checkpoint.RestoreOverrides` | src/meta/meta_checkpoint.c:64-100 | into any shard: the checkpoint's map overrides the shard's |
| `CheckpointStore.Store.Write` | src/meta/meta_checkpoint.c:20-62 | the buffer starts with the checkpoint and is unchanged after it; returns its length and the next id |
| `CheckpointStore.Store.Read` | src/meta/meta_checkpoint.c:64-100 | succeeds exactly with the magic number and then restores the buffer's checkpoint |
| `CheckpointStore.SaveAndLoad` | src/meta/meta_checkpoint.c:20-100 | saving any shard whose checkpoint fits and loading any id into an empty one copies it, fragments aside |
| `CheckpointStore.FirstIdReadsSecond` | src/meta/meta_checkpoint.c:64-66 | after two saves, reading the id of the first gives the shard saved second |
| `Mkfs.ServedMore` | src/engine/src/storage_engine.c:64-81 | taking the first EMPTY segment serves one more demand of the list |
| `Mkfs.ServedExhausted` | src/engine/src/storage_engine.c:129-138 | once the EMPTY segments are used up, further demands change nothing |
| `Mkfs.PushAppendsIff` | src/engine/src/storage_engine.c:121-145 | a push appends and overwrites nothing queued exactly when the ring has a slot to spare |
| `MkfsHandOut.QueuedOnce` | src/engine/src/storage_engine.c:58-151 | every queued id is in exactly one slot of one queue |
| `MkfsHandOut.QueuedIsOpen` | src/engine/src/storage_engine.c:75-81 | a queued id lies above slot B, was EMPTY, and is OPEN with its queue's type |
| `MkfsHandOut.QueuedConserved` | src/engine/src/storage_engine.c:78-79 | used_segments grows by the number of ids queued, which is the drop in EMPTY segments |
| `MkfsHandOut.DemandsListed` | src/engine/src/storage_engine.c:61-146 | every demand of the three passes names a queue of the allocator |
| `MkfsHandOut.MkfsHandsOut` | src/engine/src/storage_engine.c:49-151 | after mkfs, failed or complete: each queued id once, above slot B, formerly EMPTY, OPEN with its queue's type, and counted in used_segments; complete: a queue is short only if no EMPTY segment is left |
| `MkfsHandOut.MkfsFills` | src/engine/src/storage_engine.c:61-146 | after a complete mkfs shard 0 has n + 1 METADATA segments queued and every other shard one; while an EMPTY segment is left, every other queue holds exactly the smaller of refill_high and the ring size less one |
| `MkfsHandOut.ShortOnlyWhenExhausted` | src/engine/src/storage_engine.c:120-146 | no queue gets more than wanted, and a queue is short only if no EMPTY segment is left |
| `MkfsHandOut.FillIsGreedy` | src/engine/src/storage_engine.c:112-151 | the fill queues get consecutive blocks of EMPTY segments in shard and type order |
| `MkfsClass.Allocator.TakeSegment` | src/engine/src/storage_engine.c:63-81 | the scan from the cursor finds the first EMPTY segment above slot B and hands it over |
| `MkfsClass.Allocator.ServeCopies` | src/engine/src/storage_engine.c:62-82 | a loop of scans for one queue serves its demands and fails exactly when segments run out |
| `MkfsClass.Allocator.ServeShards` | src/engine/src/storage_engine.c:85-109 | one METADATA segment for each shard, failing exactly when segments run out |
| `MkfsClass.Allocator.FillShard` | src/engine/src/storage_engine.c:114-150 | fills every other queue of one shard to its target while segments last |
| `MkfsClass.Allocator.Mkfs` | src/engine/src/storage_engine.c:49-151 | fails exactly with fewer than 2n EMPTY segments above slot B; otherwise the k-th demand of the three passes has the k-th EMPTY segment and the queues are filled as in `MkfsFills`; either way the hand-out is accounted for as in `MkfsHandsOut` |
| `ErasureCoding.SizeBounds` | src/gateway/gateway_ec.c:77-78 | fragments are multiples of 64 that hold the object, less than 64 bytes above the object's size by k rounded up |
| `ErasureCoding.CoefficientRange` | src/gateway/gateway_ec.c:52-56 | parity coefficients lie in 1..100, so none is cut or skipped |
| `ErasureCoding.ParityRow` | src/gateway/gateway_ec.c:52-106 | the coefficients of the matrix skip no fragment, so every parity row is the XOR of all data fragments |
| `ErasureCoding.DecodeRecovers` | src/gateway/gateway_ec.c:111-136 | decoding any list that covers the data indices, in any order, with duplicates and parity, gives the object and zeros |
| `ErasureCoding.DecodeRecoversIff` | src/gateway/gateway_ec.c:111-136 | a non-empty object comes back for every output buffer exactly when every data index is listed |
| `ErasureCoding.RecoverOne` | src/gateway/gateway_ec.c:96-106 | any one data fragment is the XOR of a parity fragment and the rest |
| `ErasureCoding.DeterminedIff` | src/gateway/gateway_ec.c:89-106 | for objects of any one length and any kept fragments: they determine the object exactly when no data fragment holding bytes is lost, or one is and some parity is kept |
| `ErasureCoding.AlwaysDeterminedIff` | src/gateway/gateway_ec.c:89-106 | over all lengths: exactly when no data fragment is lost, or one is and some parity is kept |
| `ErasureEngine.Create` | src/gateway/gateway_ec.c:33-59 | an engine exactly for the counts accepted |
| `ErasureEngine.Engine.constructor` | src/gateway/gateway_ec.c:42-56 | the matrix loops fill in every coefficient |
| `ErasureEngine.CopyData` | src/gateway/gateway_ec.c:89-94 | the copy loop fills the data fragments and pads with zeros |
| `ErasureEngine.Engine.AccumulateRow` | src/gateway/gateway_ec.c:96-106 | the nested loops leave the XOR of all data fragments in the parity row |
| `ErasureEngine.Engine.Encode` | src/gateway/gateway_ec.c:70-109 | the fragment buffers hold the encoding of the object |
| `ErasureEngine.Engine.Decode` | src/gateway/gateway_ec.c:111-136 | the output buffer holds the fragments found, and what it held before elsewhere |
| `HttpParser.HeaderTable` | src/access/http_parser.c:32-71 | for any trace: the first 64 headers with a value, each value the first 256 bytes of its joined chunks, each name that of its last piece |
| `HttpParser.HeaderTableMeansIff` | src/access/http_parser.c:32-71 | the table is the first 64 headers with joined names and values exactly when, for each of them, the last piece of the name reads like the whole name |
| `HttpParser.ShortNameSurvivesIff` | src/access/http_parser.c:32-42 | a name of at most 256 bytes does so exactly when all before its last piece is empty |
| `HttpBody.BodyReceived` | src/access/http_parser.c:93-118 | for every body, however cut, and every limit: refused only over the limit, accepted only within it, a leading part kept, and in full exactly if the length fits 32 bits |
| `HttpBody.SmallBodyEnds` | src/access/http_parser.c:93-118 | while at most 2^31 bytes can come in, delivery ends, the body is received exactly if it fits the limit, and the capacity stays within max(65536, twice what comes in) |
| `HttpBody.CapacityBounded` | src/access/http_parser.c:82-118 | from headers to end of body under a limit from 1 to 2^31 the capacity stays within max(65536, 2 * limit) |
| `HttpBody.GrownBound` | src/access/http_parser.c:103-114 | up to 2^31 bytes the 32-bit doubling is exact and stays within max(65536, 2 * need) |
| `HttpBody.GrowthEndsIff` | src/access/http_parser.c:104-106 | the 64-bit doubling loop reaches a larger need exactly when the 32-bit capacity is not 2^31, where the first doubling wraps to zero |
| `HttpBody.SecondChunkHangs` | src/access/http_parser.c:103-106 | after a first chunk of more than 2^30 and at most 2^31 bytes, any second chunk beyond 2^31 and within the limit makes the loop endless |
| `HttpBody.EveryCutEndsIff` | src/access/http_parser.c:82-118 | a body of n bytes, announced or not, never hangs however it is cut exactly when at most 2^31 of its bytes can come in |
| `HttpBody.LimitPreventsHangIff` | src/access/http_parser.c:96-106 | a limit prevents every hang exactly when it is set and at most 2^31 |
| `ParserContext.Headers.Field` | src/access/http_parser.c:32-42 | closes the previous header and keeps the name |
| `ParserContext.Headers.ValueChunk` | src/access/http_parser.c:44-64 | appends to the open value up to 256 bytes |
| `ParserContext.Headers.Complete` | src/access/http_parser.c:66-71 | closes the last header |
| `ParserContext.NewCapacity` | src/access/http_parser.c:104-106 | from every capacity but 2^31 the doubling loop ends at the first sufficient size |
| `ParserContext.Receiver.constructor` | src/access/http_parser.c:82-88 | a body buffer of the announced length up to 65536 |
| `ParserContext.Receiver.Append` | src/access/http_parser.c:93-118 | for every chunk and limit: refuses over the limit, else grows and appends, with length and capacity cut to 32 bits, and tells where the code's loop would not end |
| `HttpServer.Server.Poll` | src/access/http_server.c:311-337 | the list becomes that of `PollValue`, counted, bounded, all READING or WRITING; an earlier connection stays exactly if its read did not leave it CLOSING and, when timeouts are due, it was not read more than the request timeout before; if it was READING, only if bytes arrived |
| `HttpServer.SilentPollLeavesWriters` | src/access/http_server.c:118-123 | after any run, a poll in which no socket has bytes leaves exactly the connections still writing |
| `HttpServer.Server.Accept` | src/access/http_server.c:73-102 | adds a READING connection exactly below capacity and with memory |
| `HttpServer.Server.AcceptAll` | src/access/http_server.c:317-320 | the list keeps its connections and grows by the sockets that get memory, up to the maximum |
| `HttpServer.Server.Close` | src/access/http_server.c:221-231 | removes one connection, which has no write pending |
| `HttpServer.Server.ServeConnections` | src/access/http_server.c:322-330 | reads every READING connection and keeps exactly those not left CLOSING |
| `HttpServer.Server.CheckTimeouts` | src/access/http_server.c:297-309 | keeps, in order, exactly the connections not READING for longer than the request timeout |
| `HttpServer.PromptRunsNeverTimeOut` | src/access/http_server.c:104-105 | in any run whose polls each check the timeouts within the request timeout of every read, a longer timeout changes nothing |
| `HttpServer.Server.CompleteWrites` | src/access/http_server.c:39-45 | completed writes leave WRITING, other connections are untouched |
| `HttpServer.Conn.OnReadable` | src/access/http_server.c:104-147 | growth, receive, parse and dispatch outcomes decide the new state |
| `HttpServer.ReadsOnIff` | src/access/http_server.c:104-147 | in any run a read leaves the connection READING exactly if bytes arrived that do not complete a request, or complete one to be kept alive whose response is written at once; and CLOSING exactly if none arrived, the response failed, or it was written and the connection is not kept |
| `HttpServer.GoesOnIff` | src/access/http_server.c:39-147 | in any run a connection is read exactly while READING, completed exactly while WRITING, and over exactly when CLOSING |
| `HttpServer.PollSteps` | src/access/http_server.c:311-330 | what a poll does to a connection is steps of its run: a pending write completes, then it is read |
| `HttpServer.Conn.WriteResponse` | src/access/http_server.c:47-69 | a write is pending exactly if it was queued and has not completed |
| `HttpServer.Conn.OnWriteComplete` | src/access/http_server.c:211-219 | back to READING for a kept connection, else CLOSING |
| `HttpServer.ReadableKeepsGood` | src/access/http_server.c:104-147 | reading keeps a write pending exactly while WRITING and a failed connection from being kept |
| `HttpServer.WritingIffQueued` | src/access/http_server.c:47-147 | in any run a connection is WRITING exactly if what happened last is a read whose response was queued |
| `HttpServer.NoReadAfterParseError` | src/access/http_server.c:129-135 | after a parse error a connection never reads again, in any run |
| `HttpServer.PersistsIffKeepAlive` | src/access/http_server.c:211-219 | in any run a write completes right after the read that queued it, and the connection then reads again exactly when that read completed a request with keep-alive; otherwise it is over |
| `HttpServer.Run` | src/access/http_server.c:311-337 | any sequence of polls ends with the connections of `RunValue`: count is the list length and within the maximum, writes pending exactly while WRITING, no read after a parse error |
| `Affinity.Validate` | src/engine/src/storage_engine.c:456-537 | accepts exactly when every thread has its own core in the mask and the mask has two cores more than shards |
| `Affinity.CountImplied` | src/engine/src/storage_engine.c:462-470 | with the RPC thread on, the count test is implied |
| `Affinity.CountStricter` | src/engine/src/storage_engine.c:462-470 | without it, a mask of just the cores in use is refused by the count alone |
| `Affinity.AutoMask` | src/storage_server/storage_server.c:308-313 | the derived mask is the shard cores and the background core |
| `Affinity.AutoMaskNeverAccepted` | src/storage_server/storage_server.c:308-316 | the derived mask is always one core short |

## Left out

- ReadLengthInBounds: for reads of 2^32 - 8 bytes or more it speaks of the bytes up to the wrapped length; that the code has by then written past its buffer is stated by `CapacityFitsIff` only.
- AlwaysFitsIff: stated for counts up to 2^31 - 1, the largest a shard can have.
- HttpBody.OnBody: a chunk is shorter than 2^32 bytes, as the receive buffer is, so the doubling of a 64-bit size does not wrap.
- StoredSequences: stated before the 64-bit counter wraps.
- CheckpointStore.Store.Write: stated for checkpoints that fit the buffer, because the code writes past it otherwise.
- CheckpointStore.Store.Read: stated for a buffer that holds a whole checkpoint once the magic number is there, because the code reads past it otherwise.
- MkfsClass.Allocator.Mkfs: stated for empty rings of more than n + 1 slots, as a fresh allocator has them; smaller rings would overwrite queued segments.
- Sockets, block devices, thread creation, pollers and segment zeroing: only their outcomes appear.
- llhttp, the RPC framework, and the engine's WAL, manifest, GC and shard code are not part of this model.
- JSON decoding and logging of the configuration: its validated ranges are taken as given.
- S3 handlers, SigV4, XML output, URI splitting, fragment routing, recovery, placement, bucket registry and shard split: they would only add easy members.
- Cluster discovery and etcd wrappers.
- Allocation failure, except in STATFS, the handlers, deferred replies, connections and responses.
- Byte counts of partial reads of a connection: the receive buffer is not modelled, only the outcome of feeding it.
- Resetting of S3 request fields between requests on one connection.
- `on_url` and the message-complete copy of well-known headers.
- Teardown of the HTTP server with connections open.
