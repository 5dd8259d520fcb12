# PedraDB kernels in Dafny

PedraDB is an embedded LSM key-value store. Its decisions live in kernels without I/O: small state
machines, codecs and allocators. This project models twelve of them and proves what each one promises
over every input, every run or every interleaving.

`dafny verify dfyconfig.toml` checks everything.

| files | kernel | main results |
|---|---|---|
| `LatchModel`, `LatchRuns`, `BulkIngest` | sorted-ingest latch | what goes to bulk ascends strictly over any run; when exactly the stored maximum is safe; the span path agrees with the slow path |
| `RecordFormat`, `RecordCodec` | WAL write record | exact round trip with value reuse; prefixes and extensions refused; interning keeps content and never lengthens |
| `BloomBits`, `BloomParts`, `BloomKernel` | Bloom filter | exact answers and no false negatives over whole lives of queries, freezes and reloads; the part cache is transparent |
| `BloomBudget` | per-level bit budget | the weighted split meets budget and order by itself; when exactly the plan stays within budget and is maximal |
| `IoPacer` | compaction token bucket | conservation and service over any run against an exact bucket; the bound for a patient caller and why its factor two is needed |
| `GroupCommit` | group commit under cancellation | committed exactly if in exactly one batch, under any interleaving |
| `Lockfile` | lockfile token | exact grammar and round trip; what any lock decides |
| `Quiescence` | memtable generations | counter equals live tickets; exactly the accepted inserts are held; keys frozen from quiescence on |
| `CommitScheduler` | FIFO ticket scheduler | history is tickets 1 to next - 1; committed exactly if acknowledged |
| `PartitionFencing` | two-way quorum fencing | link fields are maxima; admission is a strict majority, so two admitted sides meet |
| `ArenaKernel` | generational arena | a pointer reads its own bytes or is refused as stale |
| `BidiCursor` | reversible cursor | any run refines one clamped position |

## How it is built

Each kernel has a model on values: a datatype for its state, a function for each operation, and lemmas
over runs of operations. Where the source updates fields in place, a class with the same fields and
loops has methods whose contracts say that the object moves exactly as the model does. Codecs have a
parser on the remaining bytes as their specification and a cursor or an indexed buffer as their code.

Atomic operations are indivisible steps, and any number of them interleave. Clocks, process liveness
and the pair of key hashes are parameters: time is an argument, `alive` any predicate on pids, the hash
any function of the key. A shared byte buffer is an address and its content, where one address and one
length hold one content. Integers are unbounded except where a width decides a result; there the cut,
the saturation or the wrap of a release build is written out.

## Where the code and its comments differ

- The latch comment promises strictly ascending puts within a bulk batch. The code also accepts up to eight
  inversions: `UnsortedBulkHappens` gives such a bulk batch, `LatchedBulkExactly` says which batches go to
  bulk, `AdmissibleAscendsExactly` that they ascend exactly without an inversion. The results therefore
  speak of distinct keys and of batches sorted before they are installed.
- The latch comment promises that bulk keys lie above everything stored. The stored maximum is consulted
  only for a put-only, non-spanning first batch; `MaximumClearedExactly` says from the first event when it
  is safe and `OtherFirstEventsUndercut` when the other first events let a key below it into bulk.
- `observe_latched_span` on no keys answers bulk for a latched family where `classify_family` answers
  ladder; `SpanMatchesSlowPath` says that the paths differ only there.
- A partitioned Bloom filter accepts inserts after assembling, freezing or decoding and loses them;
  `InsertVisibleExactly` says when an insert is visible. A decoded filter encoded again is written with
  empty parts; `LifeAnswers` says exactly which lives lose their answers by it.
- The pacer does not debit later refills for a shortfall it has answered with a delay;
  `FactorTwoIsReal` shows the rate a patient caller can reach.
- The refill comment promises elapsed time times rate. The product is cut to 64 bits, so a very long pause
  at a very high rate grants less than is due; `RefillExactly` says exactly when.
- A write ticket is accepted by any generation with the same id. `TwinIdsBreakFreeze` gives a run that
  changes a quiesced generation; `FrozenExactly` says exactly when some continuation can.
- The planner promises to stay within the budget. Its top-up adds without an overflow check, so near
  `u64::MAX` it can pass the budget; `ComputeAllocations` says exactly when, `OverrunHappens` gives a case.
- `verify_internal_invariants` sums with saturation, so under a budget of `u64::MAX` it accepts any total.

## Model

| member | source | states |
|---|---|---|
| `LatchModel.RatchetIsMaximum` | crates/pedradb-core/src/bulk_ingest_kernel.rs:181-192 | after ratcheting over any keys the mark is the greatest of the old mark and all of them |
| `LatchModel.StepFacts` | crates/pedradb-core/src/bulk_ingest_kernel.rs:266-338 | one step, from any slot: Dead stays Dead on the ladder; an admissible event has distinct keys above the mark and promotes; any other event only restarts the streak or kills, and routes bulk only if it has no keys |
| `LatchModel.DeadForever` | crates/pedradb-core/src/bulk_ingest_kernel.rs:281-288 | once dead, a family is dead at the end of every continuation and every later route is the ladder |
| `LatchModel.MarkCoversHistory` | crates/pedradb-core/src/bulk_ingest_kernel.rs:290-293 | while a family lives, its mark is at or above every key of the whole run, on whatever route |
| `LatchModel.BulkAboveHistory` | crates/pedradb-core/src/bulk_ingest_kernel.rs:266-445 | whole-run safety: a bulk batch with keys has distinct keys, all strictly above every key observed earlier |
| `LatchModel.BulkStreamAscends` | crates/pedradb-core/src/bulk_ingest_kernel.rs:266-376 | the bulk batches of one family, each sorted, laid end to end ascend strictly |
| `LatchModel.LatchedNeedsStreak` | crates/pedradb-core/src/bulk_ingest_kernel.rs:294-331 | a fresh family is latched only after `threshold` consecutive admissible events, and a probing streak counts its latest events, all admissible |
| `LatchModel.LatchedHasMark` | crates/pedradb-core/src/bulk_ingest_kernel.rs:296-310 | a latched family has a high-water key |
| `LatchModel.UndercutExact` | crates/pedradb-core/src/bulk_ingest_kernel.rs:390-445 | past its first key, a slot has a continuation sending a key at or below `m` to bulk if and only if it is alive and enough keys fit between its mark and `m` for the streak it still needs |
| `LatchModel.RoomExactly` | crates/pedradb-core/src/bulk_ingest_kernel.rs:390-443 | at least n keys lie above w and at most at m if and only if w is below m and m is not w followed by fewer than n zero bytes |
| `LatchModel.FirstStep` | crates/pedradb-core/src/bulk_ingest_kernel.rs:266-338 | where a fresh family's first keys take it, told by the event's own fields |
| `LatchModel.MaximumClearedExactly` | crates/pedradb-core/src/bulk_ingest_kernel.rs:390-443 | every continuation of a fresh family's first keys keeps bulk above the stored maximum if and only if the event guards it: a decidable condition on its ops, its spanning flag, the maximum it brings, its greatest key and the threshold |
| `LatchModel.PutOnlyFirstBatchGuards` | crates/pedradb-core/src/bulk_ingest_kernel.rs:426-443 | a put-only, non-spanning first batch judged with the real maximum guards it |
| `LatchModel.OtherFirstEventsUndercut` | crates/pedradb-core/src/bulk_ingest_kernel.rs:390-402 | for every first batch that is spanned or not puts only, and every first span or batch given no maximum, some continuation installs a key at or below the stored maximum if and only if the keys left between suffice for the rest of the streak |
| `LatchModel.KeylessKeepsFresh` | crates/pedradb-core/src/bulk_ingest_kernel.rs:420-424 | events without keys leave a fresh family fresh, so its first keys find it so |
| `LatchModel.LatchedBulkExactly` | crates/pedradb-core/src/bulk_ingest_kernel.rs:379-445 | for a latched family a batch goes to bulk if and only if it is puts only, not spanned, distinct, above the bound and has at most eight inversions |
| `LatchModel.BrokenInFront` | crates/pedradb-core/src/bulk_ingest_kernel.rs:397-415 | the scan over a batch gives up exactly if the puts in front of its first other op hold two equal neighbours or more than eight inversions |
| `LatchModel.DiesExactly` | crates/pedradb-core/src/bulk_ingest_kernel.rs:379-445 | a living family dies exactly on a non-spanning batch whose leading puts are so tangled, or that is puts only and repeats a key or reaches down to its bound |
| `LatchModel.AdmissibleAscendsExactly` | crates/pedradb-core/src/bulk_ingest_kernel.rs:26-28 | an admissible batch is strictly ascending if and only if it has no inversion |
| `LatchModel.UnsortedBulkHappens` | crates/pedradb-core/src/bulk_ingest_kernel.rs:397-415 | a run from a fresh family whose eighth batch goes to bulk out of order |
| `LatchRuns.FamilyByFamily` | crates/pedradb-core/src/bulk_ingest_kernel.rs:200-261 | a mixed batch gives each named family exactly the route and slot its own projected ops give it alone, touches no other family, and moves the counters by the number of routes of each kind and of families that died |
| `LatchRuns.SliceSeenExactly` | crates/pedradb-core/src/bulk_ingest_kernel.rs:200-249 | a family is judged on exactly the put and delete keys and the range ends of the batch that are its own, in batch order, a delete or a range end never counting as a put |
| `LatchRuns.PutsSeenExactly` | crates/pedradb-core/src/bulk_ingest_kernel.rs:232-247 | a family's slice is puts only if and only if every op of the batch that names it is a put |
| `LatchRuns.BulkMeansPuts` | crates/pedradb-core/src/bulk_ingest_kernel.rs:200-261 | told on the batch itself: a family is routed if and only if some op names it, and to bulk only if every op that names it is a put |
| `LatchRuns.CrossRangeSpares` | crates/pedradb-core/src/bulk_ingest_kernel.rs:216-228 | a range delete across two families sends each living family it names to the ladder and kills none: a latched one stays latched, a probing one starts again |
| `LatchRuns.StepSeenBy` | crates/pedradb-core/src/bulk_ingest_kernel.rs:200-376 | one call on the whole latch is one slot step for each family that sees it and none for the others |
| `LatchRuns.RunProjects` | crates/pedradb-core/src/bulk_ingest_kernel.rs:200-376 | over every run the latch is one independent slot machine per family |
| `LatchRuns.InstalledAscends` | crates/pedradb-core/src/bulk_ingest_kernel.rs:24-35 | over every run of the latch, from any latch, the keys installed as bulk for one family ascend strictly end to end, so its runs never need a merge |
| `LatchRuns.LatchedFamilyEarnedIt` | crates/pedradb-core/src/bulk_ingest_kernel.rs:296-310 | in a latch run from empty, a latched family has a mark and eight admissible calls in a row that touched it |
| `BulkIngest.KeysHaveDuplicate` | crates/pedradb-core/src/bulk_ingest_kernel.rs:454-458 | sorting a copy and comparing neighbours finds a duplicate if and only if two keys are equal |
| `BulkIngest.MinKey` | crates/pedradb-core/src/bulk_ingest_kernel.rs:421 | the loop returns a key of the slice that is at or below all of them |
| `BulkIngest.NeighboursRise` | crates/pedradb-core/src/bulk_ingest_kernel.rs:353-359 | the neighbour scan holds if and only if the whole list ascends strictly |
| `LatchModel.NoInversionAscends` | crates/pedradb-core/src/bulk_ingest_kernel.rs:397-419 | no inversion and no equal neighbours make the keys strictly ascending and distinct, so the duplicate sort can be skipped |
| `LatchModel.FastPathRefines` | crates/pedradb-core/src/bulk_ingest_kernel.rs:345-376 | for a latched family, an ascending span above the mark is admissible on the slow path, routes bulk and ratchets the mark exactly to its last key |
| `LatchModel.SpanTakesSlowPath` | crates/pedradb-core/src/bulk_ingest_kernel.rs:345-376 | on one family, the short way of a span and the classification of its puts give the same slot and route if and only if there are keys or the family is not latched |
| `LatchRuns.SpanMatchesSlowPath` | crates/pedradb-core/src/bulk_ingest_kernel.rs:345-376 | on the whole latch, counters included, the span path that ratchets only the last key equals `classify_family` on the same puts if and only if there are keys or the family is not latched |
| `BulkIngest.BulkLatch.constructor` | crates/pedradb-core/src/bulk_ingest_kernel.rs:140-147 | the empty latch with the default streak |
| `BulkIngest.BulkLatch.KillFamily` | crates/pedradb-core/src/bulk_ingest_kernel.rs:172-177 | the family is dead and only a first kill is counted |
| `BulkIngest.BulkLatch.RatchetKey` | crates/pedradb-core/src/bulk_ingest_kernel.rs:181-192 | only this family's mark moves, to the greater of mark and key |
| `BulkIngest.BulkLatch.Judge` | crates/pedradb-core/src/bulk_ingest_kernel.rs:379-445 | the scan loops compute the verdict the specification defines by whole-slice predicates |
| `BulkIngest.BulkLatch.Settle` | crates/pedradb-core/src/bulk_ingest_kernel.rs:294-337 | state, route and counters of a living family under a verdict |
| `BulkIngest.BulkLatch.RatchetOver` | crates/pedradb-core/src/bulk_ingest_kernel.rs:290-293 | every key of the slice raises the mark, whatever the verdict; other families keep theirs |
| `BulkIngest.BulkLatch.ClassifyFamily` | crates/pedradb-core/src/bulk_ingest_kernel.rs:266-338 | the object moves exactly as one slot step of the model, all fields included |
| `BulkIngest.BulkLatch.ObserveLatchedSpan` | crates/pedradb-core/src/bulk_ingest_kernel.rs:345-376 | the object moves exactly as the span path of the model, which is proved equal to the slow path |
| `BulkIngest.BulkLatch.ClassifyBatch` | crates/pedradb-core/src/bulk_ingest_kernel.rs:200-261 | the loop over families computes the family-by-family classification: exactly the families some op names are routed, and to bulk only those all of whose ops are puts |
| `BulkIngest.SplitByFamily` | crates/pedradb-core/src/bulk_ingest_kernel.rs:210-249 | the first pass lists each named family once, in order, with exactly its own keys and range ends in batch order, and the spanned families |
| `RecordFormat.AsU8` | crates/pedradb-core/src/key_kernel.rs:35-63 | kind bytes lie below the reuse flag and read back as their kind |
| `RecordFormat.Encoding` | crates/pedradb-core/src/batch_kernel.rs:246-304 | the bytes of a record are exactly as many as `encoded_len` announces |
| `RecordFormat.V2Exactly` | crates/pedradb-core/src/batch_kernel.rs:212-304 | a record is of version 2 if and only if some op holds the same non-empty buffer as the op before it, and exactly those ops omit their value |
| `RecordFormat.FormatOfOnePut` | crates/pedradb-core/src/batch_kernel.rs:246-286 | the bytes of a one-put record, written out |
| `RecordFormat.OpRoundTrip` | crates/pedradb-core/src/batch_kernel.rs:163-187 | an encoded op, whatever bytes follow, parses back to itself and takes exactly its own bytes, spelled out or reused |
| `RecordFormat.BodyRoundTrip` | crates/pedradb-core/src/batch_kernel.rs:163-187 | all ops in a row parse back, through every chain of reuse |
| `RecordFormat.BodyIsLongEnough` | crates/pedradb-core/src/batch_kernel.rs:145-159 | the hostile-count guard leaves room for every valid record of either version |
| `RecordFormat.GuardIsTransparent` | crates/pedradb-core/src/batch_kernel.rs:145-159 | the hostile-count guard refuses every count it names, and never a record that the ops themselves would decode |
| `RecordFormat.DecodesEncoding` | crates/pedradb-core/src/batch_kernel.rs:136-203 | decoding an encoding returns the same ops, version 1 and version 2 alike |
| `RecordFormat.RoundTripExactly` | crates/pedradb-core/src/batch_kernel.rs:136-203 | the round trip holds if and only if all counts and lengths fit u32 |
| `RecordFormat.ExtensionRefused` | crates/pedradb-core/src/batch_kernel.rs:189-195 | nothing that decodes still decodes with bytes appended |
| `RecordFormat.OnlyWholeEncodingDecodes` | crates/pedradb-core/src/batch_kernel.rs:136-203 | every proper prefix and every proper extension of an encoding is refused |
| `RecordCodec.RecordIsV2` | crates/pedradb-core/src/batch_kernel.rs:241-243 | the scan answers whether any op shares the buffer of the op before it |
| `RecordCodec.EncodeOp` | crates/pedradb-core/src/batch_kernel.rs:263-284 | indexed writes put exactly this op's encoding behind what the buffer held |
| `RecordCodec.EncodeBody` | crates/pedradb-core/src/batch_kernel.rs:263-284 | the loop writes all ops one after the other |
| `RecordCodec.EncodeOps` | crates/pedradb-core/src/batch_kernel.rs:246-286 | the record is appended: the existing prefix of `out` stays and exactly `encoded_len` bytes follow |
| `RecordCodec.Cursor.constructor` | crates/pedradb-core/src/batch_kernel.rs:335-337 | everything is still to be read |
| `RecordCodec.Cursor.ReadSlice` | crates/pedradb-core/src/batch_kernel.rs:363-377 | the next bytes in order, or a truncation that moves nothing |
| `RecordCodec.ReadBlob` | crates/pedradb-core/src/batch_kernel.rs:169-180 | a length-prefixed string, leaving the cursor right behind it |
| `RecordCodec.DecodeOp` | crates/pedradb-core/src/batch_kernel.rs:163-187 | the imperative read of one op agrees with the format, error for error, and leaves the cursor behind it |
| `RecordCodec.DecodeBody` | crates/pedradb-core/src/batch_kernel.rs:161-188 | the loop agrees with the format's parse of `count` ops |
| `RecordCodec.Decode` | crates/pedradb-core/src/batch_kernel.rs:136-203 | the decoder computes the format's decoding on all byte strings, error for error |
| `RecordCodec.ShareConsecutiveEqualValues` | crates/pedradb-core/src/batch_kernel.rs:223-238 | the in-place pass computes the interned record |
| `RecordCodec.InterningExactly` | crates/pedradb-core/src/batch_kernel.rs:223-238 | exactly the puts whose non-empty value equals that of a put right before them are re-pointed, each to that one's buffer; every other op is unchanged |
| `RecordCodec.InterningKeepsContent` | crates/pedradb-core/src/batch_kernel.rs:223-238 | every op keeps kind, sequence, key and value bytes, and buffers stay coherent |
| `RecordCodec.InterningShares` | crates/pedradb-core/src/batch_kernel.rs:219-237 | afterwards every two neighbouring puts with equal non-empty values share one buffer |
| `RecordCodec.RepointingCosts` | crates/pedradb-core/src/batch_kernel.rs:290-308 | re-pointing one op saves its value and at worst makes the op behind it spell out one as long |
| `RecordCodec.InterningShrinks` | crates/pedradb-core/src/batch_kernel.rs:213-304 | the pass never makes the record longer, even where it breaks the sharing of a following op |
| `RecordCodec.InternedRecordDecodes` | crates/pedradb-core/src/batch_kernel.rs:213-304 | the interned record decodes to the original ops and is no longer than the original encoding |
| `BloomBits.SetBitFacts` | crates/pedradb-core/src/bloom_kernel.rs:646-652 | setting a bit sets that bit and no other |
| `BloomBits.ProbeCount` | crates/pedradb-core/src/bloom_kernel.rs:123-139 | between 1 and 30 probes |
| `BloomBits.WithCapacity` | crates/pedradb-core/src/bloom_kernel.rs:227-243 | a new filter is well formed for every size, with all products saturating |
| `BloomBits.CapacityExactly` | crates/pedradb-core/src/bloom_kernel.rs:94-243 | a new filter has one bit for each of the keys' bits, at least 64 and at most u32, in just enough bytes, all clear, and the greatest probe count within 0.69 a bit and 1 to 30; it is active if and only if that product is not zero |
| `BloomBits.Probe` | crates/pedradb-core/src/bloom_kernel.rs:630-644 | every probe lies within the bit array |
| `BloomBits.ProbesWalk` | crates/pedradb-core/src/bloom_kernel.rs:641-644 | the probes are the positions of a walk that starts at the first hash and adds the second in 64 bits, each reduced to the width |
| `BloomBits.InsertedBits` | crates/pedradb-core/src/bloom_kernel.rs:353-364 | insertion sets the probed bits and leaves every other bit |
| `BloomBits.WithHashFinds` | crates/pedradb-core/src/bloom_kernel.rs:353-394 | what was inserted is found, and what was found before still is |
| `BloomBits.AllBits` | crates/pedradb-core/src/bloom_kernel.rs:353-364 | inserting any hashes sets exactly the bits that some of them probes |
| `BloomBits.FilledAnswersExactly` | crates/pedradb-core/src/bloom_kernel.rs:353-394 | a filter filled from clear bits lets a hash through if and only if every probe of it is a probe of an inserted hash |
| `BloomBits.InsertPrehashed` | crates/pedradb-core/src/bloom_kernel.rs:353-364 | the probe loop inserts, bit for bit |
| `BloomBits.QueryPrehashed` | crates/pedradb-core/src/bloom_kernel.rs:378-394 | the probe loop with its early exit answers whether all probed bits are set |
| `BloomBits.MonoFrom` | crates/pedradb-core/src/bloom_kernel.rs:546-579 | whatever header is accepted gives a well-formed filter |
| `BloomBits.EncodedFields` | crates/pedradb-core/src/bloom_kernel.rs:438-449 | the header of an encoding reads back as the filter's own fields |
| `BloomBits.FormatOfOneFilter` | crates/pedradb-core/src/bloom_kernel.rs:438-449 | the bytes of one filter, written out |
| `BloomBits.MonoRoundTrip` | crates/pedradb-core/src/bloom_kernel.rs:546-579 | a well-formed monolithic filter decodes from its encoding |
| `BloomParts.WithPartitions` | crates/pedradb-core/src/bloom_kernel.rs:247-265 | a partitioned filter of any shape is valid |
| `BloomParts.QueryTransparent` | crates/pedradb-core/src/bloom_kernel.rs:408-433 | a query changes no part anyone would consult and so no answer |
| `BloomParts.AnswersAsItsPart` | crates/pedradb-core/src/bloom_kernel.rs:408-433 | live, frozen, decoded or partly cached, the filter answers for a hash as the part numbered by its first half modulo the number of parts does |
| `BloomParts.QueryCachesPart` | crates/pedradb-core/src/bloom_kernel.rs:408-433 | a query caches the part it consults at that part's own place and changes nothing else |
| `BloomParts.FreezeKeepsParts` | crates/pedradb-core/src/bloom_kernel.rs:524-544 | freezing drops the live parts and still stands for the same parts |
| `BloomParts.BodyParses` | crates/pedradb-core/src/bloom_kernel.rs:581-598 | the stored parts read back from their body, and every shorter piece of it is refused |
| `BloomParts.PartitionedRoundTrip` | crates/pedradb-core/src/bloom_kernel.rs:451-608 | what was written reads back for up to 64 parts in a body that fits u32; more parts or a longer body are refused |
| `BloomParts.DecodedKeepsParts` | crates/pedradb-core/src/bloom_kernel.rs:483-608 | a live or frozen filter decodes to one standing for the same parts |
| `BloomParts.ReencodedIsAlwaysTrue` | crates/pedradb-core/src/bloom_kernel.rs:451-460 | a decoded filter encoded again has written its parts out empty and rules nothing out |
| `BloomParts.MonoFilterRoundTrip` | crates/pedradb-core/src/bloom_kernel.rs:483-521 | a monolithic filter reads back as itself if and only if its width is not the partition marker |
| `BloomParts.CacheTransparent` | crates/pedradb-core/src/bloom_kernel.rs:408-476 | live, frozen or decoded, after any history of queries and freezes the filter stands for the same parts and answers each hash as the part numbered by its first half does |
| `BloomParts.StepKeepsParts` | crates/pedradb-core/src/bloom_kernel.rs:408-608 | one query, freeze or reload keeps the parts, unless it reloads a filter that was decoded and not frozen since |
| `BloomParts.LifeKeepsParts` | crates/pedradb-core/src/bloom_kernel.rs:408-608 | over any mix of queries, freezes and encode-decode reloads the events alone decide whether the parts are kept |
| `BloomParts.LifeAnswers` | crates/pedradb-core/src/bloom_kernel.rs:408-608 | the exact answer after any such life: what the part numbered by the hash's first half answered at the start, or true once a decoded filter was reloaded without a freeze; so nothing let through is ever ruled out |
| `BloomParts.FilledFinds` | crates/pedradb-core/src/bloom_kernel.rs:353-394 | every hash inserted into the part numbered by its first half is found there |
| `BloomParts.BuiltParts` | crates/pedradb-core/src/bloom_kernel.rs:334-346 | building by insertion keeps the filter live over exactly the filled parts |
| `BloomParts.PartitionedNeverAbsent` | crates/pedradb-core/src/bloom_kernel.rs:334-433 | a hash inserted while building is never reported absent in any later life of a partitioned filter, of any size and number of parts |
| `BloomParts.FilledPart` | crates/pedradb-core/src/bloom_kernel.rs:334-346 | filling by insertion gives each part exactly the hashes whose first half numbers it, in order |
| `BloomParts.BuiltAnswersExactly` | crates/pedradb-core/src/bloom_kernel.rs:334-433 | the exact answer of a filter built by insertion, in any later life: a hash passes if and only if there are no bits, or the life forgot, or the hashes inserted into its own part cover all its probes |
| `BloomParts.MonolithicNeverAbsent` | crates/pedradb-core/src/bloom_kernel.rs:334-394 | the same for a monolithic filter, unless its width is the partition marker and it is reloaded |
| `BloomParts.AssembledAnswers` | crates/pedradb-core/src/bloom_kernel.rs:267-331 | the exact answer of an assembled filter in any later life: that of the builder numbered by the hash's first half, or true once the life forgot or with fewer than two builders |
| `BloomParts.AssembledNeverAbsent` | crates/pedradb-core/src/bloom_kernel.rs:267-331 | a filter assembled from builders that the caller filled never reports absent a hash that the builder numbered by its first half lets through, in any later life and decoded from its bytes |
| `BloomParts.InsertedBuildersNeverAbsent` | crates/pedradb-core/src/bloom_kernel.rs:273-300 | in particular a hash inserted into the builder its first half numbers is never reported absent |
| `BloomParts.AssembledLikeInserted` | crates/pedradb-core/src/bloom_kernel.rs:267-271 | assembling filled builders gives the same bytes and answers as building by insertion |
| `BloomParts.InsertVisibleExactly` | crates/pedradb-core/src/bloom_kernel.rs:334-346 | an insert becomes visible if and only if its part is writable or the hash already passed: after assembling, freezing or decoding it is lost |
| `BloomKernel.BloomFilter.InsertKey` | crates/pedradb-core/src/bloom_kernel.rs:334-346 | the object becomes the filter with the key's hash inserted |
| `BloomKernel.BloomFilter.MayContainKey` | crates/pedradb-core/src/bloom_kernel.rs:371-433 | the answer is the specified one, which for every partitioned form is that of the part numbered by the hash's first half, and the only change is the cached part |
| `BloomKernel.BloomFilter.FreezePartitions` | crates/pedradb-core/src/bloom_kernel.rs:524-544 | the object becomes its frozen form |
| `BloomKernel.BloomFilter.EncodeBytes` | crates/pedradb-core/src/bloom_kernel.rs:438-476 | the bytes of the filter's encoding |
| `BloomKernel.BodyOf` | crates/pedradb-core/src/bloom_kernel.rs:451-467 | the loop lays lengths and parts end to end |
| `BloomKernel.PartsOf` | crates/pedradb-core/src/bloom_kernel.rs:581-598 | the walk with a position computes the parse of the parts, errors included |
| `BloomKernel.DecodeBytes` | crates/pedradb-core/src/bloom_kernel.rs:483-521 | the decoder computes the specified decoding on all byte strings |
| `BloomBudget.SharesBounded` | crates/pedradb-core/src/adaptive_bloom_budget_kernel.rs:89-109 | what the split adds on any prefix of levels, times the weight sum, stays within the weighted remainder, even where the cut to 64 bits bites |
| `BloomBudget.SplitDescends` | crates/pedradb-core/src/adaptive_bloom_budget_kernel.rs:89-116 | within the size bounds the weighted split is non-increasing, level by level |
| `BloomBudget.SplitWithinBudget` | crates/pedradb-core/src/adaptive_bloom_budget_kernel.rs:89-109 | the weighted split alone stays within the budget it was made from, whatever the sizes, so the shrink loop does nothing |
| `BloomBudget.SplitIsOrdered` | crates/pedradb-core/src/adaptive_bloom_budget_kernel.rs:103-116 | within the size bounds the weighted split is non-increasing, so the order pass does nothing |
| `BloomBudget.EnforceOrder` | crates/pedradb-core/src/adaptive_bloom_budget_kernel.rs:111-116 | the pass computes the running minimum: in range, non-increasing, never a bit more |
| `BloomBudget.Shrink` | crates/pedradb-core/src/adaptive_bloom_budget_kernel.rs:118-150 | the loop ends, keeps range and order, tracks the 64-bit total, and does nothing within budget |
| `BloomBudget.TopUp` | crates/pedradb-core/src/adaptive_bloom_budget_kernel.rs:152-168 | no level loses a bit; from a total within budget the result is within budget if and only if exact top-up meets no total of 2^64, and then no level can gain a bit |
| `BloomBudget.FitsStaysWithin` | crates/pedradb-core/src/adaptive_bloom_budget_kernel.rs:64-168 | with budget x (levels + 1) and twice the keys in u64 the plan is the split topped up and never overruns |
| `BloomBudget.RoomyStaysWithin` | crates/pedradb-core/src/adaptive_bloom_budget_kernel.rs:64-168 | it never overruns either while the keys add up in u64 and each level's fit on top of the budget |
| `BloomBudget.OverrunHappens` | crates/pedradb-core/src/adaptive_bloom_budget_kernel.rs:152-168 | outside those sizes it can: one level of 2^62 keys under a budget of 2^64 - 2 |
| `BloomBudget.ComputeAllocations` | crates/pedradb-core/src/adaptive_bloom_budget_kernel.rs:64-189 | for all inputs, wrapped key sums included: refusals exactly as guarded; a grant is in range and non-increasing; it is within budget if and only if the inputs satisfy `StaysWithin`, and then maximal and at least the share on every level; so it is whenever each level's keys fit on top of the budget |
| `BloomBudget.GrantedExactly` | crates/pedradb-core/src/adaptive_bloom_budget_kernel.rs:68-87 | while the keys add up in u64, a plan is granted if and only if there are keys and two bits for each, capped at u64, are affordable |
| `BloomBudget.AllocationExactly` | crates/pedradb-core/src/adaptive_bloom_budget_kernel.rs:170-184 | a granted level announces the greatest probe count within 0.693 a bit, and the whole parts per million that as many halvings of a million leave |
| `BloomBudget.VerifyInternalInvariants` | crates/pedradb-core/src/adaptive_bloom_budget_kernel.rs:193-226 | the check holds if and only if length, range, order and hash counts are right and the total is within budget or the budget is the largest u64, where its saturating sum hides an excess |
| `BloomBudget.PlanAndVerify` | crates/pedradb-core/src/adaptive_bloom_budget_kernel.rs:187-188 | a grant passes the kernel's own check if and only if the inputs satisfy `StaysWithin` or the budget is the largest u64 |
| `IoPacer.RequestConserves` | crates/pedradb-core/src/backpressure_kernel.rs:236-281 | one request: bytes paid plus tokens left grow by at most what time has granted |
| `IoPacer.TokensConserved` | crates/pedradb-core/src/backpressure_kernel.rs:236-281 | over any run at a fixed rate, bytes paid plus tokens left never exceed the start plus rate times elapsed, and tokens never exceed the burst |
| `IoPacer.RefillExactly` | crates/pedradb-core/src/backpressure_kernel.rs:236-253 | a refill never lowers the bucket nor grants more than is due, and brings it within one token of what is due, up to the burst, if and only if the grant fits u64 |
| `IoPacer.NeverFarBehind` | crates/pedradb-core/src/backpressure_kernel.rs:236-281 | over any run the bucket is never more than one token a request behind a bucket of exact arithmetic |
| `IoPacer.IdealServes` | crates/pedradb-core/src/backpressure_kernel.rs:259-281 | so a request that the exact bucket covers, with one token to spare for each request so far, is paid in full at once |
| `IoPacer.BucketServes` | crates/pedradb-core/src/backpressure_kernel.rs:259-267 | a request no larger than the bucket is paid in full at once, whenever it comes, and takes only what it pays |
| `IoPacer.BurstExactly` | crates/pedradb-core/src/backpressure_kernel.rs:200-213 | the burst is a tenth of a second's bytes, but never below 1 MiB |
| `IoPacer.DeficitCovered` | crates/pedradb-core/src/backpressure_kernel.rs:268-279 | the delay never exceeds the time that what a request moves without paying takes, and plus one nanosecond covers it if and only if it fits u64 |
| `IoPacer.CreditBounded` | crates/pedradb-core/src/backpressure_kernel.rs:259-281 | bytes moved on credit by a patient caller fit into the time slept |
| `IoPacer.PatientCallerBound` | crates/pedradb-core/src/backpressure_kernel.rs:259-281 | a caller that waits out every delay moves at most burst + (2T + n) x rate / 1e9 bytes in T ns over n requests |
| `IoPacer.FactorTwoIsReal` | crates/pedradb-core/src/backpressure_kernel.rs:268-279 | for every D up to the burst a patient caller moves burst + 2D bytes in D ns, so the bound with T in place of 2T is false |
| `IoPacer.CutDelayBreaksBound` | crates/pedradb-core/src/backpressure_kernel.rs:268-279 | a request whose delay is cut to 64 bits breaks the bound |
| `IoPacer.CompactionIoPacer.constructor` | crates/pedradb-core/src/backpressure_kernel.rs:200-213 | a full bucket at the given time |
| `IoPacer.CompactionIoPacer.SetRate` | crates/pedradb-core/src/backpressure_kernel.rs:216-227 | the bucket is cut to the new burst and never filled, and the time of the last refill stays |
| `IoPacer.CompactionIoPacer.Refill` | crates/pedradb-core/src/backpressure_kernel.rs:236-253 | the object becomes the refilled pacer: never fewer tokens and never above the burst, bounded on both sides by `RefillExactly` |
| `IoPacer.CompactionIoPacer.RequestPacingDelay` | crates/pedradb-core/src/backpressure_kernel.rs:259-281 | the object pays what the bucket has, and a delay is returned exactly for a shortfall whose sleep is not zero; what the bucket already covers is never delayed and takes no more than its bytes |
| `GroupCommit.StepAdvances` | crates/pedradb-core/src/async_cancellation_kernel.rs:119-152 | no step changes a slot that has left Waiting, nor any id or payload |
| `GroupCommit.StepKeepsInv` | crates/pedradb-core/src/async_cancellation_kernel.rs:171-204 | every step keeps each leader's lists aligned with the slots it won and leaves no passed slot waiting |
| `GroupCommit.RunKeepsInv` | crates/pedradb-core/src/async_cancellation_kernel.rs:119-204 | over every interleaving the invariant holds, and each committed slot belongs to one batch, each elected slot to one handover |
| `GroupCommit.LeavesWaitingOnce` | crates/pedradb-core/src/async_cancellation_kernel.rs:119-152 | over every run a slot leaves Waiting at most once |
| `GroupCommit.CommittedIffInOneBatch` | crates/pedradb-core/src/async_cancellation_kernel.rs:171-185 | at every moment of every run a slot is committed if and only if some batch carries it, at exactly one place; a cancelled slot is in none |
| `GroupCommit.CancelledExactly` | crates/pedradb-core/src/async_cancellation_kernel.rs:119-128 | at every moment of every run a slot is cancelled if and only if some earlier cancel met it waiting |
| `GroupCommit.CancelWins` | crates/pedradb-core/src/async_cancellation_kernel.rs:119-128 | a cancel that meets a waiting slot leaves it cancelled ever after and in no batch |
| `GroupCommit.FinishedAssembly` | crates/pedradb-core/src/async_cancellation_kernel.rs:171-185 | ids and payloads are aligned in slot order, and a finished assembly has left no slot of its slice waiting |
| `GroupCommit.OneLeaderPerHandover` | crates/pedradb-core/src/async_cancellation_kernel.rs:195-204 | a slot is elected if and only if exactly one handover elected it, and that handover passed no waiting slot |
| `GroupCommit.CommitSlot.constructor` | crates/pedradb-core/src/async_cancellation_kernel.rs:103-109 | a new slot waits |
| `GroupCommit.CommitSlot.CompareExchange` | crates/pedradb-core/src/async_cancellation_kernel.rs:119-152 | the swap wins if and only if the slot was waiting, and otherwise changes nothing |
| `GroupCommit.AssembleActiveBatch` | crates/pedradb-core/src/async_cancellation_kernel.rs:171-185 | left alone, the call commits exactly the waiting slots and lists their ids and payloads in slot order |
| `GroupCommit.HandoverLeadership` | crates/pedradb-core/src/async_cancellation_kernel.rs:195-204 | left alone, the call elects the first waiting slot, if any, and touches no other |
| `GroupCommit.AloneIsSweep` | crates/pedradb-core/src/async_cancellation_kernel.rs:171-185 | the uninterrupted assembly is the interleaved protocol with no other step in between |
| `GroupCommit.AloneHandoverElects` | crates/pedradb-core/src/async_cancellation_kernel.rs:195-204 | so is the uninterrupted handover, which elects the first waiting slot |
| `Lockfile.PrintedNumberParses` | crates/pedradb-core/src/boot_id_lockfile_kernel.rs:74-82 | a printed number parses back under every bound it meets |
| `Lockfile.PrintedSplits` | crates/pedradb-core/src/boot_id_lockfile_kernel.rs:58-72 | a printed token, trimmed and split, is the pieces of its boot id and its two numbers |
| `Lockfile.DecodesPrinted` | crates/pedradb-core/src/boot_id_lockfile_kernel.rs:58-89 | decoding a printed token in every case: refused, or the token without the boot id's leading whitespace |
| `Lockfile.RoundTripExactly` | crates/pedradb-core/src/boot_id_lockfile_kernel.rs:58-89 | decode undoes encode if and only if the boot id is not blank, has no colon and no leading whitespace, and the pid is not zero |
| `Lockfile.DecodedIsPrintable` | crates/pedradb-core/src/boot_id_lockfile_kernel.rs:63-89 | whatever payload decodes, its token prints to text that decodes to the same token |
| `Lockfile.DecodesExactly` | crates/pedradb-core/src/boot_id_lockfile_kernel.rs:63-89 | the grammar: a text decodes to a token if and only if, between outer whitespace, it is the boot id, a numeral of the pid and one of the seconds, joined by colons, with the boot id not blank and the pid not zero |
| `Lockfile.TrimExactly` | crates/pedradb-core/src/boot_id_lockfile_kernel.rs:65 | trimming takes exactly the whitespace at both ends away |
| `Lockfile.SplitJoins` | crates/pedradb-core/src/boot_id_lockfile_kernel.rs:65 | the split pieces joined by colons are the text again |
| `Lockfile.FormatOfOneToken` | crates/pedradb-core/src/boot_id_lockfile_kernel.rs:58-61 | the line of one token, written out |
| `Lockfile.WrittenLockDecides` | crates/pedradb-core/src/boot_id_lockfile_kernel.rs:124-164 | on a written lock: re-entry exactly for its live owner, contention exactly for other pids of that boot while it lives, reclaim of that very token exactly otherwise, named a reboot exactly if the boot ids differ |
| `Lockfile.AnyLockDecides` | crates/pedradb-core/src/boot_id_lockfile_kernel.rs:124-164 | every other lock file: an empty one is free, one that does not decode is an error, any other is decided like its token written anew |
| `Quiescence.VerifyFlushSafety` | crates/pedradb-core/src/atomic_generation_quiescence_kernel.rs:241-270 | the oracle accepts if and only if the flush is safe, and otherwise names the first key left out |
| `Quiescence.StepKeepsInv` | crates/pedradb-core/src/atomic_generation_quiescence_kernel.rs:102-227 | every step keeps the writer counter equal to the live tickets, and settled generations without any |
| `Quiescence.StepKeepsSettled` | crates/pedradb-core/src/atomic_generation_quiescence_kernel.rs:153-227 | with unique ids a settled generation stays settled and keeps its keys |
| `Quiescence.AcceptedExactly` | crates/pedradb-core/src/atomic_generation_quiescence_kernel.rs:153-193 | an insert is accepted if and only if its key is not empty and, checked, the generation is active or quiescing or, ticketed, the ticket carries its id and it is not flushed |
| `Quiescence.InsertedExactly` | crates/pedradb-core/src/atomic_generation_quiescence_kernel.rs:153-193 | at every moment of every run a generation holds exactly the inserts it accepted, in call order with their sequences |
| `Quiescence.AcceptedIsKept` | crates/pedradb-core/src/atomic_generation_quiescence_kernel.rs:153-270 | an accepted insert is there at every later moment, and the oracle refuses every SST without it |
| `Quiescence.StateMovesExactly` | crates/pedradb-core/src/atomic_generation_quiescence_kernel.rs:196-227 | a generation's state moves one way, each move by its own call and no other; it quiesces if and only if no live ticket is left |
| `Quiescence.NoNewTickets` | crates/pedradb-core/src/atomic_generation_quiescence_kernel.rs:141-150 | over every run no ticket of a generation is given out once it has begun to quiesce |
| `Quiescence.FrozenExactly` | crates/pedradb-core/src/atomic_generation_quiescence_kernel.rs:153-227 | over all continuations a settled generation's keys can change if and only if it is not flushed; over those that create no generation of its id, if and only if moreover a live ticket carries its id or an active generation of its id can give one out |
| `Quiescence.FlushedForever` | crates/pedradb-core/src/atomic_generation_quiescence_kernel.rs:153-193 | a flushed generation never changes again, whatever ids are shared |
| `Quiescence.FrozenInRuns` | crates/pedradb-core/src/atomic_generation_quiescence_kernel.rs:153-227 | the same at every moment of every run from the start |
| `Quiescence.CounterCountsTickets` | crates/pedradb-core/src/atomic_generation_quiescence_kernel.rs:102-150 | in every reachable state `active_writers` is the number of live tickets |
| `Quiescence.KeysFrozen` | crates/pedradb-core/src/atomic_generation_quiescence_kernel.rs:153-211 | from quiescence on the keys never change again and no ticket lives |
| `Quiescence.FlushStaysSafe` | crates/pedradb-core/src/atomic_generation_quiescence_kernel.rs:241-270 | an SST holding the keys at quiescence passes the oracle then and forever after |
| `Quiescence.SafeForever` | crates/pedradb-core/src/atomic_generation_quiescence_kernel.rs:241-270 | with unique ids whatever the oracle accepts once, it accepts ever after |
| `Quiescence.TwinIdsBreakFreeze` | crates/pedradb-core/src/atomic_generation_quiescence_kernel.rs:170-193 | a concrete run where a ticket of a twin generation makes a safe SST unsafe |
| `Quiescence.MemTableGeneration.constructor` | crates/pedradb-core/src/atomic_generation_quiescence_kernel.rs:131-138 | an active, empty generation |
| `Quiescence.MemTableGeneration.AcquireWriteTicket` | crates/pedradb-core/src/atomic_generation_quiescence_kernel.rs:141-150 | a ticket of this generation and one more writer, or neither |
| `Quiescence.MemTableGeneration.TryRecordInsertion` | crates/pedradb-core/src/atomic_generation_quiescence_kernel.rs:153-162 | the entry is appended if and only if the key is not empty and the generation is active or quiescing; otherwise nothing changes, error for error |
| `Quiescence.MemTableGeneration.RecordInsertionWithTicket` | crates/pedradb-core/src/atomic_generation_quiescence_kernel.rs:170-193 | the entry is appended if and only if the ticket carries this id, the key is not empty and the generation is not flushed; otherwise nothing changes, error for error |
| `Quiescence.MemTableGeneration.BeginQuiescence` | crates/pedradb-core/src/atomic_generation_quiescence_kernel.rs:196-200 | only an active generation starts quiescing |
| `Quiescence.MemTableGeneration.TryQuiesce` | crates/pedradb-core/src/atomic_generation_quiescence_kernel.rs:203-211 | quiesced exactly when no writer is left |
| `Quiescence.MemTableGeneration.TryMarkFlushed` | crates/pedradb-core/src/atomic_generation_quiescence_kernel.rs:214-227 | flushed only from quiesced, error for error |
| `Quiescence.WriteTicket.constructor` | crates/pedradb-core/src/atomic_generation_quiescence_kernel.rs:146-149 | the ticket carries the generation's id and counter |
| `Quiescence.WriteTicket.Drop` | crates/pedradb-core/src/atomic_generation_quiescence_kernel.rs:102-106 | dropping a ticket lowers its own counter |
| `CommitScheduler.DecoupledCommitScheduler.constructor` | crates/pedradb-core/src/async_pool_decoupling_kernel.rs:90-98 | an empty queue of depth at least 1 and first ticket 1 |
| `CommitScheduler.DecoupledCommitScheduler.SubmitAsync` | crates/pedradb-core/src/async_pool_decoupling_kernel.rs:102-133 | the next ticket goes to the end of the queue, or the call is refused and nothing changes |
| `CommitScheduler.DecoupledCommitScheduler.DrainForIoWorker` | crates/pedradb-core/src/async_pool_decoupling_kernel.rs:136-140 | the front of the queue, at most the batch size, leaves it in order |
| `CommitScheduler.DecoupledCommitScheduler.AcknowledgeCommittedBatch` | crates/pedradb-core/src/async_pool_decoupling_kernel.rs:144-165 | accepts if and only if the ids rise strictly from above the mark; a refusal names the first ticket that does not and moves nothing |
| `CommitScheduler.NextBatchRises` | crates/pedradb-core/src/async_pool_decoupling_kernel.rs:144-165 | the next batch in drain order starts right above the highest committed ticket and lifts it by its length |
| `CommitScheduler.StepKeepsInv` | crates/pedradb-core/src/async_pool_decoupling_kernel.rs:102-165 | every step keeps the history consecutive and the mark at the end of the acknowledged batches |
| `CommitScheduler.HistoryIsFifo` | crates/pedradb-core/src/async_pool_decoupling_kernel.rs:102-140 | in every reachable state the drained batches followed by the queue are exactly tickets 1 to next - 1 |
| `CommitScheduler.HistoryOnlyAppends` | crates/pedradb-core/src/async_pool_decoupling_kernel.rs:107-140 | no step touches the history, except that an accepted submit appends the ticket numbered by its place; a refused one takes no ticket |
| `CommitScheduler.QueueBounded` | crates/pedradb-core/src/async_pool_decoupling_kernel.rs:90-140 | over every run the queue never holds more than its depth, which is at least 1 |
| `CommitScheduler.SubmitAcceptedExactly` | crates/pedradb-core/src/async_pool_decoupling_kernel.rs:102-133 | in every reachable state a submit is accepted if and only if it has bytes, the queue is below its depth and tickets are left |
| `CommitScheduler.DrainTakesExactly` | crates/pedradb-core/src/async_pool_decoupling_kernel.rs:136-140 | a drain takes as many as it asks for or there are, from the front, and leaves the rest in order |
| `CommitScheduler.AcknowledgeNeverFails` | crates/pedradb-core/src/async_pool_decoupling_kernel.rs:144-165 | in drain order an acknowledgement never fails |
| `CommitScheduler.CommittedExactly` | crates/pedradb-core/src/async_pool_decoupling_kernel.rs:168-170 | a ticket counts as committed if and only if it was in an acknowledged batch |
| `CommitScheduler.OutOfOrderLosesBatch` | crates/pedradb-core/src/async_pool_decoupling_kernel.rs:144-165 | drain order is needed: acknowledging any later batch first makes the skipped tickets count as committed and their own acknowledgement fail |
| `PartitionFencing.FencingKernel.TryNew` | crates/pedradb-core/src/asymmetric_partition_fencing_kernel.rs:104-127 | refuses zero nodes and a zero id, else a node that meets the run invariant |
| `PartitionFencing.FencingKernel.AdvanceOurSeq` | crates/pedradb-core/src/asymmetric_partition_fencing_kernel.rs:130-133 | the sequence saturates upwards by one |
| `PartitionFencing.FencingKernel.AdvanceTick` | crates/pedradb-core/src/asymmetric_partition_fencing_kernel.rs:136-138 | the tick saturates upwards |
| `PartitionFencing.FencingKernel.RecordPeerHeartbeat` | crates/pedradb-core/src/asymmetric_partition_fencing_kernel.rs:145-189 | refusals in order, else the sender's link and the tick take the larger values |
| `PartitionFencing.FencingKernel.ActiveSymmetricPeers` | crates/pedradb-core/src/asymmetric_partition_fencing_kernel.rs:211-219 | the loop counts the peers that are symmetric and healthy |
| `PartitionFencing.FencingKernel.IsWriteAdmitted` | crates/pedradb-core/src/asymmetric_partition_fencing_kernel.rs:224-236 | admitted if and only if the node and its healthy peers are more than half of all nodes |
| `PartitionFencing.PeersWithinCluster` | crates/pedradb-core/src/asymmetric_partition_fencing_kernel.rs:145-189 | in every reachable state at most total - 1 peers are recorded, never the node itself nor id zero, none seen later than now |
| `PartitionFencing.LinksAreMaxima` | crates/pedradb-core/src/asymmetric_partition_fencing_kernel.rs:172-186 | over every run a peer is recorded if and only if a heartbeat of it was accepted, and each link field is the maximum ever reported |
| `PartitionFencing.AdmittedExactly` | crates/pedradb-core/src/asymmetric_partition_fencing_kernel.rs:192-236 | writes are admitted if and only if some distinct peers, each both fresh and acknowledged within the lag, are with the node more than half of all nodes |
| `PartitionFencing.AdmittedIsMajority` | crates/pedradb-core/src/asymmetric_partition_fencing_kernel.rs:104-236 | writes are admitted if and only if the nodes missing beside the node and its healthy peers are fewer than half of all |
| `PartitionFencing.AdmittedSidesMeet` | crates/pedradb-core/src/asymmetric_partition_fencing_kernel.rs:116-236 | no split brain: of two nodes of one cluster that both admit writes, with the healthy peers of each on its side, some node is on both sides |
| `PartitionFencing.HeartbeatCounts` | crates/pedradb-core/src/asymmetric_partition_fencing_kernel.rs:145-189 | a heartbeat is taken if and only if its sender is neither zero nor the node, its sequence is not zero and the sender is known or there is room; then its values count, and no other peer changes |
| `PartitionFencing.OnlySenderImproves` | crates/pedradb-core/src/asymmetric_partition_fencing_kernel.rs:145-208 | only a heartbeat improves a status, only its sender's, and never worsens that |
| `PartitionFencing.NotRegainedWithoutHeartbeat` | crates/pedradb-core/src/asymmetric_partition_fencing_kernel.rs:130-138 | without a heartbeat no peer becomes healthy and lost admission stays lost |
| `ArenaKernel.GenerationCountsRecycles` | crates/pedradb-core/src/arena_generational_aba_kernel.rs:129-138 | over every run a page's generation is its first one plus the successful recycles, so it never wraps or repeats |
| `ArenaKernel.EveryRecycleCounts` | crates/pedradb-core/src/arena_generational_aba_kernel.rs:129-138 | over every run every recycle call succeeds until the generation is exhausted, and none after |
| `ArenaKernel.ReadSucceedsExactly` | crates/pedradb-core/src/arena_generational_aba_kernel.rs:210-248 | a pointer reads its length if and only if its page has not been recycled since, and otherwise is refused as stale |
| `ArenaKernel.BytesSurvive` | crates/pedradb-core/src/arena_generational_aba_kernel.rs:173-259 | bytes neither recycled nor overlapped stay as written over any run |
| `ArenaKernel.PointerKeepsItsBytes` | crates/pedradb-core/src/arena_generational_aba_kernel.rs:173-248 | over every later run a recycled page makes a pointer stale at any length; until then, and unless overlapped, it reads exactly what was written |
| `ArenaKernel.LastWriteIsLast` | crates/pedradb-core/src/arena_generational_aba_kernel.rs:129-207 | the last write of a byte that was not cleared away fell into the present incarnation and nothing wrote the byte since |
| `ArenaKernel.ByteOrigin` | crates/pedradb-core/src/arena_generational_aba_kernel.rs:129-207 | every byte after any run is what its last write in the present incarnation put there, else zero once recycled, else the initial byte |
| `ArenaKernel.NoForeignBytes` | crates/pedradb-core/src/arena_generational_aba_kernel.rs:129-248 | over every run, with any overlap and any reuse, each byte read through a pointer, at any length, was written in that pointer's own incarnation, or none was and it is zero |
| `ArenaKernel.IncarnationsDiffer` | crates/pedradb-core/src/arena_generational_aba_kernel.rs:173-207 | pointers into one page differ in generation by the recycles between them |
| `ArenaKernel.ArenaMemoryPage.TryNew` | crates/pedradb-core/src/arena_generational_aba_kernel.rs:108-117 | a page of its own zeroed memory in generation 1, or a refusal if no bytes were asked for |
| `ArenaKernel.ArenaMemoryPage.TryRecyclePage` | crates/pedradb-core/src/arena_generational_aba_kernel.rs:129-138 | the page becomes its zeroed next incarnation, or at the last generation is refused and stays |
| `ArenaKernel.GenerationalArena.TryNew` | crates/pedradb-core/src/arena_generational_aba_kernel.rs:153-165 | refuses no pages and no capacity, else separate fresh pages |
| `ArenaKernel.GenerationalArena.AllocateAt` | crates/pedradb-core/src/arena_generational_aba_kernel.rs:173-207 | the data is written into that page alone and its generation goes into the result, or the refusal changes nothing |
| `ArenaKernel.GenerationalArena.ReadPtr` | crates/pedradb-core/src/arena_generational_aba_kernel.rs:210-248 | reads through a pointer exactly as specified, error for error |
| `ArenaKernel.GenerationalArena.TryRecyclePage` | crates/pedradb-core/src/arena_generational_aba_kernel.rs:251-259 | recycles that page alone, error for error |
| `BidiCursor.SeekLands` | crates/pedradb-core/src/bidi_iterator_reversal_kernel.rs:133-143 | over sorted items a seek lands on the least key at or above its target |
| `BidiCursor.SeekForPrevLands` | crates/pedradb-core/src/bidi_iterator_reversal_kernel.rs:146-157 | over sorted items a seek-for-prev lands on the greatest key at or below its target |
| `BidiCursor.PartitionCounts` | crates/pedradb-core/src/bidi_iterator_reversal_kernel.rs:135-148 | a partition point is the number of keys below the bound |
| `BidiCursor.RefinesPosition` | crates/pedradb-core/src/bidi_iterator_reversal_kernel.rs:133-262 | over non-empty sorted items any run of seeks by key, next and prev refines a single position clamped to -1..n, on which a seek counts the keys below its target |
| `BidiCursor.TurningUndoes` | crates/pedradb-core/src/bidi_iterator_reversal_kernel.rs:188-262 | once positioned, prev undoes next below the end and next undoes prev above the start |
| `BidiCursor.EmptyStandsStill` | crates/pedradb-core/src/bidi_iterator_reversal_kernel.rs:188-191 | with no items the refinement fails, so it needs non-empty items |
| `BidiCursor.PartitionPoint` | crates/pedradb-core/src/bidi_iterator_reversal_kernel.rs:135-148 | binary search stays within the items, and on partitioned ones finds the end of the leading run |
| `BidiCursor.Validate` | crates/pedradb-core/src/bidi_iterator_reversal_kernel.rs:78-102 | accepts if and only if the keys are non-empty and strictly sorted; a refusal names a true reason |
| `BidiCursor.BidiCursorStateMachine.constructor` | crates/pedradb-core/src/bidi_iterator_reversal_kernel.rs:106-112 | a neutral cursor nowhere |
| `BidiCursor.BidiCursorStateMachine.SeekTo` | crates/pedradb-core/src/bidi_iterator_reversal_kernel.rs:133-143 | faces forward within bounds; on sorted items lands on the least key at or above the target or past the end |
| `BidiCursor.BidiCursorStateMachine.SeekForPrevTo` | crates/pedradb-core/src/bidi_iterator_reversal_kernel.rs:146-157 | faces backward within bounds; on sorted items lands on the greatest key at or below the target or before the start |
| `BidiCursor.BidiCursorStateMachine.SeekToFirst` | crates/pedradb-core/src/bidi_iterator_reversal_kernel.rs:160-169 | on the first item, if any, facing forward |
| `BidiCursor.BidiCursorStateMachine.SeekToLast` | crates/pedradb-core/src/bidi_iterator_reversal_kernel.rs:172-182 | on the last item, if any, facing backward |
| `BidiCursor.BidiCursorStateMachine.NextItem` | crates/pedradb-core/src/bidi_iterator_reversal_kernel.rs:188-222 | one step on, turning where needed, and the item there |
| `BidiCursor.BidiCursorStateMachine.PrevItem` | crates/pedradb-core/src/bidi_iterator_reversal_kernel.rs:228-262 | one step back, turning where needed, and the item there |

## Left out

- The engine around the kernels (`Db`, `ConcurrentDb`, files, threads), the scripts, benches and examples.
- The other kernels of the crate: each is a single guard, a field validation or a fixed-width copy, with no behaviour over several calls.
- The `_as_is` and `_mut_` variants, `Display` output, telemetry counters and lock poisoning; the latch counters are modelled.
- The environment switch that turns bulk ingest off.
- Weak-memory effects: each atomic call is one step, and the mutex around cached Bloom parts is not a step of its own.
- Hash quality and false-positive rates: the hash pair is an arbitrary function of the key.
- Sharing between clones of a Bloom filter: each object has its own cache.
- Machine limits on diagnostic counters, sequence lengths and vector capacities, which are unbounded here; every width that decides a result is modelled.
- The byte layer of the lockfile: a payload is text or not UTF-8, and the reasons inside a malformed-token error are not distinguished.
- The record count check after decoding, which cannot fail, and the overflow error of a slice end beyond the address space.
- The unchecked `record_insertion`, `mark_flushed`, `recycle_page` and the `try_` wrappers that only turn an empty result into an error.
- The shutdown refusal of the scheduler is modelled, but no source operation sets the flag, so no run reaches it.
- Whether an elected leader's own payload is eventually committed: nothing in the kernel commits it.
- `evaluate_*` and `calculate_smooth_pacing_delay`: single threshold functions.
- BidiCursor.BidiCursorStateMachine.SeekTo: on unsorted items says only that the cursor stays within them, because the library's partition search promises no particular place there.
- BidiCursor.BidiCursorStateMachine.SeekForPrevTo: the same.
- IoPacer.PatientCallerBound: is for delays that fit u64, because the source cuts a longer one and the bound is then false (IoPacer.CutDelayBreaksBound; IoPacer.DeficitCovered is exact for one request); a change of rate during a run is not part of the conservation results.
- BloomParts.AssembledNeverAbsent: is for builders whose encodings fit their u32 length field, as all built ones do; only a decoded filter within 12 bytes of 4 GiB would not.
- BloomParts.AssembledAnswers: the same.
- BloomParts.InsertedBuildersNeverAbsent: the same.
- BloomParts.LifeAnswers: the same.
- IoPacer.NeverFarBehind: is for runs whose clock does not go back and whose grants fit u64; IoPacer.RefillExactly says that the second is needed.
- IoPacer.IdealServes: the same.
- BloomBudget.GrantedExactly: is for key counts that add up in u64; where the sum wraps, BloomBudget.ComputeAllocations follows the wrapped sum.
- PartitionFencing.AdmittedSidesMeet: is for two nodes that know the same set of ids; each node believes the ids it is told.
- RecordFormat.OnlyWholeEncodingDecodes: states that the bytes are refused, not with which error.
