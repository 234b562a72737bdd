# A verified model of the kvstore engine

This project models the storage core of a networked key-value store written in Go and proves,
for all inputs and all runs, what that core promises: acknowledged writes survive a crash,
recovery rebuilds what was in memory, the sharded store answers like a naive map, timers fire
exactly once and when they should, the shard's indices never disagree, and every format is read
back as it was written.

`dafny verify dfyconfig.toml` checks everything.

## How the pieces fit

The log. `WalRecord`, `WalScan` and `WalReplay` model the record codec, the segment scanner and
recovery. `WalWriter` is the step system of the log on a disk that can fail: submit, gather,
rotate, create, write, fsync, acknowledge, checkpoint, prune, crash, tear, lose and recover, in
any order the code allows. Its main theorems are `Durability` and `AcknowledgedIsRecovered`.
`GroupCommit` is the writer's code with its fields and loops; each of its methods is proved to be
a run of that step system, so a crash between any two of its statements is covered.

The store. `Shards` is one shard with its map, two swap-with-last slot arrays, intrusive LRU list
and byte counter, changed in place; `Expiry` has the purge and sweep loops; `Stores` routes keys
to shards. `References` is the naive store. `Refinement` shows that requests and background expiry
commute as far as a client can see, and `Differential` drives a store object and a reference
object side by side through any schedule of requests, halves of reads, late reaps, purges, sweep
cycles and timers. `Wheel` is the hierarchical timing wheel against a plain map from timers to
ticks, and `WheelExpirer` the wheel and the store together. `MemoryLimit` relates a store under a
memory limit to the keyspace it would have without one.

The engine. `WritePath` is the concurrent write path as interleaved steps. `RangeScan` is the
batched iteration that feeds snapshots, `Snapshots` the snapshot file, `Recovery` the theory of
a snapshot taken while writers go on plus a replayed log, `Checkpoints` the theory of a scan of
all shards with writes between its batches, `LiveCheckpoints` that scan run on a store object with
the writes executed, and `Engine` the start-up and checkpoint code that uses all of them.
`CrashRecovery` goes from any run of the log's step system, cut by a crash, to what start-up
leaves in the store for an acknowledged write. `Commands` is the write commands with their TTLs and
the records they queue, and ends with what a client can count on: a command that was acknowledged
is there after the restart, for as long as its TTL lasts.

`Histograms` and `Protocol` are the benchmark's histogram and the wire formats. `Bytes` and
`Crc32c` are what the formats are built from; CRC-32C is modelled bit by bit with the polynomial
of section 12.1 of RFC 3720.

## What turned out to be conditional

Ten things one might expect hold only under a condition. For each there is a member that states
the exact condition, or that says in full what happens otherwise.

- Replay uses the recovery clock for EXPIRE, so a key extended in time can be lost:
  `Recovery.LateReplayDrops`. It is recovered exactly when every deadline an EXPIRE supersedes,
  with no later SET or DELETE of the key, is 0 or still ahead at replay: `Recovery.RecoveryIff`,
  and from the batches of the scan on, `Engine.CheckpointedKeyspaceIff`.
- Recovery can truncate a segment to offset 0, and resuming there loses what is appended next.
  Appending after a resume is safe exactly when the offset is past the header:
  `WalReplay.ResumeIsSafeIff`. One crash while the first segment is being made leads there
  (`GroupCommit.UnsafeIsReachable`), and from any such state every record has a run that
  acknowledges it and is refused at the start after that (`GroupCommit.UnsafeRecoveryLosesAck`).
- Pruning below a snapshot changes nothing about a recovery from it, unless the first faulty
  segment is among those pruned. Then a log that was refused is recovered as the rest is, and with
  unsafe truncation the outcome stays the same exactly when the rest holds nothing above the
  snapshot: `WalReplay.PruneIsInvisible`, and an input in `WalReplay.PruneUncovers`.
- Falling back to an older snapshot after pruning silently replays a log with a gap. Nothing is
  lost exactly when the pruned segments held nothing above the older snapshot: `WalReplay.GapIff`.
  A key is not affected if the snapshot shows it after the gap, the rest of the log sets or deletes
  it, or nothing in the gap touches it: `Recovery.FallbackIff`. Otherwise it can be:
  `Recovery.GapLoses`.
- A removal between two batches of an iteration can hide an entry that was never touched: it
  frees a slot already passed, and the entry of the last slot moves there. That entry is missed
  exactly when it is expired, or the freed slot had been passed and no batch before had emitted
  it: `RangeScan.RemovalHidesIff`, with 300 entries in `RangeScan.HiddenEntry`. Any number of
  removals from slots not yet passed hide nothing: `RangeScan.ScanCovers`.
- An iteration, even of a store at rest, can deliver a key twice: a batch that skips expired entries
  reads on into the next batch's slots. No key is delivered twice exactly when no slot is live in a
  later group of 256 than one that has expired: `RangeScan.OnceIff`, with 257 slots in
  `RangeScan.DeliveredTwice`.
- A TTL of up to 2^50 ms is kept to exactly when the clock's reading and the TTL add up to less than
  2^64: `Engine.DeadlineKeptIff`.
- A snapshot may show writes whose log records a crash then cuts off. A key it showed no later
  than the cut, or that what is left of the log sets or deletes, comes back as memory had it at
  the cut; any other comes back with the value shown and the last deadline replayed:
  `Recovery.CutOffKey`. So an EXPIRE that survives in front of a SET that does not gives a cell
  that never was in memory: `Recovery.CutOffMix`.
- A timer can come out before its deadline exactly when its fire tick begins before it:
  `Wheel.EarlyIff`, with one such timer in `WheelExpirer.EarlyTimer`. The wheel removes a key
  exactly when, for one of its timers, the first reading that brings the timer out is at or past
  the deadline; timers that come out before leave the key to reads and purges:
  `WheelExpirer.RunMany`.
- The send made under a shard lock always finds room exactly when the queue is at least 64 deep:
  `WritePath.RoomIff`.

Where code and documentation differ, the model follows the code: the snapshot checksum covers the
footer's magic and count as well; the snapshot header's reserved bytes are not checked on load;
frame flags are checked before the reserved field; "exact LRU" order is the order of last set,
since reads only stamp a field; a wheel timer that fires early is dropped, not rescheduled.

## Assumptions

- Disk: a crash keeps, of every file, some byte prefix at least as long as what was last synced;
  a new directory entry may be lost until the directory is synced. No I/O errors, fsync policy
  "always".
- A crash is a power loss: what the next start finds is on stable storage, so recovery treats
  file contents and directory entries as synced. A process killed between writing and syncing,
  restarted, and only then followed by a power loss is not covered.
- Log sequence numbers stay below 10^16, slot counts below 2^31, counters below 2^64, and key plus
  value lengths below 4 GiB less the fixed overhead, where the code narrows to 32 bits.
- The wall clock does not run backwards, and reads less than 2^64 - 2^50 ms.
- Hashing is any function and random sampling is any choice; clocks, timers, the time budget and
  the socket's short writes are parameters.

## Model

| member | source | states |
|---|---|---|
| Bytes.FromLEofLE | internal/protocol/command.go:316-328 | reading a little-endian integer of any width gives back every number that fits |
| Bytes.LEofFromLE | internal/protocol/command.go:56-84 | every byte string is the encoding of the number it reads as, so encodings are unique |
| Bytes.LEDigits | internal/wal/record.go:110-134 | integers of two, four and eight bytes are written as their digits to base 256, the lowest first |
| Crc32c.UpdateConcat | internal/snapshot/read.go:195-213 | checksumming in chunks equals checksumming in one go, from any running value |
| Crc32c.CheckValue | internal/wal/record.go:44-48 | the checksum of the byte 0x7F is 0x7DF63B78, which fixes every bit of the polynomial and the inversions before and after |
| Crc32c.BurstDetected | internal/wal/record.go:158-178 | any change confined to at most four adjacent bytes changes the checksum, in a message of any length |
| Crc32c.Residue | internal/snapshot/read.go:95-122 | bytes followed by their own checksum leave the register in one and the same state, whatever they are |
| Crc32c.BrokenSeal | internal/snapshot/read.go:95-122 | after a change within four adjacent bytes, also one that straddles the checksum, the last four bytes are no longer the checksum of the rest |
| WalRecord.AppendRecord | internal/wal/record.go:110-134 | filling the header in place and appending key and value yields the record's encoding after what was there |
| WalRecord.PayloadFields | internal/wal/record.go:18-31 | where every field of a record is: LSN at 0, creation time at 8, type at 16, flags at 17, key length at 18, value length at 20, deadline at 24, key and value from 32 on |
| WalRecord.DecodeOfEncode | internal/wal/record.go:110-210 | decoding any encoded record, whatever follows it, gives the record back |
| WalRecord.EncodeOfDecode | internal/wal/record.go:158-210 | whatever decodes is the encoding of a valid record, so only written bytes are accepted |
| WalRecord.PayloadDamageRefused | internal/wal/record.go:158-178 | a change to at most four adjacent payload bytes is refused as a checksum error |
| WalRecord.CrcDamageRefused | internal/wal/record.go:158-178 | any change of the stored checksum is refused |
| WalScan.ScanSegment | internal/wal/reader.go:67-182 | the scan loop computes the scan function: records, first LSN, last good offset and fault |
| WalScan.ScanRecordsSound | internal/wal/reader.go:90-181 | the records delivered are exactly the bytes before the stop; the end is healthy only at the end of the file and torn only where a record is cut off |
| WalScan.ScanOfSound | internal/wal/reader.go:67-182 | a scan that gets past offset 0 has read a valid header and exactly the records after it |
| WalScan.ScanPrefix | internal/wal/reader.go:90-181 | scanning any byte prefix of a written segment delivers exactly the records wholly inside it, stops at the last boundary, and reports no fault or a torn tail, never corruption |
| WalScan.ScanComplete | internal/wal/reader.go:67-182 | a whole written segment scans to its records without a fault |
| WalScan.ScanAppend | internal/wal/segment.go:155-165 | appending encoded records to a healthy segment appends them to its scan |
| WalScan.ScanHeaderless | internal/wal/reader.go:154-159 | a segment that starts with a data record is corrupt at offset 0 |
| WalReplay.ApplyRecords | internal/wal/recover.go:67-84 | the callback applies exactly the records above the snapshot and tracks the highest LSN |
| WalReplay.Replay | internal/wal/recover.go:53-138 | the loop over segments computes the replay function and leaves the directory truncated as it says, or untouched when it refuses |
| WalReplay.ReplayIdempotent | internal/wal/recover.go:53-138 | replaying what a replay left applies the same records and leaves everything as it is |
| WalReplay.NextLSNIsFresh | internal/wal/recover.go:53-138 | the next LSN exceeds the snapshot's and that of every applied record |
| WalReplay.ResumeIsSafeIff | internal/wal/segment.go:126-153 | after a resume and any appends, replay gives the old records followed by the new ones if and only if the resume offset was past the header |
| WalReplay.TruncateBelow | internal/wal/recover.go:178-201 | removes the longest initial run of segments whose successors all start at or below the record after the snapshot, and never the last segment; the one it stops at starts above |
| WalReplay.PruneIsInvisible | internal/wal/recover.go:178-201 | for every log with increasing LSN ranges and either setting of unsafe truncation: removing any initial run of covered segments changes nothing replay reports, success or refusal, if the first fault is not among them; if it is, a refusal goes away with it, and under unsafe truncation the same records are applied exactly when the rest holds nothing above the snapshot |
| WalReplay.PruneUncovers | internal/wal/recover.go:178-201 | an empty segment in front of one with a record: refused before pruning, recovered after it, and with unsafe truncation nothing before and the record after |
| WalReplay.GapIff | internal/wal/recover.go:53-138 | with segments at the front gone, recovery from any snapshot succeeds or is refused as with them, and gives the same exactly when they held nothing above that snapshot |
| WalWriter.SubmitKeeps | internal/wal/writer.go:235-271 | numbering and queueing a record in one step keeps the writer invariant |
| WalWriter.GatherKeeps | internal/wal/writer.go:284-327 | taking, accumulating and the decision to rotate keep it |
| WalWriter.CreateFileKeeps | internal/wal/segment.go:101-121 | a new segment's name, the LSN of its first record, is above every existing one and its links and contents keep the invariant |
| WalWriter.SyncEntryKeeps | internal/wal/segment.go:101-121 | the directory sync keeps it |
| WalWriter.WriteKeeps | internal/wal/writer.go:329-382 | writing a batch keeps it: the file's records are still the log's |
| WalWriter.SyncKeeps | internal/wal/writer.go:329-382 | the fsync keeps it, and only then is the batch durable |
| WalWriter.FinishKeeps | internal/wal/writer.go:84-93 | completing a commit keeps it: only durable records are acknowledged |
| WalWriter.CheckpointKeeps | internal/engine/commands.go:324-368 | raising the snapshot LSN to a durable one keeps it |
| WalWriter.UnlinkKeeps | internal/wal/recover.go:178-201 | removing a covered segment keeps it |
| WalWriter.LoseKeeps | internal/wal/segment.go:101-121 | losing a directory entry that was not synced in a crash keeps it |
| WalWriter.TearKeeps | internal/wal/segment.go:155-165 | tearing a file down to any length at least the synced one in a crash keeps it |
| WalWriter.RecoverKeeps | internal/wal/writer.go:180-216 | recovering and reopening keeps it, when the resume offset is past the header |
| WalWriter.StepKeeps | internal/wal/writer.go:235-410 | every step of the system keeps the invariant |
| WalWriter.RunKeeps | internal/wal/writer.go:235-410 | so does every run |
| WalWriter.ReplayOfCrash | internal/wal/recover.go:53-138 | on every crashed disk the invariant allows, replay succeeds and applies the log from the snapshot up to some point at or past every durable record |
| WalWriter.Durability | internal/wal/writer.go:235-410 | for every run, with any number of crashes and recoveries that resume past a header, cut by a crash at any point, replay succeeds without unsafe truncation and yields a prefix of the submitted records in LSN order that holds every acknowledged one |
| WalWriter.RunKeepsAcked | internal/wal/writer.go:84-93 | no later step, crash or recovery takes an acknowledgement back or changes an acknowledged record |
| WalWriter.AcknowledgedIsRecovered | internal/wal/recover.go:53-138 | a record acknowledged at any point of a run is, unchanged, what recovery finds after any crash later on, unless a snapshot covers it |
| GroupCommit.Writer.Submit | internal/wal/writer.go:235-271 | is the submit step; the record goes to the end of queue and log with the LSN returned |
| GroupCommit.Writer.Accumulate | internal/wal/writer.go:284-327 | with submissions arriving meanwhile, the accumulation loop is a run of submit and gather steps; batch and queue together are what was queued and what came, in order; a receive takes one record whenever there is one, and the loop ends only at the timer or the batch limit |
| GroupCommit.Writer.Serialise | internal/wal/writer.go:329-382 | the batch buffer is the concatenation of the records' encodings |
| GroupCommit.Writer.RotateSegment | internal/wal/writer.go:392-410 | rotation is the run sync, create, write header, sync header, sync directory, and keeps the invariant |
| GroupCommit.Writer.WriteBatch | internal/wal/writer.go:329-382 | one write appends the encodings of exactly the batch to the last segment |
| GroupCommit.Writer.WriteAndSync | internal/wal/writer.go:329-382 | one write and one fsync, a run that makes exactly the batch durable |
| GroupCommit.Writer.Acknowledge | internal/wal/writer.go:84-93 | commits finish one by one and in order, only after the batch is durable |
| GroupCommit.Writer.FlushBatch | internal/wal/writer.go:329-382 | a whole flush is a run from gathered to idle that acknowledges the last record of the batch and loses nothing queued; it makes a new segment exactly when the last one has reached the segment size |
| GroupCommit.WritesGetAcknowledged | internal/wal/writer.go:235-410 | from an empty directory any record can be submitted and acknowledged, so the step system does get somewhere |
| GroupCommit.UnsafeIsReachable | internal/wal/segment.go:101-121 | an empty directory, a segment file created and a crash: recovery succeeds and resumes at offset 0 |
| GroupCommit.UnsafeRecoveryLosesAck | internal/wal/segment.go:126-153 | from every state in which recovery succeeds but resumes at offset 0, any record can be acknowledged next so that the start after that refuses the log |
| GroupCommit.AcknowledgedIsRefused | internal/wal/writer.go:180-216 | so, from an empty directory and for every record, acknowledged does not imply recovered once a recovery may resume at offset 0 |
| Wheel.NeverATickEarly | internal/store/wheel.go:68-73 | a timer comes out less than one tick before its deadline, and not before it if the deadline is on a tick |
| Wheel.FiresInTime | internal/store/wheel.go:84-102 | a timer fires after the tick it is added at and not before its target, at most one tick after the later of the two, and at its target if that is less than 256 ticks ahead or no multiple of 256 |
| Wheel.NeverATickLate | internal/store/wheel.go:68-102 | a timer added ahead of its tick is due once the clock is a tick past the deadline |
| Wheel.EarlyIff | internal/store/wheel.go:68-73 | some reading before the deadline brings the timer out if and only if its fire tick begins before the deadline |
| Wheel.ParkedAhead | internal/store/wheel.go:84-102 | the level and slot arithmetic places a timer in a bucket whose next turn is its own |
| Wheel.TurnIsExact | internal/store/wheel.go:120-134 | the turn of a bucket takes exactly the timers whose unit begins at that tick |
| Wheel.CascadeKeepsFireTick | internal/store/wheel.go:125-133 | coming down a level does not change when a timer fires |
| Wheel.Wheel.AddLocked | internal/store/wheel.go:84-102 | a timer within reach is scheduled for its target tick, one later if it comes down exactly at a multiple of 256, or the next tick if already due; otherwise it goes to the overflow list |
| Wheel.Wheel.Add | internal/store/wheel.go:76-82 | the same for a new timer, which is counted once |
| Wheel.Wheel.Cascade | internal/store/wheel.go:125-133 | emptying a higher bucket leaves the schedule as it was |
| Wheel.Wheel.Tick | internal/store/wheel.go:114-141 | one tick returns exactly the timers scheduled for it |
| Wheel.Wheel.SweepOverflow | internal/store/wheel.go:143-154 | overflow timers now within reach join the schedule, the others stay in order |
| Wheel.Wheel.Advance | internal/store/wheel.go:107-158 | returns, once each, exactly the timers whose fire tick has come; everything else stays scheduled; the pending count is exact and every timer ever added is scheduled, in overflow or returned, and only one of these |
| Wheel.AdvanceMeans | internal/store/wheel.go:107-158 | timer by timer: exactly what was due by now came out, what is due later stays as it was, and an overflow timer comes into the wheel exactly when it is less than 2^40 ticks away |
| Shards.WeightRemove | internal/store/entry.go:71-73 | the accounted size of a keyspace does not depend on the order entries are counted in |
| Shards.Shard.AddSlot | internal/store/shard.go:94-103 | a new entry takes the last slot and the map, slots and back-indices still agree |
| Shards.Shard.RemoveSlot | internal/store/shard.go:105-115 | swap-with-last removal keeps slots a duplicate-free enumeration of the map with right back-indices |
| Shards.Shard.AddTtlSlot | internal/store/shard.go:128-134 | joining the TTL array keeps its indices right; a member already there stays where it is |
| Shards.Shard.RemoveTtlSlot | internal/store/shard.go:117-126 | leaving the TTL array by swap-with-last keeps its indices right, and is a no-op for a non-member |
| Shards.Shard.LruPushFront | internal/store/shard.go:138-148 | the pointers again form a doubly linked list, now with the entry in front |
| Shards.Shard.LruRemove | internal/store/shard.go:150-162 | unlinking anywhere in the list leaves a doubly linked list of the others in order |
| Shards.Shard.LruMoveToFront | internal/store/shard.go:164-170 | the entry moves to the front and the order of the others is kept |
| Shards.Shard.RemoveEntry | internal/store/shard.go:350-357 | exactly that key leaves the keyspace; every index and the byte counter stay right, and the LRU list is the old one without the entry |
| Shards.Shard.Insert | internal/store/shard.go:241-247 | a new entry joins every index it belongs in and goes to the front of the LRU list |
| Shards.Shard.Overwrite | internal/store/shard.go:204-226 | value, deadline and size change in place, TTL membership follows the deadline, and the entry moves to the front |
| Shards.Shard.PickVictim | internal/store/shard.go:305-347 | finds a victim if and only if something may be evicted: never the key being written, only keys with a deadline under the volatile policy; with exact LRU the least recently set one, and otherwise none of the entries drawn has gone unused for longer |
| Shards.Shard.PickTail | internal/store/shard.go:305-317 | the walk from the tail returns the last entry that may be evicted |
| Shards.Shard.PickSample | internal/store/shard.go:319-347 | the victim was accessed no later than any sample that may be evicted, and the linear fallback finds one if there is one |
| Shards.Shard.Evict | internal/store/shard.go:281-300 | takes only what the policy allows and at most the batch limit; before each victim the bytes left were still above the target, and it stops only at the target, the limit or when nothing is left; with exact LRU it takes precisely the least recently set |
| Shards.Shard.OldestFirst | internal/store/shard.go:305-317 | with exact LRU every evicted key was last set before every key that could have been evicted and was not |
| Shards.Shard.Admit | internal/store/shard.go:252-271 | says yes exactly when the write fits afterwards; evicts only if it does not fit before, and then just until low water less the bytes added (or 0) is reached, a batch is gone or nothing is left; refuses under allkeys-lru only after a full batch or with nothing else left |
| Shards.Shard.Set | internal/store/shard.go:200-248 | evicted keys go, no more than it takes to reach low water less what the write adds, then the write goes in if and only if the result fits the budget; a refusal under allkeys-lru means the entry exceeds the budget or a full batch was evicted; the written key is first in the LRU order and the rest keep theirs, so the list is always in order of last set; when nothing is evicted every entry keeps its slot; the whole index invariant and the memory bound hold |
| Shards.WeightCounts | internal/store/entry.go:68-73 | an entry adds the lengths of its key and value and 160 bytes to the accounted size, which is 0 for an empty keyspace |
| Shards.Shard.Get | internal/store/shard.go:181-194 | a hit is a live key with its cell, an expired key is a miss that asks for a reap, and nothing but the access stamp changes |
| Shards.Shard.Delete | internal/store/shard.go:359-366 | removes the key and reports whether it was there; the others keep their LRU order |
| Shards.Shard.Expire | internal/store/shard.go:369-383 | changes the deadline and nothing else, neither slots nor LRU order, and the TTL array follows |
| Shards.Shard.Reap | internal/store/shard.go:420-432 | removes the key if and only if it is still there and expired; the others keep their LRU order |
| Shards.Shard.Flush | internal/store/shard.go:434-440 | empties every index and the counter |
| Expiry.PurgeBatch | internal/store/expiry.go:178-198 | the backward pass skips nothing despite swap-with-last removal: below the batch limit it removed every expired entry, and never a live one; the LRU order of the rest is kept |
| Expiry.Purge | internal/store/expiry.go:176-203 | the batches end, leave exactly the live keyspace in its LRU order and count exactly the expired keys |
| Expiry.LiveOrDead | internal/store/entry.go:78-81 | a key is visible exactly until its deadline, or always without one, and every key is visible or dead |
| Expiry.Sweep | internal/store/shard.go:388-416 | samples as many entries as asked for or there are, removes every expired key among them, each once even if sampled twice, and no live one, keeps the LRU order of the rest, and counts exactly the samples that were dead; a positive count means the TTL array shrank |
| Expiry.SweepRounds | internal/store/expiry.go:122-139 | a round is repeated exactly while more than the threshold's share of its samples was dead and the time is not up; the loop ends without help from the time budget, takes nothing live, and the tally adds up the rounds |
| Expiry.RoundIsBusy | internal/store/expiry.go:136-138 | the division the code makes compares the number of dead samples with the threshold's share of all, and a round that is repeated had some |
| References.Reference.Live | internal/store/reference.go:35-45 | an expired key is dropped when touched and reported missing |
| References.Reference.Do | internal/store/reference.go:47-118 | each request's answer and new state as the naive store gives them |
| Stores.Store.constructor | internal/store/store.go:143-190 | shards are distinct and empty; limit and low water are divided evenly, the limit never rounded to unlimited; low water stays under the budget |
| Stores.Store.Get | internal/store/store.go:303-323 | the locked read and separate reap together answer as the reference: found exactly if the key is there and its deadline is 0 or ahead, with the value stored; a key found dead is gone |
| Stores.Store.Peek | internal/store/store.go:303-313 | the locked half of a read answers and asks for a reap exactly when the key is there and expired, and changes no cell |
| Stores.Store.LateReap | internal/store/store.go:313-323 | the other half, at any later time, removes the key if and only if it is still there and expired by the reading the read was made with |
| Stores.Store.Exists | internal/store/store.go:364-377 | as the reference: true exactly if the key is there and its deadline is 0 or ahead |
| Stores.Store.TTL | internal/store/store.go:402-426 | as the reference: a positive answer is the very number of milliseconds after which the key is expired and not one less; -1 exactly for a key without a deadline, and 0 for a key that is missing or dead |
| Stores.Store.Delete | internal/store/store.go:345-361 | as the reference: the key is gone, and true means it was there with its deadline 0 or ahead |
| Stores.Store.Expire | internal/store/store.go:381-398 | as the reference: a key that is there keeps its value under the new deadline; an expired one is removed, not extended |
| Stores.Store.Set | internal/store/store.go:327-342 | as the reference if the key's shard has room for the result, every entry keeping its slot; otherwise only keys of that shard the policy lets go are evicted, all but one of them leave more than low water less what the write adds, and eviction stops short of that only with a batch gone or nothing left to take |
| Stores.NoNeedToEvict | internal/store/shard.go:252-271 | a write whose result is at or under low water evicts nothing |
| Stores.Store.MemoryBytes | internal/store/store.go:488-494 | the counters together are the accounted size of the whole keyspace and never exceed the limit, also where a shard's share was rounded up |
| Stores.WeightSum | internal/store/store.go:161-176 | the sizes of disjoint keyspaces add up |
| MemoryLimit.SetWithin | internal/store/store.go:327-342 | a write under a memory limit keeps the store a part of the keyspace there would be without one: only evicted cells are missing, each one its shard's policy lets go, and nothing is evicted while the whole keyspace fits |
| MemoryLimit.AllowedMeans | internal/store/shard.go:281-300 | with eviction off nothing is ever lost, and the volatile policy loses only cells that had a deadline when they went |
| MemoryLimit.RemainsAfter | internal/store/reference.go:47-118 | a later write meets the keys that are left as it would have met them without the limit |
| Stores.Store.PurgeExpired | internal/store/expiry.go:172-205 | over all shards, removes exactly the keys whose deadline is not 0 and not ahead of the sampled time, and returns their number |
| Stores.Store.PurgeRound | internal/store/expiry.go:178-198 | one batch of a purge takes only expired keys and counts them |
| Stores.Store.SweepRound | internal/store/shard.go:388-416 | one round of a sweep takes only expired keys, no more than it counted |
| Stores.Store.RunCycle | internal/store/expiry.go:118-149 | a sweep cycle ends, gives every shard a round unless the time budget runs out, takes nothing a client could still see, and what it took is no more than it counted as expired, and that no more than it sampled |
| Stores.Store.FireTimer | internal/store/wheel.go:236-277 | removes the key exactly if it still has the deadline the timer was made for, and that has passed |
| Stores.Store.RunOnce | internal/store/wheel.go:236-277 | removes exactly the expired keys that a due timer names with their current deadline, and counts them |
| WheelExpirer.RunOnce | internal/store/wheel.go:236-277 | wheel and store together: exactly the keys go whose current deadline has passed and for which a timer with that deadline came out, and a timer that came out is not scheduled any more |
| WheelExpirer.RunMany | internal/store/wheel.go:236-277 | over any readings of the clock, a key with a scheduled timer for its deadline is removed by the wheel if and only if, for one of its timers, the first reading that brings it out is at or past the deadline |
| WheelExpirer.EarlyTimer | internal/store/wheel.go:236-277 | with ticks of 10 ms a timer for 15 ms comes out at 10, and whatever readings follow the wheel never removes its key |
| Stores.Store.Range | internal/store/store.go:502-535 | over a store at rest, emits every live key with its cell and no expired one, and no key twice if and only if no shard has a live slot in a later group of 256 than an expired one |
| Refinement.SameLater | internal/store/entry.go:79-81 | keyspaces that look alike now look alike at every later time |
| Refinement.SameAfter | internal/store/reference.go:47-118 | what a request does to the visible keyspace depends on the visible keyspace alone |
| Refinement.Invisible | internal/store/shard.go:388-432 | sweeps, purges, timers and late reaps cannot be seen |
| Refinement.StoreRefinesReference | internal/store/store.go:303-426 | for every run of Get, Set, Delete, Exists, Expire and TTL on a keyspace with removals of expired keys and delayed reaps anywhere, the answers are those without them |
| Refinement.ReadThenReap | internal/store/store.go:303-323 | a read followed by its reap is one step of the reference |
| Differential.Drive | internal/store/store.go:303-426 | for every schedule of requests, locked reads without their reap, late reaps, purges, sweep cycles and wheel timers, each whole or one batch, round or timer at a time, the sharded store object gives the answers the reference object gives to the requests alone |
| RangeScan.ReadBatch | internal/store/store.go:508-519 | one locked batch is the batch function of the slots |
| RangeScan.Range | internal/store/store.go:502-535 | the batch loop computes the scan of a shard at rest |
| RangeScan.ScanSound | internal/store/store.go:508-529 | under any interleaving, every emission was in the shard, live, when its batch was read |
| RangeScan.ScanCovers | internal/store/store.go:502-535 | with additions, in-place changes and any removals from slots not yet passed between batches, a key that is there throughout is read at some batch, and emitted if live at that moment |
| RangeScan.GrowingIsSteady | internal/store/shard.go:94-103 | additions at the end and in-place changes never take an entry out of a slot already passed |
| RangeScan.RemovalHidesIff | internal/store/shard.go:105-115 | after a removal between batches the untouched entry of the last slot is missed if and only if it is expired, or the freed slot had been passed and the batches before had not emitted it |
| RangeScan.LiveRemovalHidesIff | internal/store/shard.go:105-115 | with nothing expired it is missed exactly when the freed slot had been passed |
| RangeScan.HiddenEntry | internal/store/shard.go:105-115 | 300 live entries, slot 0 removed after the first batch: the entry of slot 299 is never emitted |
| RangeScan.ScanRebuilds | internal/store/store.go:496-535 | storing what a scan at rest emits gives exactly the live keyspace, duplicates included |
| RangeScan.OnceIff | internal/store/store.go:502-535 | a scan at rest delivers no key twice if and only if no slot is live in a later group of 256 than one that has expired |
| RangeScan.DeliveredTwice | internal/store/store.go:502-535 | 257 slots, the first expired: a key is delivered twice |
| RangeScan.Collect | internal/store/store.go:502-535 | the loop on a shard at rest emits its live keyspace, each key once exactly under that condition |
| WritePath.StepKeeps | internal/engine/commands.go:122-163 | every step of every call keeps locks, numbering, flow and memory consistent |
| WritePath.MemoryIsLog | internal/engine/commands.go:133-144 | over every interleaving, each shard's memory is its log records applied in log order plus at most the one write still holding the lock, so per-key log order is memory order |
| WritePath.NumbersAreDense | internal/wal/writer.go:252-270 | under any memory limit refused writes take no log number, no number is given twice, and a call that has returned success is on disk |
| WritePath.QueueIsGated | internal/engine/commands.go:122-144 | the queue is never longer than the gate's occupancy, and shorter while a call is about to submit |
| WritePath.NeverStuck | internal/engine/commands.go:140-143 | queue length <= occupancy <= gate <= depth in every reachable state, so no submit under a lock has to wait |
| WritePath.RoomIff | internal/engine/engine.go:174-174 | with the engine's gate size, submits under a lock always find room if and only if the queue depth is at least 64 |
| Snapshots.Writer.constructor | internal/snapshot/write.go:93-117 | starts a file with the header and its checksum |
| Snapshots.Writer.Write | internal/snapshot/write.go:119-130 | the running checksum and length follow the file |
| Snapshots.Writer.Add | internal/snapshot/write.go:133-153 | appends the entry's encoding and counts it, or refuses one that is too long and changes nothing |
| Snapshots.Writer.Commit | internal/snapshot/write.go:157-198 | the finished file is the format's file for exactly the entries added, and a second commit is refused |
| Snapshots.CrcRange | internal/snapshot/read.go:195-213 | the chunked checksum is the checksum |
| Snapshots.ItemParts | internal/snapshot/write.go:24-29 | where everything is in an entry: key length at 0, value length at 2, deadline at 6, key and value from 14 on |
| Snapshots.FileParts | internal/snapshot/write.go:14-34 | where everything is in a file: magic, version, creation time and LSN in the header, magic, count and checksum in the footer |
| Snapshots.Load | internal/snapshot/read.go:82-193 | the two passes compute the load function, errors in the code's order |
| Snapshots.ReadItems | internal/snapshot/read.go:150-187 | the content loop reads the body entry by entry up to the first that cannot be |
| Snapshots.LoadInvertsFile | internal/snapshot/read.go:124-193 | loading any written file gives back its metadata and entries in order |
| Snapshots.GoodIsFile | internal/snapshot/read.go:82-193 | nothing else is accepted: the file is the writer's own up to the unchecked reserved bytes |
| Snapshots.DamageRefused | internal/snapshot/read.go:95-122 | a change to at most four adjacent bytes anywhere in a file that loads is refused before any entry is handed out |
| Snapshots.LoadFits | internal/snapshot/read.go:161-170 | whatever is handed out, accepted or not, respects the length limits |
| Recovery.SameStart | internal/engine/engine.go:298-315 | one key replayed from where memory stood is recovered if and only if it is dead or no EXPIRE is replayed over a passed deadline |
| Recovery.CarriedAgain | internal/engine/commands.go:316-323 | replaying writes the snapshot already shows changes nothing |
| Recovery.FuzzyStart | internal/engine/commands.go:316-368 | the same for a snapshot that saw the key some way into the replayed log |
| Recovery.RecoveryIff | internal/engine/engine.go:245-315 | snapshot plus replayed log gives the live keyspace of memory if and only if no live key has an EXPIRE replayed over a passed deadline, with expiry deletes never logged |
| Recovery.LateReplayDrops | internal/store/store.go:386-392 | for every deadline passed by recovery and extended before, the key is live in memory and lost by replay |
| Recovery.ScanIsFuzzy | internal/engine/commands.go:331-348 | a scan with writes between batches, none taking an entry out of a slot already passed, shows every key of its shard as memory had it at some point after the checkpoint's LSN was read |
| Recovery.CutOffKey | internal/engine/commands.go:324-353 | when a crash cuts the log short of what the snapshot shows: a key shown by then, or set or deleted in the rest, is as memory had it at the cut exactly under the EXPIRE condition; any other has the value shown with the last deadline replayed, and is as shown if nothing replayed touches it |
| Recovery.CutOffMix | internal/engine/commands.go:324-353 | otherwise value and deadline can come from different moments, for every value and deadline |
| Recovery.GapKey | internal/snapshot/read.go:225-242 | one key from an older snapshot and a log whose beginning is gone: under the EXPIRE condition as in memory if the gap does not matter for it; otherwise the value shown with the last deadline replayed |
| Recovery.FallbackIff | internal/snapshot/read.go:225-242 | the whole keyspace is as in memory, if the gap matters for no key, exactly under the EXPIRE condition |
| Recovery.GapLoses | internal/wal/recover.go:178-201 | a SET that only the newer snapshot and the pruned segments had is gone after the fallback |
| Checkpoints.CheckpointIsFuzzy | internal/engine/commands.go:331-348 | the scans of all shards together, each with its own interleaving, show every key as memory had it at some point since the checkpoint's LSN was read |
| Checkpoints.CheckpointRecoveryIff | internal/engine/engine.go:245-315 | such a checkpoint and the log above it give the live keyspace of memory if and only if no live key has an EXPIRE replayed over a passed deadline |
| LiveCheckpoints.ScanShard | internal/store/store.go:502-535 | the batch loop over a shard of a store object, with any writes, deletes and reclaims executed between batches, emits the scan of what the batches saw, each exactly the store's keys at that moment |
| LiveCheckpoints.Take | internal/store/store.go:496-535 | for any groups of SETs, DELETEs, EXPIREs and reclaims executed on the store between batches, what is emitted shows every key as it was at some point since the scan began, as long as no entry left a slot already passed; SETs, and EXPIREs that do not find their key expired, never make one leave |
| Recovery.SameLogSameReplay | internal/wal/recover.go:53-138 | replay depends on the log alone |
| Engine.DeadlineIsAhead | internal/engine/commands.go:109-118 | a key with a TTL is there at a moment if and only if that is before the TTL has passed, counted up to 2^50 ms; with TTL 0 it is there at every moment |
| Engine.DeadlineKeptIff | internal/engine/commands.go:109-118 | a TTL within the clamp is kept to if and only if clock and TTL add up to less than 2^64 |
| Engine.ApplyRecord | internal/engine/engine.go:300-315 | a SET record leaves exactly its value and deadline if it goes in, a DELETE record no such key, an EXPIRE record the value under the new deadline if the key is there and not expired at the recovery clock and otherwise no such key, a segment header nothing; other keys stay, but a SET may evict what the policy lets go, and nothing while everything fits |
| Engine.ApplyRecords | internal/engine/engine.go:273-279 | replaying records in order computes the replay function, less cells evicted as the policy allows, and nothing is altered; if there is room for everything replay goes through nothing is lost and nothing refused |
| Engine.LoadItems | internal/engine/engine.go:249-260 | storing a snapshot's entries in order computes the rebuilt keyspace up to the first entry refused, less cells evicted as the policy allows; with room for all nothing is lost or refused |
| Engine.LoadNewest | internal/snapshot/read.go:225-242 | the first file that loads with no entry refused is chosen, every newer one is bad or had an entry refused, and the store holds what the files tried have delivered, less cells evicted as the policy allows |
| Engine.HandedLast | internal/snapshot/read.go:225-242 | files refused before their entries leave no trace |
| Engine.RecoverLog | internal/engine/engine.go:273-296 | replay, apply and purge leave exactly the live part of the replayed keyspace, less cells evicted as the policy allows; with room for everything, or without a limit, it fails exactly when the log is refused |
| Engine.Recover | internal/engine/engine.go:245-296 | start-up leaves the live keyspace of what the snapshots tried delivered and the log above the chosen one's LSN, less cells evicted as the policy allows; the next LSN is above both; without a memory limit it fails exactly when every file is bad or that log is refused |
| Engine.RecoveredKeyspaceIff | internal/engine/engine.go:245-315 | what start-up leaves is the live keyspace of the run whose log it replayed, exactly under the EXPIRE condition |
| Engine.Snapshot | internal/engine/commands.go:324-353 | the checkpoint of a store at rest loads, and its entries rebuild exactly the live key, value and deadline map |
| Engine.SnapshotAtRestIsFuzzy | internal/engine/commands.go:324-353 | such a checkpoint shows every key as it was at the checkpoint's own LSN |
| Engine.SnapshotAmidWrites | internal/engine/commands.go:324-353 | a checkpoint with writes, deletes and reclaims landing between its batches loads, and as long as no entry left a slot already passed it shows every key as it was at some point since the scan began |
| Engine.CheckpointedKeyspaceIff | internal/engine/engine.go:245-315 | from what the batches saw to what start-up leaves: the live keyspace of the run, exactly under the EXPIRE condition, as long as no entry leaves a slot already passed |
| CrashRecovery.Reopen | internal/engine/engine.go:245-296 | after every run of the log's step system, cut by a crash, start-up on the surviving segments succeeds and leaves the snapshot with the log replayed up to a point at or past every acknowledged write |
| CrashRecovery.ReopenedKey | internal/engine/engine.go:245-296 | one key after start-up from a snapshot that shows memory and a log cut anywhere: as memory had it at the cut under the EXPIRE condition, or the value shown with the last deadline replayed |
| CrashRecovery.AcknowledgedSurvives | internal/engine/engine.go:245-296 | an acknowledged SET or DELETE that no later write touches is exactly what start-up leaves for its key, unless the cell has died, whether the snapshot or the log has it |
| Commands.Set | internal/engine/commands.go:47-68 | memory has the value under a deadline that is the TTL from the clock on, less what was evicted; the record queued is a SET with this key, value and deadline; nothing is queued if memory refuses |
| Commands.Delete | internal/engine/commands.go:71-84 | the key is gone, true means it was there and not expired, and the record queued is a DELETE of this key |
| Commands.Expire | internal/engine/commands.go:87-101 | a key that is there keeps its value under the TTL from the clock on; the record queued is an EXPIRE with this key and deadline, also if there was no such key |
| Commands.ReplayRedoes | internal/engine/engine.go:300-315 | replaying the record a command queued does to any keyspace what the command does |
| Commands.RunIsHistory | internal/engine/commands.go:122-163 | a history of commands and reclaims, as a run of the recovery model, leaves memory as the commands do |
| Commands.RunHasLog | internal/engine/commands.go:122-163 | the log of that run is the log the commands wrote, one record each |
| Commands.CommandSurvives | internal/engine/engine.go:245-315 | an acknowledged SET or DELETE no later command touches is what replay leaves for its key, wherever the crash cut the log after it and the snapshot was taken: the value exactly as long as the TTL lasts |
| Commands.Restart | internal/engine/engine.go:245-315 | the same of the store object, after every run of the log's step system cut by a crash, and start-up |
| Histograms.LeadingZeros64 | cmd/kvbench/histogram.go:230-240 | the shift loop counts the zeros above the highest set bit |
| Histograms.Bucket | cmd/kvbench/histogram.go:53-66 | the index computed is the bucket function and always in range |
| Histograms.BucketError | cmd/kvbench/histogram.go:53-76 | the reported value is the recorded one or below it by less than 1/64 of itself |
| Histograms.IndexMonotone | cmd/kvbench/histogram.go:53-66 | larger values never go to smaller buckets |
| Histograms.IndexOfValue | cmd/kvbench/histogram.go:69-76 | every bucket that can be hit reports a value of that bucket |
| Histograms.ScanFindsRank | cmd/kvbench/histogram.go:124-131 | the first bucket at which k samples have been seen is the bucket of the k-th smallest |
| Histograms.RankExists | cmd/kvbench/histogram.go:116-132 | for every rank in range there is a sample of that rank |
| Histograms.RankUnique | cmd/kvbench/histogram.go:116-132 | and only one |
| Histograms.Histogram.Record | cmd/kvbench/histogram.go:79-93 | counts, total, sum, minimum and maximum are those of the samples so far, negative durations counting as zero |
| Histograms.Histogram.Merge | cmd/kvbench/histogram.go:98-110 | merging equals having recorded both streams, also for a histogram merged with itself |
| Histograms.Histogram.Quantile | cmd/kvbench/histogram.go:116-132 | the answer is within 1/64 of a sample with a share of at least q of all samples up to it and less than that below it; 0 without samples and the maximum for q above 1 |
| Histograms.QuantileError | cmd/kvbench/histogram.go:116-132 | for every set of samples and quantile up to 1 the answer is that sample or below it by less than 1/64 |
| Histograms.TargetMeans | cmd/kvbench/histogram.go:120-123 | a sample has the rank asked for if and only if at least the share q of all samples is up to it and, unless it is the smallest, less than that below it |
| Protocol.DecodeOfEncode | internal/protocol/command.go:118-220 | decoding an encoded valid command gives it back, for every opcode |
| Protocol.EncodeOfDecode | internal/protocol/command.go:118-173 | a body that decodes is the encoding of the valid command it decodes to, so the codec is a bijection |
| Protocol.BodyLayout | internal/protocol/command.go:118-173 | the body each opcode takes, field by field and byte by byte, what is read from it, and that any other opcode is unknown |
| Protocol.Cursor.Num | internal/protocol/command.go:46-84 | a bounds-checked read either succeeds fully or fails for good and yields 0 |
| Protocol.Cursor.Take | internal/protocol/command.go:90-98 | the same for a byte string |
| Protocol.Cursor.Close | internal/protocol/command.go:102-110 | trailing bytes and earlier failures are errors, in that precedence |
| Protocol.DecodeCommand | internal/protocol/command.go:118-173 | the cursor program computes the decode function for every opcode and body |
| Protocol.DecodeKeysOfEncode | internal/protocol/command.go:275-303 | the KEYS answer is read back as written |
| Protocol.EncodeKeysOfDecode | internal/protocol/command.go:285-303 | a KEYS body that decodes is the encoder's own |
| Protocol.EncodeKeysBody | internal/protocol/command.go:275-282 | the loop appends the encoding |
| Protocol.DecodeKeysBody | internal/protocol/command.go:285-303 | the guarded loop computes the decode function |
| Protocol.DecodeHeaderOf | internal/protocol/frame.go:54-100 | a header comes back unchanged if and only if a receiver accepts it |
| Protocol.EncodeHeaderOf | internal/protocol/frame.go:71-100 | sixteen bytes that decode are the encoding of an acceptable header |
| Protocol.HeaderParts | internal/protocol/frame.go:54-69 | where every field of a frame header is |
| Protocol.ReadFrameBack | internal/protocol/frame.go:133-182 | a written frame is read back whatever follows it |
| Protocol.ReadFrameSound | internal/protocol/frame.go:133-170 | a frame that is received is one that was written, within the limits |
| Protocol.CutFrame | internal/protocol/frame.go:133-170 | a stream cut inside a frame has died, one cut before it is closed |
| Protocol.ReadAllOfWriteAll | internal/protocol/frame.go:133-182 | any concatenation of written frames reads as exactly those frames in order and then a clean end |
| Protocol.Stream.ReadFrame | internal/protocol/frame.go:133-170 | the reader computes the frame function and consumes exactly the frame; it tells a close between frames from a death inside one |
| Protocol.WriteFull | internal/protocol/frame.go:191-205 | what has gone out is always a prefix, all of it on success, and success is certain if every write makes progress |

## Left out

- Shards.Shard.Set: keys and values whose accounted cost reaches 2^32 are excluded, because the entry's size field would wrap; the wire format, the log and the snapshot format all bound keys at 64 KiB and values at 16 MiB, so no caller has them.
- Expiry.Sweep: the returned count includes keys sampled twice, as in the code; how many dead keys a cycle finds is not stated, since sampling is any choice.
- Stores.Store.RunCycle: the duration a cycle reports is not modelled, and a key sampled twice counts twice, as in the code.
- Histograms.Histogram.Quantile: the product of quantile and total is exact, not rounded to a 64-bit float.
- LiveCheckpoints.Take: the store has no memory limit, because an evicted key is in the log and comes back at recovery, so memory is not what is recovered.
- Engine.Recover: which cells a memory limit evicts is stated by policy and room, not which of several the sampling picks.
- Commands.Set: the refusals of a closed or read-only engine, which do nothing, are not modelled.
- Commands.Restart: no memory limit, as in CrashRecovery.Reopen; a key last touched by an EXPIRE is covered by Recovery.RecoveryIff instead.
- WritePath.MemoryIsLog: calls other than writes, and the deletes the store logs later from a queue, are not part of the run.
- Protocol.Stream.ReadFrame: buffers are values; reuse of the caller's scratch buffer is not modelled.
- Sockets, goroutine lifecycle, dispatch and printing in the server, client and command-line tools.
- Replication: a replica renumbers what it applies, so convergence is not decided by this code.
- Configuration parsing and defaults; the shard count is taken as given.
- I/O errors and the failed-batch path, the "everysec" and "no" fsync policies.
- FLUSH as a checkpoint boundary, and the queue of store-generated deletes.
- Segment and snapshot file names, their parsing and sorting, and pruning of old snapshots.
- Quality of hashing, random sampling and the LRU approximation.
- The actor and global engines: only how a shard's lock is taken differs.
- KEYS over the store, statistics, the background eviction pass and changing the limit at run time.
- Value, boolean, TTL and error response bodies: single-field versions of what the other codecs show.
- Aliasing of slices and buffer capacity.
