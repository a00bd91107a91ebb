# Verified core of a partial Solana validator

A Dafny model of the self-contained algorithms of the repository, with proofs of what each of them is for.

- **Merkle tree and Proof of History** (`MerkleTree`, `Poh`, `Entry`, `Ledger`). The flat level-by-level tree, path
  extraction and proof checking; the hash generator as a class; the meaning of ledger entries. SHA-256 is any function
  from byte strings to 32-byte digests. "Or a collision" always means two different strings that were really hashed (by the tree,
  by the proof or by the history in question) with equal digests, never the mere existence of some collision.
- **Packet signature pipeline** (`ShortVec`, `Packet`, `Offsets`, `Wire`, `Sigverify`, `Batches`, `GpuVerify`,
  `Pipeline`, `Shrink`). The wire parser and its inverse, per-packet verification, the flattened GPU path, and the
  two-cursor compaction. Ed25519 verification (section 5.1.7 of RFC 8032) is any predicate of signature, key and message.
- **Concurrent structures** (`DataBudget`, `Deduper`). Both are modelled atomic access by atomic access; the theorems
  range over every schedule of every number of threads, with spurious compare-and-swap failures in the budget.
- **Sequential structures** (`DedupPackets`, `Recycler`, `Decimal`, `Unpack`, `StakedNodes`).

`dafny verify dfyconfig.toml` checks everything.

Main results:

- a root commits to exactly the padded item list (`RootsBind`, `PaddingDeterminesRoot`), and no proof whatever its
  length can place a foreign item under a root without a collision (`MembershipSound`);
- the generator's entries are what `next_hash` prescribes in every run (`StreamingRefinesBatch`), its hashes add up
  (`RunBalances`), every call hashes, mixes in and emits exactly when its place in the tick says so (`GeneratorExactly`),
  and its current hash fixes its whole past (`CurrentHashBinds`);
- the last hash of a ledger commits to the whole ledger: two producers that count equally many hashes and arrive at the
  same hash wrote the same entries over the same signatures, or there is a collision, or a string that hashes to the
  default hash (`LedgersBind`);
- a packet parses exactly when it starts with a valid transaction head (`ParsesExactlyHeads`), is marked exactly when
  it is a simple vote (`OffsetsExactly`), and verifies exactly when its signatures do and it is a vote if votes are
  wanted (`TransactionVerifies`); the GPU path agrees with the CPU path for every signature scheme exactly when 32 bits
  address every packet that matters (`AgreesExactly`, `Ed25519Verify`);
- every interleaving of the byte budget is linearizable, each event performed by exactly one call and in the order of
  real time (`RunLinearized`, `RealTimeOrder`), so that bytes granted to callers are never spent twice
  (`BudgetConserved`);
- the concurrent filter has no false negatives and loses data only to genuine false positives (`RepeatsAreDuplicates`,
  `LostOnlyToOthers`); a call answers "new" exactly when it set a bit itself, and every call returns (`AnswersExactly`,
  `CallsReturn`);
- trimmed decimals are canonical (`TrimmedIsCanonical`); compaction is conservative and minimal (`ShrinkAll`,
  `CompactIsMinimal`); the unpacker's sorted directory cache refines a plain map (`UnpackArchive`);
- unpacking succeeds exactly when every entry is acceptable, each directory is valid for its first user and the totals
  are within limits (`SucceedsExactly`), and fails with the error of the first check that fails (`FailsExactly`).

Where properties one might expect are false, the model keeps the code and states the exact condition:

- The proof of a single-leaf tree accepts every candidate (`SingleLeafAcceptsAll`).
- Roots of lists of different lengths can be equal without a collision (`RepeatedLastItemKeepsRoot`); without
  one they are equal exactly when the padded lists are.
- Without a fixed number of hashes a tick, equal last hashes do not fix where ticks end (`LowPowerTicksAmbiguous`).
- `next_hash` panics exactly for transactions after `u64::MAX` hashes (`NextHash`).
- A refill gate moves time by less than its duration exactly when the sum saturates (`GateProgress`), although the
  comment in the source promises the duration.
- A size limit of `u64::MAX` limits nothing (`LargestLimitIsNone`).
- Beyond 32-bit offsets the GPU path discards packets that the CPU path accepts; the paths agree exactly when no packet
  that matters ends there (`AgreesExactly`).
- The unpacker validates a directory only for the first entry that uses it. So a file can end up outside the directory
  chosen for it, and whether an archive is accepted depends on the order of its entries (`OrderMatters`). Every file is
  contained on every file system exactly when a chain of validations, known from the entries alone, leads to each
  (`ContainedExactly`); entries that share a directory and were given the same destination are always safe
  (`SharedDstContained`).

Machine integers: hash counters, sizes and limits are bounded where the source's width matters; the source's saturating,
checked, wrapping and truncating operations are written out. Counters that only grow by one per call and are kept for
statistics are natural numbers. A panic of the source is a `requires`, or a `None` where the theorems speak about it.

## Model

| member | source | states |
|---|---|---|
| `MerkleTree.New` | merkle-tree/src/merkle_tree.rs:98-136 | The loop builds exactly the recursively defined levels, the last node of an odd level paired with itself. |
| `MerkleTree.GetRoot` | merkle-tree/src/merkle_tree.rs:138-140 | The last node is the root; only the empty tree has none. |
| `MerkleTree.FindPath` | merkle-tree/src/merkle_tree.rs:142-177 | The loop extracts one entry for each ancestor of the leaf; `None` exactly out of range. |
| `MerkleTree.PathVerifies` | merkle-tree/src/merkle_tree.rs:49-62 | Completeness: the path of every node verifies that node, ends in the root, is empty only for a single node, and never trips the one-sibling assertion. |
| `MerkleTree.ProveItem` | merkle-tree/src/merkle_tree.rs:218-240 | Building, extracting and checking together accept every item of every list. |
| `MerkleTree.PathSound` | merkle-tree/src/merkle_tree.rs:49-62 | With two or more leaves a path accepts another candidate only through a collision of strings hashed by tree and proof. |
| `MerkleTree.SingleLeafAcceptsAll` | merkle-tree/src/merkle_tree.rs:50-61 | The single-leaf path accepts everything; longer paths accept exactly the candidates that hash to the first parent. |
| `MerkleTree.RootIsFullRoot` | merkle-tree/src/merkle_tree.rs:111-133 | The level-by-level root equals the root of the full binary tree, by halves, over the padded list. |
| `MerkleTree.LevelsBind` | merkle-tree/src/merkle_tree.rs:115-133 | Levels of equal height with equal roots have equal paddings, or a collision. |
| `MerkleTree.HeightsBind` | merkle-tree/src/merkle_tree.rs:3-19 | Trees of different heights cannot share a root, because leaf and inner prefixes differ, or a collision. |
| `MerkleTree.RootsBind` | merkle-tree/src/merkle_tree.rs:98-140 | Lists of any lengths with equal roots are equal after padding, or a collision. |
| `MerkleTree.PaddingDeterminesRoot` | merkle-tree/src/merkle_tree.rs:98-140 | The converse: equal paddings give equal roots. |
| `MerkleTree.EqualLengthsBind` | merkle-tree/src/merkle_tree.rs:98-140 | Different lists of equal length have different roots, or a collision. |
| `MerkleTree.RepeatedLastItemKeepsRoot` | merkle-tree/src/merkle_tree.rs:121-124 | Repeating the last item of an odd list keeps the root, so equal lengths are needed. |
| `MerkleTree.PlaceSound` | merkle-tree/src/merkle_tree.rs:49-62 | Any well-formed proof as long as the tree is high, ending in its root, verifies only the node at the place its directions name, or a collision. |
| `MerkleTree.MembershipSound` | merkle-tree/src/merkle_tree.rs:3-19 | Any well-formed proof of any length that verifies an item and ends in the root shows that the item is in the list, or a collision. |
| `MerkleTree.CapacitySuffices` | merkle-tree/src/merkle_tree.rs:75-96 | The reserved capacity holds all nodes for every leaf count, even with a logarithm two too low. |
| `MerkleTree.CapacityIsTight` | merkle-tree/src/merkle_tree.rs:75-96 | One leaf above a power of two fits if and only if the logarithm is at most two too low. |
| `MerkleTree.RootIsHashed` | merkle-tree/src/merkle_tree.rs:98-140 | Every root is the digest of a string hashed while its tree was built. |
| `Poh.Poh.NewWithSlotInfo` | entry/src/poh.rs:28-40 | A fresh generator is valid and has a whole tick remaining. |
| `Poh.Poh.Hash` | entry/src/poh.rs:44-55 | Hashes at most up to the last hash before a tick, keeps all counters in range, and asks for a tick exactly there. |
| `Poh.Poh.Record` | entry/src/poh.rs:57-71 | Mixes in and emits, or refuses the last hash of a tick and changes nothing. |
| `Poh.Poh.Tick` | entry/src/poh.rs:73-92 | Emits exactly at the end of a tick, or always in low-power mode. |
| `Poh.RunIsChained` | entry/src/poh.rs:44-92 | In every run each entry follows from its predecessor, its count and its mixin, and the generator stands its pending count after the last. |
| `Poh.RunBalances` | entry/src/poh.rs:28-92 | In every run pending, emitted-since-tick and remaining hashes make one tick; outside low-power mode each tick closes exactly that many; the tick number counts ticks. |
| `Poh.ExactTicksSum` | entry/src/poh.rs:73-92 | Then all emitted hashes are those of whole ticks plus those since the last. |
| `Poh.RunCountsFit` | entry/src/poh.rs:57-92 | Every emitted count fits 64 bits, and a record's count is below the largest. |
| `Poh.RunFollows` | entry/src/poh.rs:44-92 | Every run follows a reference that knows only the position: hashes stop before the last hash of a tick, a record is refused exactly there and mixes in its value elsewhere, a tick always hashes and closes exactly there or in low-power mode. |
| `Poh.PlaceInTick` | entry/src/poh.rs:73-92 | Outside low-power mode the place in the tick is the number of all hashes modulo the hashes of a tick. |
| `Poh.GeneratorExactly` | entry/src/poh.rs:28-92 | For every configuration and every run of a new generator: the hashes, mixins and pending hashes are those of the reference, the hash is that of this history, and the tick number counts ticks. |
| `Poh.HistoryBinds` | entry/src/poh.rs:47-74 | Equally many hashes leading to the same hash started alike and mixed in the same values at the same places, or a collision. |
| `Poh.ChainIsHistory` | entry/src/poh.rs:57-92 | A chain of entries stands for one hash for each it counts. |
| `Poh.RunsBind` | entry/src/poh.rs:44-92 | Two runs with equal hash counts and equal last emitted hashes have the same history, or a collision. |
| `Poh.CurrentHashBinds` | entry/src/poh.rs:44-92 | So do two runs of equally many hashes, pending ones included, that stand at the same hash. |
| `Entry.HashTransactions` | entry/src/entry.rs:69-81 | The Merkle root of all signatures in order, or the default hash when there are none. |
| `Entry.SignaturesAppend` | entry/src/entry.rs:71-74 | The signatures of two lists together are those of one, then those of the other. |
| `Entry.SignaturesOne` | entry/src/entry.rs:71-74 | Those of a single transaction are its own. |
| `Entry.NextHash` | entry/src/entry.rs:87-103 | Driving a low-power generator yields the iterated hash, with the mixin last; it panics exactly for transactions after `u64::MAX` hashes. |
| `Entry.NextHashIsHistory` | entry/src/entry.rs:87-103 | The hash is that of a history of as many hashes, the last with the transactions; zero hashes with transactions count as one. |
| `Entry.NewEntry` | entry/src/entry.rs:52-66 | The entry verifies, carries its transactions, and counts one hash where zero was asked with transactions. |
| `Entry.NextEntryMut` | entry/src/entry.rs:105-109 | As above, and the hash moves on to that of the entry. |
| `Entry.CreateTicks` | entry/src/entry.rs:111-115 | Tick `i` is exactly `(i + 1) * k` hashes after the start, for every `k` including zero. |
| `Entry.BootstrapHash` | ledger/src/blockstore.rs:52-55 | A new ledger's hash is all ticks of slot 0 after the genesis hash; no ticks panic. |
| `Entry.LedgerIsEmitted` | entry/src/entry.rs:37-48 | The ledger of a run is what the generator emitted, with the transactions of each call. |
| `Entry.StreamingRefinesBatch` | entry/src/entry.rs:83-103 | Every entry of every run verifies by `next_hash` against its predecessor, and no `unwrap` fails. |
| `Ledger.RunIsRegular` | entry/src/poh.rs:44-92 | Outside low-power mode, in every run every tick is exact and no tick is late. |
| `Ledger.LinksDetermineShape` | entry/src/poh.rs:57-92 | Then the hashes alone fix where entries end, what they count and what they mix in. |
| `Ledger.RunsDetermine` | entry/src/poh.rs:44-92 | Two runs with the same hashes per tick, equal hash counts and equal last hashes emit the same entries, or a collision. |
| `Ledger.LowPowerTicksAmbiguous` | entry/src/poh.rs:78-82 | In low-power mode one tick of two hashes and two ticks of one hash end in the same hash. |
| `Ledger.TransactionsBind` | entry/src/entry.rs:69-81 | Transaction lists with equal hashes have the same signatures up to padding, or a collision, or one has no signatures and the tree of the other hashed a string to the default hash. |
| `Ledger.SameEntryVerifies` | entry/src/entry.rs:87-103 | The converse: entries that differ only so much verify alike. |
| `Ledger.LedgersBind` | entry/src/entry.rs:69-103 | Equal hash counts and equal last hashes mean the same entries over the same signatures, or two different strings hashed while writing the two ledgers collide, or one of the ledgers hashed a string to the default hash. |
| `ShortVec.DecodeEncoded` | perf/src/sigverify.rs:177-181 | A compact-u16 length is read back with its size. |
| `ShortVec.EncodeDecoded` | perf/src/sigverify.rs:255-259 | What is read is the only encoding of its value. |
| `ShortVec.TruncatedFails` | perf/src/sigverify.rs:177-181 | A length that is cut short is not read. |
| `Offsets.GetPacketOffsets` | perf/src/sigverify.rs:293-307 | Changes nothing but the simple-vote flag, and never clears it. |
| `Offsets.OffsetsSound` | perf/src/sigverify.rs:167-291 | Success implies a signature, fields in order, a key for each signer and all keys inside the packet. |
| `Offsets.OffsetsShift` | perf/src/sigverify.rs:274-290 | The result at an offset is the result at zero shifted; it fails only where 32 bits cannot hold it. |
| `Offsets.PlacementIndependent` | perf/src/sigverify.rs:293-390 | Where 32 bits address the keys, placement changes neither flag nor outcome and shifts the offsets; elsewhere the packet is given up untouched. |
| `Offsets.DiscardedUntouched` | perf/src/sigverify.rs:177-181 | A discarded packet keeps its flags and has no offsets. |
| `Wire.HeadParses` | perf/src/sigverify.rs:167-291 | For every serialized head, valid or not, the parser returns its offsets or the error of the first check it fails. |
| `Wire.OffsetsNameFields` | perf/src/sigverify.rs:274-290 | Those offsets name exactly the signatures and keys. |
| `Wire.ParsedIsHead` | perf/src/sigverify.rs:167-291 | Whatever parses starts with a valid head with those offsets. |
| `Wire.ParsesExactlyHeads` | perf/src/sigverify.rs:167-291 | A packet parses if and only if it starts with a valid head. |
| `Wire.TruncationExactly` | perf/src/sigverify.rs:167-291 | Every proper prefix of a valid head is rejected with the error of what is missing first. |
| `Wire.BadCountRejected` | perf/src/sigverify.rs:177-181 | A malformed signature count is rejected as such. |
| `Wire.VoteExactly` | perf/src/sigverify.rs:309-390 | A packet that starts with a head is marked if and only if the head is legacy with at most two signatures and is followed by a blockhash and a single instruction for the vote program. |
| `Wire.OffsetsExactly` | perf/src/sigverify.rs:293-307 | Every packet: no valid head, no offsets and the old flag; with one, the exact flag and the offsets of the head, unless only votes are wanted and it is none. |
| `Wire.VoteInTransaction` | perf/src/sigverify.rs:309-390 | A serialized transaction is a simple vote in that sense if and only if it is one as a transaction. |
| `Wire.ParseInvertsSerialization` | perf/src/sigverify.rs:293-390 | For every serialized transaction: the flag exactly for simple votes, and its offsets, or none where only votes are wanted and it is none. |
| `Sigverify.VerifyPacket` | perf/src/sigverify.rs:106-146 | Accepts exactly packets that are kept, parse and have every signature verify. |
| `Sigverify.OnlyBadSignaturesFail` | perf/src/sigverify.rs:106-146 | A packet that parses fails only on a bad signature, or as a non-vote where votes are wanted; every read stays inside the packet. |
| `Sigverify.TransactionVerifies` | perf/src/sigverify.rs:106-146 | A serialized transaction verifies if and only if each signature verifies its message under its key and it is a vote where votes are wanted. |
| `GpuVerify.CopyReturnValues` | perf/src/sigverify.rs:533-546 | Each packet's verdict is that all its own results are 1, and it has some. |
| `GpuVerify.LanesAsWritten` | perf/src/sigverify.rs:413-433 | Lane offsets are the true ones, saturated at 32 bits; the message ends at the true end wrapped to 32 bits. |
| `GpuVerify.LaneAgrees` | perf/src/sigverify.rs:413-433 | A lane reads from memory what the CPU reads from the packet. |
| `GpuVerify.PacketAgrees` | perf/src/sigverify.rs:576-584 | Marking a packet by its lanes leaves the CPU's flags. |
| `GpuVerify.GpuAgreesWithCpu` | perf/src/sigverify.rs:613-670 | For every packet list in which 32 bits address every packet that matters, planning, a faithful kernel, folding and marking leave the flags that the CPU leaves. |
| `GpuVerify.GpuDiscards` | perf/src/sigverify.rs:284-290 | A packet whose end 32 bits do not address is discarded under a scheme that accepts exactly its message. |
| `GpuVerify.CpuAcceptsMessage` | perf/src/sigverify.rs:106-146 | The CPU path accepts it under that scheme. |
| `GpuVerify.AgreesExactly` | perf/src/sigverify.rs:413-433 | For packets stored in memory: the paths leave the same flags for every signature scheme and every faithful result if and only if 32 bits address the end of every packet that has signatures to check. |
| `Pipeline.PushLanes` | perf/src/sigverify.rs:418-432 | The inner loop pushes the lanes of one packet, saturating and truncating as written. |
| `Pipeline.PlanBatch` | perf/src/sigverify.rs:410-436 | One batch continues the flat plan of all packets before it. |
| `Pipeline.PacketBatches.Ed25519VerifyCpu` | perf/src/sigverify.rs:512-521 | Every packet of every batch gets the flags that verifying it alone gives; nothing else changes. |
| `Pipeline.PacketBatches.GenerateOffsets` | perf/src/sigverify.rs:392-446 | Flags, offset vectors and lane counts are those of the flat plan. |
| `Pipeline.PacketBatches.MarkDisabled` | perf/src/sigverify.rs:576-584 | Kept packets are discarded exactly on a zero verdict. |
| `Pipeline.MarkExactly` | perf/src/sigverify.rs:576-584 | For lists of any shapes: marking never clears a flag, and sets it exactly on a zero verdict. |
| `Pipeline.PacketBatches.Ed25519Verify` | perf/src/sigverify.rs:586-671 | Whichever path the thresholds choose, the batches are as the CPU path leaves them. |
| `Shrink.FindSpot` | perf/src/sigverify.rs:473-490 | The fill cursor moves to the next discarded slot in an earlier batch, over survivors only. |
| `Shrink.BatchVec.ShrinkBatches` | perf/src/sigverify.rs:460-499 | Terminates, keeps every survivor as often as before, and leaves a prefix of batches, all full but the last, which holds a survivor. |
| `Shrink.SplitBatches` | perf/src/sigverify.rs:448-458 | Splits by kind in order. |
| `Shrink.ShrinkAll` | perf/src/sigverify.rs:501-510 | Each kind keeps the same multiset of survivors in a compact prefix of its own batches. |
| `Shrink.CompactIsMinimal` | perf/src/sigverify.rs:460-499 | No shorter prefix of the batches has room for the survivors. |
| `Decimal.FullDenotes` | account-decoder-client-types/src/token.rs:36-47 | Reading the full form back gives exactly `amount / 10^decimals`. |
| `Decimal.TrimmedDenotes` | account-decoder-client-types/src/token.rs:49-56 | So does the trimmed form, a plain numeral with no trailing zero after a point. |
| `Decimal.TrimmedIsCanonical` | account-decoder-client-types/src/token.rs:49-56 | Two trimmed forms are equal if and only if the rational numbers are. |
| `Decimal.NoSuperfluousZero` | account-decoder-client-types/src/token.rs:36-56 | In both forms the integer part is a single zero or does not start with one. |
| `DataBudget.StepIsLegal` | perf/src/data_budget.rs:24-83 | Every atomic access performs at most one event, legal for a budget used by nobody else at that moment, and the call adds exactly that event to its own. |
| `DataBudget.RunLinearized` | perf/src/data_budget.rs:24-83 | Every interleaving is the same operations done one at a time, each within its call; every event belongs to exactly one call and every call points at its events; a false `take` last read less than its size. |
| `DataBudget.NoEventTwice` | perf/src/data_budget.rs:24-41 | No two calls share an event. |
| `DataBudget.RealTimeOrder` | perf/src/data_budget.rs:24-83 | The events of a call that returned before another began come first. |
| `DataBudget.UndisturbedReturns` | perf/src/data_budget.rs:24-83 | From wherever it stands, a call left undisturbed returns within five accesses. |
| `DataBudget.AloneTake` | perf/src/data_budget.rs:24-41 | A take that runs alone gets its bytes if and only if there are enough, and takes exactly those. |
| `DataBudget.AloneUpdate` | perf/src/data_budget.rs:42-83 | An update that runs alone refills if and only if its time has come, and returns the bytes there are then. |
| `DataBudget.RunGrants` | perf/src/data_budget.rs:24-41 | In every interleaving, what callers were granted by `true` is what was taken. |
| `DataBudget.BudgetConserved` | perf/src/data_budget.rs:24-83 | At every step, bytes are the initial bytes plus refill changes minus the sizes of all calls that returned `true`, and never below zero. |
| `DataBudget.GateProgress` | perf/src/data_budget.rs:42-59 | A passed gate moves time by at least its duration if and only if that does not saturate. |
| `DataBudget.GatePassesEarly` | perf/src/data_budget.rs:47-54 | A concrete gate that passes early. |
| `DataBudget.RunRateLimited` | perf/src/data_budget.rs:61-83 | In every interleaving `n` refills take at least `n` durations. |
| `Deduper.AddressedExactly` | perf/src/deduper.rs:71-71 | A bit is addressed if and only if one of the hashes leaves it as its remainder. |
| `Deduper.RunValid` | perf/src/deduper.rs:68-81 | What every interleaving of the bit and counter accesses keeps: among it, that a call answers "new" exactly when it has set a bit itself. |
| `Deduper.AnswersExactly` | perf/src/deduper.rs:68-81 | In every interleaving a returned call reports a duplicate if and only if it set no bit, and all its bits are set. |
| `Deduper.RepeatsAreDuplicates` | perf/src/deduper.rs:65-81 | A call that begins after one on equal data has returned reports a duplicate. |
| `Deduper.PopcountExact` | perf/src/deduper.rs:21-21 | The counter never exceeds the set bits, nor they the filter, and is exact once no call is in flight. |
| `Deduper.LostOnlyToOthers` | perf/src/deduper.rs:65-81 | If all calls on some data report duplicates, each of its bits was set by a call on other data that reports it new. |
| `Deduper.LetThroughAtMost` | perf/src/deduper.rs:65-81 | Data is let through at most as often as bits were set for it, all of them its own. |
| `Deduper.CallsReturn` | perf/src/deduper.rs:68-81 | Calls are wait-free: whatever others do, a call returns after twice its hashes and one more of its own accesses. |
| `Deduper.AloneExactly` | perf/src/deduper.rs:68-81 | A call that runs alone reports a duplicate if and only if all its bits were set, and sets them. |
| `DedupPackets.SetBit` | perf/src/deduper.rs:71-74 | Or-ing the mask into its word sets exactly the addressed bit. |
| `DedupPackets.Deduper.constructor` | perf/src/deduper.rs:26-37 | A new filter has words for all bits, none of them set. |
| `DedupPackets.Deduper.Dedup` | perf/src/deduper.rs:68-81 | Reports a duplicate if and only if all bits were set, sets them, and keeps the counter exact. |
| `DedupPackets.DedupBatch` | perf/src/deduper.rs:92-105 | One batch continues the deduplication of all packets before it. |
| `DedupPackets.DedupAndCountDiscards` | perf/src/deduper.rs:88-107 | In place, in all batches: a packet is discarded if and only if it was, or its bits were all set by then; the shape stays; returns the number discarded. |
| `DedupPackets.DedupAt` | perf/src/deduper.rs:92-105 | Packet `i` is judged by the bits of the packets kept before it, and those set before. |
| `DedupPackets.DiscardedExactly` | perf/src/deduper.rs:92-105 | Only the flag changes, and it is set if and only if it was, or each bit was set at the start or for a kept packet before. |
| `DedupPackets.DiscardedCounts` | perf/src/deduper.rs:104-106 | The count is the number of places with discarded packets. |
| `DedupPackets.SurvivorsDistinct` | perf/src/deduper.rs:88-107 | Survivors have pairwise different bytes. |
| `Recycler.Recycler.Allocate` | perf/src/recycler.rs:105-150 | Updates the average, then hands out a reset pooled object or a new one. |
| `Recycler.Recycler.Recycle` | perf/src/recycler.rs:154-184 | Pools the object, and shrinks a long pool to its limit once the average has reached the threshold. |
| `Recycler.ObjectsConserved` | perf/src/recycler.rs:105-172 | In every run, objects made are outstanding, pooled or freed. |
| `Recycler.PoolKeepsObjects` | perf/src/recycler.rs:105-172 | In every run each object pooled or recycled is still pooled, was handed out or was let go, as often as it came in. |
| `Recycler.RecycleOnlyPools` | perf/src/recycler.rs:154-184 | A pool that does not grow beyond its limit, or whose sum is below the threshold, only gains the object. |
| `Recycler.MaximumExact` | perf/src/recycler.rs:174-183 | The recorded maximum is the greatest length the pool ever had. |
| `Recycler.ReuseIsLifo` | perf/src/recycler.rs:131-171 | The object recycled last is handed out first, reset, and the pool is as before, unless recycling it shrank the pool. |
| `Recycler.AllocationRounds` | perf/src/recycler.rs:110-130 | Every allocation, also from an empty pool, updates the sum by the exact rule rounded to the nearest unit, while nothing saturates. |
| `Recycler.EmptyPoolDecays` | perf/src/recycler.rs:110-130 | In every run whose allocations find the pool empty the sum sinks to half the window, by at least one each. |
| `Recycler.CalmAfterShrink` | perf/src/recycler.rs:159-171 | After a shrink the sum stays at the threshold or below while no allocation sees more than the limit. |
| `Recycler.FixedBand` | perf/src/recycler.rs:110-130 | Exactly which averages stand still under a constant load, because of rounding or of saturation. |
| `Recycler.NoShrinkUnderLightLoad` | perf/src/recycler.rs:105-172 | In every run from an empty pool, nothing is freed unless an allocation saw more than the limit. |
| `Recycler.HeavyLoadReachesThreshold` | perf/src/recycler.rs:110-130 | In every run in which all allocations see more, the average reaches the threshold after that many allocations, despite rounding. |
| `Recycler.HeavyLoadShrinks` | perf/src/recycler.rs:154-171 | Then the next recycled object shrinks the pool to its limit. |
| `Unpack.BinarySearch` | accounts-db/src/hardened_unpack.rs:302-302 | Finds the directory, or where it belongs under the reversed comparison. |
| `Unpack.OpenDstDir` | accounts-db/src/hardened_unpack.rs:302-315 | Lookup and insertion in the descending vector do what a plain map does; only a directory not found is created, validated against the entry's own destination and opened, with the error of the first that fails. |
| `Unpack.WriteEntry` | accounts-db/src/hardened_unpack.rs:176-194 | Strips account paths, skips empty destinations, and places the file with the handle of its parent. |
| `Unpack.UnpackEntry` | accounts-db/src/hardened_unpack.rs:121-174 | One entry is checked, counted and written as with a plain map, with the same error where it fails. |
| `Unpack.UnpackArchive` | accounts-db/src/hardened_unpack.rs:94-202 | The whole loop, with its setup and its final drain, refines unpacking with a plain map. |
| `Unpack.NamesAppend` | accounts-db/src/hardened_unpack.rs:272-287 | The names of a path are those of its parts, in order. |
| `Unpack.NamesOne` | accounts-db/src/hardened_unpack.rs:272-287 | A normal component is its name, any other none. |
| `Unpack.DestinationExactly` | accounts-db/src/hardened_unpack.rs:266-299 | A path that climbs or names nothing is skipped; any other leads to all its names below the destination. |
| `Unpack.TargetExactly` | accounts-db/src/hardened_unpack.rs:176-194 | An accepted entry goes to all its names below its destination, without the leading `accounts` exactly for two-part account paths. |
| `Unpack.OpenedOnce` | accounts-db/src/hardened_unpack.rs:302-315 | Each parent is opened once in a run, and every file is placed with the handle of its own parent. |
| `Unpack.PlacedExactly` | accounts-db/src/hardened_unpack.rs:94-202 | A successful run places exactly the destinations of its entries, in order. |
| `Unpack.TargetsBelow` | accounts-db/src/hardened_unpack.rs:270-290 | Each of them is spelled below the directory chosen for its own entry, through normal names of its path only. |
| `Unpack.LoopSucceedsExactly` | accounts-db/src/hardened_unpack.rs:119-200 | The loop succeeds if and only if every entry is acceptable, each directory can be created, validated and opened for the first entry that goes there, and the saturated totals are within the limits. |
| `Unpack.BadEntryRejected` | accounts-db/src/hardened_unpack.rs:129-163 | An archive with a parent, root or non-UTF-8 component, a disguised directory or an unwanted entry is never unpacked. |
| `Unpack.FailsExactly` | accounts-db/src/hardened_unpack.rs:119-200 | An archive fails at the first entry that fails a check, with the error of the first check in order that it fails. |
| `Unpack.SucceedsExactly` | accounts-db/src/hardened_unpack.rs:94-202 | Unpacking succeeds if and only if the loop does and it can be set up and drained; a failure to do so is an input or output error. |
| `Unpack.PlacedValidated` | accounts-db/src/hardened_unpack.rs:302-315 | The directory of every placed file was validated against the destination of the first entry that went there. |
| `Unpack.CoveredIsContained` | accounts-db/src/hardened_unpack.rs:302-336 | A file to which a chain of validations leads from its destination lies inside it, whatever the links. |
| `Unpack.UncoveredEscapes` | accounts-db/src/hardened_unpack.rs:302-336 | Any other file lies outside in some file system in which the archive unpacks. |
| `Unpack.ContainedExactly` | accounts-db/src/hardened_unpack.rs:302-336 | For acceptable entries within the limits: all files are contained in every file system in which the archive unpacks if and only if such chains lead to all of them. |
| `Unpack.SharedDstContained` | accounts-db/src/hardened_unpack.rs:302-336 | A file is contained if all entries that go into its directory have its destination. |
| `Unpack.OrderMatters` | accounts-db/src/hardened_unpack.rs:302-315 | Two entries, the second of which escapes through a directory opened for the first; in the other order they are rejected. |
| `Unpack.LimitsRespected` | accounts-db/src/hardened_unpack.rs:164-174 | With limits below `u64::MAX`, success means that the true sums and the count are within them. |
| `Unpack.LargestLimitIsNone` | accounts-db/src/hardened_unpack.rs:57-66 | With a limit of `u64::MAX` an archive over the limit is unpacked. |
| `StakedNodes.CalculateStakeStats` | streamer/src/streamer.rs:367-380 | Visiting the values in any order gives the 64-bit sum and the extremes of the present stakes. |
| `StakedNodes.StakedNodes.constructor` | streamer/src/streamer.rs:382-391 | The aggregates summarize the lookups from the start. |
| `StakedNodes.StakedNodes.UpdateStakeMap` | streamer/src/streamer.rs:417-425 | They still do after every update, and the overrides stay. |
| `StakedNodes.OverridesDecide` | streamer/src/streamer.rs:393-399 | A lookup is the override if there is one, else the stake; zero counts as none. |
| `StakedNodes.TotalAgrees` | streamer/src/streamer.rs:377-404 | The total is the sum of all lookups if and only if that fits 64 bits. |
| `StakedNodes.ExtremesAgree` | streamer/src/streamer.rs:378-414 | Minimum and maximum are the least and greatest lookups, or zero when there are none. |

## Left out

- SHA-256, Ed25519 and the ahash functions are arbitrary functions; the compact-u16 format is modelled from its definition because its library is not in the repository.
- The GPU kernel is given by its contract: it writes 1 exactly on the lanes that verify. CUDA loading, foreign calls and memory pinning are not modelled.
- Pinned packets: `Packet.buffer` stands for the bytes that `data(..)` shows; a pinned packet whose size exceeds its fixed buffer, and metadata other than size and the two flags, are not modelled.
- Packets of all batches are visited one after the other, as the thread pool's visits do not touch each other's packets.
- GpuVerify.CopyReturnValues: reads both nested lists through their flattened views, as the source does; `Pipeline.PacketBatches.Ed25519Verify` cuts the result back into batches.
- DataBudget and Deduper are step relations over shared memory and all calls ever begun rather than classes, because their theorems are about interleavings; weaker memory orderings than sequential consistency are not modelled.
- Recycler: each call is one step, although the statistics counters are updated outside the lock; resetting, warming and the back reference of pooled objects are a given function.
- Ledger.LedgersBind: compares generators that start a tick with the same number of hashes for it; `Ledger.LowPowerTicksAmbiguous` shows why low-power mode is excluded.
- Poh.Poh.Tick: requires that the tick number does not overflow 64 bits when a tick is emitted; `Poh.RunBalances` gives its value.
- Clocks, wall time, `false_positive_rate`, `maybe_reset`, `ui_amount` and `compute_hashes_per_tick` (floating point or time) are not modelled; time enters the byte budget as an argument. The byte budget's `check` is a single read and is not modelled either.
- MerkleTree.CapacitySuffices: takes the logarithm as an argument, because the fast floating-point one is a library.
- Unpack: the archive reader and the entry checker are given by their outcomes for each entry; a file system is any assignment of creation, canonical path and handle to paths, the same throughout a run; path comparison is any total order; writing a file is one outcome for each entry and one for the final drain.
- StakedNodes: the 64-bit sum wraps as in a release build; a debug build panics there.
- Networking, gossip, ledger storage, command lines, protocol-buffer conversions, account decoders, feature tables and reserved keys are not modelled: they are input and output, or tables and field-by-field conversions without an algorithm of their own.
