# Durability, reduction and reference semantics

A Dafny model of the parts of the repository whose correctness is hardest to see by reading or by
sampling, with proofs for all inputs and all runs.

**The two commit protocols** (`bench/durability/`). A device is a durable image plus a list of writes
in flight (`Disk.dfy`, `Devices.dfy`). A power loss leaves any image in which every byte is,
independently of its neighbours, the durable byte or a byte of some write in flight over it; a process
crash keeps the writes in flight; a failed write may have landed in any parts and a failed barrier may
have flushed any part. Each protocol is a state machine whose steps are single device calls
(`Cow.dfy`; `Log.dfy` for the journal region alone, `WalSystem.dfy` for journal and database
together, on two devices or in one file), its invariant is kept by every step (`CowSafety.dfy`,
`Log.dfy`, `WalRuns.dfy`), and the imperative writers (`CowWriter.dfy`, `Journal.dfy`,
`Checkpoint.dfy`) are methods whose every device call is proved to be one step, and which
fail only if a device call failed or the call was refused for a stated reason. The theorems therefore
hold of every run of the code, at every point inside a call. Copy-on-write runs contain failures,
crashes and restarts in any order; a journal run ends with its first failure or crash.

Checksums are accident detectors, so nothing is assumed about them in general. `NoForgery` is a
hypothesis on one crash image: what passes its checksum was really written there. In the journal that
includes that no stored payload decodes as a frame at an aligned position where none was appended.
The format of the database's own meta page is a parameter (`MetaPages.dfy`).

**The codecs** those protocols rest on: the COW descriptor (`Manifest.dfy`), journal frames
(`Wal.dfy`), the CRC-64 (`Crc64.dfy`, `CrcDivision.dfy`, `OctetCodes.dfy`) and the FNV-style digest
(`Fnv.dfy`).

**The test generators** (`scripts/`): both delta-debugging minimisers (`Ddmin.dfy`), the splitmix64
stream (`SplitMix.dfy`), the schema bookkeeping that has to stay right although the outcome of a
faulted commit is unknown (`Schema.dfy`, `Generator.dfy`), and the reference semantics the metamorphic
tests are computed from: three-valued logic (`Kleene.dfy`), joins (`Joins.dfy`), ternary partitioning (`Tlp.dfy`),
the decimal average (`Average.dfy`) and jsonb containment (`Jsonb.dfy`).

`dafny verify dfyconfig.toml` checks everything.

## Main results

- `CowSafety.EveryCrashRecovers`: at any point of any run of the one-barrier protocol, any crash image
  recovers the transaction the run started from or one that one commit submitted whole, never older
  than anything acknowledged or resumed before.
- `CowSafety.DescriptorOrMetaSurvives`: at every point of every run, even while an extent of the
  previous descriptor is being overwritten, that descriptor validates or its meta is already in place.
- `Logs.EveryCrashKeepsAppends`: at any point of any history of appends of arbitrary lists and of
  resets, any crash image recovers exactly the acknowledged lists since the last reset, plus at most the
  complete one in flight.
- `WalRuns.EveryCrashRestores`: at any point of any run of the journal, any pair of crash images
  restores the original database after everything acknowledged, plus at most the commit in flight.
- `Manifests.DecodeEncoded` / `EncodeDecoded`, `Wal.DecodeFrame` / `AcceptedIsLayout`: both codecs are exact both ways.
- `Wal.RecoveredIsLongest`, `Wal.ReadRecovery`: recovery is the longest chain of valid frames, and the streaming reader computes it.
- `Coalesce.CoalesceExact`: coalescing is right for every image and all contents if and only if no last write is hidden, a condition on offsets and lengths.
- `Crc64.FoldedIsReference`, `CrcDivision.ReferenceDivides`, `CrcDivision.RemainderUnique`, `Crc64.BurstDetected`: the table-driven sum is the polynomial remainder, the message being a multiple of the generator plus it, and short bursts are always seen.
- `Generators.Generator`: whichever way each faulted commit went, the picture of the schema is right and no statement the generator means to succeed fails.
- `Joins.JoinMeans`, `Cow.AcceptedMeans`, `Cow.ScannedMeans`, `Jsonb.TermsArePaths` and the other `…Means` lemmas say what a definition computes without its helpers.
- `SplitMix.NoRepeat`, `Joins.TemplatesMove`, `Tlp.GroupsRebuild`, `Average.PrintedIsRounded`, `Jsonb.ContainsTransitive`, `Jsonb.GatherIsSuperset`, `Ddmin.ReduceRecords`, `Ddmin.ShrinkTrace`.

## Notes on the source

- `coalesce` keeps the last write of each offset and orders by offset. It is right exactly when the last write over each address is also the last at its offset and no kept write at a greater offset covers the address (`Coalesce.CoalesceExact`); whole aligned pages are such a case (`Coalesce.PagesUnhidden`), and `Coalesce.ShorterRewriteLosesTail` shows two writes that are not.
- `baseline` takes the maximum with the last one winning a tie, and panics when neither page is valid. `CowSafety.RecoveryWithoutBaseline` shows that the descriptors alone still recover then; `WalSafety.BaselineIs` shows that the journal's alternation never gets there, and `WalSafety.SameSlotBaseline` exactly when a checkpoint aimed at the same page would.
- Marking every table uncertain after a restore is right exactly when no table and no index was dropped since the backup (`SchemaModel.RestoreExact`; `SchemaModel.DroppedIndexReturns` is a restore for which it is not).
- The reducer of `scripts/reduce.rb` removes elements by value, so it is minimal by value; on a list without repetitions, such as the index lists it is used on, that is minimality by position. `Ddmin.ValueIsNotPosition` is a list on which the two differ.
- The scale of an average is cut at 1000 digits. `Average.CutExact` says exactly when that leaves fewer than 17 digits, which takes counts above 10^984.

## Model

| member | source | states |
|---|---|---|
| Bytes.GetPut | bench/durability/cow.rs:82-88 | reading a little-endian word back where it was put gives it, for every word |
| Bytes.PutGet | bench/durability/cow.rs:82-88 | and putting back what was read restores the bytes |
| Bytes.Put64Means | bench/durability/cow.rs:82-84 | the byte of weight 256^i comes i-th |
| Fnv.Checksum | bench/durability/cow.rs:76-80 | the loop computes the FNV-style digest of the bytes |
| Fnv.OneByteDetected | bench/durability/cow.rs:76-80 | equal-length strings that differ in one byte have different digests |
| Manifests.Encode | bench/durability/cow.rs:91-123 | the buffer-patching encoder returns the specified descriptor image, or refuses exactly the manifests that cannot be represented in the slot |
| Manifests.Decode | bench/durability/cow.rs:125-168 | the cursor decoder computes the specified decoding for every slot image, and restores the checksum field it zeroes |
| Manifests.DecodeEncoded | bench/durability/cow.rs:91-168 | decoding an encoded manifest followed by any leftover slot bytes gives that manifest back |
| Manifests.EncodeDecoded | bench/durability/cow.rs:125-168 | whatever is accepted is representable, with no overflowing extent, and re-encodes to the first bytes of the slot |
| Manifests.FieldsAt | bench/durability/cow.rs:107-112 | where each header word of a descriptor sits |
| Manifests.EntryAt | bench/durability/cow.rs:113-118 | an entry is the extent's offset, length and checksum, in that order |
| Disks.ViewIsCrashImage | bench/durability/io.rs:10-14 | what a running process reads is one of the possible crash images |
| Disks.AnySubsetMayLand | bench/durability/io.rs:10-14 | a power loss may keep any of the writes in flight and lose the others |
| Disks.CrashImagesMix | bench/durability/io.rs:10-14 | and any byte-by-byte mixture of two crash images is one |
| Disks.HeldInImage | bench/durability/io.rs:10-14 | durable bytes with no write in flight over them are in every crash image |
| Devices.Device.WriteAt | bench/durability/io.rs:12-12 | a write becomes in flight whole, or on failure in any parts |
| Devices.Device.Sync | bench/durability/io.rs:13-13 | a barrier makes every write in flight durable, or on failure any part of them |
| Devices.Device.Read | bench/durability/io.rs:11-11 | a successful read returns what has been written, a read past the end fails, and every other failure is counted |
| CowWriter.New | bench/durability/cow.rs:202-222 | a writer is made exactly for sector-aligned slots that fit below 2^64 |
| Cow.OverlapsMeans | bench/durability/cow.rs:70-72 | nonempty ranges overlap exactly when they share an address, an empty one exactly strictly inside another |
| Cow.AcceptedMeans | bench/durability/cow.rs:237-277 | a commit is accepted exactly when its writes lie in the region without touching and its descriptor fits the slot |
| CowWriter.NeedsCheckpointMeans | bench/durability/cow.rs:278-284 | a checkpoint is needed exactly when a body write touches an extent of the previous descriptor |
| CowWriter.NewMatches | bench/durability/cow.rs:214-221 | a new writer over a database at rest is in step with the protocol's initial state |
| CowWriter.InRegion | bench/durability/cow.rs:237-242 | the loop accepts exactly the writes that end inside the data region without overflow |
| CowWriter.AllDisjoint | bench/durability/cow.rs:246-264 | the nested loops accept exactly bodies disjoint from each other and from the meta |
| CowWriter.AnyReuse | bench/durability/cow.rs:278-284 | a checkpoint is asked for exactly when a body write overlaps an extent of the previous descriptor |
| CowWriter.ValidatedCow.Prepare | bench/durability/cow.rs:237-277 | the checks before any device call pass exactly the acceptable transactions and yield their descriptor |
| CowWriter.ValidatedCow.Commit | bench/durability/cow.rs:224-303 | a rejected call touches nothing; every device call of an accepted one is a protocol step; a checkpoint comes first exactly on reuse; success makes the transaction the head; an accepted call fails only if a device call failed, and then poisons the writer and leaves the head |
| CowWriter.ValidatedCow.Publish | bench/durability/cow.rs:290-299 | body writes, descriptor and one barrier are protocol steps, and only success moves the head |
| CowWriter.ValidatedCow.Checkpoint | bench/durability/cow.rs:307-320 | the meta write and its barrier are protocol steps, and a poisoned or already checkpointed writer does nothing |
| CowWriter.Validate | bench/durability/cow.rs:170-197 | the extent loop decides exactly whether the manifest validates, and fails only if a device call failed |
| Cow.ValidatesMeans | bench/durability/cow.rs:170-197 | a manifest validates exactly when its meta lies in the region and every extent lies in the region and on the device, shares no byte with the meta, and has the recorded digest |
| CowWriter.Scan | bench/durability/cow.rs:322-345 | the slot loop computes the specified scan, and with slots that fit it fails only if a device call failed |
| Cow.ScannedMeans | bench/durability/cow.rs:322-345 | the scan finds the descriptor with the highest number among those newer than the base, in their own slot and valid, and nothing only if there is none |
| CowWriter.Recover | bench/durability/cow.rs:349-368 | it returns that descriptor's transaction, or the base, and with slots that fit fails only if a device call failed |
| CowWriter.Resume | bench/durability/cow.rs:373-395 | resuming is one protocol step: the writer returned matches the recovered head, which is the old head or its submitted successor; it fails only if a device call failed |
| CowWriter.RunsCompose | bench/durability/cow.rs:224-395 | the steps of consecutive calls form one run |
| CowSafety.CheckpointWriteInv | bench/durability/cow.rs:313-313 | the checkpoint's meta write keeps the protocol invariant, torn or not |
| CowSafety.CheckpointSyncInv | bench/durability/cow.rs:314-317 | so does its barrier, after which the descriptor is no longer needed |
| CowSafety.BodyWriteInv | bench/durability/cow.rs:291-293 | a body write keeps the previous snapshot recoverable |
| CowSafety.DescriptorWriteInv | bench/durability/cow.rs:294-297 | so does overwriting the slot of the other parity |
| CowSafety.CommitSyncInv | bench/durability/cow.rs:298-301 | the one barrier makes the new snapshot the durable fallback |
| CowSafety.ResumeInv | bench/durability/cow.rs:380-394 | after recovery and its barrier what was recovered is durable, also when it was only cached before |
| CowSafety.NextInv | bench/durability/cow.rs:224-395 | every step, including process crash and power loss, keeps the invariant and never moves the head back |
| CowSafety.CrashSafety | bench/durability/cow.rs:322-368 | from one state, every crash image recovers the head or its successor with exactly the submitted meta, and every listed extent intact |
| CowSafety.RecoveryWithoutBaseline | bench/durability/cow.rs:322-345 | even with both meta pages torn the descriptor scan recovers the head or its successor |
| CowSafety.HeadsNeverGoBack | bench/durability/cow.rs:224-395 | over any run the head never goes back, and a number names one transaction |
| CowSafety.HeadWasSubmitted | bench/durability/cow.rs:224-395 | over any run the head is the initial one or was submitted by a commit |
| CowSafety.EveryCrashRecovers | bench/durability/cow.rs:224-395 | at any point of any run of commits, checkpoints, crashes and resumes, recovery returns the initial or a whole submitted transaction, no older than anything acknowledged or resumed |
| CowSafety.DescriptorOrMetaSurvives | bench/durability/cow.rs:278-320 | reuse safety at every device state, whatever page a torn checkpoint targets |
| Crc64.Crc64Table | bench/durability/wal.rs:31-49 | each table entry is its byte moved up by eight polynomial steps |
| Crc64.Checksum | bench/durability/wal.rs:54-60 | the table-driven loop computes the reference remainder of every byte string |
| Crc64.TableStep | bench/durability/wal.rs:54-60 | one table step is eight bit steps |
| Crc64.FoldedIsReference | bench/durability/wal.rs:54-60 | the byte fold equals the bit-serial polynomial remainder of Annex B of ECMA-182 |
| CrcDivision.Division | bench/durability/wal.rs:51-60 | every polynomial is a multiple of the generator plus its remainder, coefficient by coefficient |
| CrcDivision.RemainderUnique | bench/durability/wal.rs:51-60 | and no other remainder of degree below 64 fits any multiple |
| CrcDivision.ReferenceDivides | bench/durability/wal.rs:51-60 | the checksum is that remainder for the message times x^64 |
| Crc64.RemainderConcat | bench/durability/wal.rs:54-60 | the remainder of a concatenation is the shifted sum of the remainders |
| Crc64.BurstDetected | bench/durability/wal.rs:54-60 | equal-length strings that differ only within eight consecutive bytes have different sums |
| OctetCodes.OctetsMean | bench/durability/wal.rs:54-60 | the octets that are summed are the bytes themselves, in order |
| Wal.SumDetects | bench/durability/wal.rs:54-60 | so frame checksums differ for equal-length strings that differ only within eight consecutive bytes |
| Wal.AlteredFrameRejected | bench/durability/wal.rs:123-140 | an accepted frame altered only within eight consecutive bytes before its footer is rejected |
| Wal.EncodableMeans | bench/durability/wal.rs:62-84 | what is encodable, in numbers |
| Wal.EncodedLen | bench/durability/wal.rs:62-84 | the checked arithmetic accepts exactly the encodable lists and returns the frame length |
| Wal.FrameLengthLeast | bench/durability/wal.rs:75-79 | that length is the least multiple of 4096 that holds the records |
| Wal.EncodeFrame | bench/durability/wal.rs:87-109 | the buffer loops produce the specified frame |
| Wal.Decode | bench/durability/wal.rs:123-169 | the cursor decoder computes the specified decoding for every byte string |
| Wal.DecodeFrame | bench/durability/wal.rs:87-169 | every frame decodes to its transaction and writes, after the right predecessor only |
| Wal.AcceptedIsLayout | bench/durability/wal.rs:111-169 | whatever is accepted is, byte for byte, the header, records, zero padding and checksum of some transaction |
| Wal.Recover | bench/durability/wal.rs:178-196 | the loop computes the specified recovery |
| Wal.RecoveredIsChain | bench/durability/wal.rs:178-196 | what is recovered is a chain of valid frames with consecutive numbers, and the byte count is its length |
| Wal.RecoveredIsLongest | bench/durability/wal.rs:178-196 | every such chain is a prefix of it |
| Wal.ReadFrame | bench/durability/wal.rs:210-226 | reading header first and then the frame sees what decoding the region in memory sees |
| Wal.ReadRecovery | bench/durability/wal.rs:199-232 | the streaming reader returns the frames of recovery on the readable part of the region, for every device and capacity, and fails only if the region overflows or a device call failed |
| Coalesce.CoalesceWrites | bench/durability/experiment.rs:234-245 | the nested loops list the last bytes of every offset once, ascending |
| Coalesce.CoalesceExact | bench/durability/experiment.rs:234-245 | applying that list equals applying every write in order, for every image and all contents, if and only if the last write over each address is kept and not overtaken |
| Coalesce.PagesUnhidden | bench/durability/experiment.rs:234-245 | whole aligned pages meet that condition |
| Coalesce.CoalescedIsSequential | bench/durability/experiment.rs:234-245 | so for them the list equals applying every body in order |
| Coalesce.ReplayConverges | bench/durability/wal.rs:178-196 | replaying over two images that agree wherever nothing is replayed gives the same bytes, so any partial application is repaired |
| Coalesce.ShorterRewriteLosesTail | bench/durability/experiment.rs:234-245 | a concrete pair of unequal writes for which coalescing loses a byte |
| Journals.Open | bench/durability/wal.rs:244-260 | a journal is opened exactly on an aligned region that fits, with a number left |
| Journals.OpenMatches | bench/durability/wal.rs:253-259 | a new journal is in step with the log's initial state |
| Journals.Journal.Append | bench/durability/wal.rs:263-294 | for any list: poisoned, unencodable, full and exhausted calls touch nothing and say why; otherwise one frame and one barrier are the log's steps, only a failed device call makes it fail, and that poisons |
| Journals.Journal.Reset | bench/durability/wal.rs:297-305 | accepted exactly for the newest transaction of a healthy journal; it starts an empty generation without device access |
| Checkpoints.Checkpoint | bench/durability/wal.rs:313-320 | for any body and meta the device calls are body, barrier, meta, barrier, stopping at the first failure |
| Checkpoints.TwoBarriers | bench/durability/wal.rs:308-320 | in every crash image either nothing outside the body has changed or all of the body is in place, and a successful checkpoint is durable whole |
| Journals.LiftAppend | bench/durability/wal.rs:263-294 | an append of a commit's list is the system's steps for that commit |
| Journals.LiftCheckpoint | bench/durability/wal.rs:313-320 | a checkpoint of the coalesced generation in the opposite page is the system's steps, on two devices or in one file |
| Journals.FoldGeneration | bench/durability/experiment.rs:367-379 | coalescing, the checkpoint in the opposite page and the reset fold the generation into the database, unless a device call fails |
| Journals.Replay | bench/durability/experiment.rs:346-383 | with its own device or embedded, the replay loop acknowledges every commit in order, alternating pages by checkpoint, with never more than `interval` commits unfolded and checkpoints only of `interval` commits or the last ones; it fails only if a device call failed or a generation does not fit |
| Logs.AppendWriteInv | bench/durability/wal.rs:285-287 | writing a frame of any list over the remains of an older generation keeps the log's invariant, torn or not |
| Logs.AppendSyncInv | bench/durability/wal.rs:288-293 | so does its barrier, which acknowledges the list |
| Logs.ResetInv | bench/durability/wal.rs:297-305 | reusing the region without a barrier keeps it |
| Logs.NextInv | bench/durability/wal.rs:263-305 | every step keeps it, calls elsewhere on the device included |
| Logs.LogRecovers | bench/durability/wal.rs:123-305 | from one state, every crash image recovers exactly the current generation's lists, plus possibly the complete one in flight |
| Logs.EveryCrashKeepsAppends | bench/durability/wal.rs:123-305 | so at any point of any history of appends and resets, under consecutive numbers after the checkpoint |
| WalRuns.AppendWriteInv | bench/durability/wal.rs:285-287 | writing a commit's frame keeps the system's invariant, embedded or not |
| WalRuns.AppendSyncInv | bench/durability/wal.rs:288-293 | so does its barrier, which acknowledges the commit |
| WalRuns.FoldWriteInv | bench/durability/wal.rs:314-316 | a body write of the checkpoint keeps the database restorable |
| WalRuns.FoldSyncInv | bench/durability/wal.rs:317-317 | after the body barrier the final body is durable |
| WalRuns.RootWriteInv | bench/durability/wal.rs:318-318 | the meta write may tear without losing the old anchor |
| WalRuns.RootSyncInv | bench/durability/wal.rs:319-319 | after the second barrier the new root is durable |
| WalRuns.ResetInv | bench/durability/wal.rs:297-305 | reusing the region without a barrier keeps the invariant |
| WalRuns.NextInv | bench/durability/wal.rs:263-320 | every step keeps the invariant |
| WalRuns.AcknowledgedGrows | bench/durability/wal.rs:263-320 | over any run the acknowledged list is only extended |
| WalRuns.EveryCrashRestores | bench/durability/wal.rs:178-320 | at any point of any run, any crash images restore the original database after everything acknowledged and at most the commit in flight, with the last commit's meta as the baseline |
| WalSafety.CommitsRecover | bench/durability/wal.rs:178-196 | in the whole system the frames recovered are those of the commits since the checkpoint, plus possibly the one in flight |
| MetaPages.BaselineMeans | bench/durability/experiment.rs:455-474 | the baseline is a valid page with the highest number, the second one on a tie |
| WalSafety.BaselineIs | bench/durability/experiment.rs:455-474 | in every crash image the baseline is the last checkpoint or the new root |
| WalSafety.ReplayRestores | bench/durability/wal.rs:308-320 | replaying over any partly checkpointed image gives the final body and the final transaction id |
| WalSafety.RootRestores | bench/durability/wal.rs:308-320 | once the new root has landed nothing is replayed and nothing is missing |
| WalSafety.CrashRestores | bench/durability/wal.rs:178-320 | both cases together, from any state |
| WalSafety.SameSlotBaseline | bench/durability/wal.rs:310-312 | aimed at the baseline's own page, a checkpoint meta leaves a baseline in every crash image if and only if the other page is valid or every mixture of old and new page is |
| Ddmin.ReduceRecords | scripts/reduce.rb:114-135 | terminates with an order-preserving sublist that still fails and is minimal by value, and by position when the input has no repetitions, as the script's index list |
| Ddmin.ShrinkTrace | scripts/sim.rb:324-345 | the complement-only loop does too, minimal by position |
| Ddmin.DistinctMinimal | scripts/reduce.rb:114-135 | for distinct elements minimality by value is minimality by position |
| Ddmin.ValueIsNotPosition | scripts/reduce.rb:114-135 | with repetitions a list can be minimal by value and not by position |
| SplitMix.MixBijective | scripts/sim_gen.rb:108-114 | the mixer maps 64-bit words to 64-bit words and has a two-sided inverse |
| SplitMix.MixMeans | scripts/sim_gen.rb:110-113 | in binary digits it folds down by 30, multiplies, folds by 27, multiplies and folds by 31 |
| Words.XorDigit | scripts/sim_gen.rb:111-113 | exclusive or acts digit by digit |
| Words.ShiftMeans | scripts/sim_gen.rb:111-113 | a shift to the right divides by a power of two |
| SplitMix.StateIsLinear | scripts/sim_gen.rb:109-109 | after n draws the state is the seed plus n increments modulo 2^64 |
| SplitMix.NoRepeat | scripts/sim_gen.rb:103-114 | any two draws fewer than 2^64 apart differ, from any seed |
| SplitMix.EveryWordIsDrawn | scripts/sim_gen.rb:103-114 | from any seed every word is drawn within 2^64 draws |
| SplitMix.Rng.NextU64 | scripts/sim_gen.rb:108-114 | each call returns the next output of the stream |
| Generators.Generator.OpenWrite | scripts/sim_gen.rb:278-285 | the transaction's picture starts as the committed one, and agrees with the real database |
| Generators.Generator.Commit | scripts/sim_gen.rb:372-400 | after a commit the committed picture agrees with the real database whichever way a fault went; an aborted transaction leaves it alone |
| Generators.Generator.Abandon | scripts/sim_gen.rb:403-416 | rollback, reopening and crashes discard the transaction on both sides |
| Generators.MergeUncertain | scripts/sim_gen.rb:675-696 | the table-by-table loop computes the merge |
| SchemaModel.MergeAgrees | scripts/sim_gen.rb:675-696 | the merged picture agrees with the schema before the transaction and with the one after it |
| SchemaModel.MergeMeans | scripts/sim_gen.rb:675-696 | a table both pictures describe alike stays as it was, and every other becomes uncertain with the newer columns and every index of either |
| SchemaModel.SameMeans | scripts/sim_gen.rb:148-150 | two descriptions are alike when columns, indexes, next id and certainty are |
| Database.ExecFails | scripts/sim_gen.rb:749-758 | exactly when each emitted statement fails on a real schema |
| Database.ExecLocal | scripts/sim_gen.rb:749-758 | a statement on a table leaves every other table alone |
| Generators.Generator.EnsureTable | scripts/sim_gen.rb:749-758 | an uncertain table becomes real with every pictured column, in order, and every pictured index, by statements that all succeed |
| Generators.Generator.CreateTable | scripts/sim_gen.rb:770-786 | the new table is exact on both sides, and its name was never used |
| Generators.DeclareMeans | scripts/sim_gen.rb:777-783 | the declared columns: the key, then c1, c2 and so on, an i64 one derived from the key |
| Generators.Generator.DropTable | scripts/sim_gen.rb:789-800 | the table is gone on both sides, certain or not |
| Generators.Generator.CreateIndex | scripts/sim_gen.rb:803-814 | the new index is on the ensured table on both sides, and on no other |
| Generators.Generator.DropIndex | scripts/sim_gen.rb:816-823 | exactly that index is gone on both sides |
| Generators.Generator.AddColumn | scripts/sim_gen.rb:825-833 | the column is appended on both sides below the seven-column limit |
| Generators.Generator.Insert | scripts/sim_gen.rb:865-875 | the rows inserted never collide with existing ones |
| Generators.Generator.Upsert | scripts/sim_gen.rb:877-890 | every real id stays below the pictured next one |
| Generators.Generator.Delete | scripts/sim_gen.rb:921-927 | deleting keeps the picture right |
| Generators.Generator.Invalid | scripts/sim_gen.rb:859-863 | a failing statement aborts the transaction on both sides |
| SchemaModel.RestoreExact | scripts/sim_gen.rb:482-491 | marking every table uncertain after a restore is right for every backup that fits its picture, uncertain tables included, if and only if nothing was dropped since |
| SchemaModel.DroppedIndexReturns | scripts/sim_gen.rb:482-491 | a restore that brings a dropped index back unpictured |
| Kleene.EvaluatorsAreKleene | scripts/norec_gen.rb:4460-4479 | each template's evaluator is the three-valued meaning of its SQL text |
| Kleene.AndTrue | scripts/norec_gen.rb:3760-3765 | a conjunction is true exactly when both sides are |
| Kleene.OrderLaws | scripts/norec_gen.rb:3760-3772 | AND is the least and OR the greatest in false, unknown, true, and NOT reverses that order |
| Kleene.DeMorgan | scripts/norec_gen.rb:3760-3772 | De Morgan's laws |
| Joins.JoinMeans | scripts/norec_gen.rb:4507-4515 | each kind of join holds a pair that meets the ON condition as often as its sides together, and a row without partner as often as it occurs, exactly on the preserved sides |
| Joins.SelectMeans | scripts/norec_gen.rb:4520-4520 | a filter keeps exactly the rows that satisfy it, each as often |
| Joins.ColumnMeans | scripts/norec_gen.rb:4520-4520 | a conjunct reads its column, and NULL on a NULL-extended row |
| Joins.WherePushdown | scripts/norec_gen.rb:4507-4521 | a WHERE conjunct on a preserved side gives the same rows, in the same order, when applied as that side is read, for any ON condition |
| Joins.WhereBothPushdown | scripts/norec_gen.rb:4517-4527 | with a conjunct per side, each preserved one moves and the other stays a filter |
| Joins.OnPushdown | scripts/norec_gen.rb:4745-4752 | an ON conjunct on a NULL-extended side, or on either side of INNER, may be applied as that side is read |
| Joins.ThreeRelations | scripts/norec_gen.rb:4770-4781 | in a LEFT then INNER chain the first and third relation's conjuncts move and the second's stays |
| Joins.WhereLeftExact | scripts/norec_gen.rb:4507-4521 | a left WHERE conjunct moves for all tables if and only if the join is INNER or LEFT, or the conjunct rejects nothing |
| Joins.WhereRightExact | scripts/norec_gen.rb:4507-4521 | the same on the right for INNER and RIGHT |
| Joins.OnLeftExact | scripts/norec_gen.rb:4745-4752 | a left ON conjunct moves if and only if the join is INNER or RIGHT, or it rejects nothing |
| Joins.OnRightExact | scripts/norec_gen.rb:4745-4752 | the same on the right for INNER and LEFT |
| Joins.TemplatesMove | scripts/norec_gen.rb:4460-4521 | so every template moves exactly below the sides the scenario expects |
| Joins.LeftIsMatchedAndUnmatched | scripts/norec_gen.rb:4507-4510 | the two ways the scripts build a LEFT join hold the same rows |
| Tlp.OneOfThree | scripts/norec_gen.rb:3846-3854 | exactly one of the three filters keeps a row |
| Tlp.PartsMean | scripts/norec_gen.rb:3846-3854 | the parts hold the rows where the predicate is true, false and unknown |
| Tlp.PartsRebuild | scripts/norec_gen.rb:3846-3861 | the three parts together are the table, each row as often |
| Tlp.AggregateRebuilds | scripts/norec_gen.rb:3892-3912 | SUM, MIN and MAX combine from the parts, NULLs dropped |
| Tlp.CountRebuilds | scripts/norec_gen.rb:3878-3888 | both counts are the sums of the parts' counts |
| Tlp.SumAndAvgRebuild | scripts/norec_gen.rb:3892-3929 | the COALESCEd sum adds up, and AVG is the rebuilt sum over the rebuilt count, NULL on zero |
| Tlp.MinMeans | scripts/norec_gen.rb:3902-3907 | MIN is the least value present, NULL exactly when none is |
| Tlp.MaxMeans | scripts/norec_gen.rb:3908-3912 | MAX is the greatest value present, NULL exactly when none is |
| Tlp.SumMeans | scripts/norec_gen.rb:3892-3900 | SUM is additive, and NULL exactly when no value is there |
| Tlp.CountMeans | scripts/norec_gen.rb:3884-3888 | count(b) counts the rows whose b is not NULL |
| Tlp.ColumnMeans | scripts/norec_gen.rb:3871-3871 | the aggregated column is b, row by row |
| Tlp.GroupMeans | scripts/norec_gen.rb:3938-3940 | a group holds the rows with its key, each as often |
| Tlp.KeysMean | scripts/norec_gen.rb:3938-3939 | the keys are those of the rows, and exactly those with a group |
| Tlp.GroupsRebuild | scripts/norec_gen.rb:3931-3983 | per group, aggregating the parts' partials again gives the direct aggregate and counts |
| Tlp.KeysRebuild | scripts/norec_gen.rb:3938-3958 | the re-aggregated query has exactly the table's groups |
| Tlp.GroupAvgRebuilds | scripts/norec_gen.rb:3977-3983 | per group AVG is the quotient of the re-aggregated sums and counts |
| Average.LeadBracket | scripts/norec_gen.rb:3777-3784 | the leading group is one base-10^4 digit and brackets the number |
| Average.ScaleMeans | scripts/norec_gen.rb:3777-3790 | the display scale from the leading base-10^4 digits alone, for every sign and for a zero sum |
| Average.ScaledQuotient | scripts/norec_gen.rb:3777-3798 | unless the scale was cut at 1000, the scaled quotient of a nonzero sum is at least 10^16 |
| Average.ScaleNotExcessive | scripts/norec_gen.rb:3785-3790 | and below 2 * 10^20 whenever digits are shown after the point |
| Average.CutExact | scripts/norec_gen.rb:3785-3798 | exactly when the scaled quotient has 17 digits: the scale was not cut, or cut from 1004 with a count of at most the sum times 10^984 |
| Average.BothAtTheCut | scripts/norec_gen.rb:3785-3798 | at 1004 both happen, for one in 10^984 and one in 10^985 |
| Average.RoundedUnique | scripts/norec_gen.rb:3797-3799 | the rounded value is the only one within half a unit with ties away from zero |
| Average.PrintedIsRounded | scripts/norec_gen.rb:3794-3803 | the printed text reads back as the average rounded half away from zero at its scale, and zero has no sign |
| Average.SignedAverage | scripts/norec_gen.rb:3794-3803 | as a signed number the text is within half a unit of the average, ties away from zero |
| Average.PrintedShape | scripts/norec_gen.rb:3800-3803 | the text is the sign, the whole part without leading zeros, and exactly as many digits as the scale after a point |
| Average.NullIffEmpty | scripts/norec_gen.rb:3794-3795 | NULL is printed exactly for a count of zero |
| Jsonb.ContainsReflexive | scripts/norec_gen.rb:3018-3036 | every JSON value contains itself |
| Jsonb.ContainsTransitive | scripts/norec_gen.rb:3018-3036 | containment chains, the top-level scalar rule included |
| Jsonb.ContainsNotAntisymmetric | scripts/norec_gen.rb:3018-3036 | two different arrays contain each other |
| Jsonb.TopLevelRule | scripts/norec_gen.rb:3016-3019 | the bare scalar in a top-level array is the only difference to containment below the top |
| Jsonb.ObjectContains | scripts/norec_gen.rb:3021-3022 | an object contains exactly the objects each of whose members it has with a contained value |
| Jsonb.ArrayContains | scripts/norec_gen.rb:3023-3030 | an array contains exactly the arrays each of whose elements it matches, and the bare scalars among its elements |
| Jsonb.ScalarContains | scripts/norec_gen.rb:3031-3035 | a scalar contains only itself |
| Jsonb.AddingMemberKeeps | scripts/norec_gen.rb:3018-3036 | adding a member to any object of a document, at any depth, keeps what it contains |
| Jsonb.AddingElementKeeps | scripts/norec_gen.rb:3018-3036 | so does adding an element to any array |
| Jsonb.TermsArePaths | spec/design/gin.md:163-173 | the terms are those of the keys and scalars at every path, with strings in arrays as key terms |
| Jsonb.GatherIsSuperset | spec/design/gin.md:187-194 | every index term of a contained value is a term of the containing document |
| Jsonb.GatherIsLossy | spec/design/gin.md:195-198 | the converse fails, so candidates must be rechecked |
| Jsonb.KeyHasTerm | spec/design/gin.md:193-194 | a document with the key carries its key term |
| Jsonb.KeyIsContainment | scripts/norec_gen.rb:3038-3045 | key existence is containment of an object with the key, or of the key as a string |
| Jsonb.KeysKept | scripts/norec_gen.rb:3038-3045 | containment keeps key existence |

## Left out

- Reopening a journal after a crash and replaying in place on disk: the source replays into a memory image only, so a journal run ends at its crash.
- The meta page format, its checksum and the page allocator: the format is a parameter; that a body write touches neither a meta page nor a byte of the snapshot it is built on is a caller's duty (`Cow.OutsideMeta`, `Cow.BuiltOn`, `CowWriter.CallerDuties`), and so are the base meta being the baseline and, where a database is checkpointed behind the journal, whole pages and consecutive transaction numbers (`WalSystem.CommitOk`).
- Checksums: no claim that they cannot collide; safety is relative to `NoForgery` on the image in question. Only the CRC's burst detection is proved.
- Integer widths: lengths are 64-bit, as on a 64-bit target; `checkpoint_count` does not wrap.
- Allocation failure, timing, percentiles, file creation and SQL capture in `bench/durability/experiment.rs`.
- Ddmin.ReduceRecords: the test is a pure function, and the chunk size is the exact ceiling rather than a floating-point one.
- Generators.Generator.EnsureTable: the missing indexes are created in an unspecified order instead of by name.
- Generators.Generator.Commit: storage and memory limits, where a statement may fail without the generator knowing, are not modelled, nor is relaxed durability, where several commits can be lost.
- Generators.Generator.CreateIndex: unique indexes cannot fail here, because the values of key columns are not modelled.
- Attachments, several processes, readers, temporary tables, sequences, encryption, corruption and the statements that change no schema in `scripts/sim_gen.rb`; names are structured values instead of text.
- The sorting of expected rows, the emission of SQL text and every other scenario of `scripts/norec_gen.rb`: they would only add easy members or need the engine.
- Jsonb.ContainsTransitive: JSON numbers are integers, as the generated documents have.
- Jsonb.GatherIsSuperset: terms are values, not their truncated bytes.
