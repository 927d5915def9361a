# Higgaion: verified model of the migration log, framing, key ownership, erasure and gossip

This project models the parts of Higgaion that compute something or keep state, and proves what they promise.
`dafny verify dfyconfig.toml` checks everything.

| module | what it is |
|---|---|
| `Bits` | machine words as natural numbers, exclusive or bit by bit, little-endian bytes |
| `Crc32`, `ResidueValue` | the log's bitwise CRC-32 loop; burst detection; the residue 0x2144DF1C |
| `WalRecordLayout` | the packed 101-byte log record, its CRC field and validators |
| `Migration` | the migration state machine and its replay |
| `WalRecovery` | bytes, CRC check, layout and replay together: damaged records might as well not be there |
| `Framing` | domain-separated framing: the builder, the encoding it computes, the parser that inverts it |
| `SignVerify` | signing and verifying over a frame, the library's calls being an oracle |
| `Ownership`, `KeyLifecycle` | counted key objects under any sequence of operations; the C functions and the wrappers over them |
| `CrashSpec`, `Erasure` | the crash-recovery specification, and durable erasure as a step system refining it |
| `Gossip` | the distributed step system, for any number of nodes and keys and runs of any length |
| `Bucket` | the FNV-1a bucket index |
| `Hex` | the hexadecimal decoder |
| `Gateway` | the request scanner |
| `Quorum` | quorum sizes and leader rotation |

Code that updates memory in place is modelled by methods over arrays and objects (the CRC and hash loops, the
cursor-writing frame builder, signing and verifying, the key operations, the erasure call, the hex decoder, the
gateway session); each is proved equal to a function or a step system, about which the properties are then proved. The
Coq, TLA+ and one-expression C parts are functions and predicates.

Where the repository's text and its code differ, the model follows the code, and the difference is a theorem:

- `SplitBrainDetectable` (verification/tla/pqc_distributed.tla:180-188) is not an invariant: with three nodes one
  receiver can consume every announcement. `Gossip.SplitBrainExactly` says for exactly which constants it holds.
- The erasure specification reads one durable marker. The code keeps "ERASING" in the temporary file only, so
  recovery has to read that file too: `Erasure.WalPathAloneIff` says for which crashes.
- That marker is durable in the specification. The code does not sync the parent directory before it releases the key,
  so a temporary file that it, or a failed call before it, created may vanish in a crash: `Erasure.RefinesIff`,
  `Erasure.NeverResurrectedIff` and `Erasure.RetryAfterFailure`.
- Regenerating into a struct frees the old key except when the algorithm is refused: then the field is cleared without a free
  (src/pqc_crypto.c:185-192): `Ownership.RejectedRegenerationLoses`.
- A length is left in `*sig_len` with a NULL signature when the size query or the allocation after it fails
  (src/pqc_crypto.c:343-357): the last clause of `SignVerify.PqcSign`.
- Recovery can be repeated harmlessly not always (`Migration.ReplayTwiceDiffers`), but exactly under the condition of
  `Migration.ReplayTwice`.
- `bft_quorum` computes its product in 32 bits: `Quorum.BftQuorumExact`. The leader rotation has a seam at view 0:
  `Quorum.LeaderRotatesFromZero`.
- `mig_hex_to_bin` casts its length to int: `Hex.LengthFitsInt`.

## Model

| member | source | states |
|---|---|---|
| Crc32.WalCrc32 | verification/cbmc/cbmc_pqc_migration.c:89-98 | the loop over a buffer returns the CRC of exactly its first len bytes |
| Crc32.ClockByte | verification/cbmc/cbmc_pqc_migration.c:93-95 | the inner loop is eight clocks of the register |
| Crc32.ShiftTap | verification/cbmc/cbmc_pqc_migration.c:95 | one clock bit by bit: all bits move down, and the bit that falls off is added where the generator has a coefficient |
| Crc32.StepsAreBits | verification/cbmc/cbmc_pqc_migration.c:93-95 | mixing in a word of n bits and clocking n times is feeding its bits one by one |
| Crc32.FeedIsFeedBits | verification/cbmc/cbmc_pqc_migration.c:92-96 | the byte-wise register equals the bit-serial one on every message |
| Crc32.FeedWord | verification/cbmc/cbmc_pqc_migration.c:92-96 | word at a time: four bytes are one exclusive or with the little-endian word and 32 clocks |
| Crc32.ClockBitInjective | verification/cbmc/cbmc_pqc_migration.c:95 | a clock can be undone: bit 31 of the output tells what fell off |
| Crc32.FeedBitsInjective | verification/cbmc/cbmc_pqc_migration.c:92-96 | different registers stay different whatever is fed to both |
| Crc32.StepsInjective | verification/cbmc/cbmc_pqc_migration.c:94-95 | any number of clocks is injective |
| Crc32.ApartStep | verification/cbmc/cbmc_pqc_migration.c:95 | the highest difference between two registers falls by at most one place per clock, whatever is fed |
| Crc32.ShortStringsDiffer | verification/cbmc/cbmc_pqc_migration.c:92-96 | from one register, different strings of at most 32 bits leave different registers |
| Crc32.BurstDetected | verification/cbmc/cbmc_pqc_migration.c:89-98 | two messages of any one length that differ, but only within 32 consecutive bits, have different CRCs |
| Crc32.FourByteBurstDetected | verification/cbmc/cbmc_pqc_migration.c:89-98 | the same for differences within four consecutive bytes |
| Crc32.FeedBitsLinear | verification/cbmc/cbmc_pqc_migration.c:92-96 | the register is linear over exclusive or, in its start value and the bits fed together |
| Crc32.UndetectedIff | verification/cbmc/cbmc_pqc_migration.c:89-98 | two messages of one length share a CRC if and only if their bitwise difference leaves an empty register empty, so whether an error is noticed does not depend on the message |
| Crc32.BurstBoundIsTight | verification/cbmc/cbmc_pqc_migration.c:89-98 | 32 is exact: in every message, at every bit offset, adding the 33-bit generator gives a different message with the same CRC |
| Crc32.ResidueIff | verification/cbmc/cbmc_pqc_migration.c:89-98 | a message followed by four bytes has the CRC of four zero bytes exactly when those bytes are the message's CRC, low byte first |
| ResidueValue.ResidueIsTheConstant | verification/cbmc/cbmc_pqc_migration.c:89-98 | that CRC, worked out over 32 clocks, is 0x2144DF1C |
| ResidueValue.ResidueIffConstant | verification/cbmc/cbmc_pqc_migration.c:89-98 | message plus four bytes has CRC 0x2144DF1C if and only if the four bytes are its own CRC |
| WalRecordLayout.UnpackPack | verification/framac/wp_pqc_wal.c:37-50 | a record written in the packed layout reads back field by field |
| WalRecordLayout.PackedFields | verification/framac/wp_pqc_wal.c:37-50 | where each field lies in the 101 bytes, numbers by the place values of their bytes, low byte first |
| WalRecordLayout.PackUnpack | verification/framac/wp_pqc_wal.c:37-50 | every 101 bytes are the layout of exactly the record read from them |
| WalRecordLayout.SealedRecordIsValid | verification/framac/wp_pqc_wal.c:68-84 | filling the CRC field from the 97 bytes before it gives a record that passes the check |
| WalRecordLayout.CrcOkIsResidue | verification/framac/wp_pqc_wal.c:82-84 | a record passes the check if and only if the CRC of all its 101 bytes is 0x2144DF1C |
| WalRecordLayout.BurstInvalidates | verification/framac/wp_pqc_wal.c:37-50 | one burst of at most 32 bits anywhere in a valid record, CRC field included, makes it invalid |
| WalRecovery.DamagedRecordIsSkipped | verification/coq/PQCMigration.v:1226-1255 | end to end: damage one valid record of any log by such a burst, and recovery equals recovery of the log without that record |
| WalRecovery.DamagedBytesAreSkipped | verification/coq/PQCMigration.v:1226-1255 | the same for a window of four bytes |
| WalRecovery.DamagedLogRecoversIntact | verification/coq/PQCMigration.v:1226-1255 | any number of records damaged, each by its own burst: recovery equals recovery of the intact ones in order |
| WalRecovery.InvalidRecordIsNoOp | verification/coq/PQCMigration.v:1231 | a record failing the computed check changes nothing |
| WalRecovery.WrittenRecordIsApplied | verification/framac/wp_pqc_wal.c:107-184 | a sealed record with the magic number, version 2, operation 0 to 3 and state 0 to 3, all written out, decodes to Import, Begin, Finalize or Rollback and Classical, Hybrid, Finalizing or PqcOnly, and is applied |
| WalRecovery.RejectedRecordIsSkipped | verification/framac/wp_pqc_wal.c:107-184 | a sealed record with any other magic number or version, an operation without replay or a state above 3, anywhere in a log, might as well not be there |
| WalRecovery.RecoverConcat | verification/coq/PQCMigration.v:1249-1255 | recovering a log in two parts is recovering it whole |
| Migration.ReplayKeepsWellFormed | verification/coq/PQCMigration.v:91-97 | replay of any log keeps key flags consistent with the state |
| Migration.WalReplayConcat | verification/coq/PQCMigration.v:1249-1255 | replay of a concatenation is replay of the parts in turn |
| Migration.OperationOutcomes | verification/coq/PQCMigration.v:107-144 | the record each operation makes of a record in each state, flags and generation included |
| Migration.GenerationSinceImport | verification/coq/PQCMigration.v:109-118 | with an import the generation counts the migrations begun after the last one, whatever came before |
| Migration.ReplayIgnoresInvalid | verification/coq/PQCMigration.v:1229-1255 | replay of a log equals replay of its CRC-valid records in order |
| Migration.ImportForgets | verification/coq/PQCMigration.v:1229-1255 | with a valid import in the log, the result does not depend on the start |
| Migration.RankGrows | verification/coq/PQCMigration.v:112-144 | without an import, replay leaves the record alone if nothing in the log applies to it and otherwise strictly raises a rank of generation and state, so it never comes back to where it was |
| Migration.ReplayTwice | verification/coq/PQCMigration.v:1229-1255 | replaying twice equals replaying once if and only if the log has a valid import, has no valid Begin, has neither a valid Finalize nor a valid Rollback, or its valid records finalize: the record is PqcOnly already, a Finalize directly follows a Begin, or the first is a Finalize and a migration is under way |
| Migration.EndsPqcOnlyIff | verification/coq/PQCMigration.v:1229-1255 | an import-free valid log ends at PqcOnly if and only if it finalizes in that sense |
| Migration.ReplayTwiceDiffers | verification/coq/PQCMigration.v:1229-1255 | the failing input: Finalize then Begin on a fresh import ends HYBRID the first time and PqcOnly the second |
| Migration.GenerationConserved | verification/coq/PQCMigration.v:112-144 | without an import, the generation grows by the effective begins, and each begin is under way, finished or rolled back |
| Migration.BeginsAtMostOneAhead | verification/coq/PQCMigration.v:112-144 | effective begins exceed effective rollbacks by at most one |
| Migration.PqcOnlyAbsorbs | verification/coq/PQCMigration.v:128-144 | PQC-only is final, and an erased classical key never returns |
| Framing.WriteU32BE | src/pqc_crypto.c:31-36 | writes the four big-endian bytes at the cursor and nothing else |
| Framing.WriteU64BE | src/pqc_crypto.c:38-47 | writes the eight big-endian bytes at the cursor and nothing else |
| Framing.EncodeIff | src/pqc_crypto.c:98-119 | the encoding is the prefix text, both lengths by the big-endian place values of their bytes, the domain and the message, and nothing else is |
| Framing.BigEndian32RoundTrip | src/pqc_crypto.c:31-36 | four big-endian bytes and 32-bit numbers correspond one to one |
| Framing.BigEndian64RoundTrip | src/pqc_crypto.c:38-47 | eight big-endian bytes and 64-bit numbers correspond one to one |
| Framing.StrNLen | src/pqc_crypto.c:71-79 | the length up to the first NUL or the bound, whichever is first |
| Framing.DomainIsString | src/pqc_crypto.c:71-80 | the bytes framed for a terminated string of at most 4096 bytes are all those before its NUL, for NULL none |
| Framing.CheckArguments | src/pqc_crypto.c:59-80 | the checks accept exactly given messages of at most 100 MB with domain strings of at most 4096 bytes |
| Framing.FrameLength | src/pqc_crypto.c:82-96 | the length is 26 + domain + message and no overflow guard fires for a size_t of 32 bits or more |
| Framing.FillFrame | src/pqc_crypto.c:102-119 | the moving cursor fills the whole buffer with the encoding, never past its end |
| Framing.BuildFrame | src/pqc_crypto.c:49-124 | succeeds if and only if the pointers are given, the allocation succeeds and the NULL, 100 MB and 4096-byte checks on the string that domain stands for pass, so the SIZE_MAX guards never fire; then the fresh buffer is the frame of that string and the message, and otherwise the outputs are NULL and 0 |
| Framing.ParserInverts | src/pqc_crypto.c:98-123 | a parser accepts exactly the frames of accepted pairs and returns the pair |
| Framing.PrefixFree | src/pqc_crypto.c:25-29 | a frame is a prefix of another only if the pairs are equal |
| Framing.EncodeInjective | src/pqc_crypto.c:25-29 | equal frames come from equal (domain, message) pairs |
| Framing.FramesBindArguments | src/pqc_crypto.c:71-80 | over the C arguments: equal frames if and only if the bytes up to the NUL and the messages agree, NULL counting as the empty domain |
| SignVerify.PqcSign | src/pqc_crypto.c:307-370 | for every outcome of the library calls: the outputs, the exact condition under which a length is left with a NULL signature, and the full trace of what is built, used and released |
| SignVerify.SignFrame | src/pqc_crypto.c:328-369 | the library calls of signing over a finished frame, every exit |
| SignVerify.SignInContext | src/pqc_crypto.c:335-369 | the same once there is a context |
| SignVerify.ExecuteSign | src/pqc_crypto.c:351-365 | the signature buffer holds the signature on success and is freed and cleared on failure |
| SignVerify.PqcVerify | src/pqc_crypto.c:372-420 | true exactly when the arguments pass, the calls succeed and the library answers 1 for the key, the frame and the given signature bytes; full trace of what is built, used and released |
| SignVerify.VerifyFrame | src/pqc_crypto.c:392-419 | the library calls of verifying over a finished frame, every exit |
| SignVerify.CleanseAndFree | src/pqc_crypto.c:368-369 | the frame is all zero over its whole length when it is freed |
| SignVerify.SignatureBinds | src/pqc_crypto.c:307-420 | if the library accepts the returned signature for the signed bytes and no others, it verifies for another request, no library call failing, if and only if the strings of the domains and the messages agree |
| SignVerify.NeverVerifiesElsewhere | src/pqc_crypto.c:372-420 | failing library calls never make a signature that the library accepts for the signed bytes only pass for another pair |
| SignVerify.ElsewhereIsForgery | src/pqc_crypto.c:372-420 | for every scheme: a signature made for one pair passes for another only if the library itself accepts it for different bytes |
| SignVerify.NamesIff | src/pqc_crypto.c:71-80 | a terminated string is named by its bytes before the NUL alone, NULL by the empty string alone |
| SignVerify.BindingIsPossible | src/pqc_crypto.c:307-420 | for every request there is a scheme with one-byte signatures that meets all the premises of the binding together |
| SignVerify.SignThenVerify | src/pqc_crypto.c:307-420 | over the strings d and e of the two domains: when signing succeeds, all conditions written out; with any scheme a wrong pair passes only as a forgery of the library; if the signature stands for the frame of d alone, is not empty and no call fails, true if and only if d = e and the messages agree |
| SignVerify.EveryExitIsClean | src/pqc_crypto.c:328-369 | on every exit of both functions an observer of the trace sees no library call on other bytes than the frame, without an initialised context or after the cleanse, no second frame, context or free, and no frame freed unless all zero; at the end nothing is held but the signature on success |
| SignVerify.FaultsAreSeen | src/pqc_crypto.c:328-369 | the same observer objects to a frame kept, freed uncleansed or twice, and to a library call without a context or after the free |
| Ownership.ApplyKeepsValid | src/pqc_crypto.c:177-303 | every operation, structs aliased or not, keeps each count at least the number of structs holding the object |
| Ownership.HeldIsLive | src/pqc_crypto.c:235-240 | a held pointer never points to a destroyed object |
| Ownership.RunIsSafe | src/pqc_crypto.c:177-303 | the same at the end of every sequence of operations |
| Ownership.DestroyedForGood | src/pqc_crypto.c:177-303 | an object once destroyed stays destroyed in every sequence of operations |
| Ownership.ExcessStep | src/pqc_crypto.c:177-303 | conservation, one operation: count minus owners grows by one exactly when a reference is overwritten without a free |
| Ownership.CountsAreConserved | src/pqc_crypto.c:177-303 | conservation over any run: count = owners + references lost on the way |
| Ownership.RunIsExactIffNothingLost | src/pqc_crypto.c:177-303 | counts stay exact if and only if no operation overwrote a reference |
| Ownership.RejectedRegenerationLoses | src/pqc_crypto.c:185-192 | a run that leaks one reference: generate, then ask for a refused algorithm |
| Ownership.ProgramsStayExact | python/higgaion/core.py:145-168 | programs of the wrappers' generate and drop, in any order and reusing memory whose struct holds nothing, keep every count equal to its owners, so an object is destroyed exactly when unowned |
| Ownership.Use | rust/src/lib.rs:170-212 | one wrapper call, whatever fails inside it, leaves every object's count minus its owners unchanged |
| Ownership.LastDropDestroys | rust/src/lib.rs:64-87 | a drop destroys the object exactly when it was the last owner |
| KeyLifecycle.Memory.KeyInit | src/pqc_crypto.c:230-233 | clears the field without a free and changes nothing else |
| KeyLifecycle.Memory.KeyFree | src/pqc_crypto.c:235-240 | a held key loses one reference, being live, and the field is cleared; nothing else changes |
| KeyLifecycle.Memory.GenerateKeypair | src/pqc_crypto.c:177-228 | written out over fields and counts: a refused algorithm clears the field and frees nothing; an allowed one takes one reference from the key held before and stores the new object with count 1, or NULL if none was made |
| KeyLifecycle.Memory.KeyUpRef | src/pqc_crypto.c:288-303 | returns 1 exactly when both structs are given, the source holds a key and the library grants it, and then adds one reference and stores the object; otherwise changes nothing |
| KeyLifecycle.Memory.NewKeypair | go/higgaion.go:41-72 | on success both handles hold one new object of count 2, otherwise neither holds anything and an object made has count 0; nothing else changes |
| KeyLifecycle.Memory.DropHandle | go/higgaion.go:76-91 | a held handle loses one reference and is cleared; dropping again does nothing |
| Erasure.WalPathIsAllOrNothing | src/pqc_crypto.c:243-286 | at every point of every run, torn writes and crashes during and after the call included, wal_path is unchanged or exactly "ERASED " with the key released, unless a crash undid directory changes older than the call; true means a NULL key; from a covered start a crash after the release leaves a marker |
| Erasure.ReleasedOnlyAfterMarker | src/pqc_crypto.c:254-260 | a released key was preceded by a state with the key still held and the whole "ERASING" marker synced |
| Erasure.RunInv | src/pqc_crypto.c:243-286 | the invariant behind both, phase by phase |
| Erasure.StepRefines | verification/tla/pqc_crash_recovery.tla:94-156 | every step of the code is an erasure step of the specification or a stutter |
| Erasure.CrashRefines | verification/tla/pqc_crash_recovery.tla:94-156 | a crash is the specification's Crash, possibly after the marker being written, if and only if it does not go back to a directory without the marker |
| Erasure.RunRefines | verification/tla/pqc_crash_recovery.tla:80-156 | every run of the code is a behaviour of the specification from its FINALIZING step on, its crash included if the temporary file existed in a synced directory |
| Erasure.RefinesIff | src/pqc_crypto.c:249-284 | with crashes the call refines the specification if and only if the temporary file existed when it began and every earlier directory change had reached the disk: the code does not sync the parent directory before the release |
| Erasure.NeverResurrected | verification/tla/pqc_crash_recovery.tla:171-182 | from a covered start recovery after a crash never restores a released key |
| Erasure.NeverResurrectedIff | src/pqc_crypto.c:249-284 | recovery never restores a released key, in all runs from a start, if and only if the start is covered: the temporary file existed or wal_path held "ERASED ", and every older directory that a crash may go back to shows a marker |
| Erasure.RetryAfterFailure | src/pqc_crypto.c:253-256 | from every start without a temporary file or marker: the first write fails with the key held, and a retry, though it finds the file, may lose the marker and have the key restored |
| Erasure.RetryAfterCrash | src/pqc_crypto.c:243-286 | a temporary file found after a crash is durable, so a retry on it never has its key restored |
| Erasure.BothFilesShow | src/pqc_crypto.c:249-272 | once the key is released the two files together show a marker, after a crash if the start was covered |
| Erasure.WalPathShowsIff | src/pqc_crypto.c:249-285 | what wal_path alone shows: without a crash a marker if and only if the rename was made, so on return if and only if true is returned; after a crash none before the rename was begun, one always after the directory sync |
| Erasure.CrashShowsIff | src/pqc_crypto.c:265-284 | after a crash between the second marker and the directory sync, one if and only if the rename reached the disk and no older directory is left |
| Erasure.WalPathAloneIff | src/pqc_crypto.c:254-284 | for every start without a marker at wal_path and every point of a crash: wal_path alone always tells that the key is gone if and only if the point is not between the release and the directory sync |
| Erasure.WalPathAloneIsNotEnough | src/pqc_crypto.c:249-272 | from every fresh start, a run after whose crash wal_path shows no marker although the key is gone |
| Erasure.TornMarkersHappen | src/pqc_crypto.c:262-264 | each mixture of the two markers may be left by a crash after the release |
| Erasure.TornFirstMarkersHappen | src/pqc_crypto.c:253-257 | each torn first marker may be left, and so may the old content of the temporary file |
| Erasure.TrueMayBeLost | src/pqc_crypto.c:267-285 | from every start the call may return true without the directory synced and a crash then lose the rename |
| Erasure.MarkErasing | src/pqc_crypto.c:246-256 | what the code up to the synced marker leaves in the files, as steps of the system |
| Erasure.ConfirmErased | src/pqc_crypto.c:262-285 | entered with the key field NULL: what the code after the release leaves in the files, as steps of the system |
| Erasure.SyncedIff | src/pqc_crypto.c:267-284 | the directory is synced exactly when everything before succeeded, the path has a slash after its first character and the directory can be synced |
| Erasure.EraseDurable | src/pqc_crypto.c:243-286 | written out over key field, counts and files: the key is released, one reference fewer, exactly when the first marker was written; true exactly when every call depended on succeeded, and then the field is NULL and wal_path holds "ERASED "; what each failure leaves in the files; and the whole call, whatever directory changes are unsynced when it begins, is a run of the step system |
| Gossip.TypeStep | verification/tla/pqc_distributed.tla:192-199 | every action keeps the types, the symmetric partition, and that an announced PqcOnly is held; no action lowers PqcOnly |
| Gossip.ChangesAreAnnounced | verification/tla/pqc_distributed.tla:66-119 | a state changes only by an announced stage change of the node itself or by adopting a higher state from a message that is used up |
| Gossip.StageChangesHappen | verification/tla/pqc_distributed.tla:66-99 | every stage change, forward by one or back to CLASSICAL before PqcOnly, is possible at every node and affects nothing else |
| Gossip.CutThenHeal | verification/tla/pqc_distributed.tla:125-138 | two nodes can be cut off from each other, and healing undoes it |
| Gossip.RedundancyStep | verification/tla/pqc_distributed.tla:84-119 | every action keeps the redundancy invariant |
| Gossip.RunInv | verification/tla/pqc_distributed.tla:143-153 | all invariants hold in every reachable state |
| Gossip.PqcOnlyIsRedundant | verification/tla/pqc_distributed.tla:84-119 | a key at PqcOnly somewhere has an announcement in flight from a node that is there, or two such nodes |
| Gossip.PqcOnlyIsPermanent | verification/tla/pqc_distributed.tla:93-119 | PqcOnly at a node is never left |
| Gossip.PartitionStaysSymmetric | verification/tla/pqc_distributed.tla:125-138 | the partition stays symmetric and irreflexive |
| Gossip.HistoryIsDownwardClosed | verification/tla/pqc_distributed.tla:66-119 | the network as a whole never skips a stage: the states a key ever had, and those in flight, are downward closed |
| Gossip.DeliveryIsMaximum | verification/tla/pqc_distributed.tla:107-119 | delivering messages to one node one by one consumes each once and ends at the per-key maximum |
| Gossip.AnyOrderDelivers | verification/tla/pqc_distributed.tla:107-119 | messages in flight to a node that it is not partitioned from can be delivered in every order while operations are left |
| Gossip.ReceiveIff | verification/tla/pqc_distributed.tla:107-113 | a message can be received exactly if it is in flight, from another node, not cut off, and operations are left |
| Gossip.OrderIndependent | verification/tla/pqc_distributed.tla:107-119 | what can be delivered to a node in one order can be delivered in every other, and ends in the same state |
| Gossip.SplitBrainHolds | verification/tla/pqc_distributed.tla:183-188 | the claim holds in every run with at most two nodes, no key, or at most five operations |
| Gossip.SplitBrainUndetected | verification/tla/pqc_distributed.tla:183-188 | for any three nodes and six operations, a run that refutes it |
| Gossip.SplitBrainExactly | verification/tla/pqc_distributed.tla:183-188 | SplitBrainDetectable is an invariant if and only if there are at most two nodes, no keys, or at most five operations |
| Bucket.HashKeyId | verification/cbmc/cbmc_pqc_migration.c:79-86 | the loop returns the bucket of the bytes before the NUL, which is the 13-bit loop from 7621, the reduced offset basis |
| Bucket.FirstBuckets | verification/cbmc/cbmc_pqc_migration.c:79-86 | the empty id is in bucket 7621 and "a" in 2348 |
| Bucket.BucketNeedsThirteenBits | verification/cbmc/cbmc_pqc_migration.c:81-85 | the 32-bit loop reduced at the end equals a loop on 13 bits |
| Bucket.StepIsBijection | verification/cbmc/cbmc_pqc_migration.c:82-83 | each byte permutes the 8192 states |
| Bucket.CommonSuffix | verification/cbmc/cbmc_pqc_migration.c:79-86 | a common suffix neither separates nor merges two ids |
| Bucket.OneByteNeverCollides | verification/cbmc/cbmc_pqc_migration.c:79-86 | two ids that differ in exactly one byte never share a bucket |
| Hex.MigHexToBin | verification/cbmc/cbmc_pqc_migration.c:64-76 | result and buffer on every input: the decoded bytes, or -1 with exactly the good leading pairs written |
| Hex.HexNibble | verification/cbmc/cbmc_pqc_migration.c:56-61 | a hexadecimal digit has a value from 0 to 15, any other character -1 |
| Hex.NibbleIsDigit | verification/cbmc/cbmc_pqc_migration.c:56-61 | the value of a digit is its place in "0123456789abcdef", in either letter case |
| Hex.HighDigitFirst | verification/cbmc/cbmc_pqc_migration.c:69-73 | the first digit of each pair is the high half of its byte |
| Hex.DigitChars | verification/cbmc/cbmc_pqc_migration.c:56-61 | the hexadecimal digits are those of "0123456789abcdefABCDEF" |
| Hex.LengthFitsInt | verification/cbmc/cbmc_pqc_migration.c:75 | the returned length is exact if and only if below 2^31, and is -1 if and only if the length is one short of a multiple of 2^32 |
| Hex.AcceptsExactly | verification/cbmc/cbmc_pqc_migration.c:66-74 | accepts exactly the even-length strings of hexadecimal digits |
| Hex.DecodePrint | verification/cbmc/cbmc_pqc_migration.c:64-76 | decoding inverts base16 printing (section 8 of RFC 4648) |
| Hex.PrintDecode | verification/cbmc/cbmc_pqc_migration.c:64-76 | printing what was decoded gives the input in lower case |
| Hex.SameUpToCase | verification/cbmc/cbmc_pqc_migration.c:56-76 | two accepted inputs decode alike if and only if they differ in letter case only |
| Gateway.Session.HandleClientIn | verification/framac/eva_gateway.c:54-82 | the session drains with exactly the 403 response if and only if the data has a verb and five bytes, no route and an HTTP version in its first 4096 bytes; otherwise nothing changes |
| Gateway.Session.Send403Forbidden | verification/framac/eva_gateway.c:34-52 | closes the upstream descriptor, writes exactly the 64 bytes and drains |
| Gateway.Session.Scan | verification/framac/eva_gateway.c:64-79 | the flag-clearing double loop finds the pattern if and only if it occurs in the window |
| Gateway.Session.Compare | verification/framac/eva_gateway.c:65-66 | the comparing loop says whether the bytes at i are the pattern |
| Gateway.BlockedIff | verification/framac/eva_gateway.c:54-82 | the verdict written out: five bytes, "GET " or "POST " in front, no "/api/migration/" and some " HTTP/1." in the first 4096 |
| Gateway.VerdictIgnoresTail | verification/framac/eva_gateway.c:62 | bytes past 4096 never change the verdict |
| Gateway.RouteSeenPasses | verification/framac/eva_gateway.c:64-70 | once the route was seen, every extension of the data passes |
| Gateway.BlockedExtension | verification/framac/eva_gateway.c:64-79 | a blocked request stays blocked when data arrives, unless the route appears in the window |
| Quorum.QuorumsMeetHonestly | verification/coq/HiggaionTypes.v:83-92 | with n >= 3f+1, two quorums share f+1 validators, so an honest one, and the honest validators alone are a quorum |
| Quorum.QuorumIsLeast | verification/coq/HiggaionTypes.v:83-92 | any two quorums share f+1 validators, f being the most faults n tolerates; sets one vote smaller always do if and only if 3 divides n, so otherwise the size is the least |
| Quorum.AlwaysShareIff | verification/coq/HiggaionTypes.v:83-92 | any two sets of at least q validators share m of them if and only if 2q >= n + m, the smaller overlap being exhibited otherwise |
| Quorum.BftQuorumExact | verification/cbmc/cbmc_consensus.c:29 | the 32-bit function is the specified quorum if and only if n < 2^31, and from there on that of n - 2^31 |
| Quorum.FirstLeader | verification/cbmc/cbmc_consensus.c:36-40 | validator 0 leads view 1, and every view when there are no validators |
| Quorum.LeaderRotates | verification/cbmc/cbmc_consensus.c:36-40 | from view 1 on, each view passes the lead to the next validator |
| Quorum.LeaderRotatesFromZero | verification/cbmc/cbmc_consensus.c:36-40 | the same step from view 0 holds if and only if n divides 2^32 |
| Quorum.EveryoneLeadsOnce | verification/cbmc/cbmc_consensus.c:36-40 | in n consecutive views from view 1 on every validator leads exactly once |

## Left out

- The cryptographic library (ML-DSA, SHA3, providers, contexts) and malloc: outcomes are parameters; a signature scheme is a relation on key, bytes and signature, and that a signature is accepted for the signed bytes only is a premise where it is needed. The library is taken never to write more signature bytes than the size it announced.
- Logging, `hash`, `secure_zero`, `hig_error_str`, the marshalling in the Go, Rust and Python wrappers, deployment files, scripts.
- The engine's recovery loop is withheld from the repository: a log is modelled as a sequence of whole 101-byte records, and a record rejected by a validator is skipped. Truncated tails are not modelled.
- The writer that fills the CRC field is withheld too; `WalRecordLayout.SealedRecordIsValid` follows the call quoted at verification/framac/wp_pqc_wal.c:68-73.
- Operation codes 4 and 5 pass the validator (verification/framac/wp_pqc_wal.c:157-159) but have no replay action in PQCMigration.v; recovery skips them.
- Replay by key id: `apply_wal_record` never reads it, so the model replays onto a single record.
- The record's byte order is the machine's; the model takes little-endian, in which the magic number spells "HIG_MIG".
- Words are natural numbers below 2^n; a shift right is a division by two, exclusive or is defined bit by bit, and `(hi << 4) | lo` is 16 * hi + lo, whose operands do not overlap. `0xEDB88320 & -(crc & 1)` is a choice on the lowest bit.
- Directory entries: creating and renaming a file are atomic and reach the disk in the order they are made, but until the parent directory is synced a crash may go back to any older directory, of this call or of earlier ones. The older directories at the start of a call are a parameter; they do not contain the temporary file that is there then, and what a crash leaves is durable. Whether the sync took place is an outcome; the code does not look at it.
- File contents: a write that returns whole on the O_SYNC descriptor is durable, a failed write leaves any mixture of old and new bytes that is settled when the call returns, and an earlier content of the temporary file survives a lost truncation whole or not at all. The results of fsync are ignored, as in the code.
- Erasure markers are per call: the refinement starts from a disk without markers, since a new call truncates the temporary file.
- The specification's steps after the final marker (SetPqcOnly, WriteWALPqcOnly) belong to the withheld engine.
- `owns_memory` in the Rust and Python wrappers, which is always set; the early return of the Rust wrapper for a name with a NUL inside, which leaves both structs empty like a refused algorithm.
- Concurrent use of one struct by two threads, and the lifetime of the structs themselves; reading an uninitialised struct is excluded by `Ownership.Legal`.
- Convergence of all gossip nodes: not claimed by the code's steps, since a message reaches one receiver only and may never be received. TLA+ fairness is not modelled.
- Files where a comment swallows code (verification/cbmc/cbmc_pqc_migration_actual.c:183-231): their functions are taken from verification/cbmc/cbmc_pqc_migration.c.
- The older pqc_crypto.c at the root, which concatenates domain and message without lengths, and verification/framac/wp_gateway.c, the same scanner with another response length.
- Harnesses that compare constants or restate one branch (bridge, confidential contracts, DID/VC, disaster recovery, MiCA/DORA, SIEM, UTXO, token transfer, governance tally, HSM/KMS): each of their functions compares an input with a constant or takes one branch.
