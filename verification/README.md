# ZipherX wallet core: a verified model

ZipherX is a shielded (Sapling) wallet. Its core keeps five things in agreement: an append-only
commitment tree, the positions and witnesses of the wallet's notes in that tree, the spent marks,
the transaction history, and the balance. It does so through paged, chunked, resumable and retried
loops. This project models those loops and proves what they keep.

Each module follows one component:

- `CommitmentTree`: the process-wide tree as a class; a Merkle frontier is represented by its
  leaves, a witness by its leaf and the leaves its path has absorbed (section 3.8 of the Zcash
  Protocol Specification).
- `DeltaStore`, `PageOrder`, `LateBlock`, `DeltaLoad`, `LoadGrowth`: the delta file, its paged readers,
  the order in which they see its commitments (and a file on which they differ), and the loaders that
  append these once each on top of the boost leaves, at once or resumed on a file that has grown.
- `Positions`, `SpendDetection`, `PostBoostScan`: where the notes are in the tree, their nullifiers
  there, and the second look at every delta nullifier.
- `BlockScan`, `CatchUp`: regrouping records into blocks, trial decryption with positions, and the
  chunked scan that may be interrupted after any database write.
- `WitnessRebuild`: replaying leaves to rebuild all witnesses.
- `VerifiedFlag`: what delta_bundle_verified promises, phase by phase, run by run.
- `BoostScan`, `History`, `Selection`: money: totals of the boost scan, the history derived from
  it, and the choice of inputs for a payment.
- `Guards`: compare-and-swap flags and drop guards under the peer mutex, as interleaved steps of
  any number of calls.
- `BlockFetch`, `BatchScan`, `FetchedFile`: fetching blocks in rounds, retrying until every hash is
  accounted for, and the delta file that this leaves.
- `Gaps`, `HeaderChain`, `Money`: gap detection, header chains, printing and parsing amounts.
- `StableSort`, `FirstOccurrences`, `Common`: the standard library's stable sort, deduplication by
  first occurrence and how the two commute, and shared vocabulary.

Cryptography (decryption, nullifiers, commitments, Merkle roots, SHA-256, Equihash) enters as
function-valued parameters, so every result holds for all of them. Collision-freeness is assumed
only for counting spends (`SpendDetection.RecomputeSeparates`, `PostBoostScan.CountsOnce`) and for
comparing anchors (`WitnessRebuild.BranchesAgree`). What peers, the header store and the file system answer
enters as parameters too (`World`, `Event`, `Round`, `Attempt`).

## Where code and intentions differ

The model follows the code. Where its comments promise more, the exact condition is proved:

- The paged range reader pages the raw file and filters afterwards, while its callers advance by the
  filtered length and stop at a short page. It loses records that follow a record out of range on a
  later page (`DeltaStore.PagedReadComplete`, `DeltaStore.PagedReadLosesRecords`).
- Blocks fetched on a second try are appended behind higher ones, and so are blocks that a first scan
  or a rescan finds missing below records already stored; each page is sorted by itself. A page size
  that keeps a late block on one page with the higher ones reads it in chain order, one that
  separates them does not: `PageOrder.ReadableExactly` says exactly when, per page
  size, and `FetchedFile.ReadableAfterFullScan` which scans leave such a file
  (`FetchedFile.RescanLeavesLate` one that does not). A load resumed after such growth may skip the
  late commitment (`LoadGrowth.ResumedLoadExactly`, `LoadGrowth.LateBlockLost`). The verified load
  reads pages of 10_000, the passes and the combined build pages of 50_000; they agree on a file
  readable at 10_000 (`Positions.ProgramPagesAgree`), and disagree when a page of 10_000 ends between
  the two blocks and a page of 50_000 does not (`LateBlock.RetriedNotReadable`,
  `Positions.RetriedBlockDisagrees`).
- The size-guard skip counts raw records, the tree counts unique leaves
  (`DeltaLoad.SkipExactlyWhenDistinct`, `DeltaLoad.SkippedDuplicateIsAppended`); the second builder
  counts its skip from another origin than it reads from (`DeltaLoad.CombinedBuildExact`,
  `DeltaLoad.ResumedBuildLosesLeaf`).
- The catch-up scan sorts chunk by chunk too; resuming with another chunk size is only sound on a
  file in chain order (`CatchUp.ChunkSizeImmaterial`).
- The catch-up scan saves a new tree without touching the verified flag, as when the block scan
  before it fails after appending (`VerifiedFlag.CatchUpKeepsPromise`, `VerifiedFlag.TailKeepsPromise`, `VerifiedFlag.RunBreaksPromise`).
- The history assumes a fixed fee and saturates (`History.HistoryNetsToBalance`,
  `History.SmallFeeOverstated`).
- Database repair has no drop guard and takes no mutex, a sync never reads its flag, and a send reads
  it before the repair may claim it (`Guards.LostExactly`, `Guards.LossIsForever`,
  `Guards.SyncOverlapExactly`, `Guards.SendOverlapExactly`, `Guards.RepairClaimedAfterRead`; reached
  in `Guards.RepairOverlapsSync` and `Guards.RepairOverlapsSend`).
- The retry counter is wound back on every reconnect (`BatchScan.WorstCase`).
- A zero target still takes one coin (`Selection.ZeroTargetTakesOne`), gaps are reported beyond the
  expected range when heights lie outside it (`Gaps.ExactInRange`, `Gaps.HeightBelowRange`), and a plus
  sign inside the decimals shifts them (`Money.SignInFraction`).

## Model

| member | source | states |
|---|---|---|
| `CommitmentTree.Tree.Append` | crates/zipherx-crypto/src/tree.rs:120-155 | Appending extends the leaves by one, every open witness absorbs the leaf, and position, leaves and witnesses stay in step |
| `CommitmentTree.Tree.AppendBatch` | crates/zipherx-crypto/src/tree.rs:162-212 | A batch has the effect of its single appends: same leaves, same position, every witness absorbs the whole batch |
| `CommitmentTree.Tree.WitnessCurrent` | crates/zipherx-crypto/src/tree.rs:289-307 | A new witness authenticates the leaf appended last, against all leaves so far |
| `DeltaStore.RangePage` | crates/zipherx-storage/src/delta_cmu.rs:714-729 | A page never holds more than the limit and, starting inside the file, never runs past its end |
| `DeltaStore.PagedReadComplete` | crates/zipherx-storage/src/delta_cmu.rs:714-729 | For any file, the page loop sees every record in range, as a multiset, if and only if no record in range lies on a later page than a record out of range before it |
| `DeltaStore.PagedReadLosesRecords` | crates/zipherx-storage/src/delta_cmu.rs:714-729 | For every page size, a file with one record below the range, of which the page loop drops an in-range record |
| `DeltaStore.PageSizeImmaterial` | crates/zipherx-storage/src/delta_cmu.rs:714-729 | When all records are in range, all page sizes read the same list, repetitions included, if and only if the file is sorted by height |
| `DeltaLoad.LoadPaged` | crates/zipherx-core/src/async_sync.rs:1326-1438 | Both paths (witness and batch) leave the tree as its old leaves followed by the kept records of the paged read; the witness path returns, in order of position, a witness for exactly those appended leaves that are among the notes, at that leaf's own position |
| `DeltaLoad.WitnessPage` | crates/zipherx-core/src/async_sync.rs:1351-1396 | One page appended record by record: skip count and deduplication as in the specification, one witness per appended note leaf |
| `DeltaLoad.BatchPage` | crates/zipherx-core/src/async_sync.rs:1398-1431 | One page through the buffer appends the same leaves as the record-by-record path |
| `DeltaLoad.KeptDeduplicates` | crates/zipherx-core/src/async_sync.rs:1333-1373 | With skip count 0 the kept records are all records, each once, in order of first occurrence |
| `DeltaLoad.KeptSplit` | crates/zipherx-core/src/async_sync.rs:1361-1370 | Skipping k raw records leaves exactly the deduplicated list minus what the first k records contribute |
| `DeltaLoad.SkipExactlyWhenDistinct` | crates/zipherx-core/src/async_sync.rs:1060-1076 | Boost leaves, k deduplicated delta leaves and a load that skips k raw records give boost plus every delta commitment once, if and only if those k raw records are distinct |
| `DeltaLoad.SkippedDuplicateIsAppended` | crates/zipherx-core/src/async_sync.rs:1361-1370 | Any two commitments, the first of them stored twice: with two leaves in the tree and two records skipped, the second leaf is appended again |
| `PageOrder.ReadableExactly` | crates/zipherx-core/src/async_sync.rs:1338-1438 | For any file and page size: the page loop yields every commitment in range, once each and by height, if and only if the file is readable at that size, that is, no commitment first occurs on a later page than a higher record or one out of range |
| `PageOrder.DeltaIs` | crates/zipherx-storage/src/delta_cmu.rs:714-729 | The delta is the height and commitment of every record in range and nothing else, each once, by height and within a height as they first occur in the file |
| `PageOrder.AlikeExactly` | crates/zipherx-core/src/async_sync.rs:4498-4550 | For any file and any two page sizes: both yield the same commitments in the same order if and only if they reach the same new ones, and agree on which of them share a page with a higher one before them |
| `PageOrder.ReadOrder` | crates/zipherx-storage/src/delta_cmu.rs:714-729 | Of two commitments, the one first in the file is read first, unless the other is lower and on the same page |
| `PageOrder.SortedIfAscending` | crates/zipherx-storage/src/delta_cmu.rs:714-729 | Whatever a page loop reads of any file, it yields it sorted by height if and only if what it yields ascends |
| `PageOrder.AlikeCases` | crates/zipherx-core/src/async_sync.rs:4498-4550 | Two page sizes yield the same if they are equal, if both hold the whole file, or if the file is readable at both |
| `PageOrder.CoarserPages` | crates/zipherx-core/src/async_sync.rs:1338-1438 | A file that is readable at a page size is readable at every multiple of it |
| `PageOrder.PagesImmaterial` | crates/zipherx-core/src/async_sync.rs:1338-1438 | For any file, all page sizes yield the same if and only if no commitment first occurs behind a higher record or one out of range; they then yield everything by height |
| `LateBlock.RetriedBlock` | crates/zipherx-core/src/async_sync.rs:4691-4780 | For every page size, a file whose last block came on a second try: pages of that size leave it behind the higher block, a larger page puts it right |
| `LateBlock.RetriedNotReadable` | crates/zipherx-core/src/async_sync.rs:4691-4780 | That file is not readable at that page size and is at every larger one, so the two do not yield the same (10_000 and 50_000 in the program) |
| `DeltaLoad.LoadRefinesDedup` | crates/zipherx-core/src/async_sync.rs:1326-1438 | On a file readable at the page size in use, a load over boost and the first k leaves that skips k records as read ends as boost and every delta commitment once, by height, if and only if the skipped records are distinct |
| `DeltaLoad.FreshLoadExactly` | crates/zipherx-core/src/async_sync.rs:1326-1438 | For any file and page size, a load onto the boost tree ends as boost and every delta commitment once, by height, if and only if the file is readable at that size (the converse when no commitment was mined at two heights) |
| `LoadGrowth.ResumedLoadExactly` | crates/zipherx-core/src/async_sync.rs:1060-1076 | A load and, after the file has grown, a resumed load append what a single load appends if and only if the new read starts with what the first load appended; on settled growth, if and only if the skipped records are distinct; without repeats in the old read, if and only if the growth is settled |
| `LoadGrowth.GrownExactly` | crates/zipherx-core/src/async_sync.rs:1338-1438 | For any file, growth and page size, the old read is how the new one starts if and only if no appended record is lower than an old one read from the same page (settled growth) |
| `LoadGrowth.LoadsOverGrowth` | crates/zipherx-core/src/async_sync.rs:1060-1438 | Any number of loads of a growing file, each skipping as many records as the tree has leaves past the boost tree, end with the tree of a single load if every growth continues the read |
| `LoadGrowth.ResumedTree` | crates/zipherx-core/src/async_sync.rs:1060-1438 | The tree after a resumed load is the one of a single load if the read starts with what the tree holds, and only then when no commitment was mined at two heights |
| `LoadGrowth.LateBlockLost` | crates/zipherx-core/src/async_sync.rs:1060-1076 | A late block that arrives between two loads on the page of a higher one: the resumed load skips it and appends the higher one again |
| `DeltaLoad.CombinedBuildExact` | crates/zipherx-core/src/async_sync.rs:5172-5263 | On a file readable at the page size in use, paging from the scan start while counting the skip from the boost size, with distinct skipped records, gives the full tree if and only if no record lies past the boost range and below the scan start, or the tree already held everything |
| `DeltaLoad.ResumedBuildLosesLeaf` | crates/zipherx-core/src/async_sync.rs:5172-5263 | Concrete files: scanning resumes at height 6 over a tree that holds the leaf of height 5, and the leaf of height 6 is skipped |
| `Positions.PositionPass` | crates/zipherx-core/src/async_sync.rs:4514-4550 | The page loop computes, for each note commitment, the boost count plus the index of its last first occurrence |
| `Positions.PositionsMatchTree` | crates/zipherx-core/src/async_sync.rs:5486-5519 | Exactly our commitments among the records are mapped, and the tree built from the same records holds each at its mapped position and nowhere after |
| `Positions.PassAgreesWithLoader` | crates/zipherx-core/src/async_sync.rs:4514-4550 | For any file on which the two page sizes yield the same (PageOrder.AlikeExactly), every position a pass maps is the place in the loaded tree |
| `Positions.ProgramPagesAgree` | crates/zipherx-core/src/async_sync.rs:4498-4550 | A file readable with pages of 10_000 is read alike by the verified load and by the passes with pages of 50_000 |
| `Positions.RetriedBlockDisagrees` | crates/zipherx-core/src/async_sync.rs:4691-4780 | For every loader page size and every larger one of the pass, a file with a late block whose commitment the pass maps to one place before the one that the loaded tree holds it at |
| `SpendDetection.NoteTable.Recompute` | crates/zipherx-core/src/async_sync.rs:5521-5600 | Each unspent post-boost note with a mapped position and usable fields gets the hashed nullifier of that position; no other row changes |
| `SpendDetection.NoteTable.UpdateNullifierByCmu` | crates/zipherx-storage/src/database.rs:729-742 | Sets nullifier and position of the rows with this commitment only |
| `SpendDetection.NoteTable.CrossRefNullifierSpend` | crates/zipherx-storage/src/database.rs:414-460 | Marks every unspent row with the nullifier, returns the value of the first one only |
| `SpendDetection.NoteTable.Recheck` | crates/zipherx-core/src/async_sync.rs:5605-5665 | The loop over the delta nullifiers equals the specified sweep: table, match count and per-transaction sums |
| `SpendDetection.SweepSettles` | crates/zipherx-core/src/async_sync.rs:5615-5640 | Each note ends spent by the first record that reveals its nullifier, every other note is untouched |
| `SpendDetection.DetectionComplete` | crates/zipherx-core/src/async_sync.rs:5471-5670 | After recompute and recheck, no unspent post-boost note with a mapped position, an 11-byte diversifier and 32 bytes of randomness has the nullifier that the nullifier function gives for that position among the delta nullifiers |
| `SpendDetection.SpendCaught` | crates/zipherx-core/src/async_sync.rs:5521-5640 | An unspent post-boost note with a mapped position, an 11-byte diversifier and 32 bytes of randomness, whose nullifier at that position a record reveals, ends spent by the first record whose hashed nullifier is its own, with that position, nullifier, transaction and height |
| `SpendDetection.OthersKept` | crates/zipherx-core/src/async_sync.rs:5521-5571 | A note that is spent, below the boost height, unmapped, with a diversifier or randomness missing or of another length, or without a nullifier at its position keeps every field in the recompute |
| `SpendDetection.UnrevealedKept` | crates/zipherx-core/src/async_sync.rs:5605-5640 | A spent note, and one whose stored nullifier no record reveals, keeps every field in the recheck |
| `SpendDetection.TotalsHeight` | crates/zipherx-core/src/async_sync.rs:5615-5640 | A transaction has a total exactly if one of its records found a note, and the height recorded with it is that of the first such record |
| `SpendDetection.SecondSweepMarksNothing` | crates/zipherx-core/src/async_sync.rs:5601-5670 | A second recheck over the same (or fewer) records changes no row, counts nothing and records nothing |
| `SpendDetection.TotalsAreExact` | crates/zipherx-core/src/async_sync.rs:5608-5655 | If no two unspent notes share a revealed nullifier (as SpendDetection.RecomputeSeparates shows of a recomputed table), the sum recorded for each transaction is the value of the notes it newly spends |
| `SpendDetection.CountIsExactWhenUnshared` | crates/zipherx-core/src/async_sync.rs:5607-5640 | The match count never exceeds the number of newly spent notes and equals it if and only if no two unspent notes share a revealed nullifier |
| `SpendDetection.SharedNullifierLosesValue` | crates/zipherx-storage/src/database.rs:414-460 | Two notes to which the recompute gives one nullifier (a collision of the nullifier function): both are marked, only the first value is recorded |
| `SpendDetection.RecomputeSeparates` | crates/zipherx-core/src/async_sync.rs:5521-5600 | Over any table with distinct commitments whose stored nullifiers are the notes' own, no revealed nullifier is shared by unspent notes after the recompute, given collision-free hash and nullifiers |
| `PostBoostScan.Recheck` | crates/zipherx-core/src/async_sync.rs:5471-5670 | Positions, recompute and recheck together: for any file, and a tree built with the same page size as the pass, or another one that yields the same, every unspent post-boost note that the tree holds past the boost leaves and whose nullifier at its own place there is revealed ends spent by the first record that reveals it; without collisions each recorded total is what that transaction newly spends, the count is the number of notes newly spent, and a second sweep marks nothing |
| `PostBoostScan.CountsOnce` | crates/zipherx-core/src/async_sync.rs:5521-5665 | Recompute and sweep count every newly spent note once, in the totals and in the number of matches |
| `PostBoostScan.NoSpendMissed` | crates/zipherx-core/src/async_sync.rs:5471-5670 | The completeness half for a single note and a single leaf of the tree, in terms of the nullifier function itself: an 11-byte diversifier and 32 bytes of randomness are all that it takes |
| `PostBoostScan.MappedWhereBuilt` | crates/zipherx-core/src/async_sync.rs:5486-5519 | Where the page sizes of pass and build yield the same, as equal ones do on any file, a note leaf past the boost leaves is mapped to exactly its index in the built tree |
| `BlockScan.ReconstructCompactBlocks` | crates/zipherx-core/src/async_sync.rs:5977-6048 | One block per occurring height, heights ascending, each holding its records sorted by index |
| `BlockScan.RegroupingIsIdentity` | crates/zipherx-core/src/async_sync.rs:5977-6048 | On (height, index)-ordered records, regrouping into blocks and flattening gives the records back |
| `BlockScan.RegroupingSorts` | crates/zipherx-core/src/async_sync.rs:5977-6048 | On records in any order, regrouping and flattening is the stable sort by (height, index) |
| `BlockScan.ProcessBlock` | crates/zipherx-core/src/scanner.rs:259-331 | A block scans successfully exactly if the key is valid and no opened output lacks a nullifier; it then finds each opened output, at start position plus its index |
| `BlockScan.ScanBlocks` | crates/zipherx-core/src/scanner.rs:335-384 | Threading the position through the blocks equals scanning their flattened outputs once |
| `BlockScan.FoundAtOwnIndex` | crates/zipherx-core/src/scanner.rs:259-331 | Every note found is that of the output at its position: at least 580 bytes of ciphertext that decrypt to its plaintext, the nullifier of that plaintext and position, the recomputed commitment or else the one of the output, and the height, transaction and ephemeral key of the output |
| `BlockScan.NothingMissed` | crates/zipherx-core/src/scanner.rs:259-331 | Every output of at least 580 bytes that decrypts is found, at its own index |
| `BlockScan.FoundInOrder` | crates/zipherx-core/src/scanner.rs:259-331 | Notes are found in strictly ascending order of position, so each once |
| `BlockScan.ScannableExactly` | crates/zipherx-core/src/scanner.rs:259-331 | A scan fails exactly over an invalid key with something to scan, or a decrypted output that has no nullifier at its position |
| `BlockScan.OutputOfRecord` | crates/zipherx-core/src/async_sync.rs:5986-6009 | A record becomes an output with the same fields; where its transaction id is short or all zero it gets one made of height and index, least significant bytes first |
| `CatchUp.WalletDb.InsertNote` | crates/zipherx-storage/src/database.rs:263-303 | Insert-or-ignore on the commitment, as CatchUp.InsertedExactly says of any number of insertions |
| `CatchUp.InsertedExactly` | crates/zipherx-storage/src/database.rs:263-303 | Old rows stay in front, each new row is an inserted finding whose commitment no row before it has, and later insertions only add rows at the end |
| `CatchUp.RowsAreRecords` | crates/zipherx-core/src/async_sync.rs:1726-1986 | Every row that a scan adds holds what its own record holds: decrypted plaintext, nullifier at its place, recomputed or stored commitment, height, transaction and ephemeral key |
| `CatchUp.RecordsAreRows` | crates/zipherx-core/src/async_sync.rs:1726-1986 | Every record of at least 580 bytes that decrypts has its commitment among the rows after the scan |
| `CatchUp.Reinsert` | crates/zipherx-storage/src/database.rs:263-303 | Inserting again findings of which a prefix is already stored has the effect of inserting the missing ones |
| `CatchUp.Chunk` | crates/zipherx-core/src/async_sync.rs:1726-1986 | One chunk of any file keeps the resumption invariant wherever it stops; it saves the longer tree only with all its notes stored, and it fails only if the outputs cannot be scanned; when it is done it made one write for each finding and one for the tree |
| `CatchUp.Run` | crates/zipherx-core/src/async_sync.rs:1664-1986 | One run makes monotone progress, ends at the end of the file when it is done, and is interrupted only if it got too few writes |
| `CatchUp.CatchUpWithRestarts` | crates/zipherx-core/src/async_sync.rs:1664-1986 | Any sequence of interrupted runs over any file, once one completes, leaves the tree, height and notes of a single uninterrupted scan; their chunk sizes are equal or, on a file in chain order, arbitrary |
| `CatchUp.ChunkSizeImmaterial` | crates/zipherx-core/src/async_sync.rs:1726-1760 | All chunk sizes consume the records in the same order if and only if the file is in chain order |
| `CatchUp.ScanOrderKeeps` | crates/zipherx-core/src/async_sync.rs:1726-1760 | Whatever the chunk size, the order of scanning is an order of exactly the records left |
| `CatchUp.ProgressSurvivesGrowth` | crates/zipherx-core/src/async_sync.rs:1667-1681 | Progress made on a file stays progress when the file grows |
| `CatchUp.GoalPiece` | crates/zipherx-core/src/async_sync.rs:1778-1779 | Scanning outputs h to next at position h finds exactly the next piece of the whole scan's findings |
| `WitnessRebuild.CheckNotes` | crates/zipherx-core/src/async_sync.rs:2743-2780 | A rebuild is wanted exactly if an unspent note has no witness, one shorter than 100 bytes, or two unspent notes have different 32-byte anchors |
| `WitnessRebuild.ReplayLeaves` | crates/zipherx-core/src/async_sync.rs:2850-3097 | Either branch leaves its base and then the commitment of exactly the records above the chain height, each once, by height and index, and on a file readable by pages what a paged load appends; all witnesses follow the whole tree, with a mark for every replayed note leaf |
| `WitnessRebuild.DeltaReplayed` | crates/zipherx-core/src/async_sync.rs:2960-3097 | The same of the delta over any base: a commitment is replayed if and only if a record above the chain height holds it |
| `WitnessRebuild.StoreWitnesses` | crates/zipherx-core/src/async_sync.rs:3161-3242 | Stored rows are unchanged or carry a consistent witness at a leaf that is their own commitment, with the anchor of the whole tree; the number returned counts the marks whose witness is consistent |
| `WitnessRebuild.Rebuild` | crates/zipherx-core/src/async_sync.rs:2730-3242 | When it does not run, nothing changes; when it runs, it replays the boost outputs or the boost tree, whichever its notes need, and every record above the chain height; every unspent note with a replayed commitment is refreshed, no other row and no other field changes, and a saved tree is put back |
| `WitnessRebuild.BranchesAgree` | crates/zipherx-core/src/async_sync.rs:2834-3242 | Rebuilds by boost replay and by delta-only replay store equal anchors for notes that they reach if and only if the boost file's outputs and tree sections agree, when roots do not collide |
| `WitnessRebuild.ReplayBothWays` | crates/zipherx-core/src/async_sync.rs:2834-3097 | The two branches run side by side leave equal trees if and only if the two sections agree |
| `WitnessRebuild.WitnessAtOwnLeaf` | crates/zipherx-core/src/async_sync.rs:3161-3190 | With distinct leaves each refreshed witness is at the one index of its own commitment |
| `WitnessRebuild.SecondRunExact` | crates/zipherx-core/src/async_sync.rs:2743-2780 | A further rebuild is wanted if and only if some unspent note that was not reached lacks a witness or keeps another anchor |
| `WitnessRebuild.AllFoundNoRerun` | crates/zipherx-core/src/async_sync.rs:2743-2780 | When every unspent note was reached, a second run does nothing |
| `WitnessRebuild.SameRecordsAsPagedRead` | crates/zipherx-storage/src/delta_cmu.rs:227-241 | For any file with nothing past the upper bound, the unpaged reader sorted by height and index and a paged reader yield the same commitments, once each, in the same order, if and only if the file is readable at that page size and each block first shows its commitments in index order |
| `VerifiedFlag.VerifiedLoad` | crates/zipherx-core/src/async_sync.rs:1044-1588 | From any state loaded into memory, the flag afterwards implies a recorded root exactly if it did before or the plan was to load or rebuild something |
| `VerifiedFlag.LoadRecoversExactly` | crates/zipherx-core/src/async_sync.rs:1044-1588 | The same of the phase as a function, and that a failure means an empty delta file, or no boost file and nothing beyond the tree |
| `VerifiedFlag.LoadLeavesDelta` | crates/zipherx-core/src/async_sync.rs:1044-1588 | Which leaves the load of a verified wallet leaves, in terms of the file: with more raw records than the tree has delta leaves, the whole delta exactly if the skipped records are distinct; else, if something lacks or the root is unknown, the whole delta anew; else what there was; and the flag says whether its root is recorded |
| `VerifiedFlag.CombinedBuild` | crates/zipherx-core/src/async_sync.rs:5157-5437 | The paged build saves tree and flag only over a root recorded at the tip, so it keeps the promise; a mismatch changes nothing saved |
| `VerifiedFlag.BuildLeavesDelta` | crates/zipherx-core/src/async_sync.rs:5157-5437 | When the combined build holds the whole delta, in terms of heights and scan start, and that it is saved, with the flag set, if its root or the reverse of it is the one recorded at the tip, and not at all otherwise |
| `VerifiedFlag.SyncRun` | crates/zipherx-core/src/async_sync.rs:87-2717 | One run that returns Ok keeps the promise, unless it takes the catch-up branch and neither resets the tree nor clears the flag after it |
| `VerifiedFlag.QuietRunLoads` | crates/zipherx-core/src/async_sync.rs:87-2717 | A run of a verified wallet that only loads ends with boost and every delta commitment saved and in memory, the flag set exactly if that root is recorded |
| `VerifiedFlag.RunStartsOver` | crates/zipherx-core/src/async_sync.rs:87-1043 | After a clear, or with a newer boost file, a run goes on from the boost leaves with the flag cleared |
| `VerifiedFlag.RunResets` | crates/zipherx-core/src/async_sync.rs:87-2717 | A run whose build finds another root than the one recorded at the tip ends on the boost leaves, its flag as before the build or cleared |
| `VerifiedFlag.CaughtIs` | crates/zipherx-core/src/async_sync.rs:1664-1986 | The catch-up appends one leaf for each record past the saved height, in file order if that is chain order |
| `VerifiedFlag.SyncRuns` | crates/zipherx-core/src/async_sync.rs:87-2717 | From a wallet never verified, any number of such runs, with repairs in between and roots only added, ends with the flag implying a recorded root |
| `VerifiedFlag.CatchUpKeepsPromise` | crates/zipherx-core/src/async_sync.rs:1664-1986 | Whatever else the header store records, the promise survives the catch-up branch if and only if the delta count does not exceed the saved height |
| `VerifiedFlag.TailKeepsPromise` | crates/zipherx-core/src/async_sync.rs:1664-2177 | From the catch-up branch to the end of a run: the promise survives for every header store that knows the saved and the boost root if and only if the branch is not taken, or a reset or a cleared flag follows it |
| `VerifiedFlag.RunKeepsPromise` | crates/zipherx-core/src/async_sync.rs:87-2717 | The guards under which a whole run keeps the promise, each evaluated in the state in which the code evaluates it |
| `VerifiedFlag.RunBreaksPromise` | crates/zipherx-core/src/async_sync.rs:87-2717 | From a new wallet: a first run that verifies its tree, and a second one whose block scan appends two blocks and then fails, after which the flag stands over an unrecorded root |
| `VerifiedFlag.SmallDeltaNeverCatchesUp` | crates/zipherx-core/src/async_sync.rs:1671-1678 | A delta file no longer than the boost tree never takes the catch-up branch |
| `VerifiedFlag.PromiseOverRuns` | crates/zipherx-core/src/async_sync.rs:87-2717 | Induction over runs: the promise at the end of every history whose catch-up branches are not taken or undone |
| `History.BuildHistory` | crates/zipherx-core/src/async_sync.rs:3589-3698 | One received entry per transaction that only received, one sent entry per transaction that spent, net of change and fee, each once, in any order, with the fields of History.EntriesExactly |
| `History.EntriesExactly` | crates/zipherx-core/src/async_sync.rs:3603-3698 | A received entry carries what its transaction brought, no fee and the height of receipt; a sent one what it spent less what came back less 10_000, that fee, and the height of spending |
| `History.ReceivedHeightIs` | crates/zipherx-core/src/async_sync.rs:3603-3635 | The height of receipt is the greatest at which the transaction brought a note |
| `History.SpentHeightIs` | crates/zipherx-core/src/async_sync.rs:3636-3680 | The height of spending is the greatest that its spent notes record |
| `History.HistoryNetsToBalance` | crates/zipherx-core/src/async_sync.rs:3589-3698 | The history never nets to more than the unspent value, and to exactly it if and only if every spending transaction's inputs cover its change plus the fixed fee |
| `History.SmallFeeOverstated` | crates/zipherx-core/src/async_sync.rs:3636-3680 | Inputs of 100_000 and change of 95_000: the history nets to 90_000 while 95_000 are unspent |
| `History.GainsAreUnspent` | crates/zipherx-core/src/async_sync.rs:3603-3635 | Summed over all transactions, received minus spent value is the unspent value |
| `BoostScan.IndexSpends` | crates/zipherx-crypto/src/boost_scan.rs:183-197 | A nullifier is indexed exactly if it occurs, with height and txid of its last record |
| `BoostScan.FindSpend` | crates/zipherx-crypto/src/boost_scan.rs:433-495 | The first spent position among the note's own and the probed ones, in order; none if none of them is spent |
| `BoostScan.ScanHits` | crates/zipherx-crypto/src/boost_scan.rs:349-544 | The loop fails exactly when the received values exceed 64 bits; otherwise every rebuilt note is recorded as specified and all totals are the sums they stand for |
| `BoostScan.ScanBoostOutputs` | crates/zipherx-crypto/src/boost_scan.rs:146-797 | Success exactly if key and total allow, and which error otherwise; received is the sum over the outputs of what each decrypts to; one note, as recorded, for each output that decrypts to a note that can be rebuilt, in file order; total_spent is the value of the notes marked spent, and unspent_balance the rest of received |
| `BoostScan.DecryptedExactly` | crates/zipherx-crypto/src/boost_scan.rs:289-330 | Exactly the outputs that decrypt are considered, each once, at its own file index, in file order |
| `BoostScan.HitsAreReceived` | crates/zipherx-crypto/src/boost_scan.rs:289-360 | Their values add up to the sum over all outputs of what each decrypts to |
| `BoostScan.CandidatesInOrder` | crates/zipherx-crypto/src/boost_scan.rs:433-495 | The positions tried for an output, in order |
| `BoostScan.CandidatesExactly` | crates/zipherx-crypto/src/boost_scan.rs:433-495 | The positions tried near the start of the file: those of the list that are not negative |
| `Selection.SelectNotes` | crates/zipherx-core/src/send.rs:118-152 | Succeeds exactly if there are notes and their true total covers the target; returns the greedy choice and its saturated value, or the saturated total as error |
| `Selection.SelectChecked` | crates/zipherx-core/src/async_send.rs:434-460 | Same choice, but an error exactly when the chosen value does not fit 64 bits |
| `Selection.SelectOrMax` | bin/zipherx-gui/src/sync.rs:1250-1257 | Same choice, with the value cut off at the maximum |
| `Selection.PickedIsEnough` | crates/zipherx-core/src/send.rs:118-152 | The choice is a sub-multiset of the coins and covers the target whenever all coins do |
| `Selection.PickedIsFewest` | crates/zipherx-core/src/send.rs:118-152 | For a positive target no sub-multiset that covers it has fewer coins (exchange argument) |
| `Selection.PickedIsGreedy` | crates/zipherx-core/src/send.rs:118-152 | The choice is in descending order of value and nothing left over is worth more than anything chosen |
| `Selection.ZeroTargetTakesOne` | crates/zipherx-core/src/send.rs:134-143 | A zero target takes one coin where none would do |
| `Selection.CalculateChange` | crates/zipherx-core/src/send.rs:160-170 | Succeeds exactly if amount plus fee fits and is covered, with the exact error otherwise; then amount + fee + change is the input |
| `Selection.PlanShielded` | crates/zipherx-core/src/async_send.rs:134-177 | amount + fee + change is the true input sum if and only if that sum fits 64 bits, and never more; which error is returned when |
| `Selection.PlanTransparent` | crates/zipherx-core/src/async_send.rs:427-460 | Conserves value on every success; refuses exactly when funds are short or a sum does not fit, with the error that says which |
| `Selection.PlanDesktop` | bin/zipherx-gui/src/sync.rs:1211-1276 | Same success condition as the shielded path and its exact error, conservation if and only if the sum fits |
| `Guards.Calls.Take` | crates/zipherx-core/src/async_wallet.rs:161-211 | The running calls, with the compare-and-swap, load and release of the shared guards, take exactly the steps of the state machine that the schedules below are about |
| `Guards.LoneCall` | crates/zipherx-core/src/async_wallet.rs:161-211 | For every kind of call and every set of flags: in which order it finds flags that keep it out, what it then returns, and which flag it claims otherwise |
| `Guards.LoneEnd` | crates/zipherx-core/src/async_wallet.rs:548-651 | How each kind of call ends from its body, and which flag it clears, or, as an aborted repair or one whose task is lost, leaves set |
| `Guards.SyncGuards.CanBackgroundSync` | crates/zipherx-core/src/sync.rs:173-180 | True exactly if no flag is set |
| `Guards.InvAlways` | crates/zipherx-core/src/async_wallet.rs:161-211 | Every state that any schedule reaches, for any number and kinds of calls, satisfies the invariant |
| `Guards.BodiesExclusive` | crates/zipherx-core/src/async_wallet.rs:336-374 | No two of sync, background sync and send are past their claims at once |
| `Guards.FlagExactlyOwned` | crates/zipherx-core/src/async_sync.rs:47-72 | Each flag is set exactly while one task owns it (the repair flag as long as it was not lost); two flags are never set |
| `Guards.NoBusyOutcome` | crates/zipherx-core/src/async_sync.rs:99-114 | No sync, background round or send ever returns an error that blames a sync or another broadcast |
| `Guards.StepFlags` | crates/zipherx-core/src/async_send.rs:64-87 | Every atomic step keeps flags and owners in agreement |
| `Guards.HolderReleases` | crates/zipherx-core/src/async_wallet.rs:548-606 | Run alone, whoever holds the mutex releases it within eleven of its steps |
| `Guards.LostExactly` | crates/zipherx-core/src/async_wallet.rs:622-651 | The repair flag is lost exactly when a repair was aborted, or its blocking task lost, inside its body |
| `Guards.LossIsForever` | crates/zipherx-core/src/async_wallet.rs:622-651 | Once lost, the flag stays set under every schedule: no repair runs again, and no send that has not yet checked it |
| `Guards.SyncOverlapExactly` | crates/zipherx-core/src/async_wallet.rs:622-651 | In any reachable state with a sync in its body, a repair gets into its own if and only if no repair owns or has lost the flag |
| `Guards.RepairOverlapsSync` | crates/zipherx-core/src/async_wallet.rs:622-651 | A schedule that ends with a sync and a repair in their bodies |
| `Guards.SyncEntersBesideRepair` | crates/zipherx-core/src/async_sync.rs:99-114 | With the mutex free and a repair in its body, three steps take any idle sync into its own |
| `Guards.SyncNeverReadsRepair` | crates/zipherx-core/src/async_sync.rs:99-114 | A step of a sync is the same whether or not the repair flag is set |
| `Guards.SendOverlapExactly` | crates/zipherx-core/src/async_send.rs:107-131 | In any reachable state with a repair in its body, some schedule brings a send into its own beside it if and only if the send is already past its read of the repair flag |
| `Guards.RepairClaimedAfterRead` | crates/zipherx-core/src/async_send.rs:107-131 | In every schedule that ends with a send and a repair in their bodies, the repair claimed its flag after the send had read it |
| `Guards.RepairOverlapsSend` | crates/zipherx-core/src/async_send.rs:107-131 | A schedule that ends with a send and a repair in their bodies |
| `Guards.RepairKeepsOut` | crates/zipherx-core/src/async_send.rs:107-131 | As long as a repair stays in its body, no schedule lets in a send or background round that had not yet read the flag |
| `BlockFetch.Deal` | crates/zipherx-core/src/async_block_fetch.rs:112-119 | Peer p of P gets blocks p, p+P, p+2P, ..., as many as its share, at most 128 |
| `BlockFetch.DealtExactly` | crates/zipherx-core/src/async_block_fetch.rs:112-119 | Block i of a round goes to exactly one peer, once, if i is below 128*P, and to nobody otherwise |
| `BlockFetch.Rounds` | crates/zipherx-core/src/async_block_fetch.rs:79-229 | The completed rounds each brought at least half; why and where the loop stopped; half of everything asked for in them arrived |
| `BlockFetch.ArrivedExactly` | crates/zipherx-core/src/async_block_fetch.rs:200-270 | How often a block arrives in a number of rounds: the number of replies that have its hash and parse, if it was asked for under its height |
| `BlockFetch.RoundsExactly` | crates/zipherx-core/src/async_block_fetch.rs:79-229 | The same of completed and last rounds, counted in replies |
| `BlockFetch.FetchBlocksByHashes` | crates/zipherx-core/src/async_block_fetch.rs:48-246 | A block is returned exactly if it was asked for, under the last height of its hash, and a reply of an attempted round has that hash and parses, and as often as there are such replies; sorted by height; a height is missing exactly if no such reply came for it; each completed round brought at least half of what it asked for, and why the last one was the last |
| `BatchScan.FetchBatch` | crates/zipherx-core/src/async_sync.rs:4676-5052 | What is received is exactly what was asked for and came with a fetch that did not fail, what is left exactly the rest; reconnects come exactly after the third empty fetch in a row where one succeeds; with R of them at most 5 + 3R fetches are made, and exactly so many if something is left; it ends in an error exactly if a fetch failed or brought a height of more than 32 bits; a node that never answers but always reconnects takes 5 + 3R for the largest R |
| `BatchScan.FullScan` | crates/zipherx-core/src/async_sync.rs:4662-5076 | Every header in range is received or counted as unfetched, and the count is the number of headers less the received heights; of each batch exactly what its own fetches brought was received, and at least five were made if something is left; however the scan ends, a block is stored behind a higher one only within its batch |
| `FetchedFile.DeltaFile.Append` | crates/zipherx-storage/src/delta_cmu.rs:326-378 | Appends, in order, exactly the outputs whose height and index are neither stored nor among those just appended, and counts them |
| `FetchedFile.ScanAppends` | crates/zipherx-core/src/async_sync.rs:4691-4780 | Whatever blocks arrived and how often: the file ends as it was, followed by what it lacked of each block, in the order of first arrival |
| `FetchedFile.ReadableAfterScan` | crates/zipherx-core/src/async_sync.rs:4691-4780 | Whatever was stored before and whatever arrived how often, the file that a scan leaves is readable at a page size if and only if it was before, and the last new output of every block is on the page of each stored record that is higher or out of range, and on the page on which each higher block starts that arrived before it |
| `FetchedFile.ReadableAfterFullScan` | crates/zipherx-core/src/async_sync.rs:4662-4780 | After a full scan, only batches matter among the blocks it brought: readable if and only if it was before, what is new ends on the page of the higher records stored before, and no batch with a late block reaches from one page into another |
| `FetchedFile.RescanLeavesLate` | crates/zipherx-core/src/async_sync.rs:2127-2134 | For every page size, a file readable at it that a rescan, bringing the one block missing below a stored one, leaves unreadable at it and readable at every larger size |
| `BatchScan.WorstCase` | crates/zipherx-core/src/async_sync.rs:4694-4731 | For every R there is a node at which the loop makes 5 + 3R fetches: without a bound on reconnects there is none on fetches |
| `BatchScan.ReceivedShrinks` | crates/zipherx-core/src/async_sync.rs:4736-4740 | A fetch that brings anything leaves strictly less to fetch |
| `Gaps.DetectGaps` | crates/zipherx-core/src/sync.rs:366-408 | The gaps are exactly the absent heights between the lower of expected start and first height and the higher of expected end and last height; ordered, non-empty, maximal, and sizes add up; they are exact against the expected range if and only if nothing is absent outside it |
| `Gaps.ExactInRange` | crates/zipherx-core/src/sync.rs:366-408 | Against the expected range alone they are exact if and only if nothing is absent between the range and heights outside it |
| `Gaps.HeightsInRange` | crates/zipherx-core/src/async_sync.rs:6164-6169 | With all heights in range they are exact, and gap sizes plus distinct heights give the range size |
| `Gaps.HeightBelowRange` | crates/zipherx-core/src/sync.rs:366-408 | Called with a single height below the range it reports everything above it up to the end of the range, including heights outside the range |
| `HeaderChain.VerifyHeaderChain` | crates/zipherx-crypto/src/equihash.rs:80-133 | The loop gives the verdict of the first header that does not pass, with its exact error cases |
| `HeaderChain.AcceptedIffLinked` | crates/zipherx-crypto/src/equihash.rs:98-133 | Accepted if and only if every header is within the data, links to its predecessor's hash and is solved |
| `HeaderChain.VerdictOnOne` | crates/zipherx-crypto/src/equihash.rs:20-133 | The verdict on one header byte by byte: it lies within the data with at least 140 bytes, bytes 4 to 35 are the hash before it, and 400 bytes of solution are checked with (192, 7), 1344 with (200, 9), any other number being an error |
| `HeaderChain.SlotHashIs` | crates/zipherx-crypto/src/equihash.rs:45-70 | A block hash is twice SHA-256 of the 140 header bytes, the length of the solution and the solution |
| `HeaderChain.CompactSizeIs` | crates/zipherx-crypto/src/equihash.rs:45-63 | The length prefix: one byte below 253, else a marker of 253 or 254 and two or four bytes, least significant first; 253, 64, 5 for 1344 |
| `HeaderChain.LastHashIs` | crates/zipherx-crypto/src/equihash.rs:98-133 | What a header after accepted ones must name is the hash of the last of them |
| `HeaderChain.VerdictComposes` | crates/zipherx-crypto/src/equihash.rs:98-133 | Verifying A ++ B is verifying A, then B from A's last hash |
| `HeaderChain.PreImageInjective` | crates/zipherx-crypto/src/equihash.rs:45-63 | The hashed bytes determine header and solution, for solutions of any length |
| `HeaderChain.HashesDiffer` | crates/zipherx-crypto/src/equihash.rs:45-70 | Different headers or solutions have different block hashes unless the hash function collides |
| `HeaderChain.WrongSolutionLength` | crates/zipherx-crypto/src/equihash.rs:20-29 | A linked header with an unknown solution length is an error, not a rejection |
| `Money.RoundTrip` | bin/zipherx-gui/src/app.rs:556-586 | Parsing a printed amount gives it back, for every 64-bit amount |
| `Money.ParsePrinted` | bin/zipherx-gui/src/app.rs:556-586 | What parsing does to the eight-decimal notation of any number: the amount, a stop on overflow, or a refusal |
| `Money.FormatShape` | bin/zipherx-gui/src/app.rs:556-564 | A printed amount is a whole part without leading zeros, a dot, and 1 to 8 decimals that pad back to eight, without a trailing zero except for a lone one; the parts stand for the quotient and the remainder |
| `Money.FormatInjective` | bin/zipherx-gui/src/app.rs:556-564 | Two amounts print alike only if they are equal |
| `Money.AcceptedSpellings` | bin/zipherx-gui/src/app.rs:567-586 | An input is not refused if and only if it is an optional plus sign and digits of a 64-bit number, optionally followed by a dot and at most eight characters that are an optional plus sign and digits |
| `Money.SpellingMeans` | bin/zipherx-gui/src/app.rs:567-586 | What each such spelling amounts to; a sign in the fraction takes a decimal place |
| `Money.SignInFraction` | bin/zipherx-gui/src/app.rs:567-586 | 1.+5 is read as 1.05 |

## Left out

- Trial decryption, nullifier and commitment computation, Merkle hashing, Equihash and SHA-256 themselves: parameters.
- Serialized forms of trees and witnesses, including the retry that strips an 8-byte prefix: a state is the list of leaves it commits to, and deserializing it succeeds.
- Failing tree appends (full tree, poisoned lock, non-canonical commitment): only the empty tree or I/O problems distinguish them, and they end the run with an error.
- Errors of the database, file system and network in the middle of an operation, except where a module names them: `CatchUp` stops after any write, `BatchScan` has failing fetches, `VerifiedFlag` describes runs that return Ok.
- WitnessRebuild.Rebuild: the error returns between replay and restore are not modelled; they leave the temporary tree in memory until the next load from the database.
- WitnessRebuild.StoreWitnesses: the number returned is that of marks with a consistent witness; it is related to the rows only as far as zero and non-zero.
- CatchUp.CatchUpWithRestarts: runs with different chunk sizes on a file out of chain order are excluded, because the tree then depends on where they stopped (`CatchUp.ChunkSizeImmaterial`); the program uses one chunk size.
- CatchUp.Chunk: witness bytes stored with new notes, spent marks, history rows and memos of a chunk are not modelled, only notes, tree and height; its notes are identified with the scanner's findings.
- VerifiedFlag.SyncRun: steps that touch neither the saved tree nor the flag (headers, pending-transaction scan, confirmations, witness storage) are skipped, and roots recorded during a run are recorded at its start.
- VerifiedFlag.SyncRuns: a crash between saving a tree and clearing the flag is outside runs that return Ok; `VerifiedFlag.VerifiedLoad` says from which states the next load recovers.
- VerifiedFlag.CombinedBuild: tree states whose recorded position differs from their number of leaves (a boost manifest that miscounts its own tree) are excluded.
- Guards.InvAlways: a blocking task that goes on running after its caller was aborted holds no flag or mutex and is not a step; mutex fairness and the background loop's sleeping are not modelled.
- Guards.LostExactly: the second repair entry point, full_rescan, has the same guard structure and is the same kind of task.
- BlockFetch.FetchBlocksByHashes: timeouts, pacing and listeners; what arrives in a round is any list of answers, and a received block is its height and hash.
- FetchedFile.DeltaFile.Append: the manifest, and appends cut short by a file error.
- BatchScan.FetchBatch: what is done with received blocks (decryption, delta file, transparent outputs) and the errors of doing it.
- Gaps.DetectGaps: a height of 2^64 - 1 followed by another one stops the program and is excluded.
- BoostScan.ScanBoostOutputs: parsing of the raw records, counting of mismatched commitments, and the compact-decryption report.
- DeltaLoad.LoadPaged: the length check on commitments is not modelled, because every record that the delta file yields holds 32 bytes (crates/zipherx-storage/src/delta_cmu.rs:751-765).
- DeltaLoad.CombinedBuildExact: files that are not readable at the page size in use, and skipped records that repeat, for which `PageOrder.ReadableExactly` and `DeltaLoad.SkipExactlyWhenDistinct` say what fails.
- History.BuildHistory: sums are unbounded; `BoostScan.ScanBoostOutputs` shows that the scan's notes add up to at most 64 bits.
- Selection.SelectNotes: validation of witnesses and anchors of the chosen notes, and the wording of errors.
- Money.ParsePrinted: strings are sequences of characters; byte lengths of non-ASCII input, which is refused either way, are not modelled.
- Startup-mode choice, header-count arithmetic, the watchdog predicate, key storage, addresses, GUI views and progress reports: one-branch facts or wrappers.
