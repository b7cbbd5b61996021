# BinBook: a verified model

BinBook turns EPUB books into page images for a small e-ink reader, sends them over a serial line and keeps them
on an SD card. This project models its hardest parts and proves what they promise: that a power cut never costs
a book that need not be lost, that what is read back is what was written, at every level from a bit plane to a
whole file, and that the two ends of a transfer cannot get stuck or disagree.

`dafny verify dfyconfig.toml` checks everything.

## The parts

- **Publishing a book** (`UploadJournal`, `BookPublication`, `BookCrashSafety`, `BookLeftovers`, `BookHistory`). BOOKS and TMP are
  maps from names to bytes, each rename and removal is one durable step, and the two-slot journal holds records or
  nothing readable. `MountedStorage` runs the steps until its power is used up; a journal write the cut falls into
  is torn and leaves its slot unreadable. The proofs cover every cut in a publication, every sequence of cuts in
  the recoveries after it, and whole histories of uploads. The claim "the old or the new book is always in BOOKS"
  is false as the code stands: a cut between the rename of the old file and the record of that rename leaves only
  the backup in TMP. `PublicationSurvivesPowerCuts` says exactly when, and what is left then.
  What stays in TMP is exact, too: a staged file outlives the recoveries only if the cut came before there was any
  record of it.
- **Blocks and extents** (`BlockDevice`, `BlockStream`, `BlockStreamRuns`, `Extents`, `OpenFileCache`). The
  two-slot write-back cache mixed with direct transfers refines one flat byte array; a file scattered over extents
  is read and written as one byte string; remembered extents of open files agree with a fresh lookup unless
  something else touches the file being uploaded. The device counts the transfers that failed; errors are reported
  exactly where that count grew or the request itself cannot be met.
- **Bulk transfer** (`BulkState`, `BulkProtocol`, `BulkReadbackStream`, `BulkReadbackRecord`,
  `BulkUploadStream`, `BulkUploadRecord`, `Crc32`, `Crc32Polynomial`). Sender and
  receiver are composed over two channels with a status barrier. Credits are conserved, neither end ever refuses
  the other, and a run without barriers ends with everything transferred exactly if the window fills a batch of
  credits or holds the whole transfer. The two driver loops are proved against transports that answer anything,
  and what each end takes and refuses is characterised on the record of the line alone. The checksum is proved to be
  the remainder of the division that section 8 of RFC 1952 defines.
- **Run-length code** (`PackBitsDecoder`, `PackBitsEncoder`). Its control byte is the repository's own: bit 7 set
  means a repeat of the low bits plus one. (It is not the code of section 9 of TIFF 6.0.)
- **Pages** (`Bits`, `GrayPlanes`, `GrayPages`). Turning, packing, splitting into mirrored bit planes, and two
  decoders.
- **The book file** (`Wire`, `PageRecords`, `PageIndices`, `PageTransitions`, `PageValidation`, `BuiltPages`,
  `BuiltPagesExactly`, `SectionTable`, `BookFile`, `StoredBook`). What the writer lays out, the strict reader and
  the validator accept; the pages the validator finds nothing in are characterised exactly. Pages of four-bit
  grays are never among them: the bitmap expected for them asks for the reserved plane slot, which the same check
  forbids.
- **Text and contents** (`Utf8Text`, `Pagination`, `DocumentLayout`, `DocumentContent`, `Navigation`). That
  pagination loses nothing is false as the code stands: a table row that fits one page is put on one line, where
  cells too wide for their column are cut and pictures and rules are dropped. `FlowShowsEverything` says for every
  tree exactly when nothing is lost. Such a row also takes its own style for all its text, ignores `break_after`,
  and passes over the anchors inside it (`WhichAnchorsAreMet`). Pages are filled before the next begins: `Tight`
  lists the only reasons for a new page. That the navigation has the shape of the table of contents is false, too,
  where entries without a target are skipped; `ParentsAreEnclosers` says exactly when it has. The links form a forest
  all the same.

## Reading the model

- A step that may fail for outside reasons is a nondeterministic choice, so that a contract holds whatever the
  device or the line does. Clocks, progress text and reports are left out; they decide nothing.
- A card is a whole number of 512-byte blocks; a transfer that leaves it is refused.
- Loops that wait for a peer run on a finite patience, since the source sets no bound on them.
- Numbers are unbounded where the source checks or cannot exceed their width; where a width decides something it
  is written out.

## Model

| member | source | states |
|---|---|---|
| `UploadJournal.SerialOrderIsPlainOrder` | crates/embedded-sd-storage/src/sd_filesystem.rs:678-682 | below the wrap of the 32-bit generation, the serial-number comparison (section 3.2 of RFC 1982) is plain order of (generation, phase) |
| `UploadJournal.NewestIsLatest` | crates/embedded-sd-storage/src/sd_filesystem.rs:470-497 | the record a scan selects is one of the two in the slots, and no surviving record is later |
| `UploadJournal.TornWriteKeepsTheOtherSlot` | crates/embedded-sd-storage/src/sd_filesystem.rs:499-524 | a torn journal write costs at most the slot of its own parity: the other slot's record is what the next reader selects |
| `UploadJournal.CompletedWriteIsNewest` | crates/embedded-sd-storage/src/sd_filesystem.rs:499-524 | a completed write of a later record is what the next reader selects |
| `BookPublication.PublishStepsAreStaged` | crates/embedded-sd-storage/src/sd_filesystem.rs:328-375 | a publication that gets past its staging rename is the move of the old file (three steps, if there was one) followed by the installation |
| `BookPublication.MountedStorage.constructor` | crates/embedded-sd-storage/src/sd_filesystem.rs:317-326 | a mounted card starts with the books, temporary files and journal it is given |
| `BookPublication.MountedStorage.Perform` | crates/embedded-sd-storage/src/sd_filesystem.rs:328-375 | one durable step happens wholly or, when the power goes, not at all; only a journal write can be torn, and then its slot is unreadable |
| `BookPublication.MountedStorage.Next` | crates/embedded-sd-storage/src/sd_filesystem.rs:328-441 | stepping through a fixed sequence leaves the disk after a prefix of it, or the disk the power cut leaves |
| `BookPublication.MountedStorage.ReadUploadJournal` | crates/embedded-sd-storage/src/sd_filesystem.rs:470-497 | the two-slot scan returns the newest record |
| `BookPublication.MountedStorage.NextUploadGeneration` | crates/embedded-sd-storage/src/sd_filesystem.rs:443-447 | the next generation follows the newest record, skips zero, and is 1 on an empty journal |
| `BookPublication.MountedStorage.MoveOldTarget` | crates/embedded-sd-storage/src/sd_filesystem.rs:347-357 | moves the old file to its backup and records it, or stops where the power goes |
| `BookPublication.MountedStorage.Install` | crates/embedded-sd-storage/src/sd_filesystem.rs:358-375 | puts the new file under its name and clears up; a refused rename puts the old file back if its place is free |
| `BookPublication.MountedStorage.PublishBookUpload` | crates/embedded-sd-storage/src/sd_filesystem.rs:328-375 | a publication leaves exactly the disk that its sequence of durable steps, cut at the power cut, leaves |
| `BookPublication.MountedStorage.RemoveBoth` | crates/embedded-sd-storage/src/sd_filesystem.rs:421-438 | removes the stage and the named file, or stops where the power goes |
| `BookPublication.MountedStorage.RecoverBookUpload` | crates/embedded-sd-storage/src/sd_filesystem.rs:400-441 | a recovery leaves exactly the disk that its sequence of durable steps, cut at the power cut, leaves; a complete one has removed from TMP exactly the leftovers of the newest record |
| `BookPublication.GenerationsFollow` | crates/embedded-sd-storage/src/sd_filesystem.rs:443-460 | generations count up from 1; after the last 32-bit number comes 1, never 0 |
| `BookPublication.RecoveryRemovesLeftovers` | crates/embedded-sd-storage/src/sd_filesystem.rs:419-441 | from any disk, a complete recovery removes from TMP exactly the stage and the named file of the newest record unless that is Clear, and its backup exactly if that is OldMoved or Published |
| `BookCrashSafety.TidyingKeepsTheRecord` | crates/embedded-sd-storage/src/sd_filesystem.rs:400-441 | all of a recovery before its journal write leaves the journal alone and never changes which books a recovery would restore |
| `BookCrashSafety.ClearingSlot` | crates/embedded-sd-storage/src/sd_filesystem.rs:449-468 | clearing overwrites the current record only when that says the old file was moved; otherwise the other slot keeps it |
| `BookCrashSafety.TornClearIsHarmless` | crates/embedded-sd-storage/src/sd_filesystem.rs:449-468 | a torn clearing record leaves a journal from which the next recovery restores the same books |
| `BookCrashSafety.RecoveryIsRestartable` | crates/embedded-sd-storage/src/sd_filesystem.rs:400-441 | a recovery stopped anywhere leaves a recoverable disk with the same books to restore; a completed one has restored them and leaves nothing pending |
| `BookCrashSafety.RebootsAreIdempotent` | crates/embedded-sd-storage/src/sd_filesystem.rs:400-441 | any number of interrupted recoveries and then a completed one give the books one uninterrupted recovery would |
| `BookCrashSafety.EnteringVerified` | crates/embedded-sd-storage/src/sd_filesystem.rs:334-344 | the Verified record becomes the newest; torn, it leaves the journal quiet as before |
| `BookCrashSafety.EnteringOldMoved` | crates/embedded-sd-storage/src/sd_filesystem.rs:353-356 | the OldMoved record becomes the newest over Verified; torn, Verified still stands |
| `BookCrashSafety.EnteringPublished` | crates/embedded-sd-storage/src/sd_filesystem.rs:369-372 | the Published record becomes the newest; torn, OldMoved still stands, or the quiet journal when there was no old file |
| `BookCrashSafety.EnteringClear` | crates/embedded-sd-storage/src/sd_filesystem.rs:449-468 | the clearing record becomes the newest; torn, Published still stands |
| `BookCrashSafety.ReplacingStages` | crates/embedded-sd-storage/src/sd_filesystem.rs:328-375 | books, temporary files and journal after each of the nine steps of replacing a book |
| `BookCrashSafety.AddingStages` | crates/embedded-sd-storage/src/sd_filesystem.rs:328-375 | books, temporary files and journal after each of the six steps of adding a book |
| `BookCrashSafety.CutReplacement` | crates/embedded-sd-storage/src/sd_filesystem.rs:328-441 | a replacement cut anywhere leaves a recoverable disk whose restored books are the old, the new, or the old without the target in the loss window |
| `BookCrashSafety.CutAddition` | crates/embedded-sd-storage/src/sd_filesystem.rs:328-441 | an addition cut anywhere leaves a recoverable disk whose restored books are the old or the new |
| `BookCrashSafety.CutPublicationNames` | crates/embedded-sd-storage/src/sd_filesystem.rs:328-375 | a file waits under a book's name in TMP only while the journal records that book's publication |
| `BookCrashSafety.LossWindowKeepsBackup` | crates/embedded-sd-storage/src/sd_filesystem.rs:350-356 | between the rename of the old file and its record, the backup in TMP holds the old bytes under a journal still saying Verified |
| `BookCrashSafety.RefusedPublicationKeepsBooks` | crates/embedded-sd-storage/src/sd_filesystem.rs:328-346 | a publication whose staged file is missing or whose name is taken never changes a book, wherever it is cut |
| `BookHistory.RecoveryNames` | crates/embedded-sd-storage/src/sd_filesystem.rs:400-441 | a recovery, cut or not, leaves no stray named file behind, and under Verified or Clear touches no backup |
| `BookHistory.RebootNames` | crates/embedded-sd-storage/src/sd_filesystem.rs:400-441 | so do any number of interrupted recoveries followed by a completed one |
| `BookLeftovers.CutRecoveryLeaves` | crates/embedded-sd-storage/src/sd_filesystem.rs:400-441 | a recovery stopped anywhere, its torn clearing record included, leaves to the next one exactly the leftovers it has not removed itself |
| `BookLeftovers.RebootsRemoveLeftovers` | crates/embedded-sd-storage/src/sd_filesystem.rs:400-441 | any number of interrupted recoveries and then a complete one remove exactly the leftovers |
| `BookLeftovers.ReplacingLeaves` | crates/embedded-sd-storage/src/sd_filesystem.rs:328-375 | TMP after each of the nine steps of replacing a book |
| `BookLeftovers.AddingLeaves` | crates/embedded-sd-storage/src/sd_filesystem.rs:328-375 | TMP after each of the six steps of adding a book |
| `BookLeftovers.CutPublicationLeaves` | crates/embedded-sd-storage/src/sd_filesystem.rs:328-441 | what a publication cut anywhere and the recovery after it leave in TMP: the staged file only if the cut came before the first record, the old book's backup only in the loss window |
| `BookHistory.PublicationSurvivesPowerCuts` | crates/embedded-sd-storage/src/sd_filesystem.rs:328-441 | crash anywhere in a publication and anywhere in any number of recoveries: only the target can change; it is old, new or absent; absent although it existed exactly if the crash fell in the loss window, and then the backup holds the old bytes; and exactly what is left in TMP |
| `BookHistory.CompletePublication` | crates/embedded-sd-storage/src/sd_filesystem.rs:328-375 | a publication nothing interrupts leaves the new book in BOOKS, a quiet journal ending in its clearing record, and TMP as it was without the staged file and the backup |
| `BookHistory.SessionUploads` | firmware/crates/binbook-fw/src/storage_owner.rs:1124-1142 | uploads one after the other in one session, without a recovery between them and with every second generation, each put their book in place and leave nothing in TMP |
| `BookHistory.LastUpload` | crates/embedded-sd-storage/src/sd_filesystem.rs:328-447 | the upload a power cut meets ends, after any cut recoveries and a complete one, in the books and the temporary files its cut predicts |
| `BookHistory.SessionOutcome` | firmware/crates/binbook-fw/src/storage_owner.rs:914-930 | a session of uploads, the cut and the recoveries at the next mounts leave exactly the predicted books and temporary files, ready for the next session |
| `BookHistory.HistoryOutcome` | firmware/crates/binbook-fw/src/storage_owner.rs:914-930 | over every history of sessions, each with any number of uploads, a cut and interrupted recoveries, BOOKS is the fold of the single outcomes, and TMP gains no file unless a cut comes before the first record or in the loss window |
| `BlockStream.RefillKeepsView` | crates/embedded-sd-storage/src/block_stream.rs:122-148 | fetching a block into a clean slot does not change the disk as seen through the cache |
| `BlockStream.DroppingKeepsView` | crates/embedded-sd-storage/src/block_stream.rs:158-171 | forgetting a clean slot does not change the disk as seen |
| `BlockStream.WriteBackKeepsView` | crates/embedded-sd-storage/src/block_stream.rs:104-113 | writing a slot back, even if the device fails midway, does not change the disk as seen |
| `BlockStream.SlotShowsView` | crates/embedded-sd-storage/src/block_stream.rs:122-148 | a cached block is the block as seen |
| `BlockStream.UncachedShowsView` | crates/embedded-sd-storage/src/block_stream.rs:173-210 | a run of uncached blocks on the device is as seen |
| `BlockStream.DirectWriteUpdatesView` | crates/embedded-sd-storage/src/block_stream.rs:212-264 | a direct write to uncached blocks is a splice of the disk as seen |
| `BlockStream.CachedWriteUpdatesView` | crates/embedded-sd-storage/src/block_stream.rs:212-264 | patching a slot and marking it dirty is a splice of the disk as seen |
| `BlockStream.FailedWriteStaysInside` | crates/embedded-sd-storage/src/block_stream.rs:212-264 | a failed direct write changes the disk as seen only inside its range |
| `BlockStream.BlockDeviceStream.constructor` | crates/embedded-sd-storage/src/block_stream.rs:72-102 | a new stream has empty slots and shows the device |
| `BlockStream.BlockDeviceStream.FlushCacheSlot` | crates/embedded-sd-storage/src/block_stream.rs:104-113 | writes a dirty slot back; the disk as seen never changes; an error exactly if the device failed |
| `BlockStream.BlockDeviceStream.FlushCachedBlocks` | crates/embedded-sd-storage/src/block_stream.rs:115-120 | after a successful flush the device is the disk as seen and no slot is dirty; an error exactly if the device failed |
| `BlockStream.BlockDeviceStream.FillSlot` | crates/embedded-sd-storage/src/block_stream.rs:122-148 | writes the victim back and fetches a block without changing the disk as seen; an error exactly if the device failed or has no such block |
| `BlockStream.BlockDeviceStream.PickSlot` | crates/embedded-sd-storage/src/block_stream.rs:122-148 | a free slot if there is one, else the victims in turn |
| `BlockStream.BlockDeviceStream.LoadCachedBlock` | crates/embedded-sd-storage/src/block_stream.rs:122-148 | delivers a slot holding the block as seen, slots never holding a block twice; an error exactly if the device failed or has no such block |
| `BlockStream.BlockDeviceStream.DropSlot` | crates/embedded-sd-storage/src/block_stream.rs:158-171 | writes back and forgets one slot |
| `BlockStream.BlockDeviceStream.PrepareDirectIo` | crates/embedded-sd-storage/src/block_stream.rs:158-171 | afterwards no slot overlaps the direct transfer |
| `BlockStream.BlockDeviceStream.ReadDirect` | crates/embedded-sd-storage/src/block_stream.rs:173-210 | whole blocks, as seen |
| `BlockStream.BlockDeviceStream.ReadCached` | crates/embedded-sd-storage/src/block_stream.rs:173-210 | part of a block, as seen |
| `BlockStream.BlockDeviceStream.ReadPiece` | crates/embedded-sd-storage/src/block_stream.rs:173-210 | one loop step: a nonempty piece at the position, which moves past it |
| `BlockStream.BlockDeviceStream.ReadBytes` | crates/embedded-sd-storage/src/block_stream.rs:173-210 | fills the buffer with the bytes at base and position; an error exactly if the device failed, there is no scratch or the range leaves the disk, and then what was delivered is right and the rest untouched |
| `BlockStream.BlockDeviceStream.WriteDirect` | crates/embedded-sd-storage/src/block_stream.rs:212-264 | whole blocks spliced in; a failure stays in the range |
| `BlockStream.BlockDeviceStream.WriteCached` | crates/embedded-sd-storage/src/block_stream.rs:212-264 | part of a block spliced in; a failure changes nothing as seen |
| `BlockStream.BlockDeviceStream.WritePiece` | crates/embedded-sd-storage/src/block_stream.rs:212-264 | one loop step of a write |
| `BlockStream.BlockDeviceStream.WriteBytes` | crates/embedded-sd-storage/src/block_stream.rs:212-264 | splices the input in at base and position; an error exactly if the device failed, there is no scratch or the range leaves the disk, and then a prefix is written and nothing outside the range changes |
| `BlockStream.BlockDeviceStream.Seek` | crates/embedded-sd-storage/src/block_stream.rs:294-306 | only start and current targets; the position stays in 64 bits |
| `BlockStreamRuns.Perform` | crates/embedded-sd-storage/src/block_stream.rs:104-306 | one operation does to the cached stream what it does to a flat disk; it reports an error exactly if the device failed, the flat disk does not allow it or there is no scratch |
| `BlockStreamRuns.RunAll` | crates/embedded-sd-storage/src/block_stream.rs:104-306 | any interleaving of reads, writes, seeks and flushes is the same run on one flat byte array, and reports an error exactly if the device failed, the flat disk does not allow the run or there is no scratch for it |
| `Extents.LocateInjective` | crates/embedded-sd-storage/src/sd_filesystem.rs:1450-1484 | over pairwise disjoint extents no two file positions share a device byte |
| `Extents.WriteBlock` | crates/embedded-sd-storage/src/sd_filesystem.rs:1486-1511 | reads, patches and writes back the one block of the first byte; a failure stays in that block |
| `Extents.WriteAbsolute` | crates/embedded-sd-storage/src/sd_filesystem.rs:1486-1511 | a splice of the device at an absolute address; a failure stays in the blocks of the range |
| `Extents.PatchedOutside` | crates/embedded-sd-storage/src/sd_filesystem.rs:1450-1484 | a file write changes no device byte outside the range's image |
| `Extents.PatchedIsSplice` | crates/embedded-sd-storage/src/sd_filesystem.rs:1450-1484 | a file write over scattered extents is a splice of the logical file |
| `Extents.OtherFileUnchanged` | crates/embedded-sd-storage/src/sd_filesystem.rs:1450-1484 | it does not show in a file with disjoint extents |
| `Extents.WriteExtents` | crates/embedded-sd-storage/src/sd_filesystem.rs:1450-1484 | writes what of the range lies in the file as the byte-by-byte reference would; reports a device failure exactly if there was one, and a bad offset exactly if not all does; after a device failure every byte outside the blocks of the range's image is as it was |
| `Extents.TouchedElsewhere` | crates/embedded-sd-storage/src/sd_filesystem.rs:1450-1484 | such a failure does not show in a file that has no block in common with the range's file |
| `Extents.ReadBatch` | crates/embedded-sd-storage/src/sd_filesystem.rs:1551-1593 | up to eight blocks at once or part of one, as on the device |
| `Extents.ReadAbsolute` | crates/embedded-sd-storage/src/sd_filesystem.rs:1551-1593 | the device bytes of a range, across blocks and batches |
| `Extents.RunIsFileSlice` | crates/embedded-sd-storage/src/sd_filesystem.rs:1513-1549 | a run inside one extent is a slice of the file |
| `Extents.ReadExtents` | crates/embedded-sd-storage/src/sd_filesystem.rs:1513-1549 | exactly the slice of the logical file; a device error exactly if the device failed, and else a bad offset exactly if the range leaves the file |
| `OpenFileCache.OneFileWritten` | crates/embedded-sd-storage/src/sd_filesystem.rs:1106-1162 | placing a whole file changes that file and no other |
| `OpenFileCache.OthersTouched` | crates/embedded-sd-storage/src/sd_filesystem.rs:1106-1201 | a write that failed midway shows in no file that has no block in common with the one written |
| `OpenFileCache.SdStorage.PutFile` | crates/embedded-sd-storage/src/sd_filesystem.rs:1031-1043 | a file is replaced as a whole, others keep their content, and after a device failure those that share no block with it |
| `OpenFileCache.SdStorage.BeginUpload` | crates/embedded-sd-storage/src/sd_filesystem.rs:1106-1162 | reserves the zeroed file and remembers its extents; the read cache is dropped; a second upload is refused |
| `OpenFileCache.SdStorage.WriteUploadChunk` | crates/embedded-sd-storage/src/sd_filesystem.rs:1173-1201 | splices the chunk into the uploaded file as a fresh lookup sees it; other files keep their content |
| `OpenFileCache.SdStorage.CommitUpload` | crates/embedded-sd-storage/src/sd_filesystem.rs:1207-1229 | hands the extents to the read cache, which then agrees with the file system exactly if the upload did |
| `OpenFileCache.SdStorage.AbortUpload` | crates/embedded-sd-storage/src/sd_filesystem.rs:1235-1250 | removes the file and forgets both; a wrong name changes nothing |
| `OpenFileCache.SdStorage.ChangeFile` | crates/embedded-sd-storage/src/sd_filesystem.rs:1031-1068 | creation, truncation and writing drop the read cache; on success the upload still agrees exactly if it is of another file or the place is the remembered one |
| `OpenFileCache.SdStorage.DeleteFile` | crates/embedded-sd-storage/src/sd_filesystem.rs:1087-1100 | deleting drops the read cache; the upload still agrees exactly if another file was deleted |
| `OpenFileCache.SdStorage.EnsureReadCache` | crates/embedded-sd-storage/src/sd_filesystem.rs:1358-1394 | fills the cache from a fresh lookup, or says why not |
| `OpenFileCache.SdStorage.ReadAt` | crates/embedded-sd-storage/src/sd_filesystem.rs:981-1007 | a read from an agreeing cache is the fresh read, errors included |
| `OpenFileCache.SdStorage.FileSize` | crates/embedded-sd-storage/src/sd_filesystem.rs:1013-1024 | a size from an agreeing cache is the fresh size |
| `OpenFileCache.Perform` | crates/embedded-sd-storage/src/sd_filesystem.rs:981-1250 | one call is answered, and leaves the storage, as a storage without remembered files would; it answers with a device error exactly if a transfer of the card failed |
| `OpenFileCache.RunCalls` | crates/embedded-sd-storage/src/sd_filesystem.rs:981-1250 | over every run of calls in which nothing but upload calls touches the uploaded file, both remembered files agree with the file system and all answers are those of a storage without caches; it stops with a failure exactly if a transfer of the card failed |
| `OpenFileCache.DeletedDuringUpload` | crates/embedded-sd-storage/src/sd_filesystem.rs:1087-1229 | the restriction is needed: delete the uploaded file, commit, and the cache remembers a file that is gone |
| `BulkState.BulkUploadState.constructor` | crates/binbook/src/bulk_state.rs:54-79 | a sender for an accepted opening starts at zero with its initial credits |
| `BulkState.BulkUploadState.TakeGrant` | crates/binbook/src/bulk_state.rs:81-106 | one credit is spent and the offset moves by the length, or nothing changes; which grants are refused and why |
| `BulkState.BulkUploadState.ApplyCredit` | crates/binbook/src/bulk_state.rs:108-128 | a credit is added and the durable offset follows, or nothing changes; overflow and invalid offsets are refused |
| `BulkState.BulkUploadState.ApplyStatus` | crates/binbook/src/bulk_state.rs:130-145 | the sender goes back to the reported durable offset with a full window, or nothing changes |
| `BulkState.BulkReadbackState.constructor` | crates/binbook/src/bulk_readback.rs:20-39 | a receiver for an accepted opening starts at zero |
| `BulkState.BulkReadbackState.Accept` | crates/binbook/src/bulk_readback.rs:41-67 | the next frame of the right size and end flag is taken, all else refused without a change |
| `BulkState.BulkReadbackState.MarkDurable` | crates/binbook/src/bulk_readback.rs:69-101 | the durable offset follows; a credit is due with each full batch and at the end |
| `BulkState.BulkReadbackState.ApplyStatus` | crates/binbook/src/bulk_readback.rs:103-117 | received goes back to durable and pending credits are forgotten, or nothing changes |
| `BulkProtocol.InitialInv` | crates/binbook/src/bulk_state.rs:54-79 | the opened pair satisfies the invariant |
| `BulkProtocol.HonestSendIsGranted` | crates/binbook/src/bulk_state.rs:81-106 | with a credit and data left, the sender's chunk is granted |
| `BulkProtocol.SendKeepsInv` | crates/binbook/src/bulk_state.rs:81-106 | sending keeps offsets in step and credits conserved |
| `BulkProtocol.HonestFrameIsAccepted` | crates/binbook/src/bulk_readback.rs:41-67 | the frame at the head of the channel is accepted |
| `BulkProtocol.DeliverKeepsInv` | crates/binbook/src/bulk_readback.rs:41-67 | delivery keeps the invariant |
| `BulkProtocol.HonestChunkIsSaved` | crates/binbook/src/bulk_readback.rs:69-101 | the durable mark of a received chunk is never refused |
| `BulkProtocol.SaveKeepsInv` | crates/binbook/src/bulk_readback.rs:69-101 | marking durable keeps the invariant, batching of credits included |
| `BulkProtocol.AcknowledgeKeepsInv` | crates/binbook/src/bulk_state.rs:108-128 | a credit in transit is never refused and keeps the invariant |
| `BulkProtocol.BarrierKeepsInv` | crates/binbook/src/bulk_state.rs:130-145 | the status barrier is never refused by either end and keeps the invariant |
| `BulkProtocol.StepKeepsInv` | crates/binbook/src/bulk_state.rs:81-145 | no event makes one end reject the other, and every event keeps the invariant |
| `BulkProtocol.RunsAreSafe` | crates/binbook/src/bulk_readback.rs:41-117 | over every run, barriers included: available + in flight + unsaved + pending + in transit credits are the window, no rejection is possible, and the stored output is the matching prefix of the source |
| `BulkProtocol.StepUsesWork` | crates/binbook/src/bulk_state.rs:81-128 | every event but a barrier uses up some of a fixed amount of work |
| `BulkProtocol.BarrierFreeRunsAreFinite` | crates/binbook/src/bulk_readback.rs:34-101 | a barrier-free run is no longer than the work it starts with |
| `BulkProtocol.StuckStates` | crates/binbook/src/bulk_readback.rs:85-100 | where nothing can happen, the transfer is finished or the whole window waits in a batch that cannot fill |
| `BulkProtocol.BarrierFreeRunsFinish` | crates/binbook/src/bulk_readback.rs:34-101 | a barrier-free run that can go no further has both durable offsets at the total exactly if the window fills a batch of credits or holds the whole transfer |
| `BulkProtocol.SmallWindowDeadlock` | crates/binbook/src/bulk_state.rs:54-79 | one initial credit of four, two chunks: a run that gets stuck unfinished (the constructor allows fewer initial than maximum credits; the drivers pass them equal) |
| `Crc32.RoundsAgree` | crates/binbook-core/src/validation_crc.rs:21-28 | the masked and the branching form of a CRC round are the same function |
| `Crc32.UpdateAppend` | crates/binbook-core/src/validation_crc.rs:30-53 | the register does not care in which pieces bytes are fed |
| `Crc32.BranchingByte` | crates/binbook/src/bulk_readback_stream.rs:210-222 | eight branching rounds are the byte step |
| `Crc32.MaskedByte` | crates/binbook-core/src/validation_crc.rs:21-28 | eight masked rounds are the byte step |
| `Crc32.UpdateLoop` | crates/binbook/src/bulk_readback_stream.rs:210-222 | the byte loop computes the register of the whole, which is what `ChecksumIsRemainder` speaks of |
| `Crc32.Register.Feed` | crates/binbook-core/src/validation_crc.rs:21-28 | the validator's byte loop computes the register of the whole |
| `Crc32.Register.UpdateRange` | crates/binbook-core/src/validation_crc.rs:30-53 | scratch-sized pieces of a file range give the register of the whole range; fails exactly without scratch or past the end |
| `Crc32Polynomial.PolynomialIsGenerator` | crates/binbook-core/src/validation_crc.rs:25 | the constant is the generator with exponents 32, 26, 23, 22, 16, 12, 11, 10, 8, 7, 5, 4, 2, 1 and 0, without its highest coefficient and in reverse (section 8 of RFC 1952) |
| `Crc32Polynomial.FeedingDivides` | crates/binbook-core/src/validation_crc.rs:21-28 | feeding bits to the register is the long division by the generator of the message into which the register has been added |
| `Crc32Polynomial.ByteFeeds` | crates/binbook-core/src/validation_crc.rs:21-28 | a byte added to the register and eight rounds are its eight bits fed one by one, the lowest first |
| `Crc32Polynomial.ChecksumIsRemainder` | crates/binbook-encode/src/hashing.rs:9-18 | for every message the checksum, as a word and as a number, is the complement of the remainder that the message with 32 zeros behind it and its first 32 bits complemented leaves (section 8 of RFC 1952) |
| `Crc32Polynomial.BurstIsDetected` | crates/binbook-core/src/validation_crc.rs:21-57 | two messages of one length that differ, but only inside 32 neighbouring bits, have different checksums |
| `BulkReadbackStream.Output.Rollback` | crates/binbook/src/bulk_readback_io.rs:23-31 | a rollback that holds leaves exactly the first bytes, with the cursor behind them |
| `BulkReadbackStream.AcceptedFrameIsStored` | crates/binbook/src/bulk_readback_stream.rs:67-107 | at the head of the loop received = durable = output length and the CRC is the output's, so an accepted frame's durable mark cannot be refused |
| `BulkReadbackStream.AllHeededIsStored` | crates/binbook/src/bulk_readback_stream.rs:67-108 | nothing delivered is passed over: all frames heeded are stored, in order and without gaps, up to the durable offset |
| `BulkReadbackStream.ReadBack` | crates/binbook/src/bulk_readback_stream.rs:14-189 | for an arbitrary transport that records its answers: success means the output is the join of all frames delivered, each accepted in its turn, with the recorded opening's size, the recorded finish's CRC, and exactly the credits due; a failure whose rollback held leaves what was accepted and stored; it fails only for cause |
| `BulkReadbackStream.TakeFrame` | crates/binbook/src/bulk_readback_stream.rs:69-108 | a delivered frame is stored, made durable and credited, or ends the transfer with the output back at what was stored before |
| `BulkReadbackStream.Resynchronise` | crates/binbook/src/bulk_readback_stream.rs:109-139 | a timeout: a recorded status that fits the stored bytes and their CRC leaves both ends at the durable offset, any other ends the transfer with the output rolled back |
| `BulkReadbackStream.RollBackAndAbort` | crates/binbook/src/bulk_readback_stream.rs:76-143 | takes the output back to the durable offset, then aborts; whether the rollback held is the output's own record |
| `BulkReadbackRecord.HeededExactlyInTurn` | crates/binbook/src/bulk_readback.rs:41-117 | for everything that may be heard: the receiver heeds it exactly if each frame has the stream's id, goes on where the ones before end, is a whole chunk unless it ends the transfer and says so exactly then, and each status has the stream's id, direction, size, whole window, and the length and checksum of what has come; its credits are then those that fall due with every full half window since the last status and at the end |
| `BulkReadbackRecord.FramesAreInTurn` | crates/binbook/src/bulk_readback.rs:41-67 | every delivered frame that was heeded has the stream's id, at most a chunk, a whole one unless it ends the transfer, and an end flag exactly there |
| `BulkReadbackRecord.ConfirmedInTurn` | crates/binbook/src/bulk_readback_stream.rs:14-189 | a confirmed readback in terms of the opening alone: the output is the join of frames each in its turn, of the opening's size, and the credits sent are those that fell due |
| `BulkUploadStream.WantedIsGranted` | crates/binbook/src/bulk_upload.rs:94-104 | with cursor and sender in step the local grant never fails, and is for the next chunk with the right end flag |
| `BulkUploadStream.SendWindow` | crates/binbook/src/bulk_upload.rs:93-113 | every frame carries exactly the source at its offset; the window is used up or the source is |
| `BulkUploadStream.AwaitAnswer` | crates/binbook/src/bulk_upload.rs:115-146 | a credit or a status rewind keeps cursor and sender in step; the acknowledged offset never goes back |
| `BulkUploadStream.FollowedIsSound` | crates/binbook/src/bulk_upload.rs:93-146 | what it means that the sender could follow the recorded line: honest chunks only, never more outstanding than the window, every byte up to the sent offset in some frame, acknowledged offsets never going back |
| `BulkUploadStream.TrailedIsSound` | crates/binbook/src/bulk_upload.rs:93-146 | however the upload ended, only honest chunks were sent and at no time more were outstanding than the window |
| `BulkUploadStream.ConfirmedMeans` | crates/binbook/src/bulk_upload.rs:93-190 | a confirmed upload has sent every byte in honest chunks, and the peer's recorded acknowledgements rise to the total |
| `BulkUploadStream.Upload` | crates/binbook/src/bulk_upload.rs:35-190 | for an arbitrary transport that records the line: every frame is one the sender may send; success means the recorded credits and statuses acknowledge the whole source and the recorded finish has its size and CRC; it fails only for cause |
| `BulkUploadRecord.FollowedExactlyInTurn` | crates/binbook/src/bulk_state.rs:81-145 | for everything that may go over the line: the sender follows it exactly if each frame is the next whole chunk of the source while the window has room, and each credit and status has the stream's id, no device error, its parameters, and acknowledges whole chunks, never back and never ahead |
| `BulkUploadRecord.ConfirmedInTurn` | crates/binbook/src/bulk_upload.rs:35-190 | the line of a confirmed upload in terms of the opening alone: every frame and answer in its turn, the last acknowledging the whole source |
| `PackBitsDecoder.Resumed` | crates/binbook-decompress/src/packbits.rs:32-91 | decoding can be stopped anywhere and taken up again with more input and more room |
| `PackBitsDecoder.FedOneStands` | crates/binbook-decompress/src/packbits.rs:32-91 | one more call keeps a stream equal to one call on all the input |
| `PackBitsDecoder.SplitInvariance` | crates/binbook-decompress/src/packbits.rs:32-91 | any partition of the input over any sequence of output buffers, leftovers offered again, is as good as one call, in bytes and in state |
| `PackBitsDecoder.ExpandedIsDecoded` | crates/binbook-decompress/src/packbits.rs:32-100 | a whole code decodes to its text, ending idle at its end |
| `PackBitsDecoder.DecodedIsExpanded` | crates/binbook-decompress/src/packbits.rs:32-100 | a decoding that ends idle at the end of the code has produced its text |
| `PackBitsDecoder.CutShort` | crates/binbook-decompress/src/packbits.rs:93-100 | ending inside a run with no input left means the code is cut short |
| `PackBitsDecoder.Decoder.CopyStretch` | crates/binbook-decompress/src/packbits.rs:56-88 | one copy of a whole stretch is as many single bytes of the reference |
| `PackBitsDecoder.Decoder.Decode` | crates/binbook-decompress/src/packbits.rs:32-91 | the decoder writes, consumes and remembers exactly what the byte-by-byte reference does |
| `PackBitsDecoder.Decoder.Finish` | crates/binbook-decompress/src/packbits.rs:93-100 | only between runs may the input end |
| `PackBitsDecoder.EndsShort` | crates/binbook-decompress/src/packbits.rs:119-127 | a buffer not filled: the code is shorter, or malformed |
| `PackBitsDecoder.EndsFull` | crates/binbook-decompress/src/packbits.rs:128-147 | a buffer filled: one byte of probing tells whether the code goes on, is cut short, or is exact |
| `PackBitsDecoder.AnswerIsDecided` | crates/binbook-decompress/src/packbits.rs:102-148 | success exactly for a sequence of complete runs that expands to the buffer's length; too short and too long likewise |
| `PackBitsDecoder.DecodeExact` | crates/binbook-decompress/src/packbits.rs:102-148 | terminates with the one answer the code and the length decide, the text in the buffer |
| `PackBitsEncoder.RunAt` | crates/binbook-compress/src/packbits.rs:84-103 | the next run is the longest repeat of at least two bytes, or else the longest stretch in which no repeat starts, 128 bytes at most |
| `PackBitsEncoder.EncodedBound` | crates/binbook-compress/src/packbits.rs:26-39 | a code is at most n + (n + 2) / 3 bytes long |
| `PackBitsEncoder.EncodedFromBound` | crates/binbook-compress/src/packbits.rs:26-39 | and at most n + n / 3 when a repeat comes first |
| `PackBitsEncoder.ExpandedJoin` | crates/binbook-decompress/src/packbits.rs:102-148 | codes joined decode to texts joined |
| `PackBitsEncoder.EncodedExpands` | crates/binbook-compress/src/packbits.rs:52-76 | decoding undoes encoding for every byte string |
| `PackBitsEncoder.RepeatLength` | crates/binbook-compress/src/packbits.rs:105-115 | the length of the repeat at an offset, zero past the end |
| `PackBitsEncoder.NextRun` | crates/binbook-compress/src/packbits.rs:84-103 | the loop finds the next run |
| `PackBitsEncoder.EncodedLen` | crates/binbook-compress/src/packbits.rs:26-39 | predicts the length exactly; the saturating addition never saturates on a slice |
| `PackBitsEncoder.EncodeRuns` | crates/binbook-compress/src/packbits.rs:52-76 | writes the code and no byte behind it |
| `PackBitsEncoder.WriteRun` | crates/binbook-compress/src/packbits.rs:52-76 | writes one run in its place |
| `PackBitsEncoder.EncodeInto` | crates/binbook-compress/src/packbits.rs:41-50 | writes exactly the predicted length, or refuses exactly a buffer below it, unchanged |
| `PackBitsEncoder.Encode` | crates/binbook-compress/src/packbits.rs:78-82 | a buffer of exactly the code |
| `PackBitsEncoder.JoinedExpands` | crates/binbook-image/src/compile.rs:119-138 | chunk codes one after the other are a code for the chunks joined |
| `PackBitsEncoder.CompilePlane` | crates/binbook-image/src/compile.rs:119-138 | 16-row chunks, compressed one by one; the codes joined decode to the whole plane; refused exactly for a length that is no multiple or too many rows |
| `PackBitsEncoder.DecodePlane` | crates/binbook-image/src/page_decode.rs:98-111 | one exact decoding of all chunks gives the plane back |
| `Bits.SetBitSets` | crates/gray2-render/src/row.rs:83-85 | setting a bit sets that bit and no other |
| `Bits.ClearBitClears` | crates/gray2-render/src/row.rs:87-89 | clearing a bit clears that bit and no other |
| `Bits.OrDigitOrs` | crates/binbook-image/src/page_decode.rs:125-147 | or-ing a two-bit value into its place changes that place only |
| `GrayPlanes.MirrorTwice` | crates/gray2-render/src/row.rs:42-46 | mirroring a row twice is the identity, so each pixel has its own bit |
| `GrayPlanes.NextIsStaged` | crates/gray2-render/src/row.rs:43-60 | staging one pixel sets its three bits and leaves every other pixel's |
| `GrayPlanes.PutPixel` | crates/gray2-render/src/row.rs:43-60 | the bits a gray level sets and clears in the three buffers |
| `GrayPlanes.SplitRow` | crates/gray2-render/src/row.rs:29-62 | stages a whole row |
| `GrayPlanes.SplitPage` | crates/gray2-render/src/image.rs:3-39 | after success the planes hold every pixel's bits (most significant: middle grays, least: the darker, base: white), bytes behind them untouched; refused exactly for bad dimensions or short buffers |
| `GrayPages.JoinPlanes` | crates/binbook-image/src/page_decode.rs:125-147 | each pixel is the level its three bits say |
| `GrayPages.OtherWidthsOverrun` | crates/binbook-image/src/page_decode.rs:125-147 | for a width that is no multiple of eight the source indexes a plane behind its end |
| `GrayPages.SplitPixels` | binbook/pixels.py:144-173 | the second splitter, over unpacked pixels, stages every pixel in the same way; refused exactly for other sizes |
| `GrayPages.JoiningUndoesSplitting` | crates/binbook-image/src/page_decode.rs:125-147 | joining the planes of a page gives the page back, byte for byte |
| `GrayPages.PackGray2` | binbook/pixels.py:11-27 | rows of four pixels a byte, padded with zeros; refused exactly for a wrong count or a value out of range |
| `GrayPages.PackByte` | binbook/pixels.py:17-26 | one byte of four pixels or padding |
| `GrayPages.UnpackGray2` | binbook/pixels.py:30-42 | the pixels of the rows without the padding; refused exactly for a wrong length |
| `GrayPages.UnpackingUndoesPacking` | binbook/pixels.py:11-42 | unpacking undoes packing for any width and height |
| `GrayPages.PackingUndoesUnpacking` | binbook/pixels.py:11-42 | packing undoes unpacking exactly if the padding was blank |
| `GrayPages.DecodePixels` | binbook/reader.py:338-384 | the second decoder's pixel list: each the level its three bits say |
| `GrayPages.DecodersAgree` | binbook/reader.py:338-385 | both decoders give the same packed page |
| `GrayPages.TurningIsOneToOne` | crates/binbook-image/src/target.rs:10-13 | turning the upright page to the panel is one to one |
| `GrayPages.TurnPage` | crates/binbook-image/src/target.rs:15-44 | every pixel of the upright page ends in its own two-bit place, or-ed into zero; refused exactly for wrong sizes or values |
| `GrayPages.PanelShowsThePage` | crates/binbook-image/src/compile.rs:42-82 | turned, split and joined again, each pixel of the upright page is at its place on the panel |
| `Wire.ValueOfLittleEndian` | crates/binbook-core/src/encode.rs:97-107 | a number that fits its field reads back from its little-endian bytes |
| `Wire.FieldStands` | crates/binbook-core/src/encode.rs:41-88 | every field of a record is where it was put |
| `Wire.NothingBeside` | crates/binbook-core/src/encode.rs:41-88 | bytes no field covers are zero |
| `PageRecords.PageReadsBack` | crates/binbook-core/src/page.rs:82-147 | a sound page record parses to what was written, plane by plane; its reserved bytes are zero |
| `PageRecords.ChunkReadsBack` | crates/binbook-core/src/chunk.rs:18-52 | a chunk record parses to what was written |
| `PageRecords.TransitionReadsBack` | crates/binbook-core/src/transition.rs:16-43 | a transition record parses to what was written |
| `PageIndices.ValidatePage` | crates/binbook-encode/src/indices.rs:137-158 | accepts exactly pages with planes in slots of their own and chunks that are not empty; an error names something that is wrong |
| `PageIndices.AppendPlane` | crates/binbook-encode/src/indices.rs:28-53 | aligns to four, appends the plane's chunks and their records, or finds that something no longer fits its field |
| `PageIndices.AppendPage` | crates/binbook-encode/src/indices.rs:24-81 | one page: data, chunk records, directory, checksum and progress |
| `PageIndices.BuildPages` | crates/binbook-encode/src/indices.rs:17-90 | page index, chunk index and page data are laid out as described; fails only for no pages, an invalid page, or too much |
| `PageIndices.PlanesDataGrows` | crates/binbook-encode/src/indices.rs:28-30 | appending never changes what is already laid out |
| `PageValidation.InvalidPlaneDirectory` | crates/binbook-core/src/record_validation.rs:66-94 | true exactly unless the bitmap is the format's, the reserved slot is free, planes lie at multiples of four and no two overlap |
| `PageValidation.ValidatePageCrc` | crates/binbook-core/src/record_validation.rs:96-127 | right exactly if the checksum is zero or that of the planes' bytes in slot order, in whatever scratch-sized pieces |
| `PageValidation.ValidatePages` | crates/binbook-core/src/record_validation.rs:24-64 | the pass reports, in order, what is wrong with each page record |
| `PageValidation.ValidateChunks` | crates/binbook-core/src/record_validation.rs:129-183 | the pass reports each chunk record whose key does not rise, that does not parse, or that leaves its plane or the X4 shape |
| `BuiltPages.DirectoryEntries` | crates/binbook-encode/src/indices.rs:54-58 | each plane has its own directory entry and no other slot has one |
| `BuiltPages.PlaneStands` | crates/binbook-encode/src/indices.rs:28-54 | a plane starts at a multiple of four behind everything before it, and its bytes are its chunks |
| `BuiltPages.PlaneStandsInBook` | crates/binbook-encode/src/indices.rs:22-54 | also in the page data of the whole book |
| `BuiltPages.ChunkStands` | crates/binbook-encode/src/indices.rs:32-52 | chunks tile their plane |
| `BuiltPages.ProgressIsFair` | crates/binbook-encode/src/indices.rs:60-77 | progress runs from 0 to 1,000,000 without going back, and page n of N is less than one millionth below n/N |
| `BuiltPages.RecordIsSound` | crates/binbook-encode/src/indices.rs:62-80 | every record built parses |
| `BuiltPages.PlanesAreHeld` | crates/binbook-encode/src/indices.rs:28-61 | the planes the reader sees are the planes compiled |
| `BuiltPages.SlotBytesArePlaneBytes` | crates/binbook-core/src/record_validation.rs:108-118 | for ascending slots, slot by slot is plane by plane |
| `BuiltPages.DirectoryPasses` | crates/binbook-core/src/record_validation.rs:66-94 | the directory check passes |
| `BuiltPages.CrcPasses` | crates/binbook-core/src/record_validation.rs:96-127 | the checksum check passes |
| `BuiltPages.PagesPass` | crates/binbook-core/src/record_validation.rs:24-64 | presentable pages: the page pass finds nothing |
| `BuiltPages.AllRecsRise` | crates/binbook-encode/src/indices.rs:35-48 | chunk keys rise strictly through the whole index |
| `BuiltPages.ChunksPass` | crates/binbook-core/src/record_validation.rs:129-183 | presentable pages: the chunk pass finds nothing |
| `BuiltPagesExactly.Gray4IsReserved` | crates/binbook-core/src/record_validation.rs:66-76 | the bitmap expected for four-bit grays asks for the reserved slot, so no such page passes |
| `BuiltPagesExactly.PassingPage` | crates/binbook-core/src/record_validation.rs:24-94 | a page record without findings comes from a page with the planes its format asks for |
| `BuiltPagesExactly.PassingChunk` | crates/binbook-core/src/record_validation.rs:129-183 | a chunk record without a finding has an index below 32, and the X4's shape on an X4 page |
| `BuiltPagesExactly.PassesExactlyIfPresentable` | crates/binbook-core/src/record_validation.rs:24-183 | the two passes find nothing in built sections exactly if every page is presentable: ascending slots, the format's bitmap, few enough chunks, the X4's chunk shape |
| `PageTransitions.ChangedChunks` | crates/binbook-encode/src/indices.rs:110-135 | the mask marks exactly the base-plane chunks that differ among the first 32; first and count are the tight span around them |
| `PageTransitions.SpanIsEnough` | crates/binbook-encode/src/indices.rs:110-135 | drawing the span's chunks of the new page over the old gives the new page |
| `PageTransitions.BuildTransitions` | crates/binbook-encode/src/indices.rs:91-108 | a record forward and a record back for each pair of neighbours |
| `PageTransitions.ValidateTransitions` | crates/binbook-core/src/record_validation.rs:185-213 | reports each record that does not parse or whose span is not that of its mask |
| `PageTransitions.TransitionsPass` | crates/binbook-core/src/record_validation.rs:185-213 | whatever the pages, nothing is found in their transitions |
| `SectionTable.HeaderReadsBack` | crates/binbook-core/src/encode.rs:41-63 | the header's fields read back from its 256 bytes |
| `SectionTable.EntryReadsBack` | crates/binbook-core/src/encode.rs:75-88 | a table entry's fields read back from its 40 bytes |
| `SectionTable.ParseDirectory` | crates/binbook-core/src/section.rs:76-139 | the table parser, entry by entry; what it accepts is well formed |
| `SectionTable.AcceptedIsWellFormed` | crates/binbook-core/src/section.rs:76-139 | for any bytes: an accepted table has all 19 sections, each in the file, with records of the demanded size inside them |
| `BookFile.AlignUpIsNextMultiple` | crates/binbook-encode/src/writer.rs:241-246 | the next multiple of 65,536 |
| `BookFile.Assemble` | crates/binbook-encode/src/writer.rs:178-232 | header, table, sections and page data in one file; refused exactly beyond 64 bits |
| `BookFile.SectionStands` | crates/binbook-encode/src/writer.rs:178-232 | each entry's range is exactly that section's bytes; resizing cuts nothing off |
| `BookFile.SectionsAreApart` | crates/binbook-encode/src/writer.rs:178-232 | sections lie in order, apart, behind the table, page data last |
| `BookFile.BookOpens` | crates/binbook-core/src/book.rs:15-40 | the reader opens every assembled file and finds header and entries as written, or reports the missing page exactly if there is none |
| `BookFile.PrepareSections` | crates/binbook-encode/src/writer.rs:94-113 | record sections must hold whole, countable records |
| `BookFile.BuildBytes` | crates/binbook-encode/src/writer.rs:79-122 | succeeds exactly if records divide and all fits 64 bits; then the reader finds every section's bytes, counts and checksum, page data at a multiple of 65,536 |
| `StoredBook.RecordComesBack` | crates/binbook-core/src/book_io.rs:76-95 | reading page record n from the finished file gives the record built |
| `StoredBook.PlaneComesBack` | crates/binbook-image/src/page_decode.rs:98-111 | fetching a plane through header, table and page record of the finished file gives a code that decodes to the plane compiled |
| `Utf8Text.EncodedChar` | crates/binbook-render/src/pagination.rs:180-185 | a character is one lead byte and up to three continuation bytes (section 3 of RFC 3629) |
| `Utf8Text.EncodedHolds` | crates/binbook-render/src/pagination.rs:153-185 | a character's bytes hold its code point in 7, 5 + 6, 4 + 6 + 6 or 3 + 6 + 6 + 6 bits, in the least number of bytes that can (section 3 of RFC 3629) |
| `Utf8Text.Utf8IsOneToOne` | crates/binbook-render/src/pagination.rs:153-185 | different texts have different bytes |
| `Utf8Text.BoundarySplits` | crates/binbook-render/src/pagination.rs:153-173 | a cut at a boundary is a cut between characters |
| `Utf8Text.FirstBoundary` | crates/binbook-render/src/pagination.rs:175-178 | there is a place to cut among the first four bytes, so a fresh page always takes something |
| `Utf8Text.FloorCharBoundary` | crates/binbook-render/src/pagination.rs:180-185 | the last boundary at or before an index |
| `Pagination.WhatABlockAdds` | crates/binbook-render/src/pagination.rs:83-129 | paragraphs, headings, lists, items, quotes, preformatted blocks and figures end in a blank line, rows in a line break, cells in a bar; breaks before and after a block are where it begins and ends; an oversized row is reported |
| `Pagination.WritingTurns` | crates/binbook-render/src/pagination.rs:153-173 | text added to the last page changes no reason why a page begins |
| `Pagination.PictureTurns` | crates/binbook-render/src/pagination.rs:133-151 | a picture on a page without text and the page behind it begin for a reason |
| `Pagination.AllStillStandOn` | crates/binbook-render/src/pagination.rs:54-151 | adding text and pages never moves an anchor off its page nor a page's beginning |
| `Pagination.Pages.AddPage` | crates/binbook-render/src/pagination.rs:153-173 | a new page adds nothing to what is held |
| `Pagination.Pages.AddSpan` | crates/binbook-render/src/pagination.rs:166-171 | a span of whole characters goes behind everything held |
| `Pagination.Pages.PushText` | crates/binbook-render/src/pagination.rs:153-173 | terminates; a text goes behind everything held, in pages of at most 1,250 bytes cut between characters; a page begins only where the next character does not fit on the one before, and none where the whole text fits |
| `Pagination.Pages.TurnForText` | crates/binbook-render/src/pagination.rs:155-164 | a new page for a text of which not even the first character fits on the last one |
| `Pagination.Pages.BreakBefore` | crates/binbook-render/src/pagination.rs:88-90 | what comes next begins a page: a new one exactly if the last has text |
| `Pagination.Pages.BreakAfter` | crates/binbook-render/src/pagination.rs:126-128 | what comes next begins a new page |
| `Pagination.Pages.TurnForPicture` | crates/binbook-render/src/pagination.rs:140-142 | a page without text for a picture: a new one only if the last has text |
| `Pagination.Pages.PushArtwork` | crates/binbook-render/src/pagination.rs:133-151 | a picture gets a page without text, and text goes on behind it |
| `Pagination.Pages.RecordAnchor` | crates/binbook-render/src/pagination.rs:63-67 | an anchor is recorded on the page where its place in the text is |
| `Pagination.Pages.PushEqualRow` | crates/binbook-render/src/pagination.rs:197-216 | a row on one line in equal columns |
| `Pagination.Pages.Visit` | crates/binbook-render/src/pagination.rs:54-131 | a tree's whole flow is written behind what is held, in document order, with anchors on their pages, page breaks and warnings; every page but the first begins for a reason: a break, a picture, or a first character that does not fit before it; what of the tree its flow shows is `FlowShowsEverything` |
| `Pagination.Pages.VisitBlock` | crates/binbook-render/src/pagination.rs:83-129 | a block: prefix, children, ending, breaks, oversized rows |
| `Pagination.Pages.VisitChildren` | crates/binbook-render/src/pagination.rs:79-81 | children in order |
| `DocumentLayout.LayOut` | crates/binbook-render/src/document.rs:55-68 | the pages hold exactly the flow of all linear items, with their anchors, breaks and warnings, each page beginning for a reason; none exactly if there is no linear item |
| `DocumentLayout.DropBlankPages` | crates/binbook-render/src/document.rs:70-77 | blank pages at the end go, and nothing that is held goes with them; every kept page but the first still begins for a reason |
| `DocumentLayout.OutputAnchors` | crates/binbook-render/src/document.rs:78-148 | anchors on kept pages name the first output page of theirs |
| `DocumentLayout.AnchorNamesAPage` | crates/binbook-render/src/document.rs:78-148 | a finished anchor names an existing output page exactly if its page or a later one produced any |
| `DocumentContent.TokensAreFlow` | crates/binbook-render/src/pagination.rs:54-131 | a tree's flow in pieces: its own words and pictures, and decoration |
| `DocumentContent.TokensAreTrue` | crates/binbook-render/src/pagination.rs:54-131 | each piece shows what of the tree's own it claims to |
| `DocumentContent.WhatARowCuts` | crates/binbook-render/src/pagination.rs:197-216 | a column shows the whole cell exactly if that is three shorter than the column, or two shorter and ends in a space |
| `DocumentContent.WhatACellKeeps` | crates/binbook-render/src/pagination.rs:197-228 | a cell of a one-line row keeps all it says exactly if it has no picture and no rule in it and is not cut |
| `DocumentContent.FlowShowsEverything` | crates/binbook-render/src/pagination.rs:54-228 | for every tree: the flow shows all letters, line breaks, rules and pictures of the tree, in order, if and only if every row put on one line has only words in it and no cell too wide for its column |
| `DocumentContent.PagesShowEverything` | crates/binbook-render/src/document.rs:55-68 | the same for the pages of a whole document |
| `DocumentContent.OneLineRowCanLoseText` | crates/binbook-render/src/pagination.rs:102-105 | a row that loses text: one cell of seventy letters |
| `DocumentContent.OneLineRowCanLosePicture` | crates/binbook-render/src/pagination.rs:197-228 | a row that loses a picture although no cell is cut |
| `DocumentContent.MetAnchorsAreRecorded` | crates/binbook-render/src/pagination.rs:54-131 | laying a tree out records exactly the anchors it comes by |
| `DocumentContent.WhichAnchorsAreMet` | crates/binbook-render/src/pagination.rs:54-131 | those are all anchors of the tree if and only if none is in a row put on one line |
| `Navigation.ReadNavigation` | crates/binbook-epub/src/parser.rs:145-177 | every kept entry becomes an item whose parent is an earlier item or none |
| `Navigation.ParentEncloses` | crates/binbook-epub/src/parser.rs:152-166 | among well nested kept entries the parent is the last one before it that is further out |
| `Navigation.ParentsAreEnclosers` | crates/binbook-epub/src/parser.rs:145-177 | for all well nested contents: every item has the item of the entry enclosing it in the contents as its parent, if and only if no entry with a target is enclosed by one without |
| `Navigation.KeptIsNested` | crates/binbook-epub/src/parser.rs:145-177 | under that condition the kept entries are well nested, too |
| `Navigation.SkippedEntryLosesItsChild` | crates/binbook-epub/src/parser.rs:152-166 | the child of an entry without a target is filed under the entry before that one |
| `Navigation.SkippedEntryHarmsFurtherDown` | crates/binbook-epub/src/parser.rs:152-166 | an entry may end without a parent although the entry enclosing it is kept |
| `Navigation.FirstFrom` | crates/binbook-compiler/src/compile.rs:154-166 | the first entry from an index on with a given parent |
| `Navigation.AddNavigation` | crates/binbook-compiler/src/compile.rs:142-185 | first child and next sibling of each entry; it leads to its anchor's page, to the first where it has none; the writer's checks on links and targets cannot fail when anchors name pages |
| `Navigation.ChildrenAreListed` | crates/binbook-compiler/src/compile.rs:154-166 | first child, then next siblings: exactly the children, once each, in order |
| `Navigation.WalkVisits` | crates/binbook-compiler/src/compile.rs:154-166 | a walk visits exactly what lies under the entries it starts from, once each |
| `Navigation.EveryEntryOnce` | crates/binbook-compiler/src/compile.rs:142-185 | the walk from the first root visits every entry exactly once |
| `Navigation.WalkInOrder` | crates/binbook-epub/src/parser.rs:145-177 | in well nested contents the walk visits a contiguous stretch in order |
| `Navigation.ContentsInOrder` | crates/binbook-epub/src/parser.rs:145-177 | reading, linking and following the links of well nested contents gives the contents in their own order |

## Left out

- Byte layout and checksum of a journal record (`encode_upload_journal`, `decode_upload_journal`): a slot is a record or unreadable, and a torn write is taken to be unreadable.
- Failing renames and removals inside publication and recovery, whose results the source drops with `.ok()`, other than a refused rename.
- Wrap of the 32-bit generation: the crash proofs ask for headroom below it; the comparison itself is proved up to half the range.
- Creating the BOOKS and TMP directories, limits on name length other than the journal's, and names in TMP colliding with each other.
- The FAT library: placing a file is an argument of the call, and files are taken to lie apart on the card.
- Card addresses beyond 32-bit block numbers.
- What a failed device read leaves in its buffer: nothing, as the model has it.
- Extents.WriteExtents: after a device failure nothing is said about the blocks of the range itself, because the device may leave anything in them.
- BulkReadbackStream.ReadBack: runs as long as the transport has patience, because the source loops as long as the peer keeps answering.
- BulkUploadStream.Upload: the same.
- PackBitsDecoder.Decoder.Decode: the arms for a control byte and for a repeat's value are one branch, because both take one byte.
- LZ4 and uncompressed planes.
- Quantising, dithering, fitting and rasterising images and text, fonts, and one-bit pages (`native_base_to_gray1`).
- GrayPages.JoinPlanes: widths that are no multiple of eight, for which the source panics (`OtherWidthsOverrun`).
- PageTransitions.ChangedChunks: chunks are compared by content, as SHA-256 is taken to do.
- PageRecords.PageReadsBack: encoding is laying fields out on values; the source writes the same fields in place into a zeroed record.
- PageIndices.BuildPages: the transition section is built by `BuildTransitions` on its own; which of two errors is reported first when several things are too large.
- Policy records, strings, navigation and chapter records, and the validator's passes over links, profiles and section checksums.
- `validate_string_references` when a book is opened.
- DocumentContent.FlowShowsEverything: the style of text inside a one-line row, which is the row's.
- Font families collected while paginating.
- A document's warnings other than the one for oversized rows.
