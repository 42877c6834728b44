# AcharyaOS, modelled and proved

A Dafny project about the stateful core of the AcharyaOS kernel: the contiguous-extent file system with
the two programs that store their data in it, the calculator, the round-robin scheduler, the keyboard
ring, the VGA text screen, page tables, the Internet checksum with the packets that carry it, the bounded
log formatter with its ring, and the bump heap.

Code that the kernel writes as updates in place is modelled as a class (or a method on arrays) and proved
against a specification made of plain functions; the theorems are then stated about those functions.
`dafny verify dfyconfig.toml` checks everything.

| Part of the kernel | Specification and theorems | In-place model |
|---|---|---|
| `fs/fs.c` | `FsTable.dfy`, `Volume.dfy`, `VolumeProofs.dfy`, `VolumeTheorems.dfy`, `VolumeHistory.dfy`, `VolumeFaults.dfy`, `VolumeCuts.dfy`, `Listing.dfy`, `DiskLayout.dfy`, `VolumeExamples.dfy` | `Device.dfy`, `FileSystem.dfy` |
| `kernel/config/config.c` | `ConfigText.dfy`, `ConfigProofs.dfy`, `ConfigLoads.dfy`, `ConfigRuns.dfy`, `ConfigFormat.dfy` | `Config.dfy` |
| `kernel/editor/editor.c` | `EditorText.dfy`, `EditorRuns.dfy`, `EditorFormat.dfy` | `Editor.dfy` |
| `kernel/calc/calc.c` | `CalcGrammar.dfy`, `CalcParser.dfy`, `CalcTheorems.dfy`, `CalcMeaning.dfy` | `Calc.dfy` |
| `scheduler/scheduler.c` | `SchedulerModel.dfy`, `SchedulerTheorems.dfy`, `SchedulerInterleaving.dfy` | `Scheduler.dfy` |
| `drivers/keyboard/keyboard.c` | `KeyboardModel.dfy` | `Keyboard.dfy` |
| `drivers/vga/vga.c` | `TextPage.dfy` | `Screen.dfy` |
| `memory/vmm.c` | `Paging.dfy`, `PagingRuns.dfy` | `VirtualMemory.dfy` |
| `kernel/net/ipv4.c`, `udp.c`, `icmp.c` | `Checksum.dfy`, `Packets.dfy` | the same files |
| `kernel/debug/log.c` | `LogText.dfy` | `Logger.dfy`, `LogRing.dfy` |
| `memory/kheap.c` | `Bits.dfy`, `Heap.dfy` | `Heap.dfy` |

## What the model assumes

- The drive is an array of 512-byte sectors. One sector is written completely or not at all; any request may
  fail, and a failing write may or may not have reached the medium.
- The clock is a number, the answer of the IPv4 layer to a packet is a parameter, and an interrupt handler
  runs to completion, as interrupts stay off inside it.
- Longer C functions are split into several methods (`PlaceFile`, `StoreData` and `StoreLast` inside `WriteFile`, for example);
  the split changes no order of reads and writes.

## Results that differ from what the sources suggest

Each of these is an equivalence whose condition a caller can check, with an input at which the result fails.

- Files in slots 14 to 31 do not survive a reboot: the one table sector holds 14 records
  (`VolumeTheorems.RebootKeepsFiles`; fifteen files on a fresh volume: `VolumeExamples.FifteenFilesAreNotKept`).
- A boot whose read of the superblock fails formats a sound volume: a file no call names survives a run of failed
  calls and reboots exactly if no boot completes such a format and its slot is one that is read back
  (`VolumeFaults.UnnamedFileKeepsBytes`, `VolumeFaults.BootKeepsFiles`; one failed read on a volume with one file:
  `VolumeExamples.FailedReadErases`).
- A write or delete that fails has changed the table in memory, and the next call that succeeds stores the change: a
  failed overwrite leaves neither the old bytes nor the new (`VolumeCuts.CutContents`,
  `VolumeCuts.FailedWriteIsPublished`; an overwrite that fails at its first sector:
  `VolumeExamples.FailedOverwriteIsPublished`).
- Failed writes move block numbers on without end: extents stay sound exactly as long as none exceeds 32 bits
  (`VolumeTheorems.RunStaysGuarded`; sixteen million failed overwrites: `VolumeExamples.FailuresReachTheWrap`).
- A format cut between its two writes leaves a volume that is healthy exactly if the table sector held a sound table
  before (`VolumeCuts.CutFormatIsHealthyIff`; a sector of ones: `VolumeExamples.CutFormatAdoptsJunk`).
- A file of 256 blocks can be written but not read back: the block count is cast to 8 bits
  (`VolumeTheorems.ReadReturnsFile`; the largest file: `VolumeExamples.LargestFileIsNotReadable`).
- A read that succeeds writes whole sectors, and stays in the caller's buffer exactly if the file's sectors fit
  (`VolumeTheorems.ReadStaysInBuffer`; the 256 bytes of a preview, as in kernel/browser/browser.c:98-107:
  `VolumeExamples.PreviewOverruns`).
- A file name of more than 15 bytes, or a settings key of more than 31, is stored cut short and then not found
  (`VolumeTheorems.WrittenNameIsFound`, `ConfigRuns.NewKeyIsFound`; the shortest such names:
  `VolumeExamples.LongNameIsNotFound`, `ConfigRuns.LongKeyIsNotFound`); what such a setting changes is the answer for
  the shorter key (`ConfigRuns.GetAfterSet`, `ConfigRuns.LongKeySetsItsPrefix`).
- Settings survive exactly if the stored entries are clean, their keys distinct, and the text has at most 1024 bytes,
  one more than the file holds: only the last line feed is cut off (`ConfigRuns.AnySettingsSurvive`; a line feed in a
  value, two keys that are the same when cut, and twelve settings of full length: `ConfigRuns.BrokenLineIsNotKept`,
  `ConfigRuns.TwinKeysAreNotKept`, `ConfigRuns.FullTableIsNotKept`).
- The editor restores every buffer but the empty one, which comes back as one empty line
  (`EditorText.RoundTripIffNonempty`, `EditorRuns.AnySessionSurvives`).
- `vmm_map_user_2m` accepts non-canonical addresses and frames of more than 52 bits; such a page is not mapped
  where the caller asked (`PagingRuns.SuccessMapsPage`; one call of each kind: `PagingRuns.UnsoundCallsSucceed`).
- `ipv4_checksum` is the Internet checksum exactly when the words add up to less than 2^32; every input of at most
  131,074 bytes does, and longer data of all ones does not (`Checksum.ChecksumIsRfc1071`, `Checksum.BoundIsTight`).

## Model

| member | source | states |
|---|---|---|
| `FsTable.LoadOfStore` | fs/fs.c:72-82 | storing and reloading the table sector restores records 0 to 13 exactly, gives record 14 only eight name bytes, and leaves later records as memory had them |
| `FsTable.StoreOfLoad` | fs/fs.c:72-82 | loading a sector and storing the table again writes the same sector |
| `AtaDevice.Device.ReadSectors` | drivers/disk/ata.c:174-193 | success delivers the addressed sectors; a request for zero sectors is refused; any request may fail |
| `AtaDevice.Device.WriteSector` | drivers/disk/ata.c:195-218 | one sector changes or none does; success means it reached the medium |
| `Volume.FindFrom` | fs/fs.c:200-207 | the first used record from a slot on that carries the name, and none before it does |
| `Volume.FreeFrom` | fs/fs.c:209-216 | the first free slot from a slot on, all before it being used |
| `VolumeProofs.CursorIsLeast` | fs/fs.c:218-230 | the allocation cursor is the least block that is neither before the data area nor before the end of an extent in use |
| `VolumeProofs.PlanInOrder` | fs/fs.c:262-328 | the sector writes of an operation: one per block of the data, to consecutive sectors from the cursor on, then the table |
| `VolumeProofs.StagedSlot` | fs/fs.c:270-285 | a write changes one record only: the one with the name, or the first free one, which gets name, size and start |
| `VolumeProofs.StagedFresh` | fs/fs.c:218-230 | the extent of a write lies behind every extent in use, the overwritten file's own included |
| `VolumeProofs.StagedExtentsOk` | fs/fs.c:276-285 | every operation, finished or not, keeps the extents in memory pairwise disjoint and inside the data area, if and only if its block numbers stay below 2^32 |
| `VolumeProofs.CommitRun` | fs/fs.c:287-298 | consecutive sector writes end up in consecutive sectors |
| `VolumeProofs.FlattenChunks` | fs/fs.c:287-298 | cutting data into zero-padded sectors and joining them gives the data back |
| `VolumeProofs.OldContentsKept` | fs/fs.c:287-302 | after any prefix of an operation's writes every old file still has its bytes, also on a volume where earlier calls failed |
| `VolumeProofs.SystemSectors` | fs/fs.c:262-328 | no prefix touches the superblock, and only the last write changes the table sector |
| `VolumeProofs.NewContentsStored` | fs/fs.c:287-302 | after all of them the new file's bytes are in its extent |
| `VolumeProofs.FinishedUpdatesMap` | fs/fs.c:262-328 | a finished write changes exactly one name of the name-to-bytes map; a finished delete removes exactly one |
| `VolumeProofs.FinishedStaysHealthy` | fs/fs.c:262-328 | afterwards memory and disk agree, names are distinct and extents disjoint |
| `VolumeTheorems.FullTable` | fs/fs.c:209-216 | there is no free slot exactly when the map holds 32 names |
| `VolumeTheorems.FinishRefinesMap` | fs/fs.c:262-328 | acceptance, resulting map and health of an operation are those of the abstract map operation |
| `VolumeTheorems.RunRefinesMap` | fs/fs.c:262-328 | over any sequence of operations the volume holds what the abstract map holds |
| `VolumeTheorems.WrittenNameIsFound` | fs/fs.c:48-66 | a stored file is found under its name if and only if the name has at most 15 bytes |
| `VolumeTheorems.ReadReturnsFile` | fs/fs.c:232-260 | a read succeeds if and only if the file exists, fits the buffer and has at most 255 blocks, and then delivers exactly its bytes |
| `VolumeTheorems.ReadStaysInBuffer` | fs/fs.c:232-260 | a successful read transfers 512 bytes for each block of the file, and stays within the caller's length if and only if these fit |
| `VolumeTheorems.CrashAtomic` | fs/fs.c:262-328 | with names of at most 15 bytes and slots 0 to 13 in use, stop an operation after any prefix of its writes and boot: the map is the old one before the table write and the new one after it |
| `VolumeHistory.CrashIsBeforeOrAfter` | fs/fs.c:137-328 | whatever the name and the slots in use, a boot after any prefix of the writes finds what a boot before the operation would have found, until the table is written; then the deleted name is gone, or the data is under the name cut at 15 bytes, unless the slot is not read back or an earlier slot has that name |
| `VolumeHistory.CutStaysHealthy` | fs/fs.c:137-328 | a boot after an operation cut off before its table write gives a healthy volume with the old files |
| `VolumeHistory.HistoryIsLandedRun` | fs/fs.c:137-328 | over any history of operations, each finished or cut off anywhere and followed by a boot, with at most fourteen files, the volume is healthy and holds the run of exactly the operations whose table write landed |
| `VolumeFaults.UnnamedFileKeepsBytes` | fs/fs.c:137-328 | over any run of calls that fail half-way, calls that finish and boots, with block numbers below 2^32 and no call naming the file: it has its bytes at the end, and after one more boot, if and only if no boot completed a format because it could not read the superblock and, for a file in slots 14 to 31, there was no boot at all |
| `VolumeFaults.BootKeepsFiles` | fs/fs.c:137-173 | one boot of a healthy volume with slots 0 to 13 in use, whatever the device answers: the files are those of before, or none if the superblock read failed and the format was completed |
| `VolumeCuts.CutContents` | fs/fs.c:281-298 | after a write that failed behind k sectors the new record denotes those sectors of the new data and behind them what the drive held |
| `VolumeCuts.FailedWriteReplaces` | fs/fs.c:268-302 | such a write has replaced the record in memory and left the stored table alone |
| `VolumeCuts.FailedWriteIsPublished` | fs/fs.c:268-302 | any later call for another file that lands stores that record: a boot then finds it if and only if its slot is below 14 |
| `VolumeCuts.FullDriveIsPublished` | fs/fs.c:268-302 | on a full drive the record found then reaches past the last sector, and no read of it succeeds |
| `VolumeCuts.FailedDeleteIsPublished` | fs/fs.c:314-328 | a delete that failed has removed the file from memory, and any later call for another file that lands removes it from the disk |
| `VolumeCuts.CutFormatIsHealthyIff` | fs/fs.c:107-173 | a boot after a format cut between its two writes adopts whatever the table sector held, and the volume is healthy if and only if that was a sound table |
| `VolumeTheorems.FirstFit` | fs/fs.c:209-216 | no slot at or above the number of files then present is ever opened |
| `VolumeTheorems.RunStaysBelow` | fs/fs.c:209-216 | so a run that never holds more than b files stays in slots below b |
| `VolumeTheorems.RebootKeepsFiles` | fs/fs.c:137-173 | a reboot restores the map of a healthy volume if and only if all used slots are below 14 |
| `VolumeTheorems.ReloadIsHealthy` | fs/fs.c:137-173 | and a boot from any disk with the system sectors of a healthy volume gives a healthy volume |
| `VolumeTheorems.RunSurvivesReboot` | fs/fs.c:137-173 | any run with at most fourteen files at a time comes back after a reboot as the abstract map has it |
| `VolumeTheorems.FormatIsHealthy` | fs/fs.c:107-135 | formatting an unrecognised drive gives a healthy volume without files |
| `VolumeTheorems.RunStaysGuarded` | fs/fs.c:218-230 | over any run of operations cut short anywhere and of reboots, used extents are pairwise disjoint and off the superblock and the table, in memory and on disk, at every step if and only if no block number exceeds 32 bits |
| `VolumeTheorems.HealthyIsGuarded` | fs/fs.c:137-173 | a healthy volume is a start for such runs |
| `VolumeExamples.FirstBootIsFresh` | fs/fs.c:107-173 | the first boot from a blank drive formats it to a healthy volume with an empty table |
| `VolumeExamples.PremisesAreMet` | fs/fs.c:262-312 | a one-byte write to that volume meets every premise the theorems about one operation share |
| `VolumeExamples.LongNameIsNotFound` | fs/fs.c:48-66 | a write under a name of sixteen bytes is accepted and its file not found |
| `VolumeExamples.LargestFileIsNotReadable` | fs/fs.c:250-256 | a file of 256 blocks is stored and cannot be read into a buffer of its size |
| `VolumeExamples.FifteenFilesAreNotKept` | fs/fs.c:72-82 | fifteen files leave a healthy volume that a reboot does not restore |
| `VolumeExamples.FailedReadErases` | fs/fs.c:149-152 | on a healthy volume with one file, a boot whose superblock read fails formats the drive: mounted and empty |
| `VolumeExamples.PreviewOverruns` | fs/fs.c:232-260 | a one-byte file read with a length of 256 transfers 512 bytes |
| `VolumeExamples.FailedOverwriteIsPublished` | fs/fs.c:268-302 | an overwrite that fails at its first sector, another file written, a boot: the file holds what was on the drive behind it |
| `VolumeExamples.CutFormatAdoptsJunk` | fs/fs.c:107-173 | over a table sector of ones the boot after the cut mounts records that are no extents |
| `VolumeExamples.FailuresReachTheWrap` | fs/fs.c:276-285 | enough failed overwrites of one file push its record past 32-bit block numbers |
| `FileSystems.FileSystem.CopyNameInto` | fs/fs.c:48-54 | the bounded name copy, over whatever the field held |
| `FileSystems.FileSystem.NameEquals` | fs/fs.c:56-66 | true if and only if the field holds exactly that name |
| `FileSystems.FileSystem.FindIndex` | fs/fs.c:200-207 | the directory search in place |
| `FileSystems.FileSystem.FindFreeIndex` | fs/fs.c:209-216 | the free-slot search in place |
| `FileSystems.FileSystem.NextFreeLba` | fs/fs.c:218-230 | the allocation cursor, in 32-bit arithmetic |
| `FileSystems.FileSystem.SyncCache` | fs/fs.c:84-92 | every cached record has the start, size and used mark of its disk record, the first 15 bytes of its name, and a zero byte |
| `FileSystems.FileSystem.StoreData` | fs/fs.c:287-298 | the write loop puts a prefix of the planned writes on the medium, all of them on success |
| `FileSystems.FileSystem.WriteFile` | fs/fs.c:262-312 | refusal changes nothing; otherwise the table is the staged one and the medium has seen exactly a prefix of the plan, all of it on success, and an error takes a device fault |
| `FileSystems.FileSystem.DeleteFile` | fs/fs.c:314-328 | the same for a delete, with the cache in agreement on success |
| `FileSystems.FileSystem.ReadFile` | fs/fs.c:232-260 | success delivers what the specification reads, failure leaves the buffer alone and is only possible on a fault if the file is readable |
| `FileSystems.FileSystem.Format` | fs/fs.c:107-135 | superblock, then table; on success an empty mounted volume |
| `FileSystems.FileSystem.Init` | fs/fs.c:137-173 | the booted state is what the specification mounts from the disk, for every pattern of device errors |
| `FileSystems.FileSystem.ListFiles` | fs/fs.c:186-198 | as many records as used slots, up to the limit; record k shows start, size, used mark and the first 15 bytes of the name of the k-th used slot |
| `FsListing.EverySlotIsThere` | fs/fs.c:186-198 | no used slot is missing from the listing |
| `FsListing.ListingIsMap` | fs/fs.c:186-198 | on a healthy volume a listing has one record for each file, with its name and its length in bytes, and no other |
| `FsListing.ListingIsSet` | fs/fs.c:186-198 | the names and lengths listed are exactly those of the name-to-bytes map |
| `DiskLayout.SectorImage` | fs/fs.c:28-34 | where the table sector holds name, first block, size and used mark of each of its fourteen records, numbers with the low byte first |
| `DiskLayout.SuperblockImage` | fs/fs.c:12-26 | the bytes of the superblock: the mark `ASHS`, version 1, the label, 32 files, first data block 4098, zeros elsewhere |
| `DiskLayout.FormatBlocks` | fs/fs.c:14-16 | a format writes blocks 4096 and 4097, and the first file goes to block 4098 |
| `DiskLayout.NameKeepsTail` | fs/fs.c:48-54 | byte for byte, the name field after a name was stored: the bytes behind its end stay |
| `DiskLayout.WrittenRecord` | fs/fs.c:270-285 | a new record is marked with 1, an overwritten one keeps name and mark |
| `DiskLayout.DeletedRecord` | fs/fs.c:319-322 | a delete leaves 36 zero bytes in the record of that name and every other record alone |
| `ConfigText.FindFrom` | kernel/config/config.c:42-49 | the first used entry with the key |
| `ConfigRuns.GetAfterSet` | kernel/config/config.c:87-122 | an accepted setting changes the answer for its key cut at 31 bytes and for no other; a new key changes nothing if the cut key is found before the slot it gets |
| `ConfigRuns.LongKeySetsItsPrefix` | kernel/config/config.c:87-106 | on the default table a key of 32 bytes changes the answer for its first 31 |
| `ConfigRuns.NewKeyIsFound` | kernel/config/config.c:94-102 | a new key is found afterwards if and only if it has at most 31 bytes |
| `ConfigRuns.LongKeyIsNotFound` | kernel/config/config.c:94-102 | a key of 32 bytes is accepted by the default table and not found |
| `ConfigProofs.SetNewKey` | kernel/config/config.c:94-105 | a new clean setting goes to the next slot, key whole and value clipped, and keeps the table reachable |
| `ConfigProofs.SetOldKey` | kernel/config/config.c:94-105 | changing a setting keeps the table reachable |
| `ConfigProofs.SetFullTable` | kernel/config/config.c:97-99 | a full table refuses a new setting unchanged |
| `ConfigProofs.NextLineIs` | kernel/config/config.c:154-178 | the line reader returns the line standing at a position and the position behind it |
| `ConfigProofs.LoadLines` | kernel/config/config.c:198-214 | reading the first k lines of a saved text restores slots below k over the defaults |
| `ConfigProofs.RoundTripIffFits` | kernel/config/config.c:180-249 | saving and loading restores a reachable table slot for slot if and only if its text has at most 1024 bytes |
| `ConfigRuns.CleanSettingsSurvive` | kernel/config/config.c:64-249 | the same for the table any sequence of clean settings builds from the defaults |
| `ConfigLoads.LoadIsClean` | kernel/config/config.c:154-217 | whatever the file holds, the entries loaded are clean |
| `ConfigLoads.LoadKeepsDistinct` | kernel/config/config.c:154-217 | reading a text of clean lines, cut anywhere, gives no key twice |
| `ConfigLoads.RoundTripIffSound` | kernel/config/config.c:180-249 | saving and loading restores any table without gaps slot for slot if and only if its entries are clean, its keys distinct and its text at most 1024 bytes |
| `ConfigRuns.AnySettingsSurvive` | kernel/config/config.c:64-249 | the same for the table that any file and any settings since have built |
| `ConfigRuns.BrokenLineIsNotKept` | kernel/config/config.c:87-249 | a value that is a line feed is accepted and the reload differs |
| `ConfigRuns.TwinKeysAreNotKept` | kernel/config/config.c:87-249 | two keys that agree in 31 bytes fill two slots and the reload differs |
| `ConfigRuns.FullTableIsNotKept` | kernel/config/config.c:180-249 | twelve settings of full length over the defaults give a text of more than 1024 bytes, and the reload differs |
| `ConfigFormat.DefaultPrompt` | kernel/config/config.c:16-24 | the default of `prompt` |
| `ConfigFormat.DefaultLogLevel` | kernel/config/config.c:16-24 | the default of `loglevel` |
| `ConfigFormat.DefaultFilter` | kernel/config/config.c:16-24 | the default of `browser_filter` |
| `ConfigFormat.DefaultTabWidth` | kernel/config/config.c:16-24 | the default of `editor_tabwidth` |
| `ConfigFormat.SavedLines` | kernel/config/config.c:223-242 | each used entry is saved as its key, `=`, its value and a line feed |
| `ConfigFormat.OneLineFile` | kernel/config/config.c:180-217 | any file of one line `key=value` loads as the defaults with that setting, with or without the line feed |
| `ConfigFormat.OneLineChanges` | kernel/config/config.c:108-217 | and then changes the answer for that key alone |
| `ConfigFormat.BlankLinesAreSkipped` | kernel/config/config.c:157-159 | line feeds and carriage returns in front of a line make no difference |
| `ConfigFormat.SettingLine` | kernel/config/config.c:204-213 | a line sets the key up to its first `=` to what follows |
| `ConfigFormat.OtherLinesDoNothing` | kernel/config/config.c:204-213 | a line without `=`, or with nothing in front of it, changes no setting |
| `ConfigFormat.FileOfLines` | kernel/config/config.c:154-217 | any file of at most 1023 bytes of lines, of any length and in any number, loads as the defaults with line after line applied, 129 characters of each |
| `ConfigFormat.OnlyTheStartCounts` | kernel/config/config.c:192-196 | bytes behind the first 1023 make no difference |
| `Configs.SettingsSurvive` | kernel/config/config.c:180-249 | the same through the file system, for any file name of at most 15 bytes: after the save the volume is healthy, the file readable, and its bytes load to the same table if and only if that has clean entries, distinct keys and at most 1024 bytes of text |
| `Configs.SaveThenLoad` | kernel/config/config.c:180-249 | saving in place on a healthy volume and loading in place: unless the device fails, the table is back under the same condition |
| `Configs.Config.CopyText` | kernel/config/config.c:30-40 | the bounded copy loop keeps what fits before the zero byte |
| `Configs.Config.ResetDefaults` | kernel/config/config.c:64-75 | the table of defaults whatever was there |
| `Configs.Config.SetValue` | kernel/config/config.c:87-106 | the specified table and return code |
| `Configs.Config.GetValue` | kernel/config/config.c:108-122 | the value cut to the caller's buffer, or -1 |
| `Configs.Config.Serialise` | kernel/config/config.c:219-246 | the buffer holds the table's text cut at 1023 bytes, or one line feed |
| `Configs.Config.Save` | kernel/config/config.c:219-249 | that text is what the file system is asked to write |
| `Configs.Config.NextLineAt` | kernel/config/config.c:154-178 | the line reader in place |
| `Configs.Config.Load` | kernel/config/config.c:180-217 | the table is the defaults, or the loaded file when it can be read |
| `EditorText.Insert` | kernel/editor/editor.c:149-167 | inserting keeps the cursor in range |
| `EditorText.Delete` | kernel/editor/editor.c:178-192 | deleting keeps the cursor in range |
| `EditorText.DeleteUndoesInsert` | kernel/editor/editor.c:149-192 | deleting right after inserting restores buffer and cursor |
| `EditorText.DeleteUndoesAppend` | kernel/editor/editor.c:169-192 | appending puts the clipped line last; deleting it restores the lines |
| `EditorText.InsertedAt` | kernel/editor/editor.c:149-167 | the inserted text, cut at 63 characters, stands on the cursor's line, and that line and those below are one further down |
| `EditorText.DeletedAt` | kernel/editor/editor.c:178-192 | the cursor's line is gone and those below are one further up; the cursor moves only from the last line |
| `EditorText.RoundTripIffNonempty` | kernel/editor/editor.c:95-132 | saving and loading restores every clean buffer of up to 32 lines of 63 characters if and only if it has a line |
| `EditorFormat.SavedText` | kernel/editor/editor.c:194-209 | each line is saved with a line feed behind it, the empty buffer as one line feed |
| `EditorFormat.LoadedRows` | kernel/editor/editor.c:106-129 | any text of lines opens as its first 32 lines, each cut at 63 characters, whether or not a line feed ends it |
| `EditorFormat.ReturnsVanish` | kernel/editor/editor.c:108-110 | carriage returns anywhere in the file make no difference |
| `EditorRuns.CursorMoves` | kernel/editor/editor.c:241-248 | next and previous move by one line, as far as there is one, and undo each other away from the ends |
| `EditorRuns.WalkDown` | kernel/editor/editor.c:241-244 | k times next goes k lines down or to the last line |
| `EditorRuns.WalkUp` | kernel/editor/editor.c:245-248 | k times previous goes k lines up or to the first line |
| `EditorRuns.LoadedIsClean` | kernel/editor/editor.c:95-132 | whatever the file holds, the lines loaded are clean |
| `EditorRuns.EditKeepsClean` | kernel/editor/editor.c:237-281 | and every command with text from the prompt keeps them so |
| `EditorRuns.AnySessionSurvives` | kernel/editor/editor.c:220-282 | after any file and any commands, saving and loading restores the lines if and only if there is one |
| `Editors.LinesSurvive` | kernel/editor/editor.c:95-218 | the same through the file system |
| `Editors.SaveThenReopen` | kernel/editor/editor.c:95-218 | saving in place on a healthy volume and opening the file in a new editor: unless the device fails, the lines are back if and only if there are any |
| `Editors.EditThenReopen` | kernel/editor/editor.c:220-282 | the same in place: open, any commands, save and open again on a healthy volume |
| `Editors.Editor.Command` | kernel/editor/editor.c:237-281 | next and previous move the cursor by one line, as far as there is one, and leave the lines; delete, insert and append do what is specified |
| `Editors.Editor.InsertLine` | kernel/editor/editor.c:149-167 | the shifting loop and the bounded copy insert one line |
| `Editors.Editor.AppendText` | kernel/editor/editor.c:169-176 | appending as insertion behind the last line |
| `Editors.Editor.DeleteLine` | kernel/editor/editor.c:178-192 | the shifting loop deletes the cursor's line and moves the cursor back from the end |
| `Editors.Editor.Serialise` | kernel/editor/editor.c:194-209 | the buffer holds the lines' text cut at 2047 bytes |
| `Editors.Editor.Save` | kernel/editor/editor.c:194-218 | that text is what the file system is asked to write |
| `Editors.Editor.SplitInto` | kernel/editor/editor.c:106-130 | the byte loop leaves the lines of the specification |
| `Editors.Editor.Load` | kernel/editor/editor.c:95-132 | the lines of the file, or the empty buffer when it cannot be read |
| `CalcGrammar.TruncDiv` | kernel/calc/calc.c:53-64 | the quotient that truncates toward zero, as C divides |
| `CalcTheorems.EvaluateShow` | kernel/calc/calc.c:172-191 | any text of a derivation, with any spaces, evaluates to the tree's value or error |
| `CalcTheorems.EvaluateIffGrammar` | kernel/calc/calc.c:18-191 | a value is returned if and only if the whole string derives from the grammar with that value, without zero divisors and within 64 bits |
| `CalcTheorems.PrintingKeepsValue` | kernel/calc/calc.c:74-170 | printing a tree with only the parentheses precedence requires keeps its value |
| `CalcTheorems.PrintThenEvaluate` | kernel/calc/calc.c:74-191 | printing any tree, with any spacing, and evaluating the text gives the tree's value or error |
| `CalcTheorems.Print` | kernel/calc/calc.c:74-170 | every tree has such a printing |
| `CalcMeaning.DecimalIsPositional` | kernel/calc/calc.c:18-40 | the value of a numeral: each digit counts ten times as much as it would one place further right |
| `CalcMeaning.NumeralIs` | kernel/calc/calc.c:93-110 | a numeral with an optional sign and any spaces evaluates to the number written |
| `CalcMeaning.SumIs` | kernel/calc/calc.c:44-46 | the text of `a + b` evaluates to the sum if and only if that fits 64 bits |
| `CalcMeaning.DifferenceIs` | kernel/calc/calc.c:47-49 | the text of `a - b` to the difference under the same condition |
| `CalcMeaning.ProductIs` | kernel/calc/calc.c:50-52 | the text of `a * b` to the product under the same condition |
| `CalcMeaning.QuotientAndRemainderAre` | kernel/calc/calc.c:53-64 | the texts of `a / b` and `a % b` evaluate to the q and r with a = q*b + r, r smaller than b in size and zero or of the sign of a; both fail exactly for a zero divisor |
| `CalcMeaning.ProductBeforeSum` | kernel/calc/calc.c:112-170 | `a + b * c` is a plus the product, when both results fit 64 bits |
| `CalcMeaning.ProductBeforeDifference` | kernel/calc/calc.c:112-170 | `a - b * c` is a minus the product, when both results fit 64 bits |
| `CalcMeaning.SumAfterProduct` | kernel/calc/calc.c:112-170 | `a * b + c` is the product plus c, when both results fit 64 bits |
| `CalcMeaning.DifferencesFromTheLeft` | kernel/calc/calc.c:142-170 | `a - b - c` is computed from the left, when both results fit 64 bits |
| `CalcMeaning.ParenthesesFirst` | kernel/calc/calc.c:74-91 | `(a + b) * c` is the sum times c, when both results fit 64 bits |
| `Calc.ParseNumberAt` | kernel/calc/calc.c:18-40 | the digit loop in 64-bit integers follows the specified parser |
| `Calc.ApplyOp` | kernel/calc/calc.c:42-68 | sum, difference, product, and quotient and remainder toward zero of the two numbers; -1 exactly for a zero divisor or an unknown operator |
| `Calc.ParseFactorAt` | kernel/calc/calc.c:74-110 | the factor parser, terminating by remaining input and rank |
| `Calc.ParseTermAt` | kernel/calc/calc.c:112-140 | the term loop follows the specified parser |
| `Calc.ParseExprAt` | kernel/calc/calc.c:142-170 | the expression loop follows the specified parser |
| `Calc.CalcEvaluate` | kernel/calc/calc.c:172-191 | result and value of the specified evaluation, whose values `CalcMeaning` states in arithmetic |
| `SchedulerTheorems.RunnableTick` | scheduler/scheduler.c:82-99 | with all tasks runnable a tick charges the task that owns the current place of the period and moves one place on |
| `SchedulerTheorems.FairOverOnePeriod` | scheduler/scheduler.c:82-99 | any S = sum-of-slices consecutive ticks charge each task exactly its slice and bring cursor and progress back |
| `SchedulerTheorems.FairOverAnyWindow` | scheduler/scheduler.c:82-99 | any n ticks charge a task between floor(n/S) and floor(n/S)+1 times its slice |
| `SchedulerTheorems.TickBringsCloser` | scheduler/scheduler.c:33-45 | a tick that charges another task shortens the wait of a runnable one |
| `SchedulerTheorems.BoundedWaiting` | scheduler/scheduler.c:82-99 | however tasks block, wake and register between ticks, a task kept runnable at the ticks is charged before more ticks have gone to others than its wait and the slices registered on the way |
| `SchedulerTheorems.ChargedWithinOthersSlices` | scheduler/scheduler.c:82-99 | which is within the sum of all other tasks' slices, new ones included, plus one ticks |
| `SchedulerTheorems.TicksAreConserved` | scheduler/scheduler.c:82-99 | over any run of ticks, registrations and blockings, total ticks grow by charged plus idle ticks |
| `SchedulerModel.CountIsCardinality` | scheduler/scheduler.c:23-31 | the count is the number of places with a runnable task |
| `SchedulerModel.NextRunnableFinds` | scheduler/scheduler.c:33-45 | the scan stops at the runnable task that is nearest behind the cursor, going round |
| `SchedulerInterleaving.RegistrationIsAtomic` | scheduler/scheduler.c:63-80 | ticks fired between any two stores of a registration behave as if it happened at once at the publishing store |
| `Schedulers.Scheduler.RunnableCountNow` | scheduler/scheduler.c:23-31 | the number of runnable tasks |
| `Schedulers.Scheduler.AdvanceToNextRunnable` | scheduler/scheduler.c:33-45 | the scan for the next runnable task, progress reset |
| `Schedulers.Scheduler.RegisterTask` | scheduler/scheduler.c:63-80 | -1 and nothing changed when eight tasks exist; otherwise a runnable task with the next number, the name, no ticks and a slice of at least one at the end, all else unchanged |
| `Schedulers.Scheduler.OnTimerTick` | scheduler/scheduler.c:82-99 | the specified tick |
| `Schedulers.Scheduler.CopyTasks` | scheduler/scheduler.c:112-122 | the first tasks up to the limit |
| `KeyboardModel.PushAppends` | drivers/keyboard/keyboard.c:39-46 | a push appends to the queue unless 127 characters wait, then it changes nothing |
| `KeyboardModel.AdvanceDrops` | drivers/keyboard/keyboard.c:82-84 | advancing the tail removes the oldest character |
| `KeyboardModel.InterruptKeepsFifo` | drivers/keyboard/keyboard.c:48-70 | the handler may run between any two steps of the reader; its character is taken in exactly when fewer than 127 are undelivered |
| `KeyboardModel.StoreKeepsFifo` | drivers/keyboard/keyboard.c:82-84 | the reader's last store delivers exactly the oldest character |
| `KeyboardModel.ReadKeepsFifo` | drivers/keyboard/keyboard.c:77-83 | the reader's other steps deliver nothing and what they hold stays the oldest character |
| `KeyboardModel.EventRefinesQueue` | drivers/keyboard/keyboard.c:39-85 | each event of an interleaving is an event of a bounded queue |
| `KeyboardModel.RunRefinesQueue` | drivers/keyboard/keyboard.c:39-85 | and so is every run |
| `KeyboardModel.NothingLostOrDoubled` | drivers/keyboard/keyboard.c:39-85 | over any interleaving from an empty ring, accepted characters are the delivered ones followed by the buffered ones |
| `KeyboardModel.EmptyAnswerIsTrue` | drivers/keyboard/keyboard.c:78-80 | over any interleaving up to an idle reader, and any characters typed while it reads: it answers -1 if and only if the ring was empty when it read the head |
| `KeyboardModel.ShiftAfterIsHeld` | drivers/keyboard/keyboard.c:55-59 | shift counts as down if and only if a shift key was pressed and none pressed or released since |
| `KeyboardModel.TypesFromTable` | drivers/keyboard/keyboard.c:55-67 | what any scancode types after any history, from the two tables |
| `KeyboardModel.ShiftCapitalises` | drivers/keyboard/keyboard.c:25-37 | shift turns exactly the lower-case letters of the layout into capitals, each into its own |
| `KeyboardModel.KeyA` | drivers/keyboard/keyboard.c:25-67 | the key A alone, behind a pressed shift key, and behind a released one |
| `Keyboards.Keyboard.BufferPush` | drivers/keyboard/keyboard.c:39-46 | the push in place |
| `Keyboards.Keyboard.HandleInterrupt` | drivers/keyboard/keyboard.c:48-70 | a make code queues its character of the plain table, or of the shifted one while a shift key is held, if there is one and room for it; anything else leaves the queue |
| `Keyboards.Keyboard.GetChar` | drivers/keyboard/keyboard.c:77-85 | without an interrupt inside, the oldest character leaves the queue, or -1 on an empty one |
| `TextPage.TextFlows` | drivers/vga/vga.c:95-127 | after a clear, a text without carriage returns and backspaces fills the page with its cells, line ends padded, then blanks, the cursor right behind |
| `TextPage.LineFlows` | drivers/vga/vga.c:95-120 | a line of n characters takes floor(n/80)+1 rows, so 80 characters and a line feed leave an empty row; the low bytes of its cells are the characters, the high bytes the colour |
| `TextPage.ScrolledRowsStay` | drivers/vga/vga.c:65-75 | rows above the window never change again |
| `TextPage.BackspaceUndoes` | drivers/vga/vga.c:101-119 | a backspace restores the page exactly if the character was typed before the last column over a blank |
| `TextPage.WriteEffect` | drivers/vga/vga.c:44-127 | cell by cell, what a character does to screen and cursor: character in the low byte, colour in the high byte, wrapping, scrolling, line feed, carriage return and backspace |
| `Screens.Screen.Scroll` | drivers/vga/vga.c:65-75 | 24 rows move up by one; every cell of the last row is a space in the current colour |
| `Screens.Screen.Clear` | drivers/vga/vga.c:86-93 | 2000 cells with a space in the low and the colour in the high byte, cursor at the origin |
| `Screens.Screen.PutChar` | drivers/vga/vga.c:95-127 | the effect of `TextPage.WriteEffect` on buffer and cursor, which stay the last 25 rows of the page that receives the same character |
| `Screens.Screen.SetCursor` | drivers/vga/vga.c:129-141 | positions are clamped to the window |
| `Screens.Screen.SetColor` | drivers/vga/vga.c:82-84 | background in the high, foreground in the low half of the attribute |
| `Screens.Screen.PutString` | kernel/lib/kio.c:75-80 | a whole string leaves the last 25 rows of its page on the screen |
| `Paging.TranslateIsExpected` | memory/vmm.c:40-92 | the 4-level walk is the supervisor-only identity below 1 GiB, sends each user page to its frame with the user bit at every level, and faults elsewhere |
| `PagingRuns.GivenIsLast` | memory/vmm.c:90-91 | a user page is mapped to the frame of the last successful call for it, and to none if there was none |
| `PagingRuns.StoresMap` | memory/vmm.c:82-90 | the stores of a successful call keep the tables laid out, for one page more |
| `PagingRuns.AcceptableAddresses` | memory/vmm.c:61-80 | the canonical addresses a call succeeds for are the aligned ones of one GiB from 2^39 on |
| `PagingRuns.SuccessMapsPage` | memory/vmm.c:60-92 | after a successful call every byte of the page translates as asked if and only if the address is canonical and the frame has at most 52 bits |
| `PagingRuns.UnsoundCallsSucceed` | memory/vmm.c:60-80 | a call for a non-canonical address, and one for a frame of 53 bits, succeed |
| `PagingRuns.IdentityAnswer` | memory/vmm.c:99-106 | the computation of the identity translation returns the address itself |
| `VirtualMemories.VirtualMemory.FillIdentity` | memory/vmm.c:51-55 | the loop fills all 512 large-page entries |
| `VirtualMemories.VirtualMemory.Init` | memory/vmm.c:40-58 | the tables are laid out with no user page |
| `VirtualMemories.VirtualMemory.MapUser2M` | memory/vmm.c:60-92 | 0 exactly for acceptable arguments; the tables are those of all calls so far |
| `VirtualMemories.VirtualMemory.TranslateIdentity` | memory/vmm.c:94-107 | below 1 GiB the processor's own translation, 0 above |
| `Checksum.OnesSumIs` | kernel/net/ipv4.c:92-107 | the end-around-carry sum of section 2 of RFC 1071 is the exact sum reduced modulo 65535, zero only for zero |
| `Checksum.SumWords` | kernel/net/ipv4.c:93-102 | the loop computes the sum of the words modulo 2^32, an odd last byte padded |
| `Checksum.FoldCarries` | kernel/net/ipv4.c:103-105 | the folding loop ends with the reduced sum |
| `Checksum.Ipv4Checksum` | kernel/net/ipv4.c:92-107 | the complement of the reduced 32-bit sum; the Internet checksum for up to 131,074 bytes |
| `Checksum.ChecksumIsRfc1071` | kernel/net/ipv4.c:92-107 | for every 32-bit length it is the Internet checksum if and only if the sum of the words fits 32 bits |
| `Checksum.ShortDataFits` | kernel/net/ipv4.c:92-107 | which holds for all data of at most 131,074 bytes |
| `Checksum.BoundIsTight` | kernel/net/ipv4.c:92-107 | and for data of all ones for no more |
| `Checksum.SealedSumsToZero` | kernel/net/udp.c:119-124 | a packet whose zeroed word at an even offset receives the checksum sums to zero |
| `Checksum.OneWordChangeShows` | kernel/net/ipv4.c:92-107 | a change of one word is noticed unless all zeros become all ones or the reverse |
| `Packets.DatagramReadsBack` | kernel/net/udp.c:111-124 | source and destination port, length and payload read back from the bytes, high byte first, and its checksum is zero |
| `Packets.Seal` | kernel/net/udp.c:122-124 | the checksum is stored high byte first |
| `Packets.Udp.Build` | kernel/net/udp.c:111-124 | the byte stores and the copy build the datagram |
| `Packets.Udp.Send` | kernel/net/udp.c:95-132 | success exactly for a socket in use, data of at most 1472 bytes and an accepting IPv4 layer; which packet it is handed, and which counter each outcome moves |
| `Packets.EchoSumsToZero` | kernel/net/icmp.c:24-34 | the eight bytes of the echo request, checksum 0xE5CA included; they sum to zero |
| `Packets.Icmp.Ping` | kernel/net/icmp.c:21-41 | the echo request is handed over and one counter moves |
| `LogText.NumeralReadsBack` | kernel/debug/log.c:99-120 | a numeral in base 10 or 16 reads back to its number and has no leading zero; zero has one digit |
| `LogText.SignedReadsBack` | kernel/debug/log.c:122-131 | signed numerals read back, the most negative 64-bit number included; only negative ones carry a sign |
| `LogText.TwentyDigits` | kernel/debug/log.c:101-116 | the numeral of a 64-bit number has at most 20 digits in either base |
| `LogText.EscapedShowsItself` | kernel/debug/log.c:133-174 | a text with doubled percent signs formats to itself |
| `LogText.OneArgument` | kernel/debug/log.c:147-161 | which type of argument each specifier takes |
| `LogText.DigitsAre` | kernel/debug/log.c:111-113 | the sixteen digits in lower and upper case |
| `LogText.PieceMeans` | kernel/debug/log.c:140-173 | what each specifier shows: the string, a signed decimal numeral or a hexadecimal one in small letters that reads back to the number, the character, the percent sign, or itself if it is none |
| `LogText.TwoArguments` | kernel/debug/log.c:140-173 | arguments are used up in order |
| `Loggers.AppendChar` | kernel/debug/log.c:85-90 | the buffer holds what fits of the text, the position counts all of it |
| `Loggers.CollectDigits` | kernel/debug/log.c:99-115 | the digits of the number, least significant first, in at most 20 of the 32 places |
| `Loggers.AppendUnsigned` | kernel/debug/log.c:99-120 | the numeral is appended |
| `Loggers.AppendSigned` | kernel/debug/log.c:122-131 | the signed numeral is appended |
| `Loggers.AppendString` | kernel/debug/log.c:92-97 | the string is appended |
| `Loggers.FormatMessage` | kernel/debug/log.c:133-182 | the buffer holds the first min(length, size - 1) characters of the whole text and a zero byte, and nothing behind the size changes |
| `LogRing.RingsOneMore` | kernel/debug/log.c:61-83 | storing an entry keeps the last 64 entries in their slots |
| `LogRing.Log.StoreEntry` | kernel/debug/log.c:61-83 | the history gains the entry, its message cut at 127 characters |
| `LogRing.Log.Write` | kernel/debug/log.c:184-190 | entries below the minimum level are ignored |
| `LogRing.Log.WriteFormatted` | kernel/debug/log.c:197-211 | the entry reads the formatted text, cut at 127 characters and at a zero character |
| `LogRing.Log.CopyEntries` | kernel/debug/log.c:213-232 | the last 64 entries oldest first, up to the limit |
| `Bits.MaskClears` | memory/kheap.c:26-28 | masking with the complement of 2^k - 1 clears exactly the low k bits |
| `Bits.AlignUpIsLeast` | memory/kheap.c:26-28 | for every power of two the mask form yields the least multiple not below its argument, short of overflow |
| `Heaps.AllocateStaysSound` | memory/kheap.c:37-52 | an allocation keeps all blocks aligned, inside the heap and pairwise disjoint, with at most 15 bytes lost each |
| `Heaps.AllocatePlace` | memory/kheap.c:37-52 | a granted block has the requested size and starts at the first multiple of 16 from the cursor on; a request is refused exactly if it is empty or would end outside the MiB |
| `Heaps.RunStaysSound` | memory/kheap.c:37-52 | so does every sequence of requests, and no block ever moves |
| `Heaps.CountStaysSmall` | memory/kheap.c:49-51 | there are never more blocks than bytes in the heap |
| `Heaps.DecisionIsExact` | memory/kheap.c:42-47 | the tests on wrapped 64-bit addresses refuse exactly the requests that do not fit |
| `Heaps.Kheap.constructor` | memory/kheap.c:30-35 | an empty heap of one MiB starting on the page boundary at or behind the kernel's end |
| `Heaps.Kheap.Malloc` | memory/kheap.c:37-52 | the block is granted exactly if the request is not empty and fits, and no granted address is zero |
| `Heaps.Kheap.Zalloc` | memory/kheap.c:54-60 | the new block is zeroed and no other byte of the heap changes |

## Left out

- Port input and output, ATA polling, PIC and PIT programming, serial output, assembly and boot code: hardware effects.
- GUI, shell dispatch, services, users, processes, ARP, Ethernet, routing and the IPv4 string functions: registries and user interface.
- `kernel/package/package.c`: it repeats the settings serialiser.
- Null pointer arguments, except the data pointer of `udp_send` and the destination of `log_copy_entries`; file, settings and editor texts are C strings by type.
- `fs_fsck`, `fs_get_info`, and the volume label, file total and present flag of `fs_info` (present always equals mounted).
- Counters and cache after a failed device operation: only the table, the disk and the mount state are specified then.
- `FileSystems.FileSystem.ReadFile`: a read that succeeds must have room for the sectors it transfers; what an overrun destroys is not modelled (`VolumeTheorems.ReadStaysInBuffer` says when there is one).
- `FileSystems.FileSystem.WriteFile`: the data is a byte sequence; aliasing of the caller's buffer is not modelled.
- `VolumeTheorems.CrashAtomic`: a fifteenth file, in slot 14, is lost at the boot even if its write finished; the contract says so. It covers names of at most 15 bytes on volumes with slots 0 to 13 in use; any other healthy volume and any name are in `VolumeHistory.CrashIsBeforeOrAfter`.
- `VolumeFaults.UnnamedFileKeepsBytes`: runs whose block numbers exceed 32 bits are excluded.
- `config_list` and `config_get_stats`; the fixed-size character arrays of a settings entry are modelled as the strings they hold.
- The editor's prompt, command loop and screen output.
- Signed overflow in the calculator, which C leaves undefined: the evaluation then has the outcome Overflow, and the methods require that it does not occur.
- `SchedulerTheorems.BoundedWaiting`: no code in the repository blocks a task, so the events of a run do it between ticks; tick counters are unbounded.
- `Keyboards.Keyboard.GetChar`: runs without interrupts inside; the interleaved form is `KeyboardModel.RunRefinesQueue`.
- The hardware cursor of the VGA controller; the enum values of colours are any bytes.
- `VirtualMemories.VirtualMemory.MapUser2M`: remainders by 2 MiB are written as masks of the low 21 bits; the control register is a parameter of the walk, and `vmm_get_stats` is not modelled.
- UDP sockets are given, not bound; receiving is not part of this model; there is no pseudo-header in the source, so full UDP conformance is not claimed.
- The echo of log messages to the console.
- `Heaps.Kheap.constructor`: the kernel must end at least one MiB and two pages below the top of the address space.
