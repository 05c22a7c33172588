# FatFs R0.10a, modelled and proved

This project models the FAT file system engine of `fatfs/src/ff.c` and proves what its layers promise each other: the
one-sector access window with its mirrored second FAT, the FAT12/16/32 entry codec, the cluster-chain allocator, open
files with their private sector buffer and link map, directories with long names, the open-file lock table, formatting
and mounting, and buffered UTF-8 text.

Code that updates state in place is imperative here too: `Volume.FatFs` is the mounted volume, `FileIO.File` an open
file, `DirWalk.Dir` a directory object, `LockTable.Locks` the lock table, `TextIO.PutBuff` the output buffer,
`Format.Drive` the medium. Their methods are proved against functions on values, and the properties of those functions
are lemmas. The layers, bottom up:

| modules | what they hold |
|---|---|
| `Arith`, `Bytes`, `Results` | products, quotients and masks by a symbolic sector or cluster size; load and store macros; result codes |
| `Fat`, `Window`, `Volume` | geometry, FAT entries on the logical image, the write-back window, the `FatFs` class |
| `Chains`, `Heap` | allocation and release on the FAT map, and all chains of a volume over any run |
| `LinkMap`, `FileData`, `FileState`, `FileGrowth`, `Durable` | the fast-seek table, bytes over sectors, the invariant of an open file, growth and truncation, what the medium alone holds |
| `FileIO`, `FileRun`, `FastRun`, `ManyFiles` | the `File` class, whole runs without and with a link map, and runs that interleave several open files |
| `Lfn`, `ShortName`, `NumName`, `Naming` | long-name slots, short names, numbered aliases, from names to queries |
| `Directory`, `Registry`, `Removal`, `DirTable`, `DirImage`, `DirWalk`, `DirRun`, `DirHistory`, `DirSync` | slot tables, lookup, registration, removal, their place on the medium, the `Dir` class, creating and deleting, any run of both, and f_sync as the directory sees it |
| `LockTable` | the open-file lock table over any run |
| `Mkfs`, `Format`, `FormatRun`, `NewRoot` | the geometry arithmetic of f_mkfs and find_volume, formatting, mounting, the root directory of a new volume |
| `Text`, `TextIO` | UTF-8 text output and line input |

An image is the disk overlaid with the window, outside the second FAT copy. A file's `chain` and `cache` are ghost: the
clusters of the file, and its sectors with the buffered one in place. The sector size (512 to 4096), the cluster size,
the number of FATs, the FAT type and the size of the volume stay symbolic throughout. The configuration modelled is read
and write, private sector buffers, long names with `_MAX_LFN` 255 and code page 936 for the double-byte tests, fast
seek, string functions in the UTF-8 encoding, and `_FS_LOCK` on.

## Findings

Where the code does not do what one would expect of it, the project proves for which inputs.

- *The 256th reader looks like a writer.* `LockTable.OpenAnswers` says that after a permitted open chk_lock locks a
  reader out exactly beside a writer if and only if it was not the 256th reader of the object, and
  `LockTable.WriterBesideReaders` that closing one of the 256 lets a writer in beside the other 255.
- *Removing by alias leaves orphans.* `Removal.RemoveExact` says that dir_remove keeps the directory well formed exactly
  if the object found has no long name or was found by it; `Removal.AliasLeavesOrphan` gives a directory and a name.
- *Names of 255 units cannot be found again, names of 254 and 255 units cannot be read.* `Lfn.CmpIsEquality` and
  `Lfn.RoundTrip` give the exact limits; `Removal.LongestIsLost` shows a stored name that its own query misses.
- *f_mkfs can succeed and leave no cluster.* `FormatRun.DoneThenMount` says that the new volume is refused by the next
  mount exactly if it is FAT12 and the aligned data area is smaller than a cluster; `FormatRun.NoClusterLeft` gives a
  layout and `FormatRun.NoClusterThenRefused` says that no drive formatted like it mounts.
- *f_mkfs can run over the end of the drive.* If the alignment moves the data area behind the volume, the cluster count
  is an unsigned difference that wraps, and FAT12 does not look at it. `FormatRun.DiskErrorIsUnderflow` says that f_mkfs
  ends in a disk error, after it has begun to write, in exactly this case; `FormatRun.AlignedBeyondDrive` gives a drive.
- *find_volume accepts volumes whose geometry is not valid.* `Format.MountedIsValid` and `Format.FoundIsValid` say which
  accepted volumes are valid: the FAT size must not wrap, and on FAT32 there must be two reserved sectors and at most
  0x0FFFFFFF entries. `Format.FsInfoOverFat`, `Format.FatSizeWraps` and `Format.TooManyEntries` give one volume for each
  way to fail.
- *A link map outlives the chain.* `FileGrowth.StaleMap` says that after f_truncate a link map leads to free clusters
  exactly beyond the clusters that are left, and in `FileGrowth.MapLeadsElsewhere` the next new file gets one of them.
  `FileIO.File.FWrite` therefore asks that the map is not longer than the chain or the write stays within the chain
  (`MapFits`).
- *f_getfree keeps a wrong count.* `Chains.ScanIsRight` says that the count a scan leaves in the cache is right exactly
  if, on FAT12, no cluster behind the first entry with the illegal value 1 is free and, on FAT16 and FAT32, neither
  reserved entry is 0. `Chains.ErrorIsForgotten` says that after the error on FAT12 the next call returns the partial
  count without one; `Chains.PartialCount` gives a table.
- *An erase block that is not a power of two need not be aligned to.* `Mkfs.AlignExact` says that the mask finds a
  multiple of the erase block behind every sector exactly if the erase block is a power of two; in
  `Mkfs.SixDoesNotAlign` f_mkfs starts the data area at sector 34 for an erase block of 6.

## Model

| member | source | states |
|---|---|---|
| Bytes.RangeTest | fatfs/src/ff.c:765-766 | the unsigned test `wsect - fatbase < fsize` holds exactly for sectors of the FAT |
| Bytes.WrapTest | fatfs/src/ff.c:2671 | the unsigned test `fptr + btw < fptr` holds exactly when the sum reaches 4 GB |
| Bytes.LoadStoredDword | fatfs/src/ff.h:332-335 | a stored double word reads back modulo 2^32 and no other byte changes |
| Fat.PutThenGet | fatfs/src/ff.c:863-961 | writing any entry and then reading any entry is a map update, for FAT12, FAT16 and FAT32, including neighbours that share a FAT12 byte and entries that straddle two sectors |
| Fat.ReservedBitsKept | fatfs/src/ff.c:946-952 | put_fat of a 28-bit value on FAT32 leaves the four reserved bits of the entry alone |
| Fat.PutFrame | fatfs/src/ff.c:909-961 | put_fat changes no sector outside the first FAT copy |
| Fat.TwoInThree | fatfs/src/ff.c:876-882 | how two FAT12 entries lie in three bytes of the FAT |
| Fat.WholeEntries | fatfs/src/ff.c:884-893 | FAT16 entries are little-endian words, FAT32 entries double words of which 28 bits count |
| Fat.RawScanPosition | fatfs/src/ff.c:3346-3364 | the raw scan of f_getfree looks at exactly the entry that get_fat decodes |
| Fat.SyncedEntryReadsBack | fatfs/src/ff.c:2793-2799 | size and start cluster that f_sync stores in the entry are what f_open loads, on every FAT type |
| Fat.SyncedEntryFrame | fatfs/src/ff.c:2793-2799 | f_sync changes only the attribute, time, cluster and size fields of that one entry |
| Window.FlushKeepsWindow | fatfs/src/ff.c:753-773 | flushing the window changes no logical sector and leaves both FAT copies equal |
| Window.LoadKeepsWindow | fatfs/src/ff.c:779-795 | loading another sector into a clean window changes no logical sector |
| Window.FsInfoReadsBack | fatfs/src/ff.c:815-826 | find_volume accepts the FSINFO sector that sync_fs writes and loads both counts back |
| Window.FsInfoFields | fatfs/src/ff.c:815-826 | every byte of the FSINFO sector: signatures, counts, and zeros elsewhere |
| Volume.FatFs.Mount | fatfs/src/ff.c:2287-2315 | a volume object made from a valid geometry and equal FAT copies satisfies the volume invariant and shows the medium |
| Volume.FatFs.SyncWindow | fatfs/src/ff.c:753-773 | afterwards the window is clean and the disk has the window sector and, for a FAT sector, its mirror |
| Volume.FatFs.MoveWindow | fatfs/src/ff.c:779-795 | the window holds the requested sector, the image is unchanged, and a clean window causes no write |
| Volume.FatFs.GetFat | fatfs/src/ff.c:863-899 | returns the entry of the FAT map, or 1 for a number out of range, and changes nothing |
| Volume.FatFs.PutFat | fatfs/src/ff.c:909-961 | the FAT map is updated at that cluster with the value cut to the entry's width; out of range it fails and changes nothing |
| Volume.FatFs.RemoveChain | fatfs/src/ff.c:972-1016 | on any FAT contents whatsoever it stops and computes `Chains.Remove`, and a correct free count stays correct |
| Volume.FatFs.SearchFree | fatfs/src/ff.c:1034-1058 | the wrap-around loop computes `Chains.Pick` |
| Volume.FatFs.CreateChain | fatfs/src/ff.c:1025-1075 | computes `Chains.Create`; the cluster is the free one next above the end of the chain or, for a new chain, above the last allocation, else the lowest free one, else 0 (`Chains.NextFree`); the allocation hint moves only on success and a correct free count stays correct |
| Volume.FatFs.GetFree | fatfs/src/ff.c:3314-3372 | computes `Chains.GetFree`, and its count becomes the cached one even on an error, which is exactly a FAT12 table with the value 1; a scan that succeeds counts the free clusters exactly if it meets no reserved entry that is 0 |
| Volume.FatFs.CountFat12 | fatfs/src/ff.c:3338-3345 | counts the free clusters below the first entry with the value 1, and fails exactly if there is one |
| Volume.FatFs.CountRaw | fatfs/src/ff.c:3346-3364 | the sector scan counts the zero entries, the two reserved ones included |
| Volume.FatFs.SyncFs | fatfs/src/ff.c:805-834 | flushes the window and writes FSINFO exactly on FAT32 with changed counts |
| Chains.ChainsMeet | fatfs/src/ff.c:972-1075 | two terminated chains that share a cluster have a common end from there on |
| Chains.ChainDistinct | fatfs/src/ff.c:972-1075 | a chain that ends in an end mark visits no cluster twice |
| Chains.PickIsFirstFree | fatfs/src/ff.c:1034-1058 | on a table without the illegal value 1 the search returns 0 exactly if no cluster is free, and otherwise the first free cluster in cyclic order behind the hint |
| Chains.CreateIsNext | fatfs/src/ff.c:1034-1058 | where create_chain finds a cluster, in terms of free clusters alone |
| Chains.CreateAppends | fatfs/src/ff.c:1025-1075 | create_chain on the tail of a chain appends exactly one formerly free cluster and keeps all entries of other allocated clusters |
| Chains.CreateStarts | fatfs/src/ff.c:1025-1075 | create_chain(0) makes a chain of exactly one formerly free cluster |
| Chains.CreateRefused | fatfs/src/ff.c:1025-1075 | stretching is refused exactly if no cluster is free, and then changes nothing |
| Chains.RemoveChainClears | fatfs/src/ff.c:986-1011 | remove_chain on the head of a chain frees exactly that chain |
| Chains.TruncateChain | fatfs/src/ff.c:3406-3413 | marking an end and removing the rest keeps the front of the chain and frees exactly the rest |
| Chains.ScanCountsReserved | fatfs/src/ff.c:3346-3364 | a scan from entry 0 counts the free clusters plus the reserved entries that are 0 |
| Chains.ScanIsRight | fatfs/src/ff.c:3335-3367 | when the count that a scan leaves in the cache is right: on FAT12 exactly if no cluster behind the first illegal entry is free, elsewhere exactly if neither reserved entry is 0 |
| Chains.ErrorIsForgotten | fatfs/src/ff.c:3331-3367 | the call after a failed one returns the partial count with success |
| Chains.PartialCount | fatfs/src/ff.c:3342-3366 | a FAT12 table on which the first call fails and the second one returns a wrong count |
| Heap.StepKeeps | fatfs/src/ff.c:972-1075 | a step on one chain keeps all chains terminated and disjoint and every cluster owned or free |
| Heap.StretchKeeps | fatfs/src/ff.c:1025-1075 | stretching an object appends one free cluster, or nothing happens exactly if none is free |
| Heap.CutKeeps | fatfs/src/ff.c:3402-3413 | cutting an object keeps its front, frees its rest, and leaves every other object |
| Heap.Conservation | fatfs/src/ff.c:972-1075 | free clusters and owned clusters are together all data clusters |
| Heap.RunIsSafe | fatfs/src/ff.c:972-1075 | over any run of creating, stretching and cutting, chains stay terminated, acyclic and disjoint, no cluster is lost, and an object that no step names keeps its chain |
| Heap.CutReturns | fatfs/src/ff.c:3402-3413 | cutting an object to some clusters frees exactly as many as it had beyond them |
| LinkMap.LookupIndexes | fatfs/src/ff.c:1095-1103 | the walk over the table finds the n-th cluster listed, and 0 beyond the end |
| LinkMap.FragmentsListChain | fatfs/src/ff.c:3011-3029 | the fragments list the chain |
| LinkMap.FragmentsAreMaximal | fatfs/src/ff.c:3016-3021 | no two neighbouring fragments could be one |
| FileData.FileSecIs | fatfs/src/ff.c:845-853 | cluster 2 is the first of the data area, and each takes as many sectors as the cluster size says |
| FileData.FileSecInjective | fatfs/src/ff.c:845-853 | no two positions of a file lie in the same sector |
| FileGrowth.StretchesChain | fatfs/src/ff.c:2677-2694 | at the end of the chain exactly one free cluster is appended, or no cluster is free and nothing changes |
| FileGrowth.CutShape | fatfs/src/ff.c:3402-3413 | after a cut the front is the file's chain, exactly the rest is free, and every other entry is kept |
| FileGrowth.TruncateCursor | fatfs/src/ff.c:3399-3413 | truncation at the cursor keeps the cursor's cluster, the bytes before the cursor, and as many clusters as they need |
| FileGrowth.StaleMap | fatfs/src/ff.c:1095-1103 | a link map made before a cut names clusters of the file exactly for the clusters left, and free ones beyond |
| FileGrowth.MapLeadsElsewhere | fatfs/src/ff.c:1095-1103 | a chain with its link map that after a cut leads to the cluster of the next new file |
| Durable.SyncedIsDurable | fatfs/src/ff.c:2781-2803 | with a clean buffer and window and an entry that names the file, the medium alone holds chain and bytes |
| Durable.HeldIsUnique | fatfs/src/ff.c:2526-2527 | the medium holds at most one chain and content at a directory entry |
| FileIO.File.Open | fatfs/src/ff.c:2523-2535 | a file opened on a chain that has the clusters its size needs satisfies the file invariant |
| FileIO.File.ClmtClust | fatfs/src/ff.c:1087-1104 | the loop computes `LinkMap.Lookup` at the offset's cluster |
| FileIO.File.FRead | fatfs/src/ff.c:2548-2639 | delivers exactly the bytes at the cursor, as many as asked for and present, despite the dirty buffer and the transfers past it; it fails only where a link map has ended, and changes no byte of the file or the rest of the volume |
| FileIO.File.ReadDirect | fatfs/src/ff.c:2591-2610 | whole sectors read past a dirty buffer are the file's sectors, the buffered one included |
| FileIO.File.FWrite | fatfs/src/ff.c:2645-2761 | splices exactly the bytes written into the content, keeps cursor, size and cluster count in step, touches nothing else, and stops short only on a full volume, at the end of the link map, or at 4 GB |
| FileIO.File.WriteDirect | fatfs/src/ff.c:2705-2728 | whole sectors written past the buffer are spliced in and the buffer stays equal to its sector |
| FileIO.File.SeekNormal | fatfs/src/ff.c:3061-3137 | moves the cursor to the target, clipped to the size without write access; with it the file is stretched, and falls short only if the volume is full, at the end of the last cluster; bytes already there are kept |
| FileIO.File.SeekFast | fatfs/src/ff.c:3033-3056 | clips to the size and succeeds exactly if the link map lists the cluster; the content is kept |
| FileIO.File.CreateLinkMap | fatfs/src/ff.c:3008-3031 | reports two items a fragment plus two even when the table is too small, and otherwise the table lists exactly the chain |
| FileIO.File.FTruncate | fatfs/src/ff.c:3381-3428 | cuts the content at the cursor and frees exactly the clusters no longer needed; a file that ends at the cursor is left alone |
| FileIO.File.FSync | fatfs/src/ff.c:2770-2808 | afterwards a written file is held by the medium alone, with clean buffer and window; its entry has the archive bit set, the other attribute bits as before, size, start cluster and times as given (`Fat.SyncStores`), and only it and FSINFO change besides |
| FileRun.Run | fatfs/src/ff.c:2548-3428 | over any run of reads, writes, seeks, truncations and syncs the file is a byte array with a cursor (`Step`), short transfers happen only on a full volume or at 4 GB, clusters are conserved, a correct free count stays correct, and the rest of the volume is untouched |
| FileRun.WriteIsExact | fatfs/src/ff.c:2665-2757 | f_write writes everything exactly if the file stays below 4 GB and the clusters can be had |
| FileRun.SeekIsExact | fatfs/src/ff.c:3092-3115 | a seek with write access arrives exactly if the clusters up to the target can be had |
| FileRun.WriteSeekRead | fatfs/src/ff.c:2548-3140 | writing, seeking back and reading returns the data |
| FileRun.SyncIsDurable | fatfs/src/ff.c:2770-2808 | in any run the medium alone holds the file after every f_sync |
| FileRun.ConfinedConserves | fatfs/src/ff.c:2548-3428 | what a run gains for the file in clusters the free ones lose |
| FileRun.ConfinedKeepsHeap | fatfs/src/ff.c:2548-3428 | a run on one object leaves a well-formed volume |
| FileRun.ConfinedKeepsObject | fatfs/src/ff.c:2548-3428 | every other object keeps its chain and its bytes over a run |
| FileRun.RunOnVolume | fatfs/src/ff.c:2548-3428 | after a run the volume is well formed, no cluster has leaked, and the file has exactly the clusters its size needs |
| FastRun.RunMapped | fatfs/src/ff.c:2548-3140 | with a link map of the whole chain no read, write or seek of a run fails, a write stops exactly at the end of the last cluster, and the map stays right |
| FastRun.FastIsNormal | fatfs/src/ff.c:3004-3137 | where no cluster has to be added, an operation with a link map is one without |
| ManyFiles.Run | fatfs/src/ff.c:2548-3140 | over any interleaving of reads, writes, seeks and syncs on several open files of one volume each file is a byte array with a cursor of its own, and the others see nothing of it |
| ManyFiles.GroupFollows | fatfs/src/ff.c:2548-3140 | what a step on one file keeps of every other: chain, bytes, buffer and cursor, with the window off all of them |
| ManyFiles.DirectoryKeepsFile | fatfs/src/ff.c:1115-1722 | a step on a directory leaves an open file as it is |
| DirSync.SyncInDirectory | fatfs/src/ff.c:2788-2803 | f_sync on a file whose entry lies in a directory leaves that directory well formed, with the same names at the same slots: every query is answered as before |
| DirSync.TableIsFile | fatfs/src/ff.c:1115-1153 | a directory is a file of its clusters, or for a static root the sectors from its start on, taken 32 bytes at a time |
| Lfn.FitLfn | fatfs/src/ff.c:1371-1396 | stores all 32 bytes of a part of a name: 13 units, terminator and filler, order with the last-slot flag, checksum |
| Lfn.CmpLfn | fatfs/src/ff.c:1307-1333 | the loop computes `Lfn.Cmp` on any slot |
| Lfn.PickLfn | fatfs/src/ff.c:1338-1366 | the loop computes `Lfn.Pick` on any slot; a rejected slot has put at most its own units at their own places |
| Lfn.CmpIsEquality | fatfs/src/ff.c:1307-1333 | cmp_lfn accepts every slot of a stored name exactly if it equals the query up to case and has fewer than 255 units, whatever lies behind the query's terminator |
| Lfn.RoundTrip | fatfs/src/ff.c:1338-1396 | gathering the slots of a name returns the name, exactly if it has at most 253 units |
| Lfn.LastSlotUnique | fatfs/src/ff.c:1394-1395 | exactly one slot of a name carries the last-slot flag, the one stored first |
| Lfn.SumRotates | fatfs/src/ff.c:1468-1477 | each round of the checksum adds a byte to the sum rotated right by one bit, from 0 on |
| Lfn.SumOfLongfile | fatfs/src/ff.c:1468-1477 | the checksum of the short name LONGFI~1TXT is 0xD4 |
| Lfn.SlotFields | fatfs/src/ff.c:1382-1395 | the fixed fields of a slot, with the part number and the last-slot flag in its first byte |
| Directory.FindIsLookup | fatfs/src/ff.c:1488-1539 | dir_find over the slots of a well-formed directory is lookup by name over its objects |
| Directory.StoredElsewhereIsFound | fatfs/src/ff.c:1515-1526 | a long name stored in front of that short name with this checksum is found |
| Directory.LabelIsPassed | fatfs/src/ff.c:1511-1513 | the search passes over volume labels |
| Directory.ShortIsFound | fatfs/src/ff.c:1511-1528 | an entry of any other attribute is found by its short name |
| Registry.AllocIsFirstRoom | fatfs/src/ff.c:1241-1256 | dir_alloc takes the start of the first long enough run of blank slots and finds one exactly if there is one |
| Registry.StoreRepresents | fatfs/src/ff.c:1643-1671 | storing an object where dir_alloc found room keeps the directory well formed and adds exactly that object |
| Registry.RegisterLookup | fatfs/src/ff.c:1608-1675 | the answer to every query after a registration |
| Registry.RegisteredIsFound | fatfs/src/ff.c:1608-1675 | a name that was missed is found at the new short-name slot, unless it is lossy and has 255 units |
| Registry.RegisterKeepsDirectory | fatfs/src/ff.c:1608-1675 | registration keeps the directory well formed and short names distinct |
| Registry.OthersResolve | fatfs/src/ff.c:1608-1675 | every other live object resolves to the slot it was at |
| Removal.RemoveExact | fatfs/src/ff.c:1686-1722 | dir_remove keeps the directory well formed exactly if the object has no long name or was found by it |
| Removal.RemoveKeepsOthers | fatfs/src/ff.c:1686-1722 | after such a removal every query that another object answered is answered as before |
| Removal.AliasLeavesOrphan | fatfs/src/ff.c:1527-1528 | a directory and a short alias whose removal leaves a long-name slot without an owner |
| Removal.LongestIsLost | fatfs/src/ff.c:1322-1323 | a lossy name of 255 units is not found by its own query |
| DirTable.StepIsAccess | fatfs/src/ff.c:1163-1221 | dir_next from slot n arrives where dir_sdi(n + 1) does, or neither succeeds, on any FAT contents |
| DirTable.SequentialIsRandom | fatfs/src/ff.c:1115-1221 | dir_sdi(0) and k steps of dir_next end where dir_sdi(k) does, for static roots and chained tables |
| DirImage.GrowTable | fatfs/src/ff.c:1191-1205 | stretching a directory adds only zero slots |
| DirImage.WriteSlot | fatfs/src/ff.c:1662-1670 | storing a slot on the medium changes exactly that slot of the table |
| DirWalk.Dir.DirSdi | fatfs/src/ff.c:1115-1153 | stands at the slot, or fails exactly if the table has no such slot |
| DirWalk.Dir.DirNext | fatfs/src/ff.c:1163-1221 | stands at the next slot, or fails at the end of a table that cannot or shall not be stretched; stretching adds zero slots only |
| DirWalk.Dir.ClearCluster | fatfs/src/ff.c:1196-1205 | a new directory cluster is all zero on the medium and nothing else changes |
| DirWalk.Dir.DirFind | fatfs/src/ff.c:1488-1539 | computes `Directory.Find` with its position, and changes nothing; what that is, is said by `Directory.FindIsLookup` and of long names from elsewhere by `Directory.StoredElsewhereIsFound` |
| DirWalk.Dir.DirAlloc | fatfs/src/ff.c:1232-1257 | finds the first room, or there is none and the table cannot grow |
| DirWalk.Dir.PickAlias | fatfs/src/ff.c:1625-1635 | settles on a numbered alias that no object has, or each of the 99 is taken |
| DirWalk.Dir.DirRegister | fatfs/src/ff.c:1608-1675 | stores the object in the first room, short name and long-name slots; it fails only without room or without alias |
| DirWalk.Dir.DirRemove | fatfs/src/ff.c:1686-1722 | deletes exactly the slots from the first long-name slot found to the short-name slot |
| DirRun.Create | fatfs/src/ff.c:2436-2462 | a name created resolves to its new slot, where its short name and case flags are stored and zeros behind them, a name that existed stays, others resolve as before, short names stay distinct, and refusal means no room or no alias |
| DirRun.Delete | fatfs/src/ff.c:1686-1722 | the object that the query finds is gone and all other queries are answered as before, unless it was found by alias, and then the directory is ill formed |
| DirHistory.Perform | fatfs/src/ff.c:1488-1926 | create_name, then creating or deleting in the directory, is a step of such a run; a new name without a long-name entry is printed back, case included, from the slot stored for it, and the parts of one with such an entry lie in front of that slot |
| DirHistory.RunIsTidy | fatfs/src/ff.c:1488-1926 | over any run of creating and deleting ASCII names the directory stays well formed, and no two objects share a short name or a long name that can be found |
| DirHistory.RunKeepsName | fatfs/src/ff.c:1488-1926 | over any such run a name resolves to the slot of its object until a deletion finds that slot |
| DirHistory.CreatedResides | fatfs/src/ff.c:1608-1675 | a name of fewer than 255 units resolves to the slot where it was created |
| DirHistory.DeletedIsGone | fatfs/src/ff.c:1686-1722 | a name that was deleted is not found any more, neither as a long nor as a short name |
| Naming.SegmentIsNamed | fatfs/src/ff.c:1803-1926 | what create_name makes of any ASCII segment is what dir_find and dir_register need |
| Naming.CreatedKeepsNames | fatfs/src/ff.c:1803-1926 | creating any ASCII name leaves every object stored under another ASCII name where it was |
| NumName.GenNumname | fatfs/src/ff.c:1409-1457 | the loops compute `NumName.Numbered`: kept body, tilde, number or hash in hexadecimal, extension |
| NumName.NumberedPlain | fatfs/src/ff.c:1409-1457 | the first five aliases of an ASCII body: at most six characters of it up to its first space, a tilde, the number, spaces, the extension |
| NumName.KeptMeans | fatfs/src/ff.c:1448-1453 | which part of a body is kept: whole characters, single or double-byte, up to a space or the suffix |
| NumName.DigitsMean | fatfs/src/ff.c:1438-1445 | the suffix is the number in base 16, without leading zeros |
| NumName.HashBitMeans | fatfs/src/ff.c:1428-1432 | a bit shifted out at the top inverts bits 12, 5 and 0 of the register |
| NumName.HashShifts | fatfs/src/ff.c:1426-1433 | units go into the hash in their order, 16 bits each, the lowest first |
| NumName.AliasesDiffer | fatfs/src/ff.c:1409-1457 | different numbers give different aliases |
| NumName.HashNameInjective | fatfs/src/ff.c:1422-1435 | for one name, different collision counts hash to different numbers |
| NumName.TakenNeedsMany | fatfs/src/ff.c:1625-1633 | all 99 aliases can be taken only in a directory of at least 94 objects |
| ShortName.CreateShort | fatfs/src/ff.c:1857-1924 | the loops compute `ShortName.Make` on any ASCII name |
| ShortName.MakeMeans | fatfs/src/ff.c:1857-1924 | the short name is at most eight characters of the body and three of the extension, in capitals, without blanks and dots, with an underscore for what it may not hold; lossy exactly if the name is not of the form 8.3; a long-name entry is asked for exactly if it is lossy or mixes cases within a part; the case flags tell small letters |
| ShortName.CaseDoesNotMatter | fatfs/src/ff.c:1857-1924 | names that differ in case only have the same short name and are lossy alike |
| ShortName.PrintName | fatfs/src/ff.c:1746-1763 | the loop of get_fileinfo computes `ShortName.Print` with the case flags of byte 12 |
| ShortName.PrintsBack | fatfs/src/ff.c:1746-1924 | a name accepted without the long-name flag is printed back with its original case |
| ShortName.FirstPrinted | fatfs/src/ff.c:1749-1755 | the first byte of a short name as printed, 0x05 as 0xE5 |
| LockTable.ChkMeans | fatfs/src/ff.c:642-664 | chk_lock refuses exactly a writer beside anybody and anybody beside a writer, and a new object exactly without a blank row |
| LockTable.OpenAnswers | fatfs/src/ff.c:678-706 | after a permitted open chk_lock locks out readers exactly beside a writer if and only if it was not the 256th reader, and then it locks out writers exactly beside anybody |
| LockTable.CloseAgrees | fatfs/src/ff.c:710-729 | closing a handle keeps the agreement |
| LockTable.ClearAgrees | fatfs/src/ff.c:733-742 | mounting drops a volume's rows along with its handles |
| LockTable.IdsAreStable | fatfs/src/ff.c:678-706 | an open object keeps its row, and so its lock id, while others come and go |
| LockTable.RunIsSafe | fatfs/src/ff.c:642-742 | over any run with fewer than 256 readers an object, the table describes the open files, every stored lock id is that of the object's row, and no object has a writer beside another opener |
| LockTable.WriterBesideReaders | fatfs/src/ff.c:703-721 | after a 256th reader one close admits a writer beside the others |
| LockTable.Locks.ChkLock | fatfs/src/ff.c:642-664 | the loop computes `LockTable.Chk` |
| LockTable.Locks.IncLock | fatfs/src/ff.c:678-706 | the loops compute `LockTable.Inc` |
| LockTable.Locks.DecLock | fatfs/src/ff.c:710-729 | computes `LockTable.Dec`, and refuses an id out of range |
| Mkfs.SubTypeMeans | fatfs/src/ff.c:4036-4038 | the sub-type is the narrowest whose cluster numbers lie below its bad-cluster mark |
| Mkfs.LayoutMeans | fatfs/src/ff.c:4035-4072 | which volumes f_mkfs lays out and where the FAT, the root directory and the gap go, in terms of the least FAT size |
| Mkfs.FirstFatIsLeast | fatfs/src/ff.c:4041-4051 | the FAT has the least number of sectors that hold an entry for each cluster and the two reserved ones |
| Mkfs.BootFields | fatfs/src/ff.c:4114-4137 | the fields of the boot sector at their offsets |
| Mkfs.BootTail32 | fatfs/src/ff.c:4138-4148 | those behind them on FAT32, and zeros |
| Mkfs.BootTail16 | fatfs/src/ff.c:4149-4155 | the same on FAT12 and FAT16 |
| Mkfs.BpbFields | fatfs/src/ff.c:2234-2272 | where the fields of a boot sector are read |
| Mkfs.AcceptExact | fatfs/src/ff.c:2213-2285 | a volume is accepted exactly if its parameters are plausible, it has a cluster, only FAT32 is without a static root directory, and its FAT has an entry for each cluster and the two reserved ones |
| Mkfs.AcceptNeedsRoom | fatfs/src/ff.c:2244-2245 | a volume smaller than its system area is refused |
| Mkfs.PlanFacts | fatfs/src/ff.c:4035-4072 | what f_mkfs has settled when no sum wraps: sub-type, FAT size, cluster count, and an aligned data start for a power of two |
| Mkfs.MountAgrees | fatfs/src/ff.c:4035-4179 | find_volume accepts the boot sector that f_mkfs wrote exactly if a cluster is left, with the same sub-type, cluster count and data start |
| Mkfs.AlignExact | fatfs/src/ff.c:4057-4059 | the mask aligns every data start exactly if the erase block is a power of two |
| Mkfs.SixDoesNotAlign | fatfs/src/ff.c:4057-4067 | a volume that f_mkfs lays out with its data area at sector 34 for an erase block of 6 |
| Format.FormatThenMount | fatfs/src/ff.c:2162-2315 | the same for a whole drive with or without partition table, and FAT32 counts are loaded back |
| Format.CheckMeans | fatfs/src/ff.c:2134-2152 | check_fs looks for the signature and for FAT at either place |
| Format.PartitionTable | fatfs/src/ff.c:2213-2221 | the four partition entries: start sector, 0 for an unused one |
| Format.FirstPartitionMeans | fatfs/src/ff.c:2222-2226 | the search takes the first partition that holds a FAT boot sector |
| Format.FoundWhere | fatfs/src/ff.c:2213-2232 | a volume that is found starts with an accepted FAT boot sector: sector 0, or if that is another boot sector the first partition with one |
| Format.SignedMeans | fatfs/src/ff.c:2299-2301 | the three signatures of an FSINFO sector, byte by byte |
| Format.CountsMean | fatfs/src/ff.c:2290-2312 | the counts are loaded exactly from a signed FSINFO sector at its usual place, and unknown otherwise |
| Format.MbrFields | fatfs/src/ff.c:4096-4107 | the partition entry that f_mkfs writes, with the type by sub-type and size |
| Format.MbrEnd | fatfs/src/ff.c:4102-4104 | its last cylinder, and zeros elsewhere |
| Format.ReservedEntries | fatfs/src/ff.c:4162-4173 | the two reserved entries of a new FAT are the media byte under set bits and all bits set |
| Format.MountedAreas | fatfs/src/ff.c:2238-2285 | where an accepted volume has its FATs, its root directory and its clusters |
| Format.MountedRoot | fatfs/src/ff.c:2234-2282 | what the geometry of a valid mounted volume takes over from its boot sector; the root directory is where the directory functions require it, a static one behind all FAT copies and in front of the data area |
| Format.MountedIsValid | fatfs/src/ff.c:2234-2285 | which accepted volumes have a valid geometry: exactly those whose FAT size does not wrap and that on FAT32 have two reserved sectors and at most 0x0FFFFFFF entries |
| Format.FoundIsValid | fatfs/src/ff.c:2196-2285 | the same of the volume that find_volume finds on a drive |
| Format.FatSizeWraps | fatfs/src/ff.c:2243-2258 | an accepted volume with two FATs whose total size wraps |
| Format.TooManyEntries | fatfs/src/ff.c:2259-2285 | an accepted FAT32 volume with a cluster that 28 bits cannot name |
| Format.FsInfoOverFat | fatfs/src/ff.c:2257-2258 | an accepted FAT32 volume whose FSINFO sector is the first FAT sector |
| Format.NewVolumeIsEmpty | fatfs/src/ff.c:4120-4179 | on a new volume every cluster is free but the FAT32 root's, and the FSINFO count is the number of zero entries |
| FormatRun.FMkfs | fatfs/src/ff.c:3973-4209 | settles the cluster size from the request and the layout from it, aborts without a write exactly if there is no layout, fails exactly on a drive of fewer than 128 sectors or if the layout ends behind the drive, and otherwise has written what `Format.Formatted` says as long as no 32-bit sum wraps |
| FormatRun.ClusterSize | fatfs/src/ff.c:4026-4033 | between 1 and 128 sectors, from the unit asked for or from the table row that the volume size falls into |
| FormatRun.ChosenUnit | fatfs/src/ff.c:4026-4029 | the unit that the table gives for a volume, by its size in bytes |
| FormatRun.DiskErrorIsUnderflow | fatfs/src/ff.c:4057-4194 | the writing runs over the end of the drive exactly if the cluster count has wrapped |
| FormatRun.AlignedBeyondDrive | fatfs/src/ff.c:4057-4073 | such a drive |
| FormatRun.DoneThenMount | fatfs/src/ff.c:4055-4070 | a successful f_mkfs is followed by a refused mount exactly if it left a FAT12 volume without a cluster |
| FormatRun.NoClusterLeft | fatfs/src/ff.c:4055-4069 | such a volume |
| FormatRun.NoClusterThenRefused | fatfs/src/ff.c:4055-4069 | no drive formatted like it mounts |
| FormatRun.NewVolumeMounts | fatfs/src/ff.c:2162-2323 | with a cluster left and fewer than 2^28 entries, what f_mkfs made is found by find_volume and taken by the mount, with the right free count |
| NewRoot.NewRootIsEmpty | fatfs/src/ff.c:4181-4186 | the root directory of that volume, as the directory functions find it, is an empty table of 512 slots, or on FAT32 of one cluster, in which no name is found |
| FormatRun.FindVolume | fatfs/src/ff.c:2134-2315 | the search over the boot sector and four partitions computes `Format.Find`, and reports a disk error exactly if the last sector it looked at could not be read |
| FormatRun.MountVolume | fatfs/src/ff.c:2162-2323 | on a volume with a valid geometry and equal FAT copies it makes a valid volume object with the counts of FSINFO, whose root directory is where the directory functions require it |
| Text.DecodeEncode | fatfs/src/ff.c:4305-4326 | decoding the bytes of one unit gives the unit back |
| Text.EncodeMeans | fatfs/src/ff.c:4377-4428 | the bytes of a unit are those of UTF-8, and LF becomes CR LF in that mode |
| Text.LineRoundTrip | fatfs/src/ff.c:4291-4428 | f_gets on what f_puts wrote returns the line and stops behind it |
| TextIO.PutBuff.PutUnit | fatfs/src/ff.c:4377-4428 | the index stays below 64, and what was flushed and what is buffered together are what was encoded |
| TextIO.FPuts | fatfs/src/ff.c:4459-4478 | the encoding of the string is spliced in at the cursor however the buffer was flushed, and it fails exactly without write access or without room |
| TextIO.FGets | fatfs/src/ff.c:4291-4359 | the loop over f_read computes `Text.Gets` from the cursor on |
| TextIO.PutLineGetLine | fatfs/src/ff.c:4291-4478 | writing a line, seeking back and reading it returns the line, in both line end modes; it succeeds exactly if the line fits |

## Left out

- Disk errors: every transfer of a mounted volume succeeds, so the branches for a failed disk_read, disk_write or
  disk_ioctl of the volume, file and directory functions are not modelled. f_mkfs and find_volume are modelled with a
  medium that ends.
- A FAT with the illegal entry value 1, except in get_fat, create_chain, remove_chain and f_getfree: files and
  directories assume that no entry holds it (`Chains.Sound`), so the code's internal-error branches that follow from it,
  such as an error code stored as a start cluster, do not arise.
- FileIO.File.CreateLinkMap: asks that the end mark of the chain is not the number behind its last cluster
  (`Chains.EndApart`), as holds for end marks above the last cluster number; the code would take it for another cluster.
- FastRun.RunMapped: covers maps of the whole chain of a file that has a cluster. Truncation with a map in place is
  covered by FileGrowth.StaleMap and the contract of FileIO.File.FTruncate, not by a run.
- Volume.FatFs.Mount: asks for equal FAT copies, which find_volume does not compare.
- FormatRun.MountVolume: asks in addition for a valid geometry (`Format.FoundIsValid`); nothing is said about accepted
  volumes without one.
- FileIO.File.FWrite: asks `MapFits`; with a stale link map the code would write into clusters of other objects.
- ManyFiles.Run: leaves out f_truncate, which can leave in the sector buffer a sector of a freed cluster. The code does
  not reload it if the file gets the cluster back, so the bytes there, which f_lseek does not define, could be those from
  before another file used the cluster.
- ManyFiles.DirectoryKeepsFile: asks that the window is off the file after the directory step; the contracts of the
  directory functions do not say where they leave it.
- The masks by `csize - 1` in the file and directory functions appear as remainders; `Arith.MaskIsRem` says that they are
  the same for the powers of two that find_volume admits. Results for other cluster sizes say nothing about the code.
- The number of bytes f_lseek adds to a file is modelled, their values are not: the code does not write them.
- Two open files on one object, a directory run beside open files beyond one step, power loss between writes, reentrancy
  and mount ids: the code promises nothing about the first two outside the lock table, and `validate` and the sync
  objects are not modelled.
- `_FS_TINY`, read-only and non-long-name configurations, `_FS_RPATH` and dot entries.
- create_name for characters outside ASCII and its tests for illegal characters and double-byte characters: the code-page
  tables, ff_convert and ff_wtoupper are not part of this model. ff_wtoupper is any function that maps 0 and only 0 to 0,
  and in `Naming` one that folds ASCII. gen_numname keeps the double-byte test.
- dir_read: the order in which it visits slots is that of dir_find, and gathering a long name is `Lfn.Gather` over
  `Lfn.PickLfn`; its filters by attribute are not modelled.
- DirWalk.Dir.StorePart: fills a slot of its own and copies it into the window, where the code fills the window in place.
- follow_path, f_open's overwrite mode, f_mkdir, f_rename, f_readdir, labels, time stamps, attributes, f_printf and
  f_forward: they combine the operations modelled here or add no new invariant.
- f_mkfs with a partition table prepared by f_fdisk, and find_volume with a fixed partition number.
- DirRun.Delete: is the directory part of f_unlink; its lock, attribute and empty-directory tests and the release of the
  chain, which is `Chains.RemoveChainClears`, are not composed with it.
- DirHistory.RunIsTidy: covers deletions that find an object by its own name; by `Removal.RemoveExact` the directory is
  ill formed after any other.
- ShortName.PrintName: leaves out the conversion of get_fileinfo to Unicode and its double-byte pairs, as create_name is
  modelled on ASCII.
- DirSync.SyncInDirectory: asks that the directory and the file share no cluster, as `Heap.RunIsSafe` says of different
  objects.
- DirRun.Create: names the slot of the new entry; the attribute, time and cluster fields that f_open then stores are not
  part of it.
