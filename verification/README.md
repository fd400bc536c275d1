# Models of the signpost platform software

Dafny models of the parts of the signpost platform where state is most tangled, with proofs of what they promise.

* **The FAT file system** and the log store on it. `Disk` is a drive of 512-byte sectors, any access of which may fail.
  `FatLayout` packs FAT12, FAT16 and FAT32 entries into sectors; `FatTable` and `FatChains` say what allocating and freeing
  mean for the table as a flat array and as a set of disjoint chains. `FatVolume` is the mounted volume with its write-back
  window and cluster allocator. `FileLayout` says which bytes a chain of clusters holds, and `FatFile` is an open file: cursor,
  current cluster, private sector buffer and transfers past it, standing for one byte sequence. `DirEntry` is the directory
  entry and the FSINFO sector. `LongName` writes and reads long file names, `NameSearch` is the search of a directory for a
  name, and `Catalogue` says which file a name means and what creating and deleting files do to that. `LogDir` says what
  becomes of all files of a volume when one entry, file or cluster changes, and `LogStore` keeps named logs that grow until
  they are deleted. `Mkfs`, `BootSector` and `FatMount` are the formatter and the mounter, and `StorageInit` leads from an
  unformatted drive to an empty log store, and from a drive in use to a store with the same logs. The layout follows the
  Microsoft FAT32 File System Specification 1.03, sections "FAT Data Structure", "FAT Type Determination" and "FAT Long
  Directory Entries", with the cluster limits of the code (`signpost/apps/support/fatfs/ff.c:329-331`), which differ from it
  by design.
* **The energy ledger** (`EnergyPolicy`): debits, the split of surplus, the spill loop, usage reports and the two-level use
  counters.
* **The signbus stack** (`SignbusIo`, `SignbusProtocol`): fragmentation, reassembly, wrapping with digest and cipher, framing.
* **Link codecs and the serial port**: `Crc16` (Appendix C.2 of RFC 1662), `ComSlip` (RFC 1055) and `UartConsole`, the kernel
  driver that shares one port among applications.

How to read the contracts: `drive.faults` counts failed accesses of the drive, so "unless an access fails" is `faults ==
old(faults)`, and `drive.unsynced` says that something was written since the drive was last told to keep it.
`Volume.view` is what the file system sees (drive, dirty window laid over it, second FAT blanked); `Volume.Tidy()` says
that the table is well formed, with the chains in `Volume.chains`, and that a free count that was exact still is.
`File.content` is the byte sequence a file stands for, `OnlyFile`/`OnlyMine` that no other file has changed. A run of
operations keeps `Valid()` (and with it `Tidy()`) step by step, so what it says holds over every run. `Logs.files` and
`Logs.logs` are the names and contents of the logs, by the place of their short entry, `Logs.receipts` collects every
successful write to them, and `Logs.Valid()` says that each can still be read back, that the directory is a catalogue of
just these logs (`Catalogued`), and that the chains on the volume are exactly those of the logs and of the directory.
`FoundAs` is what a name means. `Ledger.plain` is one plain counter per reading, and `Ledger.Valid()` bounds how far the
drift between battery and accounts grows by 21 for every update. `Console.Valid()` ties the bytes on the wire to the
slices applications have handed over; `Console.wild` are the applications that have broken the rules.

Where the code has an exit that a well-formed volume can never reach, the model shows that it is not taken.

`dafny verify dfyconfig.toml` checks everything.

## Model

| member | source | states |
|---|---|---|
| FatLayout.PutIsArrayUpdate | signpost/apps/support/fatfs/ff.c:1083-1131 | The packed FAT is a flat array: storing an entry cuts the value to 12, 16 or 28 bits, changes no other entry (not even one sharing a byte, or a sector boundary, with a FAT12 entry), keeps all of FAT32's top four bits and everything outside the FAT |
| FatLayout.LastPutWins | signpost/apps/support/fatfs/ff.c:1083-1131 | After any run of put_fat calls every entry reads as the last value put into it, or as before |
| FatLayout.Neighbour12 | signpost/apps/support/fatfs/ff.c:1099-1105 | A FAT12 store keeps the nibble of the neighbour in the shared byte |
| FatLayout.ThreeBytes12 | signpost/apps/support/fatfs/ff.c:1014-1026 | Two FAT12 entries are the halves of three consecutive bytes, the lowest byte first, wherever sectors end between them |
| FatLayout.EntryWord | signpost/apps/support/fatfs/ff.c:1029-1037 | A FAT16 or FAT32 entry lies in one sector and is the little-endian word there |
| FatTable.SearchComplete | signpost/apps/support/fatfs/ff.c:1402-1413 | create_chain's cyclic search: 0 exactly when no cluster is free, else the first free cluster after the hint in cyclic order; 1 only if an illegal entry comes before |
| FatTable.SearchedUnique | signpost/apps/support/fatfs/ff.c:1402-1413 | What the search may answer is determined by table and hint alone |
| FatTable.FreeFromOnlyFrees | signpost/apps/support/fatfs/ff.c:1289-1343 | On any table, cyclic or cross-linked, remove_chain only zeroes entries, as many as it counts |
| FatTable.FreeFromWalk | signpost/apps/support/fatfs/ff.c:1289-1343 | Whatever the table holds, what is freed are the clusters of one way that follows the links from the first, and it stops only behind an end mark, at a free cluster or one it has freed itself, or with an error at an entry 1 |
| FatTable.FreeFromChain | signpost/apps/support/fatfs/ff.c:1289-1343 | On a proper chain remove_chain frees exactly its clusters and touches no other entry |
| FatTable.ChainUnique | signpost/apps/support/fatfs/ff.c:1003-1065 | A cluster starts at most one proper chain |
| FatVolume.Volume.constructor | signpost/apps/support/fatfs/ff.c:3149-3170 | A volume over a drive whose FAT copies agree starts with a clean window and shows the drive as it is; it is tidy if its table is well formed |
| FatVolume.Volume.SyncedMirror | signpost/apps/support/fatfs/ff.c:885-907 | Once the window is clean the drive holds what the file system shows, and the second FAT equals the first unless an access has failed |
| FatVolume.Volume.SyncWindow | signpost/apps/support/fatfs/ff.c:885-907 | Writing the window back changes nothing the file system shows, whatever fails; on success the window is clean |
| FatVolume.Volume.Reflect | signpost/apps/support/fatfs/ff.c:900-905 | The window sector reaches the second FAT and no other sector |
| FatVolume.Volume.MoveWindow | signpost/apps/support/fatfs/ff.c:914-937 | On success the window is the sector asked for, as shown; on failure nothing shown has changed |
| FatVolume.Volume.GetFat | signpost/apps/support/fatfs/ff.c:1003-1065 | get_fat returns the table's value, 1 for a number that is no cluster, 0xFFFFFFFF only after a failed access |
| FatVolume.Volume.PutFat | signpost/apps/support/fatfs/ff.c:1083-1131 | put_fat updates one entry of the flat table and nothing outside the FAT; a failed access can damage no other entry |
| FatVolume.Volume.FindFree | signpost/apps/support/fatfs/ff.c:1402-1413 | The search loop ends, and answers the first free cluster after the hint in cyclic order |
| FatVolume.Volume.CreateChain | signpost/apps/support/fatfs/ff.c:1353-1429 | create_chain follows a link, answers 1 for a number or link that is none, or takes the next free cluster: no free one lies between it and the cluster to be stretched, or, for a new chain, the last cluster taken if that is one, in wrapping order. Only then do table, free count and last cluster change, by exactly that cluster; a well-formed table stays so, one chain having grown or begun, and an exact free count stays exact |
| FatVolume.Volume.FreeChain | signpost/apps/support/fatfs/ff.c:1298-1330 | The freeing loop ends on every table and does what FreeFrom says; the free count rises by the clusters freed, up to the number there are, and FSINFO is to be written again exactly if it has changed |
| FatVolume.Volume.RemoveChain | signpost/apps/support/fatfs/ff.c:1273-1343 | remove_chain frees from the cluster given, makes the predecessor an end, keeps the free count and rejects numbers that are no clusters; a well-formed table stays so, one chain having been cut |
| FatVolume.Volume.WriteData | signpost/apps/support/fatfs/ff.c:3667 | Data sectors bypass the window and change nothing but themselves |
| FatVolume.Volume.ReadData | signpost/apps/support/fatfs/ff.c:3553 | Data sectors are read as the file system shows them |
| FatVolume.Volume.WriteFsInfo | signpost/apps/support/fatfs/ff.c:956-967 | FSINFO gets free count and last cluster; no other sector changes |
| FatVolume.Volume.SyncFs | signpost/apps/support/fatfs/ff.c:946-977 | sync_fs leaves a clean window and an FSINFO sector that is up to date, and changes nothing else |
| FatVolume.Volume.ClearCluster | signpost/apps/support/fatfs/ff.c:1557-1565 | A new cluster of a directory is filled with zeros, and no other sector changes |
| FatChains.LinkKeepsWellFormed | signpost/apps/support/fatfs/ff.c:1414-1417 | Linking a free cluster behind the end of a chain, or as a new chain, keeps the table well formed |
| FatChains.RemoveKeepsWellFormed | signpost/apps/support/fatfs/ff.c:1289-1343 | Removing the rest of a chain keeps it well formed, all other chains as they were |
| FatChains.EntriesSound | signpost/apps/support/fatfs/ff.c:1003-1065 | In a well-formed table every entry is free, an end mark or a cluster in use, and no two clusters link to the same one |
| FatChains.NoCycles | signpost/apps/support/fatfs/ff.c:1003-1065 | In a well-formed table following links from any cluster ends |
| FatChains.StepKeepsGood | signpost/apps/support/fatfs/ff.c:1273-1429 | One create_chain or remove_chain keeps the table well formed and the free count exact |
| FatChains.RunKeepsGood | signpost/apps/support/fatfs/ff.c:1273-1429 | So does every run of them: chains stay disjoint and acyclic and the free count equals the number of zero entries |
| FatChains.NeverIllegal | signpost/apps/support/fatfs/ff.c:1406-1408 | A well-formed table has no entry with the illegal value 1, so the exits for it are not taken |
| FatChains.ChainsUnique | signpost/apps/support/fatfs/ff.c:1003-1065 | A table determines the chains that account for it |
| FatChains.OthersStay | signpost/apps/support/fatfs/ff.c:1353-1429 | Whoever lets one chain grow by free clusters changes no other chain of the volume |
| FileLayout.FileSectInjective | signpost/apps/support/fatfs/ff.c:985-994 | Different places of a file are different sectors of the drive |
| FileLayout.ClusterBegins | signpost/apps/support/fatfs/ff.c:985-994 | The clusters of a file follow one another in the order of its chain, each from its first sector on |
| FileLayout.HoldsPatch | signpost/apps/support/fatfs/ff.c:3692-3709 | Changing bytes of one sector overwrites the file, read as a byte sequence, exactly there |
| FileLayout.HoldsDirect | signpost/apps/support/fatfs/ff.c:3663-3685 | So does writing a run of whole sectors of a cluster |
| FileLayout.ImagePatched | signpost/apps/support/fatfs/ff.c:3692-3709 | Bytes put into the dirty buffer are bytes of the file, also at the growing edge where the sector was not read |
| FileLayout.ImageRun | signpost/apps/support/fatfs/ff.c:3553-3568 | Sectors read past a dirty buffer, with the buffer laid over them, are the file's bytes |
| FileLayout.FollowOutcome | signpost/apps/support/fatfs/ff.c:1353-1429 | Following or stretching a file's chain keeps its bytes, its start and every other file |
| FileLayout.OnlyFileTrans | signpost/apps/support/fatfs/ff.c:3602-3714 | Changes that touch only one file compose |
| FileLayout.ImageBesides | signpost/apps/support/fatfs/ff.c:3776-3785 | Rewriting a directory sector or FSINFO does not disturb an open file |
| FileLayout.AlignDown | signpost/apps/support/fatfs/ff.c:4079-4081 | The cluster f_lseek resumes from is the one with the byte before the cursor |
| FatFile.File.Open | signpost/apps/support/fatfs/ff.c:3446-3462 | A file object for a directory entry stands for the bytes its chain holds |
| FatFile.File.Flush | signpost/apps/support/fatfs/ff.c:3655-3658 | Writing the buffer back changes nothing the file shows |
| FatFile.File.NextForWrite | signpost/apps/support/fatfs/ff.c:3629-3648 | On a cluster boundary the current cluster becomes the one of the byte at the cursor, stretching the chain if it has ended; full only if no cluster is free |
| FatFile.File.WriteWhole | signpost/apps/support/fatfs/ff.c:3663-3685 | Whole sectors written past the buffer overwrite exactly those bytes, and a buffer that held one of them agrees again |
| FatFile.File.WriteStep | signpost/apps/support/fatfs/ff.c:3626-3710 | One pass of the loop overwrites the file at the cursor with what it consumes, and touches no other file |
| FatFile.File.Write | signpost/apps/support/fatfs/ff.c:3602-3714 | f_write: exactly the bytes reported replace those at the cursor, extending the file at its end; short only if the volume is full or 4 GiB are reached; no other file changes; it fails only after a failed access |
| FatFile.File.ReadWhole | signpost/apps/support/fatfs/ff.c:3553-3568 | Sectors read past a dirty buffer are the file's bytes |
| FatFile.File.Read | signpost/apps/support/fatfs/ff.c:3502-3592 | f_read returns exactly the file's bytes at the cursor, cut at its end |
| FatFile.File.SeekWalk | signpost/apps/support/fatfs/ff.c:4097-4116 | The cluster loop of f_lseek reaches the cluster of the goal, or the end of a chain that cannot be stretched |
| FatFile.File.Resume | signpost/apps/support/fatfs/ff.c:4078-4083 | Resuming from the current cluster starts at a boundary not beyond the goal, at the right cluster of the chain |
| FatFile.File.Seek | signpost/apps/support/fatfs/ff.c:3992-4140 | f_lseek moves to the byte asked for, from the current cluster as from the first; beyond the end it stops, or grows a writable file and keeps its bytes; it fails only after a failed access |
| FatFile.File.SeekEnd | signpost/apps/support/fatfs/ff.c:3463-3482 | f_open for appending puts the cursor at the end with the right cluster and, within a sector, the right buffer |
| FatFile.File.Sync | signpost/apps/support/fatfs/ff.c:3723-3787 | f_sync and f_close: the directory entry gets start, size and time, the buffer is written back, and beside FSINFO no other sector changes |
| FatFile.File.OtherStays | signpost/apps/support/fatfs/ff.c:3602-3714 | Another file open on the volume, with its own dirty buffer, stays valid and keeps its content while this one is read, written or moved in |
| FatFile.File.OtherStaysSynced | signpost/apps/support/fatfs/ff.c:3723-3787 | And while this one is synchronised or closed |
| DirEntry.UpdatedReads | signpost/apps/support/fatfs/ff.c:3778-3783 | The start, size and time f_sync stores are what is read back; the archive flag is set; everything else in the entry, and the other entries, stay |
| DirEntry.StClustReads | signpost/apps/support/fatfs/ff.c:1634-1662 | st_clust and ld_clust are inverse on the FAT type's cluster numbers |
| DirEntry.CreatedReads | signpost/apps/support/fatfs/ff.c:3382-3389 | A created entry has the name, flags and time given and is that of an empty file; no other entry changes |
| DirEntry.EntryFields | signpost/apps/support/fatfs/ff.c:1634-1648 | In which bytes of an entry its size and its start cluster are |
| DirEntry.FsInfoReads | signpost/apps/support/fatfs/ff.c:957-962 | An FSINFO sector carries its signatures and gives back both numbers |
| LogDir.StoredKept | signpost/apps/support/fatfs/ff.c:3602-3714 | A file keeps its bytes while another one is written |
| LogDir.StoreKept | signpost/apps/libsignpost-tock/signpost_storage.c:114-128 | Writing to one log leaves every other log and directory entry as it was |
| LogStore.AppendHonours | signpost/apps/libsignpost-tock/signpost_storage.c:114-131 | Every earlier receipt (offset, bytes) stays true after an append |
| LogDir.AccountedGrown | signpost/apps/libsignpost-tock/signpost_storage.c:114-128 | When a log grows, the chains of the volume still are exactly those of the logs and the directory |
| LogDir.NothingLost | signpost/apps/support/fatfs/ff.c:1353-1429 | Every cluster in use belongs to a log or to the directory |
| LogDir.StoreStretched | signpost/apps/support/fatfs/ff.c:1544-1573 | When the directory takes a cluster, all logs stay, and the cluster's entries are unused |
| LogDir.StoreBesides | signpost/apps/support/fatfs/ff.c:2350-2386 | Writing an entry that is no log's changes no log |
| LogDir.StoreGrown | signpost/apps/support/fatfs/ff.c:2371-2383 | Once the short entry of a new empty log is written behind its long ones there is one log more, and the others are as they were |
| LogDir.StoreFreed | signpost/apps/support/fatfs/ff.c:1289-1343 | Freeing a chain that is no log's changes no log |
| LogDir.AccountedFreed | signpost/apps/support/fatfs/ff.c:4587-4596 | When a log's chain is freed, the chains of the volume are those of the other logs and the directory |
| LogStore.ReceiptReads | signpost/apps/libsignpost-tock/signpost_storage.c:133-155 | Reading where a receipt points gives the bytes written then |
| LogStore.AppendTo | signpost/apps/libsignpost-tock/signpost_storage.c:114-128 | Seek to the end, write and close append the bytes reported to this log, and only to it |
| LogStore.ReadFrom | signpost/apps/libsignpost-tock/signpost_storage.c:141-153 | Seek, read and close return the part of the log asked for and change nothing; they fail only after a failed access |
| LogStore.Logs.constructor | signpost/apps/libsignpost-tock/signpost_storage.c:164-193 | A store over a volume that holds some logs, its directory a catalogue of them |
| LogStore.Logs.DirFind | signpost/apps/support/fatfs/ff.c:2212-2283 | dir_find on the volume: of the files whose long name is alike or whose short name is the one asked for it finds the first in the directory, with the place where its entries begin, or that there is none; it changes nothing and fails only after a failed access |
| LogStore.Logs.Stretch | signpost/apps/support/fatfs/ff.c:1521-1580 | A directory that does not lie in a fixed place gets another cluster of entries that were never used, whatever entries it has left, unless no cluster is free |
| LogStore.Logs.DirAlloc | signpost/apps/support/fatfs/ff.c:1591-1622 | The first run of unused entries that is long enough, the directory growing if there is none; denied exactly if there is none and it cannot grow |
| LogStore.Logs.PickName | signpost/apps/support/fatfs/ff.c:2336-2348 | The short name of a new file: its own, or the first of 99 numbered ones that no file has; denied exactly if all are taken |
| LogStore.Logs.WriteLong | signpost/apps/support/fatfs/ff.c:2353-2365 | The entries of the long name are on the volume, last part first, and no other entry has changed |
| LogStore.Logs.Create | signpost/apps/support/fatfs/ff.c:2294-2386 | A new empty log of the name wanted is in the catalogue, with the short name it gets, and all other logs are as they were; it is denied exactly if no numbered short name is free, or there are not enough unused entries in a row and the directory cannot grow |
| LogStore.Logs.Append | signpost/apps/libsignpost-tock/signpost_storage.c:114-128 | Open, append and close: the log that the name means, or a new one of that name, grows by the bytes reported, at the offset reported, and no other; without a failed access it fails exactly if the log is not there and cannot be created |
| LogStore.Logs.Delete | signpost/apps/support/fatfs/ff.c:4516-4602 | f_unlink: exactly the entries of the log that the name means are marked as deleted and exactly its clusters freed; its receipts are forgotten, and every other log keeps name, bytes and receipts; it fails without a failed access only if the name means no log |
| LogStore.Logs.WriteData | signpost/apps/libsignpost-tock/signpost_storage.c:67-131 | storage_write_data: names with a slash or without terminator are rejected with nothing changed; otherwise the log that the whole name up to its terminator means, or a new one that it means from then on, and no other, grows by the bytes reported at the offset reported, its entry has the time, a receipt is kept, and all is on the drive; without a failed access it fails exactly if create_name refuses that name, or it means no log and no log of that name can be created |
| LogStore.Logs.ReadData | signpost/apps/libsignpost-tock/signpost_storage.c:133-155 | storage_read_data returns what the log that the whole name up to its terminator means holds at that offset; what any earlier successful write to it put there is read back, whatever was written, created or deleted since; without a failed access it fails only if that name is refused or means no log |
| LogStore.Logs.DelData | signpost/apps/libsignpost-tock/signpost_storage.c:157-162 | storage_del_data: the log that the whole name up to its terminator means, its receipts, its entries and its clusters go, and nothing else; all is on the drive; without a failed access it fails only if that name is refused or means no log |
| LogStore.Logs.NoLeak | signpost/apps/support/fatfs/ff.c:1353-1429 | A cluster is in use exactly if a log or the directory has it, and the free count is exact if it was when mounting |
| Mkfs.AutoSize | signpost/apps/support/fatfs/ff.c:5549 | The automatic cluster size doubles for every limit of the table the volume reaches |
| Mkfs.Judged | signpost/apps/support/fatfs/ff.c:5547-5590 | A plan that passes the checks has a FAT large enough for every cluster and sums that fit, also where the FAT size wrapped around in 32 bits |
| Mkfs.JustLarge | signpost/apps/support/fatfs/ff.c:5547-5575 | The FAT has room for every cluster and the two reserved entries, and not a sector more |
| Mkfs.SoundGeometry | signpost/apps/support/fatfs/ff.c:5576-5590 | Such a plan is a proper geometry whose last cluster ends on the drive |
| Mkfs.Choose | signpost/apps/support/fatfs/ff.c:5543-5612 | The retry loop ends; its result is sound, of an allowed type, and of the cluster size asked for, or of the automatic one, doubled or halved once if the first pass came to a wrong number of clusters; FAT32 in place of FAT16 only if FAT16 had too many; it gives up only if none of the passes it may make succeeds, and never with both types allowed and the cluster size open |
| BootSector.MakeVbr | signpost/apps/support/fatfs/ff.c:5617-5648 | The boot sector written says, byte by byte, what the mounter reads, and is taken for a FAT boot sector |
| BootSector.BootKindMeans | signpost/apps/support/fatfs/ff.c:2969-2986 | What makes a sector a FAT boot sector: the signature at its end, a jump in front, and the name of the file system in one of two places |
| BootSector.MakeMbr | signpost/apps/support/fatfs/ff.c:5719-5734 | The master boot record is no FAT boot sector and names one partition: its kind, place and size, and its ends by cylinder, head and sector |
| FatMount.Fill | signpost/apps/support/fatfs/ff.c:5680-5699 | The filling loops write the first sector and blank ones, as many as asked, with any buffer size |
| FatMount.WriteVolume | signpost/apps/support/fatfs/ff.c:5617-5735 | The drive is formatted to the plan |
| FatMount.Format | signpost/apps/support/fatfs/ff.c:5292-5735 | f_mkfs: on success the drive is formatted to a sound plan, boot sector, FSINFO and their copies, partition table, FATs and root directory, and everything written back; errors before that leave the drive alone; the default format succeeds on every drive of enough sectors unless an access fails |
| FatMount.FindBoot | signpost/apps/support/fatfs/ff.c:3051-3064 | The search finds the boot sector in sector 0, or that of the first partition that has one, and fails without a failed access exactly if there is none |
| FatMount.ReadParams | signpost/apps/support/fatfs/ff.c:3118-3165 | Exactly the boot sectors whose numbers are acceptable and consistent are accepted, and what is recovered are the layout and type those numbers mean in 32-bit arithmetic; from one that describes a sound plan exactly its geometry |
| FatMount.FindVolume | signpost/apps/support/fatfs/ff.c:2995-3208 | Without a failed access it succeeds exactly if the first boot sector there is describes a volume, whichever software has written it, and answers the layout meant, with the free count and last cluster of FSINFO if that has its signatures; so every drive with the boot sector and partition table of a volume f_mkfs has formatted, whatever has been stored on it since, is accepted with the plan's layout |
| FatMount.FreshEntry | signpost/apps/support/fatfs/ff.c:5668-5678 | In a fresh FAT the first two entries have the kind of medium and all bits set, and every other one is free but that of FAT32's root directory |
| FatMount.FreshTable | signpost/apps/support/fatfs/ff.c:5650-5685 | A fresh FAT is well formed and has as many free clusters as FSINFO says |
| FatMount.Mount | signpost/apps/support/fatfs/ff.c:3152-3208 | The mounted volume is valid and shows the drive; a table that is well formed is tidy, and an exact FAT32 free count known to be so |
| StorageInit.RootSlot | signpost/apps/support/fatfs/ff.c:5687-5693 | Every entry of a freshly formatted root directory is blank and clear of FAT, FSINFO and file data |
| StorageInit.FreshStore | signpost/apps/libsignpost-tock/signpost_storage.c:174-190 | A freshly formatted and mounted volume is a log store without logs, all of its root entries unused |
| StorageInit.NewStore | signpost/apps/libsignpost-tock/signpost_storage.c:174-190 | The store over a volume just formatted is valid and has no logs; its entries are those of the root directory, all blank |
| StorageInit.FormatAndMount | signpost/apps/libsignpost-tock/signpost_storage.c:174-190 | On a drive without a file system setting up ends in a valid, empty log store over a well-formed FAT with an exact free count, and the drive is formatted to a plan, unless an access fails or the drive has fewer than 191 sectors |
| StorageInit.Restart | signpost/apps/libsignpost-tock/signpost_storage.c:164-172 | A store over a drive that was in use before, whose last store had written everything back, has the same logs under the same names, and honours the same receipts; only a failed access prevents it |
| LongName.PutLfn | signpost/apps/support/fatfs/ff.c:1753-1778 | put_lfn writes the name's part, terminator, filler, order, end mark and checksum |
| LongName.PickLfn | signpost/apps/support/fatfs/ff.c:1715-1744 | pick_lfn puts the part in its place and leaves the rest of the buffer; it fails exactly if the start cluster is not zero, units follow the end or the part does not fit, as with the last entry of a name of 254 or 255 units |
| LongName.SumSfn | signpost/apps/support/fatfs/ff.c:1850-1861 | The checksum loop computes SumOf of the eleven bytes |
| LongName.SumByBytes | signpost/apps/support/fatfs/ff.c:1850-1861 | The register starts at zero, and each byte is added modulo 256 to what was there, rotated right by one bit |
| LongName.ChecksumSeesOneByte | signpost/apps/support/fatfs/ff.c:1850-1861 | Short names that differ in one byte have different checksums |
| LongName.DirRead | signpost/apps/support/fatfs/ff.c:2133-2200 | dir_read stops at the first short entry or the end of the directory, and ties a long name to the short entry exactly if the entries right in front of it are those of one name, numbered without a gap, with its checksum, all of which can be picked up; then the buffer has the units of all of them |
| LongName.StoredIsRead | signpost/apps/support/fatfs/ff.c:2133-2200 | A stored name belongs to its short entry in that sense exactly if it has at most 253 units and the checksum fits |
| LongName.Register | signpost/apps/support/fatfs/ff.c:2350-2386 | The name's entries, last part first, and the short entry; no other entry changes |
| LongName.RoundTrip | signpost/apps/support/fatfs/ff.c:1715-1778 | A registered name is read back exactly if it has at most 253 units |
| NameSearch.CmpLfn | signpost/apps/support/fatfs/ff.c:1679-1707 | cmp_lfn says whether the units of an entry are those of the name in the buffer but for case, filler behind its end, and whether both end where the last entry says so |
| LongName.NameComplete | signpost/apps/support/fatfs/ff.c:2249-2280 | For dir_find as for dir_read: the count has come down to zero with the checksum of the short entry exactly if the entries right in front of it are those of one long name, numbered without a gap, that all match and belong to it |
| NameSearch.FindStep | signpost/apps/support/fatfs/ff.c:2249-2280 | The loop of dir_find stops at the first entry that answers, by its long name or its short one, and knows where its block begins; or at the end of the table, and then no entry answers |
| NameSearch.WholeName | signpost/apps/support/fatfs/ff.c:1679-1707 | All parts of a name match exactly if the name looked for is the same but for case and the name has fewer than 255 units |
| NameSearch.FoundByName | signpost/apps/support/fatfs/ff.c:2212-2283 | A registered name is found by the names alike, and by no other |
| Catalogue.SearchFinds | signpost/apps/support/fatfs/ff.c:2212-2283 | In a catalogue, where every plain entry and every entry of a long name is a file's, what dir_find finds is the first file of that name |
| Catalogue.MeansExactly | signpost/apps/support/fatfs/ff.c:2249-2280 | A name means a file exactly if its short form is whole and is the short name, or the long names have the same length below 255 and the same units but for case |
| Catalogue.SearchFails | signpost/apps/support/fatfs/ff.c:2212-2283 | If it finds nothing, no file has that name, long or short |
| Catalogue.BlockOfFile | signpost/apps/support/fatfs/ff.c:2264-2275 | The block that dir_find reports for a file is all of its entries |
| Catalogue.FoundAfter | signpost/apps/support/fatfs/ff.c:2294-2386 | A new file changes which file a name means exactly if it has that name and comes in front of all others that have |
| Catalogue.FoundNew | signpost/apps/support/fatfs/ff.c:2294-2386 | It is what its own name means, if that meant no file before |
| Catalogue.FoundWithout | signpost/apps/support/fatfs/ff.c:2398-2434 | Deleting a file changes which file a name means only if it meant that file |
| Catalogue.Names.FreeName | signpost/apps/support/fatfs/ff.c:2338-2348 | The numbered short name picked is the first one that no file has, and if none is picked all are taken |
| Catalogue.Names.ShortName | signpost/apps/support/fatfs/ff.c:2336-2348 | A new file gets its own short name if that has lost nothing, else the first of the numbered ones from 1 to 99 that is free |
| Catalogue.CataloguedAdded | signpost/apps/support/fatfs/ff.c:2350-2386 | A block of entries written into the first run of unused ones that is long enough adds one file to a catalogue, and short names stay different |
| Catalogue.CataloguedRemoved | signpost/apps/support/fatfs/ff.c:2398-2434 | Marking all entries of a file as deleted takes that file, and no other, out of a catalogue |
| Catalogue.CataloguedTouched | signpost/apps/support/fatfs/ff.c:3776-3785 | Updating the entry of a file keeps the catalogue |
| Catalogue.CataloguedLonger | signpost/apps/support/fatfs/ff.c:1557-1565 | So does giving the directory more entries that were never used |
| EnergyPolicy.Pass | signpost/apps/libsignpost-tock/signpost_energy_policy.c:418-436 | A pass gives every eligible module the surplus up to its limit; what it takes and what it spills add up |
| EnergyPolicy.Spill | signpost/apps/libsignpost-tock/signpost_energy_policy.c:413-449 | The spill loop fills all modules to one common level, gives the controller what no module can hold, loses at most 10, and takes at most six passes |
| EnergyPolicy.LevelUnique | signpost/apps/libsignpost-tock/signpost_energy_policy.c:413-449 | The total handed out determines every module's share |
| EnergyPolicy.Ledger.constructor | signpost/apps/libsignpost-tock/signpost_energy_policy.c:34-107 | Init takes saved accounts and use over as they are, unless the battery cannot be read; without them the accounts fall short of the battery by at most 6, and use begins at zero less what the counters held; counters and averages are zero |
| EnergyPolicy.Ledger.Save | signpost/apps/libsignpost-tock/signpost_energy_policy.c:504-510 | What is saved right after an update is all that the readings depend on, so a ledger restored from it reads the same |
| EnergyPolicy.Ledger.ModuleUsed | signpost/apps/libsignpost-tock/signpost_energy_policy.c:148-155 | A module's reading is ticks since its reset plus use reported against it less use it reported away, not below 0 |
| EnergyPolicy.Ledger.ControllerUsed | signpost/apps/libsignpost-tock/signpost_energy_policy.c:130-137 | The same for the controller |
| EnergyPolicy.Ledger.LinuxUsed | signpost/apps/libsignpost-tock/signpost_energy_policy.c:139-146 | The same for Linux |
| EnergyPolicy.Ledger.Tick | signpost/apps/libsignpost-tock/signpost_energy_policy.c:118-155 | Counter ticks raise the plain counters alike |
| EnergyPolicy.Ledger.ResetModule | signpost/apps/libsignpost-tock/signpost_energy_policy.c:192-197 | A reset zeroes one reading and no other |
| EnergyPolicy.Ledger.Report | signpost/apps/libsignpost-tock/signpost_energy_policy.c:458-500 | Every account and counter changes by exactly what was reported for it, use up and energy down, those of the source also by all that was reported, the other way; amounts beyond belief are dropped, slot 3 is the controller; totals of remaining, used and average stay |
| EnergyPolicy.MovedEach | signpost/apps/libsignpost-tock/signpost_energy_policy.c:458-500 | What a list of reports does to every single figure, in terms of the amounts it reports |
| EnergyPolicy.MovedTotal | signpost/apps/libsignpost-tock/signpost_energy_policy.c:458-500 | No list of reports changes a total |
| EnergyPolicy.Ledger.Settle | signpost/apps/libsignpost-tock/signpost_energy_policy.c:342-374 | Folding the counters into stored use changes no reading, and debits the accounts by the total |
| EnergyPolicy.Ledger.Distribute | signpost/apps/libsignpost-tock/signpost_energy_policy.c:399-449 | A surplus is credited but for at most 21 |
| EnergyPolicy.Ledger.Update | signpost/apps/libsignpost-tock/signpost_energy_policy.c:280-455 | An update keeps every reading; the shortfall of the accounts against the battery never falls, and grows by at most 21 |
| EnergyPolicy.PowerMeans | signpost/apps/libsignpost-tock/signpost_energy_policy.c:303-340 | The average is the energy of the period as often as the period fits into an hour |
| SignbusIo.Node.Send | signpost/apps/libsignpost/signbus_io_interface.c:118-193 | The packets sent are exactly the fragments of the data, in order, under a new number, each with the total length; if the bus fails, as many of the first ones as it took, and the call fails |
| SignbusIo.PartsAreAll | signpost/apps/libsignpost/signbus_io_interface.c:148-176 | The parts of all fragments, in order, are the data, and the length field is what they take on the bus with their headers |
| SignbusIo.GetMessage | signpost/apps/libsignpost/signbus_io_interface.c:202-289 | From a stream mixing packets of other datagrams it delivers source, flag and data, cut to the buffer, if the datagram is addressable or the buffer shorter than 65702 bytes; else it reports more than the buffer has, or counts a byte it has not stored |
| SignbusIo.NotDelivered | signpost/apps/libsignpost/signbus_io_interface.c:237-270 | A longer datagram received into such a buffer arrives wrong, unless the buffer by chance held the missing byte |
| SignbusIo.AddressableExactly | signpost/apps/libsignpost/signbus_io_interface.c:148-164 | The offset field is right in every fragment exactly if the last one's place fits 16 bits |
| SignbusIo.SentAsIs | signpost/apps/libsignpost/signbus_io_interface.c:148-176 | Every part of all data of a length is sent as it is exactly if the length is addressable; beyond, the 16-bit offset also picks the bytes, from further up front |
| SignbusIo.AddressableLimit | signpost/apps/libsignpost/signbus_io_interface.c:148-164 | That is up to 65702 bytes |
| SignbusIo.NumbersApart | signpost/apps/libsignpost/signbus_io_interface.c:121 | Datagrams less than 65536 apart have different numbers |
| SignbusIo.SlaveRead.SetReadBuffer | signpost/apps/libsignpost/signbus_io_interface.c:388-435 | If the bus listens new data take the node's next number, the same counter as sending, and start with their first piece, which carries the total length; empty data tell the one who asked, or call a null pointer; if it does not listen nothing changes |
| SignbusIo.SlaveRead.Iterate | signpost/apps/libsignpost/signbus_io_interface.c:343-385 | Reads get the pieces in order, then the callback, or the pieces again; a null pointer is called exactly when there are neither data nor a callback |
| SignbusProtocol.ProtocolSend | signpost/apps/libsignpost/signbus_protocol_layer.c:100-158 | What is handed down is iv, ciphertext and digest, or cleartext and digest |
| SignbusProtocol.BufferReceived | signpost/apps/libsignpost/signbus_protocol_layer.c:161-218 | A wrapped buffer opens to its cleartext if there is room; a wrong digest is rejected; it reads past the buffer exactly if that has no room for a digest, or has one that fits, no room for the iv and a caller's buffer as large as the length that wrapped around |
| SignbusProtocol.CheckRejectsNothing | signpost/apps/libsignpost/signbus_protocol_layer.c:172-175 | The check for a sensible length never rejects |
| SignbusProtocol.LengthsInside | signpost/apps/libsignpost/signbus_protocol_layer.c:179-194 | The lengths used stay inside the buffer exactly if it has 32 bytes, and 16 more with a key |
| SignbusProtocol.AppSend | signpost/apps/libsignpost/signbus_app_layer.c:38-54 | The message goes down behind its three types |
| SignbusProtocol.ProtocolRecv | signpost/apps/libsignpost/signbus_protocol_layer.c:161-218 | What comes up is the cleartext, of exactly its length, of a datagram with the right digest |
| SignbusProtocol.Parse | signpost/apps/libsignpost/signbus_app_layer.c:26-36 | The types are the first three bytes of the buffer and the message the rest; it reads past the buffer exactly if that has fewer than three bytes, and the length is right exactly if three bytes were received |
| SignbusProtocol.AppRecv | signpost/apps/libsignpost/signbus_app_layer.c:56-77 | Source, types and message of a cleartext come out exactly if it has three bytes, as all that AppSend has sent have; otherwise the answer is negative and the length has wrapped around |
| Crc16.TableIsFeed | signpost/apps/libsignpost/CRC16.c:88-121 | Every table entry is eight bit steps of its index |
| Crc16.TableStep | signpost/apps/libsignpost/CRC16.c:162-163 | A step of the table loop is eight bit steps |
| Crc16.Calc | signpost/apps/libsignpost/CRC16.c:150-169 | The table variant computes the reference CRC |
| Crc16.CalcByBits | signpost/apps/libsignpost/CRC16.c:173-204 | So does the bit variant, hence both agree |
| Crc16.Check | signpost/apps/libsignpost/CRC16.c:228-240 | The check compares the complemented CRC of all with the good value |
| Crc16.AttachedPasses | signpost/apps/libsignpost/CRC16.c:228-240 | Data followed by their complemented CRC, low byte first, pass |
| Crc16.CheckExactly | signpost/apps/libsignpost/CRC16.c:228-240 | No other two bytes behind the data pass |
| Crc16.OneByteSeen | signpost/apps/libsignpost/CRC16.c:150-169 | Messages differing in one byte have different CRCs |
| Crc16.BurstSeen | signpost/apps/libsignpost/CRC16.c:150-169 | So have messages differing within two neighbouring bytes |
| ComSlip.SendMessage | signpost/apps/libsignpost-tock/ComSlip.c:230-273 | The line carries 40 END bytes, the message with END and ESC as two bytes each, and END |
| ComSlip.Receiver.ProcessRxByte | signpost/apps/libsignpost-tock/ComSlip.c:308-389 | The receiver with its buffer does what the decoder function says |
| ComSlip.StepMeans | signpost/apps/libsignpost-tock/ComSlip.c:308-389 | What the decoder does with every byte in every state |
| ComSlip.Receiver.StoreRxByte | signpost/apps/libsignpost-tock/ComSlip.c:187-192 | A byte is stored if there is room |
| ComSlip.Receiver.SetRxBuffer | signpost/apps/libsignpost-tock/ComSlip.c:283-299 | Only an idle receiver with a client takes a buffer |
| ComSlip.Resynchronises | signpost/apps/libsignpost-tock/ComSlip.c:308-389 | Two END bytes lead from any working state into a fresh frame |
| ComSlip.Decodes | signpost/apps/libsignpost-tock/ComSlip.c:308-389 | An encoded message is delivered as far as the buffer goes |
| ComSlip.EveryMessageArrives | signpost/apps/libsignpost-tock/ComSlip.c:187-389 | After any noise all messages of a list arrive exactly and in order, behind at most one frame of noise |
| UartConsole.Console.constructor | signpost/kernel/signpost_drivers/src/gps_console.rs:49-63 | An idle driver |
| UartConsole.Console.Allow | signpost/kernel/signpost_drivers/src/gps_console.rs:157-164 | Lending a slice, or taking it back, changes nothing else; it breaks the rules exactly if some of the application's last slice is still to be sent |
| UartConsole.Console.Send | signpost/kernel/signpost_drivers/src/gps_console.rs:106-136 | The next chunk starts if the port is free, else the application is pending; the kernel stops exactly if the slice is shorter than what is left to send |
| UartConsole.Console.Write | signpost/kernel/signpost_drivers/src/gps_console.rs:75-86 | A write is accepted with a slice, busy without one; if the port is free its first chunk goes out at once, else it is pending; it is a job unless another one is outstanding, or it is empty and the port busy |
| UartConsole.Console.SendContinue | signpost/kernel/signpost_drivers/src/gps_console.rs:90-102 | The slice goes on where it stopped; nothing left, no slice and a slice too short are told apart |
| UartConsole.Console.TransmitComplete | signpost/kernel/signpost_drivers/src/gps_console.rs:238-294 | Every completed chunk leaves less to do; the next chunk of the slice goes out, or the turn ends; turns are never interleaved, and an application that keeps to the rules gets each of its slices sent whole, in order, and is told its full length, first of all, if it has a callback; all others told something have broken the rules; the kernel stops exactly if the slice to be sent next has become shorter than what is left of it, which only one that has broken the rules can bring about |
| UartConsole.Console.StartPending | signpost/kernel/signpost_drivers/src/gps_console.rs:275-293 | The first pending application with something to send starts, with its first chunk; those in front of it whose slice is gone are told, and no one else |
| UartConsole.BeganMeans | signpost/kernel/signpost_drivers/src/gps_console.rs:275-293 | What becomes of every application when the next one is started: it, those passed over and the others |

## Left out

- Code compiled out by `ffconf.h` (exFAT, fast seek, f_expand, f_forward, string functions, locks, relative paths), drive prefixes and separators in paths, and code pages: what create_name makes of a path (the long name as 16-bit units, its short form and flags, or a refusal), gen_numname and ff_wtoupper are functions given to the store, with the laws of `Names.Lawful` (`signpost/apps/support/fatfs/ff.c:1791-1843` and `2620-2790`).
- Directory walks: the places of the entries are kept in a list, where the source follows the directory's clusters in the FAT; the directory holds logs only, so no subdirectories or read-only files.
- FatFile.File.Write: caller's buffer as a value, not as memory that could alias the file object's buffer.
- FatVolume.Volume.WriteFsInfo: after a failed write of FSINFO the window no longer shows what is on the drive, so nothing is promised then.
- FatVolume.Volume.SyncFs: after a failed access nothing is promised, for the source ignores failures of FSINFO writes.
- FatMount.FindVolume: that a volume formatted by other software can be used: the source does not bound FAT32 cluster counts, and its sums may wrap around there, so what it accepts is said exactly but is not shown to lie on the drive.
- FatMount.Mount: the mounted volume starts with an empty window, where the source leaves the sector in it that was read last.
- StorageInit.Restart: the new store takes the list of the directory's entries, and what is only in the proofs, from the last one, which is right because the drive shows the same; waiting for a drive to become ready is left out.
- FatMount.Format: erase blocks of one sector; partitions chosen in advance (multi-partition) and drives of other sector sizes are not modelled; the working buffer beyond its first sector is taken as blank from the start.
- BootSector.MakeMbr: buffers are built as values, store by store, not in the caller's memory.
- f_truncate, f_rename, f_mkdir, labels and the free-space query: their cluster work is remove_chain and the free count, which are modelled.
- EnergyPolicy.Ledger.Update: the period in seconds is a parameter of at least one, amounts are unbounded integers, and the counters do not move during an update. Decimal fractions of whole amounts are taken as exact tenths, which for non-negative 32-bit amounts is what the rounding of the source gives. No limit is claimed for the controller's account, which spill may push over its maximum.
- EnergyPolicy.Ledger.Report: reports name registered modules, as the source assumes.
- The reset timers of the energy ledger.
- SignbusIo.GetMessage: duplicated, lost or reordered fragments, for which reassembly promises nothing, and the tail of a datagram cut to the buffer. What becomes of datagrams longer than 65702 bytes is in its contract and in SentAsIs.
- SignbusProtocol.BufferReceived: what reading past the end of a buffer does. No cryptographic claim is made; cipher and digest are functions with the laws of `Crypto.Lawful`.
- The asynchronous variants of the signbus receive calls, which lead into the same functions.
- Crc16.Calc: data of any length, where the source counts with 16 bits.
- UartConsole.Console.TransmitComplete: the putc command, which takes the driver's buffer outside the protocol, and receiving are left out; what becomes of the kernel once it has stopped.
- The controller's power, isolation and watchdog callbacks, the radio queue, sensor applications, servers and other glue code.
