# A verified model of the x86 microkernel's core

This project models, in Dafny, the parts of the kernel whose correctness is hardest to see from
the code, and proves what they promise.

* **FAT32 driver** (`fs/fat32`). The disk is a sequence of 512-byte sectors behind a sector
  interface whose transfers may fail, lose data or damage a sector, as a schedule decides.
  `FatLayout` reads the file allocation table out of the bytes, `FatChain` is the theory of that
  table as a value (chains, freeing, the free-cluster counter, the hinted search), `Directory`
  is one directory with its entries and the ownership of chains, and `Volume`, `Files` and
  `FileRead` are the driver's operations on the bytes, each proved to do to the disk what the
  value-level model says. `ShortNames` is the 8.3 name codec.
* **Kernel heap** (`mm/kmalloc.c`). `HeapSpec` is the block list with first fit, splitting and
  two-sided coalescing; `HeapMemory` has the block headers and the frame bitmap as bytes; `Heap`
  is the allocator on those bytes. `HeapLimits`, `HeapBoot`, `HeapBitmap` and `HeapJoins` are what
  happens without the checks it leaves out: one growing step, a whole oversize request on a fresh
  heap, beside the frame bitmap and through it, and freeing across frames.
* **Keyboard queue and its lock** (`include/lib/spinlock.h`, `arch/x86/include/interrupt.h`,
  `drivers/char/kb.c`). `KeyboardLock` is a step system over any number of CPUs and contexts, one
  machine action at a time.
* **Scheduler** (`kernel/sched/scheduler.c`). `Scheduler` has the selection loops and a fairness
  bound over whole runs of ticks, exits and creations.
* **Codecs and arithmetic.** `Division` (64-bit restoring division), `Checksum` (the Internet
  checksum of RFC 1071), `Dhcp` (the options of section 2 of RFC 2132), `Ipv4Text` (dotted
  decimal) and `Ext2` (block-wise file reads).

`dafny verify dfyconfig.toml` checks everything.

## Where the code and its promises part

Each of these is kept as the code has it, with a lemma that says exactly when the promise holds.

* A mark keeps the free-cluster counter exact for a value exactly when the value is zero or its
  low 28 bits are not (`FatChain.MarkKeepsCount`); the driver itself writes only 0, cluster
  numbers and the end mark.
* `mark_cluster_in_fat` stores the first copy's sector in every copy, so in another copy it
  changes nothing but the entry exactly when that copy agreed with the first one beside the entry
  (`FatLayout.MarkTouchesOnlyTheEntry`).
* A comment in `fat32_create_file` says that no rollback is needed when marking fails because the
  cluster is still free. What a mark makes of the table is decided by its first two transfers
  (`Volumes.Volume.MarkCluster`, `Volumes.EntryAfterMark`): the cluster is still free exactly when
  the read failed or the write left no other bits in the entry (`Volumes.StillFreeExactly`). With
  a good read, a good write and a failed read-back the entry is marked, the counter is not moved,
  and it stays exact only if the entry was as free as the value (`Volumes.MarkUnverified`).
* A deleted entry is zeroed, which lookup takes for the end of the directory: entries before it
  stay findable and all others disappear (`Directory.DeleteHidesTheRest`). Lookup searches only
  the first cluster of a directory, and a new entry fills the first vacant slot, so that its name is
  found exactly when an older entry already was, or the entry landed in that cluster and its name is
  clean or a match stands behind it (`Directory.CreatedIsFound`).
* Directories never grow: the end of a chain is reported as `INVALID_CLUSTER`, never as an
  end-of-chain mark, so the extending branch of `add_entry_to_directory` is dead
  (`Volumes.Volume.NextInChain`, used by `Files.AddEntry`).
* The loops that walk a chain have no guard against cycles. They leave the table exactly when they
  have done so after as many turns as it has entries, and otherwise go round some cluster for ever
  (`FatChain.LoopEndsExactly`, with tables of four entries in `FatChain.CyclicTable` and, by way of
  cluster 0, in `FatChain.CycleThroughZero`). The well-formed chains assumed below are exactly those
  whose walk comes to an end mark (`FatChain.ChainExistsExactly`).
* Looking a name up and converting it agree exactly for names of letters and digits in the 8.3
  limits, blanks after them allowed (`ShortNames.LookupAgreesWithConversion`).
* `write_cluster` and `cluster_to_sector` compute the same address exactly when the boot sector
  declares no fixed root directory (`FatLayout.ClusterAddressesAgree`).
* `k_free` joins list neighbours without checking that they are neighbours in memory. Its stores
  add up the sizes all the same (`HeapJoins.FreeAsCoded`), and the list covers the same bytes
  afterwards exactly when they are neighbours, in list order or with the freed block behind the
  other two (`HeapJoins.FreeCoversExactly`). Four calls on a fresh heap are enough to leave one free
  block that reaches a frame past the end of the heap (`HeapJoins.FreedAcrossFrame`), so "everything
  freed is one original block" ends with the first appended frame.
* "`k_malloc` ends for every request" and "a request too large for a frame gets null, and only after
  every frame is taken" are both false. The frame bitmap reserves only frame 0, so frames may overlap
  the kernel, the bitmap and the heap they are appended to. One growing step as coded leaves a list
  whose walk ends exactly when the frame does not start at a listed block (`HeapLimits.GrowAsCoded`),
  unless it overwrites part of a link word, when everything hangs on the bytes at the address found
  there (`HeapLimits.TornWalk`). On a fresh heap a request that fits a frame always has room
  (`HeapLimits.SmallHasRoom`), and what an oversize one does is decided by the kernel's end, the
  memory size and the request, on every boot (`HeapBitmap.OversizeAtBoot`, `HeapBitmap.BootOutcome`):
  - No frame header starts in the bitmap: the call never ends if a frame
    starts where the heap does, and otherwise returns null with every frame taken.
  - A header starts at byte o of the bitmap, that of frame f, and 8 o <= f: its store clears the bit
    of a frame already listed, which is handed out again, and the search goes round it for ever.
  - 8 o > f: the frames taken later set bits of that header's size. The call returns the block there
    once it claims enough, which it does with frame `LastFrame(o, size)`; it never ends if a frame
    taken before starts where the heap does, and returns null only if there are too few frames.

  There is one boot for each: 512 MB without end (`HeapBitmap.EndlessBoot`), 512 MB with a pointer
  to a block that claims 256 MB (`HeapBitmap.ClaimingBoot`), 64 MB with null (`HeapBitmap.NullBoot`)
  and without end (`HeapBitmap.HeapOnFrameBoot`). Ending is not yet being right: the grown list is
  free of overlaps exactly when the frames it took lie in memory apart from the blocks there were
  (`HeapLimits.GrowSeparatedExactly`), which on a fresh heap the same three numbers decide
  (`HeapLimits.RoomAtBoot`).
* `task_exit` switches to the next unfinished task even if that never ran, without preparing its
  stack as a tick does: after a tick the selected task has been started, after an exit exactly if it
  had been before (`Scheduling.SelectedIsStarted`, `Scheduling.ExitSelectsUnstarted`).
* `read_file_data` takes the 0 that `cluster_to_sector` returns for a cluster that is not valid, such
  as that of an empty file, for a sector and reads from the start of the disk
  (`FileRead.SectorForExactly`).
* `ext2_read_file` clips a request to the end of the file exactly when offset plus size does not
  wrap in 32 bits (`Ext2.ClippedExactly`).

## Model

| member | source | states |
|---|---|---|
| `FatChain.FreeCountUpdate` | fs/fat32/fat32_cluster.c:159-167 | overwriting one entry moves the number of free clusters by exactly that entry's own contribution |
| `FatChain.MarkKeepsCount` | fs/fat32/fat32_cluster.c:159-167 | a mark keeps an exact free counter exact if and only if FSInfo is not loaded, the value is 0, or its low 28 bits are not all zero |
| `FatChain.EndMarks` | fs/fat32/fat32_cluster.c:257-277 | of the 28-bit entries exactly the eight from 0x0FFFFFF8 up end a chain, every other one is the next cluster |
| `FatChain.CountedExactly` | fs/fat32/fat32.c:141-157 | a counter that is not loaded or unknown stays so, a decrease stops at zero, an increase wraps |
| `FatChain.ReachesAfterCut` | fs/fat32/fat32_cluster.c:462-485 | on any table, what a start reaches besides itself is what its successor reaches after the start's entry has been cleared |
| `FatChain.FreedExactly` | fs/fat32/fat32_cluster.c:454-489 | on every table, cyclic and cross-linked ones included, freeing zeroes exactly the clusters reachable from the start and leaves every other entry |
| `FatChain.FreedKeepsCount` | fs/fat32/fat32_cluster.c:454-489 | freeing any chain keeps the counter equal to the number of free clusters |
| `FatChain.FindFreeIsNearest` | fs/fat32/fat32_cluster.c:69-108 | for every hint the search fails exactly when no cluster is free, and otherwise returns the free cluster cyclically nearest to the hint, or to cluster 2 when FSInfo is not loaded or the hint is out of range |
| `FatChain.HintIsTaken` | fs/fat32/fat32_cluster.c:69-108 | a free cluster hinted at is the one found, and the next search takes up just behind the cluster found, or at cluster 2 when that was the last |
| `FatChain.ChainUnique` | fs/fat32/fat32_cluster.c:257-281 | a start cluster has at most one well-formed chain |
| `FatChain.ChainAcyclic` | fs/fat32/fat32_cluster.c:257-281 | a well-formed chain never meets a cluster twice |
| `FatChain.FreedChain` | fs/fat32/fat32_cluster.c:454-489 | freeing a well-formed chain zeroes its members and no other entry |
| `FatChain.LinkedChain` | fs/fat32/fat32_cluster.c:437-452 | redirecting the last entry of one chain to another chain gives their concatenation as a chain exactly when they share no cluster |
| `FatChain.LoopEndsExactly` | fs/fat32/fat32_cluster.c:437-452 | for every table and start the chain loops, which go on at clusters 0 and 1 too, leave the table exactly when they have done so after as many turns as it has entries, and otherwise come to some cluster again |
| `FatChain.ChainExistsExactly` | fs/fat32/fat32_cluster.c:257-281 | a start has a well-formed chain exactly when the walk from it comes to an end mark |
| `FatChain.CyclicTable` | fs/fat32/fat32_cluster.c:441-444 | on a table with two clusters linked to each other the loops never leave the table |
| `FatChain.CycleThroughZero` | fs/fat32/fat32_cluster.c:441-444 | on a table whose zero entry leads to cluster 0 and back they never leave it either |
| `FatLayout.ClusterAddressesAgree` | fs/fat32/fat32_cluster.c:176-234 | the written and the read address of a cluster are the same exactly when there is no fixed root directory |
| `FatLayout.ClustersFollow` | fs/fat32/fat32_cluster.c:225-234 | cluster 2 starts right behind the last FAT copy and each cluster right behind the one before it |
| `FatLayout.RootDirectoryFits` | fs/fat32/fat32_cluster.c:176-181 | the first data sector leaves room for a fixed root directory of 32-byte entries and not a sector more |
| `FatLayout.TotalClustersExactly` | fs/fat32/fat32_cluster.c:44-61 | the largest number of clusters whose sectors, counted in 32 bits, fit behind the FAT copies; 2 without a cluster size |
| `FatLayout.ValidExactly` | fs/fat32/fat32_cluster.c:9-20 | end-of-chain marks and all above pass for valid, and below them exactly the clusters in range |
| `FatLayout.ClustersApart` | fs/fat32/fat32_cluster.c:225-234 | different clusters occupy different sectors |
| `FatLayout.EntryBytes` | fs/fat32/fat32_cluster.c:125-130 | on the disk the entry of a cluster lies four bytes per cluster into each FAT copy |
| `FatLayout.TableFromBytes` | fs/fat32/fat32.c:275-298 | the table read straight off the bytes of the disk: four bytes per cluster, least significant first, the top four bits dropped |
| `FatLayout.MarkEntry` | fs/fat32/fat32_cluster.c:115-157 | in every copy of a mirrored table only the marked entry changes, and only in its low 28 bits |
| `FatLayout.MarkIsMapUpdate` | fs/fat32/fat32_cluster.c:115-157 | a successful mark on the bytes is one update of the cluster-to-entry map |
| `FatLayout.MarkKeepsMirrors` | fs/fat32/fat32_cluster.c:135-157 | identical FAT copies stay identical |
| `FatLayout.MarkTouchesOnlyTheEntry` | fs/fat32/fat32_cluster.c:115-157 | every sector without the entry stays, and in a copy nothing but the entry's low bits changes exactly when the copy agreed with the first one beside the entry |
| `Volumes.Volume.WriteVerified` | fs/fat32/fat32_cluster.c:140-156 | whatever the drive does, success means the sector holds the data and no other sector changed |
| `Volumes.Volume.UpdateFreeCount` | fs/fat32/fat32.c:141-157 | the FSInfo bytes change as the counter's step says: unknown stays unknown, no underflow, and no byte but the counter's four changes |
| `Volumes.Volume.WriteFsInfo` | fs/fat32/fat32.c:103-135 | only the FSInfo sector can change, the table and the directory never do; success means the five fields compared are on the disk, and with good transfers the sector equals the block in memory |
| `Volumes.Volume.ReadFatEntry` | fs/fat32/fat32.c:275-298 | the masked entry of an in-range cluster, INVALID for an out-of-range cluster or a failed read and for nothing else |
| `Volumes.Volume.NextInChain` | fs/fat32/fat32_cluster.c:257-277 | the successor in the table, INVALID at the end or on error, and never an end-of-chain mark |
| `Volumes.Volume.StoreInCopies` | fs/fat32/fat32_cluster.c:135-157 | success puts the sector in every copy; a failure leaves a prefix of the copies stored, at most the next one damaged and the rest unchanged |
| `Volumes.Volume.MarkCluster` | fs/fat32/fat32_cluster.c:115-170 | success, under any faults, is the one map update with the matching counter step; failure leaves the counter alone and a counted prefix of the copies updated; either way the whole table is what the first two transfers make of the first copy, and nothing outside the FAT changes |
| `Volumes.InterruptedTable` | fs/fat32/fat32_cluster.c:135-157 | the whole table after a mark that stopped: the marked one once the first copy is stored, and before that the old one outside the sector being written |
| `Volumes.EntryAfterMark` | fs/fat32/fat32_cluster.c:125-157 | the entry after a mark, reported as a success or not, for every outcome of the read and of the first write |
| `Volumes.StillFreeExactly` | fs/fat32/fat32_files.c:291-296 | a free cluster marked as an end of chain is still free exactly when the read failed or the write left no other bits in the entry |
| `Volumes.MarkUnverified` | fs/fat32/fat32_cluster.c:147-150 | when the first read-back fails the call fails with the table marked and the counter unmoved, which stays exact only if the entry was as free as the value |
| `Volumes.Volume.FindFreeCluster` | fs/fat32/fat32_cluster.c:69-108 | a returned cluster is in range and free under any faults, the hint moves just past it, and with good transfers it is the cyclically nearest free one |
| `Volumes.Volume.LinkCluster` | fs/fat32/fat32_cluster.c:437-452 | on a well-formed chain with good transfers the last entry is redirected, and a chain linked to is appended exactly when the two share no cluster; under faults some entry of the chain is redirected |
| `Volumes.Volume.FreeClusterChain` | fs/fat32/fat32_cluster.c:454-489 | terminates on every table under any faults and clears nothing the start does not reach, save for the one FAT sector a failed mark was writing; success keeps an exact counter exact under any faults; with good transfers it frees exactly what is reachable |
| `Directory.NewSlotFields` | fs/fat32/fat32_dir.c:125-144 | the start cluster, name and attribute read back from a new entry are those given, and the entry is in use |
| `Directory.StartBytes` | fs/fat32/fat32_cluster.c:253-255 | the start cluster of every entry is the little-endian number of bytes 26, 27, 20 and 21 |
| `Directory.NewSlotBytes` | fs/fat32/fat32_dir.c:125-144 | every byte of a new entry: the name, the attribute, two zeros, the five clock readings, both halves of the cluster and a size of zero at their places in the structure |
| `Directory.LookupExactly` | fs/fat32/fat32_files.c:213-281 | a name is found in a slot exactly when that is the first one in use, no piece of a long name and matching, with no never-used slot before it |
| `Directory.RemovesTheFoundSlot` | fs/fat32/fat32.c:345-365 | the byte-equality match in delete clears the very slot the lookup found, even among entries of the same name |
| `Directory.DeleteHidesTheRest` | fs/fat32/fat32_files.c:243-247 | after a delete a name is found, and where it was, exactly if it was found before the deleted slot |
| `Directory.CreatedIsFound` | fs/fat32/fat32_files.c:213-281 | for every name, it is found after a create exactly when an older entry already was, or the new one landed in the first cluster and the name is clean or a match stands behind it |
| `Directory.LookupAfterCreate` | fs/fat32/fat32_files.c:213-281 | which slot a lookup of the new name finds after a create |
| `Directory.CreatedEntry` | fs/fat32/fat32_files.c:283-314 | a create that succeeds puts its entry, attribute 0 or 0x10, in the first slot that starts with 0 or 0xE5, makes a free cluster an end of chain and moves the hint behind it; no other slot and no other table entry changes |
| `Directory.DeleteExactly` | fs/fat32/fat32_files.c:316-347 | a delete succeeds exactly when the name is found with a start cluster in range, and then zeroes the slot found and frees exactly what the start reaches |
| `Directory.CreateThenDelete` | fs/fat32/fat32_files.c:283-347 | deleting what was just created gives back the table and an exact free count |
| `Directory.OwnedIsSafe` | fs/fat32/fat32_files.c:283-347 | under the ownership invariant a cluster occurs once in at most one chain and is in range and not free |
| `Directory.CreateKeepsOwned` | fs/fat32/fat32_files.c:283-314 | a file or directory create keeps every owner's chain well-formed and apart from all others |
| `Directory.DeleteKeepsOwned` | fs/fat32/fat32_files.c:316-347 | a delete frees its own chain and keeps every other owner's chain |
| `Directory.RunKeepsOwned` | fs/fat32/fat32_files.c:283-347 | over every run of creates and deletes each live entry with a cluster, save the dot entries a directory starts with, owns a well-formed chain apart from the directory's and all others, and chains outside the directory stay the same |
| `Directory.SparedKeepsOwner` | fs/fat32/fat32_files.c:283-347 | an owner that no operation of a run deletes has the same chain after it |
| `Directory.StepKeepsCount` | fs/fat32/fat32_files.c:283-347 | each operation, failed ones included, keeps the counter exact |
| `Directory.RunKeepsCount` | fs/fat32/fat32_files.c:283-347 | a counter equal to the number of free clusters is so after every run |
| `Directory.FailureRestores` | fs/fat32/fat32_files.c:299-306 | a failed operation leaves entries, table and free count as they were |
| `Directory.CreateFailsExactly` | fs/fat32/fat32_files.c:283-314 | a create succeeds exactly when some cluster is free and some slot vacant |
| `Files.ReadCluster` | fs/fat32/fat32_cluster.c:236-251 | with good transfers the cluster's sectors; under any faults each sector is the cluster's or the buffer's old one; an invalid cluster leaves the buffer alone |
| `Files.ClusterBytes` | fs/fat32/fat32_cluster.c:225-251 | where each byte of a cluster's data lies on the disk, counted from its beginning |
| `Files.SlotBytes` | fs/fat32/fat32_dir.c:152-161 | where each byte of each directory entry of a cluster lies on the disk |
| `Files.WriteCluster` | fs/fat32/fat32_cluster.c:188-223 | success means the cluster holds the buffer; no sector of another cluster changes under any faults |
| `Files.AddEntry` | fs/fat32/fat32_dir.c:146-200 | the first vacant slot in chain order becomes the new entry and no other slot changes, it fails exactly when none is vacant, and the table is untouched |
| `Files.RemoveEntry` | fs/fat32/fat32.c:345-365 | the first slot with the entry's bytes is cleared and no other slot changes |
| `Files.FindFile` | fs/fat32/fat32_files.c:213-281 | under any faults a returned entry is the lookup's result over the first cluster; with good transfers it is returned exactly when there is one |
| `Files.EnterOrRollBack` | fs/fat32/fat32_files.c:298-313 | the marked cluster is entered in the directory, or the table and counter step back |
| `Files.CreateFile` | fs/fat32/fat32_files.c:283-314 | on the bytes, exactly the model's create, FSInfo stored; under any faults no data of a cluster in use outside the directory changes |
| `Files.FreshDirectorySlots` | fs/fat32/fat32_dir.c:117-123 | a new directory holds its own dot entry, its parent's, and zeros in every other slot |
| `Files.CreateDir` | fs/fat32/fat32_dir.c:69-115 | exactly the model's create with the directory attribute, the new cluster holding the dot entries and zeros; bystanders' data kept under any faults |
| `Files.DeleteFile` | fs/fat32/fat32_files.c:316-347 | on the bytes, exactly the model's delete, FSInfo stored; bystanders' data kept under any faults |
| `Files.Session` | fs/fat32/fat32_files.c:283-347 | any sequence of operations on the bytes does what the model's run does, ends in a volume where ownership holds again, keeps an exact free counter exact, and keeps the contents of every file and every other chain that no operation deletes |
| `Files.SmallVolume` | fs/fat32/fat32_cluster.c:44-61 | a volume of seven sectors with an empty directory meets the assumptions of a session |
| `FileRead.ReadFileData` | fs/fat32/fat32_files.c:27-103 | on a well-formed chain the buffer gets the file's first bytes and nothing else changes, as many as request, buffer and chain allow; it terminates with a buffer as large as the request on any table, and with a smaller one on every table on which the loop comes to an end |
| `FileRead.FileBytesOnDisk` | fs/fat32/fat32_files.c:42-88 | which byte of the disk each byte of a file is, cluster by cluster |
| `FileRead.SectorForExactly` | fs/fat32/fat32_cluster.c:225-234 | a cluster that is not valid, such as the 0 of an empty file, is read from sector 0 of the disk, one in range from where it lies |
| `FileRead.ComesToEndExactly` | fs/fat32/fat32_files.c:90-98 | on a table without links out of range the loop comes to an end exactly when it has done so after as many turns as the table has entries |
| `ShortNames.CompareNames` | fs/fat32/fat32.c:163-205 | 0 exactly when the upper-cased entry name is the padded pattern of the user's name |
| `ShortNames.MatchesParts` | fs/fat32/fat32.c:163-205 | a name with a dot in its first nine characters matches exactly the entries with its two parts, case aside, blank-padded, and none if the second has more than three characters |
| `ShortNames.MatchesBase` | fs/fat32/fat32.c:163-205 | a name of at most eight characters without a dot matches exactly the entries with it and no extension |
| `ShortNames.DotImplied` | fs/fat32/fat32.c:163-205 | a longer name matches as if a dot stood behind its eighth character |
| `ShortNames.CaseFolding` | fs/fat32/fat32.c:163-246 | two bytes are the same but for case exactly when they are equal or the two forms of a letter, of which the upper-case one is kept |
| `ShortNames.ConvertTo83` | fs/fat32/fat32.c:207-246 | the eleven bytes are the letters and digits of base and extension, upper-cased, cut and blank-padded, or a dot name |
| `ShortNames.OnDiskOfParts` | fs/fat32/fat32.c:207-246 | a name with one dot becomes the letters and digits on each side of it in eight and in three places |
| `ShortNames.LettersOfOne` | fs/fat32/fat32.c:207-246 | of one character the conversion keeps digits and letters, in upper case, and drops everything else |
| `ShortNames.KnownDots` | fs/fat32/fat32.c:207-246 | the two dot names are kept, padded with blanks |
| `ShortNames.FormatFilename` | fs/fat32/fat32_cluster.c:325-354 | the trimmed base, and a dot and the trimmed extension if there is one, in at most twelve characters |
| `ShortNames.FieldExactly` | fs/fat32/fat32_cluster.c:325-354 | of a field all before its first zero byte is shown, or else all before its trailing blanks |
| `ShortNames.ShownExactly` | fs/fat32/fat32_cluster.c:325-354 | the dot is shown exactly when something of the extension is |
| `ShortNames.LookupAgreesWithConversion` | fs/fat32/fat32.c:163-246 | matching is equality with the converted name on all upper-case entries exactly for the clean names |
| `ShortNames.FormatThenConvert` | fs/fat32/fat32_cluster.c:325-354 | formatting and converting back gives the same name exactly for normal-form names and the two dot entries |
| `ShortNames.DotNeverMatches` | fs/fat32/fat32.c:163-205 | no user name matches an entry that starts with a dot |
| `ShortNames.OnDiskShape` | fs/fat32/fat32.c:207-246 | whatever the input, the converted name is in normal form or a dot name |
| `HeapSpec.BlocksApart` | mm/kmalloc.c:143-166 | blocks of a tiling lie one after the other inside the region |
| `HeapSpec.TilingUnique` | mm/kmalloc.c:192-224 | a tiling without neighbouring free blocks is determined by its live blocks |
| `HeapSpec.RunKeepsSound` | mm/kmalloc.c:143-254 | over every run of malloc, free and realloc served from the initial region the blocks tile it exactly and no two neighbours are free |
| `HeapSpec.AllFreedIsFresh` | mm/kmalloc.c:104-108 | once nothing is live, whatever happened before, the heap is again one block of the original size |
| `HeapSpec.MallocThenFree` | mm/kmalloc.c:143-224 | freeing what was just allocated restores the heap block for block |
| `HeapSpec.OthersStayLive` | mm/kmalloc.c:143-254 | a live block stays as it is under every operation that does not name it |
| `HeapSpec.MovedStaysLive` | mm/kmalloc.c:226-254 | a block that is not freed stays live wherever it is moved, and never shrinks |
| `HeapSpec.MallocLive` | mm/kmalloc.c:143-166 | a request is served exactly when a free block is large enough; the first such block becomes live, cut to the request unless no more than a header would be left over, and nothing else changes its state |
| `HeapSpec.MallocIsNew` | mm/kmalloc.c:143-166 | the pointer returned is that of no live block |
| `HeapSpec.FreeLive` | mm/kmalloc.c:192-224 | a free is served exactly for null and the pointers of blocks, and afterwards exactly the block there is live no more |
| `HeapSpec.ReallocLive` | mm/kmalloc.c:226-254 | the live blocks after every resize: to nothing all but the block; to no more than it has, the same; to more, exactly when a request is served, the new block for the old |
| `HeapSpec.ServedExactly` | mm/kmalloc.c:143-254 | which operations are served from the list, in terms of its blocks; resizing null is a request |
| `HeapSpec.OpBooked` | mm/kmalloc.c:143-254 | the pointers of the live blocks change by every operation as the caller's books do, from the call and the pointer returned alone |
| `HeapSpec.RunBooked` | mm/kmalloc.c:143-254 | over every orderly run the live blocks are exactly those the caller's books hold: none forgotten, none left over |
| `HeapSpec.FreedInRun` | mm/kmalloc.c:192-254 | in a run a block is not live after the operation that gives it up |
| `HeapSpec.MovedApart` | mm/kmalloc.c:226-254 | no two blocks are moved to one place |
| `HeapSpec.GrowOutcome` | mm/kmalloc.c:168-189 | on the list, a request no block can serve takes exactly one frame if it fits one, and otherwise takes every frame and fails |
| `HeapMemory.SetFrameBits` | mm/kmalloc.c:53-63 | setting a frame's bit makes that frame taken and changes no other frame's state |
| `HeapMemory.HeaderBytes` | mm/kmalloc.c:35-39 | a header's three words in memory: size, free flag and link, four bytes each |
| `HeapMemory.EncodedFlag` | mm/kmalloc.c:149-164 | the flag of a free block is 1, that of a live one 0 |
| `Heap.KernelHeap.constructor` | mm/kmalloc.c:82-108 | the initial heap is one free block from the bitmap's end to HEAP_END, only frame 0 set |
| `Heap.HeapStartExactly` | mm/kmalloc.c:82-108 | the bitmap starts at the next multiple of sixteen from the kernel's end, has a bit for every whole frame of memory, and the first block starts at the next multiple of sixteen behind it |
| `Heap.KernelHeap.AllocateFrame` | mm/kmalloc.c:115-136 | the lowest clear frame, never frame 0 or a taken one, now set; 0 exactly when none is clear; only bitmap bytes change |
| `Heap.ClearExactly` | mm/kmalloc.c:115-136 | the frames to be handed out are all from frame 1 up whose bit is clear, lowest first |
| `Heap.KernelHeap.HandOut` | mm/kmalloc.c:149-164 | the header stores split the chosen block as the list model says and move no live payload |
| `Heap.KernelHeap.AddFrame` | mm/kmalloc.c:168-184 | the lowest clear frame becomes the last block of the list |
| `Heap.KernelHeap.Malloc` | mm/kmalloc.c:143-190 | terminates with the list, bitmap and pointer the first-fit-and-grow model gives, and no live payload changes |
| `Heap.KernelHeap.Free` | mm/kmalloc.c:192-224 | null and double frees change nothing, any other free releases and coalesces as the model says; no live payload changes |
| `Heap.KernelHeap.MemMove` | lib/libc/stdlib.c:102-125 | the destination gets the source's original bytes for every overlap and nothing else changes |
| `Heap.KernelHeap.Realloc` | mm/kmalloc.c:226-254 | the old bytes are at the returned place, or still at the old one on failure; every other live payload is kept; the list is the model's; resized to nothing, exactly that block is live no more and null is returned |
| `Heap.KernelHeap.Session` | mm/kmalloc.c:143-254 | over every run served from the initial region the list in memory is the model's and tiles the region, its live blocks are exactly those of the caller's books, a block no operation names keeps its place, and every block that is not freed has its old bytes at the place it was last moved to |
| `HeapLimits.GrowSeparatedExactly` | mm/kmalloc.c:168-189 | the blocks of a grown list lie in memory without sharing a byte exactly when the frames it took lie in memory apart from the blocks there were |
| `HeapLimits.RoomAtBoot` | mm/kmalloc.c:82-108 | on a fresh heap the frames a request needs are apart from what is in use exactly when the initial block serves it, no frame is clear, or frame 1 (for an oversize request every frame) ends below the kernel's aligned end |
| `HeapLimits.SmallHasRoom` | mm/kmalloc.c:82-108 | on every fresh heap a request that fits a frame has the room it needs |
| `HeapLimits.GrowAsCoded` | mm/kmalloc.c:168-184 | the growing step as coded: the next walk of the list ends exactly when the frame does not start at a listed block, then with the frame last; otherwise it goes round that block for ever |
| `HeapLimits.TornWalk` | mm/kmalloc.c:175-183 | when the frame header overwrites part of a link word, the walk ends exactly when the walk from the address found there does |
| `HeapBoot.Retry` | mm/kmalloc.c:146-189 | one retry of an oversize request whose next frame header is off the bitmap: nothing is found and the frame joins the list, unless it starts where the heap does, when every further search stays at the first block |
| `HeapBitmap.TakenAdds` | mm/kmalloc.c:53-55 | taking frame 8 o + k adds 2^k to the word at byte o of the bitmap |
| `HeapBitmap.PresetBits` | mm/kmalloc.c:175-178 | which frames a header stored in the bitmap makes taken and which clear |
| `HeapBitmap.HandOutAgain` | mm/kmalloc.c:115-184 | when the bits under a header in the bitmap are those of frames up to its own, a listed frame is handed out again and every further search is stuck at blocks too small |
| `HeapBitmap.Fill` | mm/kmalloc.c:146-184 | otherwise each retry takes the next frame in turn, and the block's size word is the one its frames' bits make |
| `HeapBitmap.FillUp` | mm/kmalloc.c:143-190 | the retries from there on never end, return null or return that block, exactly as the frame that makes it claim enough, the heap's start and the number of frames say |
| `HeapBitmap.OversizeAtBoot` | mm/kmalloc.c:143-190 | on every fresh heap an oversize request has the outcome that the kernel's end, the memory size and the request decide: endless, stuck at blocks too small; null, every frame taken and nothing that fits; or a pointer to the first listed block that is free and claims enough |
| `HeapBitmap.EndlessBoot` | mm/kmalloc.c:82-108 | with 512 MB and a kernel that ends at 0x300000 no oversize request ends |
| `HeapBitmap.ClaimingBoot` | mm/kmalloc.c:82-108 | with 512 MB and a kernel that ends at 0x300010 a request of 0x0F000000 bytes returns 0x30100C, the block there claiming enough once frame 32667 is taken |
| `HeapBitmap.NullBoot` | mm/kmalloc.c:82-108 | with 64 MB and that kernel every oversize request returns null |
| `HeapBitmap.HeapOnFrameBoot` | mm/kmalloc.c:82-108 | with 64 MB and a kernel that ends at 0x2FF800 none ends |
| `HeapJoins.FreeAsCoded` | mm/kmalloc.c:192-224 | on any list of separate blocks, neighbours in memory or not, the stores of a free give the list the model's, and every other live payload is kept |
| `HeapJoins.FreeCoversExactly` | mm/kmalloc.c:208-219 | a free keeps the bytes the list covers exactly when the blocks it joins are neighbours in memory, in list order or with the freed one behind the other two |
| `HeapJoins.FreedAcrossFrame` | mm/kmalloc.c:143-224 | on the bytes, two requests and two frees on any fresh heap above frame 1 leave one free block that ends a frame past the heap |
| `KeyboardLock.StepKeeps` | include/lib/spinlock.h:42-111 | every machine action of every CPU keeps the invariant |
| `KeyboardLock.RunKeeps` | include/lib/spinlock.h:42-111 | the invariant holds in every state of every run |
| `KeyboardLock.MutualExclusion` | include/lib/spinlock.h:42-111 | in every state of every run at most one context holds the lock, with interrupts off and running on a CPU |
| `KeyboardLock.NeverSpinsOnInterrupted` | include/lib/spinlock.h:97-111 | a context that finds the lock taken has its holder running on another CPU at that moment |
| `KeyboardLock.FlagRestored` | arch/x86/include/interrupt.h:53-76 | finishing a queue operation restores the interrupt flag of the call |
| `KeyboardLock.FirstInFirstOut` | drivers/char/kb.c:152-189 | in every state of every run the popped characters are a prefix of the accepted ones and the at most 255 between are the ring's, in order |
| `KeyboardLock.CallIsAtomic` | drivers/char/kb.c:152-189 | in every run, every call that returns took the lock once and between taking and giving it back did to the queue found there exactly its part, nobody else touching it: a pop takes and returns the oldest character, or returns null on an empty queue; a push adds its character and returns true exactly when fewer than 255 are queued |
| `KeyboardLock.HolderAdvances` | include/lib/spinlock.h:42-61 | nothing others do changes the holder, it can always take its next step, and each one brings the release nearer |
| `Scheduling.NextUnique` | kernel/sched/scheduler.c:107-109 | there is one first unfinished task cyclically after the current one |
| `Scheduling.SelectionEndsExactly` | kernel/sched/scheduler.c:107-109 | stepping on from the current task comes to an unfinished one, within one round, exactly when there is one; otherwise it never does |
| `Scheduling.SelectionBringsNearer` | kernel/sched/scheduler.c:107-109 | a selection that passes over an unfinished task brings it strictly nearer |
| `Scheduling.Scheduler.CreateTask` | kernel/sched/scheduler.c:176-191 | a ready, unstarted task is appended, or nothing happens when the table is full |
| `Scheduling.Scheduler.InterruptHandler` | kernel/sched/scheduler.c:101-121 | the first unfinished task cyclically after the current one becomes current and is started if it was not |
| `Scheduling.Scheduler.TaskExit` | kernel/sched/scheduler.c:24-48 | halts exactly when no other task is unfinished, and otherwise selects like a tick |
| `Scheduling.EventChanges` | kernel/sched/scheduler.c:24-191 | all that a tick, an exit and a creation change: the selected task becomes running and started if it never ran, the exiting one finished, a new one is ready and unstarted while there are fewer than eight |
| `Scheduling.SelectedIsStarted` | kernel/sched/scheduler.c:24-121 | the task a tick selects has been started; the one an exit selects exactly if it had been before |
| `Scheduling.ExitSelectsUnstarted` | kernel/sched/scheduler.c:39-45 | an exit that switches to a task which never ran |
| `Scheduling.RunKeepsLived` | kernel/sched/scheduler.c:24-191 | over every run from an empty table each task is ready and unstarted, running and started, or finished |
| `Scheduling.FinishedForGood` | kernel/sched/scheduler.c:24-191 | over every run no task leaves the table and a finished one stays finished |
| `Scheduling.WaitShrinks` | kernel/sched/scheduler.c:101-121 | over every run each selection that misses a task uses up part of a wait below MAX_TASKS |
| `Scheduling.Fair` | kernel/sched/scheduler.c:101-121 | over every run of ticks, exits and creations a task that stays unfinished is selected within MAX_TASKS selections |
| `Division.BringDown` | lib/libc/stdlib.c:191-193 | the 64-bit shift loses no bit, even for divisors above 2^63 |
| `Division.Restore` | lib/libc/stdlib.c:191-197 | one round of restoring division keeps the partial quotient and remainder exact |
| `Division.UDivDi3` | lib/libc/stdlib.c:178-201 | the quotient of every 64-bit dividend and non-zero divisor |
| `Division.UModDi3` | lib/libc/stdlib.c:203-230 | the remainder of every 64-bit dividend and non-zero divisor |
| `Checksum.ResidueIsOnesSum` | drivers/net/netstack.c:115-131 | folding the plain sum gives the one's complement sum of the words added one at a time |
| `Checksum.Accumulate` | drivers/net/netstack.c:115-127 | the plain sum of the big-endian words, odd last byte included, without overflow of 32 bits |
| `Checksum.TotalByBytes` | drivers/net/netstack.c:115-127 | for every length the sum of the words is that of the bytes, 256-fold at even places and once at odd ones |
| `Checksum.OddIsPadded` | drivers/net/netstack.c:122-125 | an odd last byte counts as if a zero byte followed it |
| `Checksum.KnownSum` | drivers/net/netstack.c:115-134 | the numerical example of section 3 of RFC 1071 |
| `Checksum.Fold` | drivers/net/netstack.c:128-131 | terminates with the complement of the end-around-carry value |
| `Checksum.IpChecksum` | drivers/net/netstack.c:132-134 | the complemented one's complement sum for every message under 65536 bytes |
| `Checksum.UdpChecksum` | drivers/net/netstack.c:136-150 | pseudo header, built from the addresses, protocol 17 and the length, header and payload accumulated in turn check like one message |
| `Checksum.PseudoBytes` | drivers/net/netstack.c:137-144 | the twelve bytes: both addresses, a zero, protocol 17 and the length of header and payload in sixteen bits |
| `Checksum.PseudoSum` | drivers/net/netstack.c:137-146 | what they add to the sum |
| `Checksum.TotalConcat` | drivers/net/netstack.c:115-127 | accumulation composes over pieces when the first has even length |
| `Checksum.StoredChecksToZero` | drivers/net/netstack.c:115-134 | storing the checksum in its zeroed field makes a message of any length check to zero |
| `Checksum.UdpStoredChecksToZero` | drivers/net/netstack.c:136-150 | a datagram of any length whose zeroed field was filled with its checksum checks to zero together with its pseudo header |
| `Checksum.SingleWordError` | drivers/net/netstack.c:115-134 | two values of one word give the same checksum exactly when they are the two forms of zero and the rest is not all zero |
| `Ipv4Text.ParseIpv4` | drivers/net/netstack.c:32-62 | the number the text stands for, non-zero only for four dot-separated decimal fields of at most 255 |
| `Ipv4Text.U8ToDec` | drivers/net/netstack.c:70-83 | the byte's decimal digits at the place given, earlier characters kept |
| `Ipv4Text.FormatIpv4` | drivers/net/netstack.c:85-98 | the printed form and its terminator, at most fifteen characters |
| `Ipv4Text.DecimalLength` | drivers/net/netstack.c:70-83 | one digit below ten, two below a hundred, else three, and no leading zero |
| `Ipv4Text.DecimalIsShortest` | drivers/net/netstack.c:70-83 | no decimal field stands for the same number with fewer characters |
| `Ipv4Text.PrintThenParse` | drivers/net/netstack.c:32-98 | parsing what was printed gives the address back for every 32-bit address |
| `Dhcp.PutList` | drivers/net/netstack.c:479-481 | code, length and data at their place and every other byte kept |
| `Dhcp.PutU32` | drivers/net/netstack.c:473-478 | code, the length 4 and the value, and every other byte kept |
| `Dhcp.Be32Digits` | drivers/net/netstack.c:473-478 | the four bytes of a value, most significant first |
| `Dhcp.PutU8` | drivers/net/netstack.c:470-472 | code, the length 1 and the value, and every other byte kept |
| `Dhcp.ParseOpts` | drivers/net/netstack.c:482-504 | on every content: accepts exactly the magic cookie, stores the options found in order, reads only inside the area |
| `Dhcp.StoredExactly` | drivers/net/netstack.c:493-500 | which options are taken over and how much of them: the first byte of a message type, a server or subnet of four bytes, the first four of the routers and name servers |
| `Dhcp.ListEnds` | drivers/net/netstack.c:486-492 | without padding the list ends exactly at the end of the area, an end mark, or an option without a length or with more data than the area holds |
| `Dhcp.ScatteredIsFound` | drivers/net/netstack.c:486-502 | options with any padding before, between and behind them are found as without it |
| `Dhcp.LastWins` | drivers/net/netstack.c:490-502 | each output gets the last option of its code that passes its length guard, or stays |
| `Dhcp.EncodedIsFound` | drivers/net/netstack.c:470-504 | written options are found again, in order, whatever precedes them and follows the end mark |
| `Dhcp.WriteThenParse` | drivers/net/netstack.c:470-504 | parsing what was written gives each tracked output its last passing option |
| `Dhcp.WriteOptions` | drivers/net/netstack.c:514-520 | cookie, options and end mark written one after the other stand where the parser looks for them |
| `Dhcp.WriteAndParse` | drivers/net/netstack.c:470-504 | for every option list that fits, writing it and parsing the area gives each output the last option of its code that passes its guard, or leaves it |
| `Ext2.ClippedExactly` | fs/ext2/ext2.c:307-314 | the request is clipped to the end of the file exactly when offset plus size does not wrap; when it wraps all of it is read, past the end |
| `Ext2.DeliveredExactly` | fs/ext2/ext2.c:302-357 | nothing from the end of the file on, and before it exactly the bytes of the request in the first twelve blocks and, unless offset plus size wraps, in the file |
| `Ext2.BlocksFollow` | fs/ext2/ext2.c:168-170 | block 0 starts at sector 0 and each block right behind the one before it, in 32 bits |
| `Ext2.DiskByteExactly` | fs/ext2/ext2.c:168-180 | which byte of the disk each byte of a block is |
| `Ext2.FileByteExactly` | fs/ext2/ext2.c:320-348 | which byte each byte of a file is: zero in a hole, else that of the block its number leads to |
| `Ext2.Ext2Fs.ReadBlock` | fs/ext2/ext2.c:162-184 | success fills the block buffer with the block's bytes; with good reads it succeeds exactly when the block is on the disk |
| `Ext2.Ext2Fs.ReadFile` | fs/ext2/ext2.c:302-357 | the bytes delivered are the file's from the offset on, holes as zeros, the rest of the buffer kept; with good reads their number is the request clipped to the file and the twelve direct blocks |

## Left out

- Hardware: the ATA driver is a sector interface with a schedule of faults, the clock is a parameter of the create operations, and messages printed by the code are dropped.
- Port and MMIO drivers, video, serial, shell, FAT12 and user programs are not part of this model.
- Sectors are 512 bytes, and a volume is taken to be well-formed in its boot sector: it lies on a disk that 28-bit addresses reach, has no fixed root directory, and its table covers its clusters.
- Files.AddEntry: the directory's own chain is assumed well-formed; on a cyclic directory chain without a vacant slot the original walks for ever.
- Files.RemoveEntry: the same assumption on the directory's chain.
- Files.EnterOrRollBack: the same assumption on the directory's chain.
- Files.CreateFile: the same assumption on the directory's chain.
- Files.CreateDir: the same assumption on the directory's chain.
- Files.WriteCluster: in-range clusters only, the ones its callers pass; the original does not check the number.
- Volumes.Volume.LinkCluster: the chain is assumed well-formed; on a cyclic one the original walks for ever.
- Files.FindFile: the two allocations of the original are taken to succeed; either failure would mean not found.
- Files.DeleteFile: the ownership invariant is assumed of the directory at hand; the bytes of a damaged volume are covered by the cluster operations only. An entry with no cluster cannot be deleted, as in the original.
- `fat32_delete_dir` and `is_directory_empty`: their one-sector array does not match clusters of several sectors.
- `read_fsinfo`, `fat32_init_fs` and path handling only fill in fields and would add easy members.
- FileRead.ReadFileData: a buffer smaller than the request on a table whose loop goes round for ever, where the original does not end, or leads out of the table, where it reads entries the table does not have.
- Heap.KernelHeap.Malloc: the frames a request would take are assumed apart from the blocks in use and from the bitmap, which the original does not check; a request the list can serve needs no such assumption. What the code does without it is in HeapLimits, HeapBoot and HeapBitmap.
- Heap.KernelHeap.AddFrame: the same assumption; HeapLimits.GrowAsCoded is the step without it.
- HeapLimits.GrowAsCoded: a frame header that overwrites part of a link word is left to HeapLimits.TornWalk, since what follows hangs on bytes the allocator never wrote; on blocks that start at multiples of sixteen it cannot happen.
- HeapBitmap.OversizeAtBoot: stops when the search has found its block; the stores that split a block by a size it does not have are not modelled.
- HeapBoot.Retry: frame headers in the bitmap are the subject of HeapBitmap.
- Heap.KernelHeap.Free: pointers are the heap's own, and the neighbours to be joined are assumed neighbours in memory, which the original does not check; it always holds until a frame is appended. HeapJoins.FreeAsCoded is the call without that.
- Heap.KernelHeap.Realloc: stated for a live block of a heap to which no frame has been appended yet; the call itself may append one.
- Heap.KernelHeap.Session: runs that append no frame, in which only live blocks are resized.
- The heap lock: each allocator call is one step; the lock's own protocol is proved on the keyboard queue.
- KeyboardLock.FirstInFirstOut: scancode translation and the unused accessors `input_queue_get_last` and `input_queue_remove_last`, which take no lock, are outside the step system.
- Scheduling.Scheduler.InterruptHandler: stops before the context switch; with no unfinished task the original searches for ever. `terminate_process` is not part of this model.
- Division.UDivDi3: the divisor is not zero; for zero the original loops for ever.
- Division.UModDi3: likewise.
- Byte order of checksums on the wire: the functions are modelled, not the fields they are assigned to.
- Ipv4Text.ParseIpv4: the null pointer, which gives 0, has no counterpart.
- Ext2.Ext2Fs.ReadFile: block sizes are multiples of 512 below 65536; writing, directories and inode lookup are not part of this model.
