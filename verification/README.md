# Verification model of the PowerMac NT HAL, its ARC firmware and its image builders

The repository is a from-source Windows NT 4.0 HAL for the Apple Network Server, an ARC firmware
that boots it, and the host tools that build its disks and images. This project models the parts of
it that keep a structure consistent or run a protocol, and proves what they are for.

| file | part of the system |
|---|---|
| `Words.dfy`, `Arithmetic.dfy`, `Blocks.dfy`, `Counting.dfy` | bytes and 32-bit words, little-endian fields, a few facts about quotients, byte strings made of equal blocks, counting |
| `FatReader.dfy`, `FatOpen.dfy` | the firmware's FAT12/16/32 reader: sector cache, remembered chain cursor, merged reads, directory search, opening a path |
| `BootFloppy.dfy`, `FloppyRoundTrip.dfy` | the FAT12 image builder, and the proof that the firmware reads back what it wrote |
| `FatPut.dfy`, `FatPutSafety.dfy` | the tool that replaces a file of a FAT16 volume in place, and what it leaves alone |
| `FatPutReads.dfy` | what the firmware finds on a volume after that tool: every path, the new file and the old ones |
| `Geometry.dfy` | the tool that chooses a FAT16 geometry, against the firmware's reading of its boot sector |
| `ArcDisk.dfy` | the disks that tool makes, as the firmware and the HAL find them |
| `Partitions.dfy`, `PartitionWrite.dfy` | the HAL's partition-table routines: two walkers, the type change, the writer and the round trip |
| `Interrupts.dfy` | the interrupt-level protocol of IRQLs, masks, nested interrupts and the decrementer |
| `AdbRing.dfy` | the packet ring between the Cuda interrupt and its DPC |
| `MemoryMap.dfy` | the firmware's memory descriptors |
| `Carve.dfy` | the ranges the HAL carves out of the loader's descriptor list |
| `Dma.dfy` | physically contiguous runs of a transfer |
| `EnvStore.dfy` | the packed ARC environment |
| `ArcPath.dfy` | the ARC configuration tree, its path printer and its lookup |
| `Reloc.dfy` | base relocations of the PE images |
| `Letters.dfy` | drive-letter assignment |
| `Clock.dfy` | the 64-bit division and the real-time clock |

Each routine that changes state is a method over the same state (fields, linked nodes, arrays, a
ring), proved against a specification function; the theorems are lemmas about those functions or
about every run of a state machine. Disks and images are byte sequences, a device read is a read of
them, and a read of a bad or missing sector fails; a partitioned disk is
what I/O of the caller's sector size finds on the drive. `ULONG` arithmetic is written with its wrap-around
wherever it can wrap. Formats follow Microsoft's FAT specification (fatgen103), sections "FAT Type
Determination" and "FAT Directory Structure", and section 5.6 of the Microsoft Portable Executable
and Common Object File Format Specification, revision 8.

Where code and intention part, the model keeps the code and says exactly when the intention holds:

* `HalpFindPartition` counts recognised slots of length zero, which a filtered layout skips
  (`FilteredNumbersAgreeIff`, with an example in `FilteredNumbersDiffer`).
* An unused slot of an extended boot record is read back with the position of its own table, not 0
  (`WriteThenRead`).
* A DMA address in system space is measured from the buffer's first byte instead of its first page
  (`SystemAddressIsExactIff`, `SystemAddressMisses`), and an offset equal to the buffer's end can
  index one past the page array (`PageIndexInArray`, `IndexPastPages`).
* An environment name with an '=' can be set and never read (`SetThenGetIff`): it adds one more
  variable of the name before the '=' (`SetWithEqualsSign`, `HistoryRefinesQueues`); and a set that is
  refused for space has already removed the old value (`SetRefinesMapIff`).
* The FAT16 tool loses the data of a file that had no cluster (`ChainIsFoundIff`,
  `EmptyChainMislinks`).
* `ADDR16_HI` fields survive a move exactly when the low halves do not carry (`PatchIsRelinkIff`,
  `SectionRelinksIff`).
* A printed ARC path finds its node exactly when no earlier sibling on the way has the same name and
  key (`PathFindsNodeIff`).
* A printed ARC path that was cut to its buffer never finds its node (`FittedPathFindsNodeIff`).
* A file whose chain is shorter than its size is read up to the chain's end and then fails with the
  cursor left at cluster 0 (`ReadOfChain`). The next read in the last cluster returns other bytes
  than the file's (`ReadAfterFailure`), from another place on the disk unless that is exactly 2^32
  sectors away (`LostCursorIsElsewhereIff`); a read before it finds its way back.
* `dir_lookup` never ends exactly on a directory whose chain comes back on itself past the name
  (`EndlessIff`, with an example in `LoopingDirectory`), and `fat_open` exactly on a path that leads
  into one (`PathEndlessIff`).
* Sector 0xFFFFFFFF doubles as the label of an empty cache; nothing comes of it, because whenever
  `dir_lookup` reads a sector the cache holds the one it is labelled with (`SearchSectors`).
* The dispatcher stops an unwanted source with interrupts open: its update of the registered sources
  undoes what nested interrupts changed in between, and leaves the mask inexact exactly when that was
  above the level (`StopIsAtomicIff`, with an example in `StopIsUndone`). The levels of nested
  interrupts are not affected (`RunKeepsInv`).
* `memory_note_claim` leaves out the last page of a program whose base is not on a page boundary and
  whose bytes do not fit the pages counted from there (`ClaimHoldsProgramIff`,
  `ClaimMissesByte`).
* The comment at `src/misc.c:251-254` speaks of one partition per disk and of a partition reader that
  is a stub; the code scans every table, and the model follows the code.

## Model

| member | source | states |
|---|---|---|
| FatReader.FatFile.PartSector | src/arcfw/fat.c:46-56 | returns the sector the cache is labelled with, or the disk's: the disk's in every case but sector 0xFFFFFFFF of a cache that is empty, which wears that label |
| FatReader.FatFile.ReadFatByte | src/arcfw/fat.c:58-65 | a byte of whatever sector that is |
| FatReader.FatFile.FatNext | src/arcfw/fat.c:67-92 | the successor of a cluster in a FAT12, FAT16 or FAT32, with end marks and out-of-range links both ending the chain, is the disk's, whatever is cached |
| FatReader.Follows12 | src/arcfw/fat.c:72-77 | a FAT12 link is the 12 bits at byte c + c / 2 of the FAT, and 0 for an end mark, a cluster below 2 or one past the volume's |
| FatReader.Follows16 | src/arcfw/fat.c:78-82 | a FAT16 link is the little-endian two bytes at 2 * c, under the same rule |
| FatReader.Follows32 | src/arcfw/fat.c:83-90 | a FAT32 link is the low 28 bits of the four bytes at 4 * c, under the same rule |
| FatReader.FatFile.SeekCluster | src/arcfw/fat.c:253-259 | moving the cursor to any index, backwards included, ends where following the FAT ends, from the cursor or from the start: on the cluster, at the end of the chain with the cursor at cluster 0, or at a sector of the FAT that cannot be read |
| FatReader.FatFile.ExtendRun | src/arcfw/fat.c:260-270 | the merged run is made of clusters the FAT links by their numbers, and its length is exactly theirs |
| FatReader.FatFile.ReadRun | src/arcfw/fat.c:251-276 | one pass delivers a front part of what reading cluster by cluster delivers and leaves the cursor where the rest follows, or fails where that fails |
| FatReader.FatFile.FatRead | src/arcfw/fat.c:238-278 | from any cursor, on any chain, short, looping or lost: status, bytes and cursor are those of reading one cluster after another, merged reads and cache notwithstanding; only where a sector of the FAT cannot be read may fewer bytes arrive; a raw read returns the partition's bytes or fails past the disk |
| FatReader.RunIsClusters | src/arcfw/fat.c:260-272 | one disk read over a run of clusters delivers what reading them one by one does |
| FatReader.ReadOfChain | src/arcfw/fat.c:251-276 | reading from any place on its chain returns that slice of the file when the chain reaches that far, and otherwise all the chain has, with the cursor left at the last index and no cluster |
| FatReader.ReadStaysOnChain | src/arcfw/fat.c:238-278 | one read of a file from any place on its chain returns its slice and leaves the cursor on the chain |
| FatReader.ReadsReturnSlices | src/arcfw/fat.c:238-278 | any number of reads of one open file, forwards and backwards, return each its slice, and the cursor is the chain's cluster of its index after every one |
| FatReader.ReadsBeforeLast | src/arcfw/fat.c:238-278 | of a file whose chain is too short, any reads return their slices as long as they end before the last cluster, whatever failed before them |
| FatReader.FatFile.ReadEach | src/arcfw/fat.c:238-278 | the routine called again and again on one open file gives every call its slice |
| FatReader.EveryFileHasChain | src/arcfw/fat.c:253-257 | every file whose first cluster is one of the volume's has such a chain: it ends, or goes on past the file, looping if need be |
| FatReader.ReadAfterFailure | src/arcfw/fat.c:252-272 | after that failure a read before the last cluster returns the right bytes again; one in the last cluster returns what is at cluster 0; one further on goes where the FAT entry of cluster 0 leads |
| FatReader.LostCursorIsElsewhereIff | src/arcfw/fat.c:94-94 | cluster 0 is another place on the disk than the last cluster of the chain, unless they are exactly 2^32 sectors apart |
| FatReader.RunReadsFile | src/arcfw/fat.c:260-272 | consecutive clusters are on the disk the bytes they are in the file |
| FatOpen.MakeName83 | src/arcfw/fat.c:96-107 | the two copying loops compute the padded upper-case 8.3 form, and refuse exactly the names that have none |
| FatOpen.Name83Iff | src/arcfw/fat.c:96-107 | a name has an 8.3 form exactly with at most eight characters and no dot, or one dot with at most eight before and three behind it; which byte of the form is which character |
| FatOpen.SearchSector | src/arcfw/fat.c:120-130 | the entry loop finds the first live entry of the name in a sector, or the directory's end |
| FatOpen.ScanReads | src/arcfw/fat.c:121-129 | what each entry means to a lookup, byte by byte: the directory's end, deleted, label or long name, another name, or this cluster, size and kind |
| FatOpen.SearchSectors | src/arcfw/fat.c:116-131 | the sector loop, through the cache, equals the scan of the sectors on the disk, sector 0xFFFFFFFF included: the cache is never empty there |
| FatOpen.SearchDirectory | src/arcfw/fat.c:110-137 | ends with the cache-free answer on every directory but those whose chain comes back on itself past the name |
| FatOpen.EndlessIff | src/arcfw/fat.c:132-136 | the search never ends exactly when the chain comes back to a cluster it has been at and no cluster of it holds the name or the directory's end; as many links as the volume has clusters decide it |
| FatOpen.ChainThatEnds | src/arcfw/fat.c:132-136 | a chain that ends, or cannot be read on, is searched to an end |
| FatOpen.LoopingDirectory | src/arcfw/fat.c:115-137 | a directory that is searched forever for any name: one cluster of deleted entries, next to itself |
| FatOpen.LookupInChain | src/arcfw/fat.c:110-137 | a lookup along a chain is the scan of what the chain holds, on FAT12, FAT16 and FAT32 |
| FatOpen.LookupFindsFirst | src/arcfw/fat.c:120-130 | it returns the first live entry of the name in what the directory's chain holds, and ENOENT exactly when there is none before the directory's end |
| FatOpen.MoreTurnsSame | src/arcfw/fat.c:132-136 | a lookup that ends at all has one answer, however long the chain was allowed to be |
| FatOpen.SelectPartition | src/arcfw/fat.c:142-164 | whole disk, boot sector as partition 1, or the n-th nonempty non-container slot, with every refusal; the cache never outlives the move to another partition |
| FatOpen.PartitionIsSlot | src/arcfw/fat.c:157-163 | on a disk with a table, partition N is the slot with N - 1 used ones before it, at the start its bytes 8 to 11 say, and there is none without such a slot |
| FatOpen.OtherPartitions | src/arcfw/fat.c:149-156 | partition 0 is the disk; a disk that starts with a boot sector is its own partition 1; without 0x55 0xAA there is none |
| FatOpen.GeometryReads | src/arcfw/fat.c:193-204 | every field of the volume from the bytes of the boot sector, FAT32's root cluster included, and exactly which boot sectors are refused |
| FatOpen.FindSlot | src/arcfw/fat.c:157-162 | the counting loop over the four slots stops at the part-th one that is neither empty nor an extended container |
| FatOpen.OpenFile | src/arcfw/fat.c:184-230 | opening equals the specification of partition, geometry and path in every outcome, on every disk where no directory of the path is searched forever, and leaves the cursor on the file's first cluster |
| FatOpen.PathEndlessIff | src/arcfw/fat.c:209-224 | opening a path never ends exactly when some front part of it leads to a directory that loops past the component behind it |
| FatOpen.WalkPath | src/arcfw/fat.c:207-227 | the component loop: doubled separators, a file used as a directory, a directory used as a file |
| FatOpen.ComponentsAre | src/arcfw/fat.c:207-213 | the next name is what stands behind any number of backslashes, up to the next one, the end or the 63rd character |
| FatOpen.WalkAnswers | src/arcfw/fat.c:214-224 | ENOTDIR for a file on the way, EISDIR for a directory or nothing at the end, and any lookup's own failure |
| BootFloppy.SetChangesOneEntry | tools/mkbootfloppy.py:47-57 | writing a nibble-packed FAT12 entry reads back as written and leaves every other entry as it was |
| BootFloppy.NamesAgree | tools/mkbootfloppy.py:60-72 | a name the builder accepts has the same 11 bytes in the builder and in the firmware's reader |
| BootFloppy.ShortNameIff | tools/mkbootfloppy.py:60-72 | exactly which names the builder takes |
| BootFloppy.DirEnt | tools/mkbootfloppy.py:103-112 | the fields of an entry are found where a FAT reader looks for them |
| BootFloppy.Fat12.constructor | tools/mkbootfloppy.py:76-87 | an empty volume: the media byte and the end mark in the two reserved FAT entries, every cluster free, cluster 2 next |
| BootFloppy.Fat12.LinkClusters | tools/mkbootfloppy.py:95-97 | the linking loop chains the new clusters and leaves every earlier chain intact |
| BootFloppy.Fat12.Allocate | tools/mkbootfloppy.py:89-101 | fails exactly when the clusters do not fit, changing nothing; otherwise the file's data and chain are added beside all earlier ones |
| BootFloppy.Fat12.Subdir | tools/mkbootfloppy.py:114-123 | succeeds exactly when a cluster is left, the entries fit one cluster and the name is 8.3; the directory then holds '.', '..' and the entries |
| BootFloppy.DotsSay | tools/mkbootfloppy.py:117-117 | '.' is the directory itself, '..' the root, both marked directories |
| BootFloppy.Fat12.Finish | tools/mkbootfloppy.py:125-146 | refuses exactly an overfull root; otherwise the image holds boot sector, both FATs, root and the data written before |
| FloppyRoundTrip.FinishedIsImage | tools/mkbootfloppy.py:137-146 | finishing overwrites no file |
| FloppyRoundTrip.OpensAsFat12 | tools/mkbootfloppy.py:125-137 | the firmware reads the builder's boot sector as partition 1, FAT12, with the builder's regions |
| FloppyRoundTrip.NextOn | src/arcfw/fat.c:67-92 | the reader's decoding of every FAT12 entry on the image inverts the builder's packing |
| FloppyRoundTrip.AllocIsFile | tools/mkbootfloppy.py:94-100 | what alloc stored and chained is, to the reader, a file with exactly those bytes |
| FloppyRoundTrip.RootLookup | src/arcfw/fat.c:110-131 | a findable name in the finished root directory is found with its cluster and size |
| FloppyRoundTrip.SubLookup | src/arcfw/fat.c:110-137 | the same one directory down, behind '.' and '..' |
| FloppyRoundTrip.TreeReadsBack | src/arcfw/fat.c:184-230 | whatever was allocated in whatever order: every file the directories lead to, from the root down to any depth, opens under its path with its size and bytes |
| FloppyRoundTrip.AddFiles | tools/mkbootfloppy.py:754-770 | the main program's loop succeeds exactly when every name is 8.3 and the clusters fit; every file gets its own allocation and its entry in its directory |
| FloppyRoundTrip.BuildImage | tools/mkbootfloppy.py:754-822 | files for both directories in any order, the last one second in the root: an image results exactly when everything fits; its FAT copies agree, its root starts with those two entries, and with distinct names every file of it reads back under its path |
| FloppyRoundTrip.FloppyReadsBack | tools/mkbootfloppy.py:819-822 | on the finished floppy every file of the main program reads back |
| FloppyRoundTrip.ReadFile | src/arcfw/fat.c:184-278 | opening a file of a built image and reading it any number of times, at any positions in any order, returns each time exactly its bytes there |
| FatPut.SetNextChangesOne | tools/fatput.py:67-68 | writing a FAT16 entry changes that entry alone |
| FatPut.ChainIsRead | tools/fatput.py:61-65 | the loop bound of 1 << 20 never cuts an acyclic chain short: chain() returns it whole |
| FatPut.FreeCountIs | tools/fatput.py:70-78 | the scan lists every free cluster of the volume, and each once |
| FatPut.Fat16.Chain | tools/fatput.py:61-65 | the loop equals the recursive walk, including the link that leaves the FAT |
| FatPut.Fat16.SetLink | tools/fatput.py:67-68 | sets exactly one entry of the FAT in memory |
| FatPut.Fat16.FreeClusters | tools/fatput.py:70-78 | the lowest free clusters in order, or none at all when there are too few |
| FatPut.Fat16.FlushFat | tools/fatput.py:80-83 | writes the FAT over each copy on the disk |
| FatPut.Fat16.Resize | tools/fatput.py:89-101 | grows, cuts or keeps the chain, or changes nothing when free clusters are short |
| FatPut.Fat16.WriteFile | tools/fatput.py:85-108 | the whole of the rewrite behind the directory lookup; on a full disk or a broken chain neither the image nor the FAT has changed |
| FatPutSafety.ResizedIsChain | tools/fatput.py:88-101 | the resized chain is whole, acyclic, of the length asked for, and starts where the file did |
| FatPutSafety.ResizeKeepsChains | tools/fatput.py:88-101 | every other chain survives and stays disjoint from the resized one |
| FatPutSafety.ResizeCountsFree | tools/fatput.py:70-101 | it fails exactly when free clusters are short, and otherwise their number changes by exactly what the file gained or lost |
| FatPutSafety.ChainIsFoundIff | tools/fatput.py:86-101 | the directory entry leads to the resized chain exactly when it named a cluster before: a file with no cluster is where the tool goes wrong |
| FatPutSafety.EmptyChainMislinks | tools/fatput.py:92-93 | growing an empty chain links the new clusters to themselves |
| FatPutSafety.NeedIsLeast | tools/fatput.py:87-88 | the cluster count is the least that holds the data, and at least one |
| FatPutSafety.SmallestVolumeIsSound | tools/fatput.py:70-101 | what these theorems demand of a volume is met, down to three clusters, and the rewrite succeeds there |
| FatPutSafety.FileReadsBack | tools/fatput.py:85-108 | after the rewrite the file's chain reads back as the data padded with zeros and its entry holds the size |
| FatPutSafety.OthersReadBack | tools/fatput.py:85-108 | every other file reads back as before; a directory holding the entry shows only the new size |
| FatPutSafety.CopiesAgree | tools/fatput.py:80-104 | every FAT copy on the disk is the new FAT |
| FatPutSafety.WriteChangesOnly | tools/fatput.py:80-106 | no byte outside the FATs, the file's clusters and the size field changes |
| FatPutReads.OpensSame | src/arcfw/fat.c:193-204 | the firmware and the tool take a FAT16 boot sector for the same volume |
| FatPutReads.ChainSame | src/arcfw/fat.c:78-90 | a whole chain of the tool's FAT is a whole chain to the firmware |
| FatPutReads.ContentsSame | src/arcfw/fat.c:94-94 | and holds the same bytes |
| FatPutReads.RewrittenFileReads | tools/fatput.py:85-108 | the rewritten file's chain, as the firmware follows it, covers the file and holds its bytes |
| FatPutReads.OtherFileReads | tools/fatput.py:85-108 | every other chain is followed as before and holds what it held, the new size in the one entry aside |
| FatPutReads.LookupAfter | src/arcfw/fat.c:110-137 | every lookup in every sound directory finds what it found, the rewritten file's entry with its new size |
| FatPutReads.PathAfter | src/arcfw/fat.c:205-222 | every path of sound directories leads where it led |
| FatPutReads.MountAfter | src/arcfw/fat.c:184-204 | the volume is mounted as before |
| FatPutReads.RewrittenFileOpens | src/arcfw/fat.c:184-278 | fatput and then the firmware: the file opens under its path with its new size, and any reads of it in any order return the data put there |
| FatPutReads.OthersOpen | src/arcfw/fat.c:184-230 | any other path opens as before, a file with its first cluster or the same refusal |
| Partitions.IoReadPartitionTable | src/disk.c:128-211 | status, entries and signature of every disk, looping and damaged chains included, are those of the walk over its tables |
| Partitions.ReadTable | src/disk.c:175-206 | the slot loop describes each slot from the right origin and follows the last link |
| Partitions.FullLayoutIsSlots | src/disk.c:175-206 | an unfiltered layout has exactly four entries per table, in order, sixteen tables at most |
| Partitions.EntryReads | src/disk.c:175-206 | every field of an entry from the sixteen bytes of its slot and its table's place |
| Partitions.KindsAre | src/disk.c:61-74 | which of the 256 types are recognised, and which are links |
| Partitions.WalkGoes | src/disk.c:157-210 | from a table to the next by its last link, from sector 0 or from the outermost extended partition; where the walk stops |
| Partitions.LoopIsCut | src/disk.c:207-210 | a chain that loops is cut at its 65th table |
| Partitions.FindPartition | src/disk.c:229-258 | the second walker returns the table and slot of the number-th recognised partition, or the reason its walk ended when there is none |
| Partitions.EndGoes | src/disk.c:229-258 | which failure it reports: a sector it cannot read, one that is no table, or the end of the walk |
| Partitions.WalkersAgree | src/disk.c:128-258 | on every disk, the entry the unfiltered layout numbers N is the slot the second walker finds for N |
| Partitions.FilteredNumbersAgreeIff | src/disk.c:188-206 | the filtered layout's number leads the second walker to the same slot exactly when no recognised slot of length zero comes before |
| Partitions.FilteredNumbersDiffer | src/disk.c:188-247 | a table of two partitions, the first empty, where the numbers part |
| Partitions.IoSetPartitionInformation | src/disk.c:267-286 | changes exactly one byte of one table, on success alone, and otherwise reports why |
| Partitions.SetInformationRereads | src/disk.c:267-286 | with a recognised type the disk reads back as the same layout but for that type |
| Partitions.SetInformationChangesOne | src/disk.c:267-286 | unless the chain repeats a table, only the entry asked for changes |
| PartitionWrite.IoWritePartitionTable | src/disk.c:301-393 | each group is laid over its sector's old contents and the links are followed, with the status of any failed write |
| PartitionWrite.FillTable | src/disk.c:342-382 | the buffer work for one table: signature, cleared slots, used entries from two different origins, magic |
| PartitionWrite.EntryBytesAre | src/disk.c:346-382 | the sixteen bytes of a slot, one by one |
| PartitionWrite.SlotIsFilledIff | src/disk.c:350-354 | a slot is filled exactly for an entry with a type and at least one sector |
| PartitionWrite.WriteLaysTables | src/disk.c:334-390 | writing a well-formed layout succeeds, puts each table in its own sector and changes no other |
| PartitionWrite.LinksReadBack | src/disk.c:357-366 | the links written lead a reader to the tables the layout names |
| PartitionWrite.ReaderFollowsWriter | src/disk.c:157-210 | reading visits exactly the tables written, in order |
| PartitionWrite.WriteThenRead | src/disk.c:301-393 | every used entry comes back with its start, length, type, boot flag and number, four entries to a table, and the signature; an unused slot comes back as nothing at its own table's position |
| PartitionWrite.WriteAndRead | src/disk.c:128-393 | the two routines one after the other succeed and return that layout and the signature |
| PartitionWrite.WholeSectorsComeBack | src/disk.c:346-368 | entries that are whole sectors come back to the byte |
| PartitionWrite.WriteKeepsTheRest | src/disk.c:338-344 | bytes outside signature, table and magic, and all other sectors, are preserved |
| Interrupts.StepKeepsInv | src/ints.c:111-187 | every call, interrupt and return keeps: interrupts open only below CLOCK2_LEVEL and only to sources above the current level, and nested levels strictly rising |
| Interrupts.RunKeepsInv | src/ints.c:111-187 | the same over every run of calls, interrupts and returns |
| Interrupts.StepKeepsExactIff | src/ints.c:111-187 | every step keeps the mask exactly the registered sources above the level, but for the store that stops an unwanted source, exactly when what was loaded for it is no longer, above the level, what is registered |
| Interrupts.RunKeepsExact | src/ints.c:111-187 | on every run without such a store the mask is exact throughout |
| Interrupts.StopIsAtomicIff | src/ints.c:162-181 | a handler stops its source while interrupts come, do anything and return: what is registered afterwards is what was at the load, without the source; the mask is exact again exactly when the interrupts left alone what is registered above the level, and nothing of theirs is undone exactly when they left alone everything but the source |
| Interrupts.StopIsAtomic | src/ints.c:162-181 | interrupts that connect, disconnect and stop no source are such: load, interrupts and store together remove the source and change nothing else |
| Interrupts.StopIsUndone | src/ints.c:181-181 | it can go wrong: a source stopped by a nested interrupt in between is registered again, and not open |
| Interrupts.NestedInterruptIsHigher | src/ints.c:155-158 | in every reachable state what is taken is strictly above what it interrupts, so the clamp marked 'should not happen' is dead |
| Interrupts.DeliverableIffAbove | src/ints.c:137-152 | with interrupts open the machine is interrupted for exactly the events with a registered source above the level, exactly as long as the mask is exact |
| Interrupts.RaiseMeans | src/irql.c:13-25 | a raise is refused below the level; otherwise the level is the new one, below 28 open to exactly the registered sources above it, from 28 on closed |
| Interrupts.LowerMeans | src/irql.c:27-38 | the same for lowering, refused above the level |
| Interrupts.RegisterMeans | src/ints.c:111-134 | vectors 32 to 63 connect and disconnect their source and nothing else, leaving the level, and open what is above it |
| Interrupts.InterruptMeans | src/ints.c:143-162 | an interrupt runs at its source's level, open to exactly what is above that; masked events change nothing |
| Interrupts.ClockMeans | src/clock.c:33-39 | the clock runs at level 28 with interrupts closed |
| Interrupts.LevelsAre | src/ints.c:20-23 | the level of every source, by rule |
| Interrupts.TiesBreak | src/ints.c:151-154 | two sources of one level: the higher wins as the highest pending, else the lower |
| Interrupts.NestingIsBounded | src/ints.c:20-23 | nesting is at most one interrupt per device level and the clock on top |
| Interrupts.ReturnRestores | src/ints.c:182-187 | after everything a handler does, its return restores the interrupted level with that level's mask over what is registered now |
| Interrupts.Hal.constructor | src/ints.c:95-101 | initialisation starts the protocol with nothing registered and everything masked |
| Interrupts.Hal.InitPriorityMask | src/ints.c:32-40 | the table holds, for each level, exactly the sources above it |
| Interrupts.Hal.KeRaiseIrql | src/irql.c:13-25 | is one raise step of the protocol, bugchecking exactly on a lowering |
| Interrupts.Hal.KeLowerIrql | src/irql.c:27-38 | is one lower step of the protocol, bugchecking exactly on a raising |
| Interrupts.Hal.HalEnableSystemInterrupt | src/ints.c:111-123 | connects a source from any level in one step of the protocol, never bugchecking |
| Interrupts.Hal.HalDisableSystemInterrupt | src/ints.c:125-134 | disconnects a source from any level in one step of the protocol |
| Interrupts.Hal.ExternalEntry | src/ints.c:137-162 | takes an interrupt: spurious, or the picked source at its level with interrupts open again |
| Interrupts.Hal.LoadRegistered | src/ints.c:181-181 | the load of the update that stops a source is one step of the protocol |
| Interrupts.Hal.StoreWithout | src/ints.c:181-181 | and its store another, with interrupts open in between |
| Interrupts.Hal.ExternalExit | src/ints.c:182-187 | returns to the level that was interrupted |
| Interrupts.Hal.DecrementerEntry | src/clock.c:33-39 | the clock interrupt runs at CLOCK2_LEVEL with every device masked |
| Interrupts.SelectLine | src/ints.c:151-154 | picks the highest level, and among equals the highest-numbered pending source if it is one of them, else the lowest-numbered |
| AdbRing.StepKeepsInv | src/cuda.c:277-326 | each step of producer or consumer keeps the ring's invariant |
| AdbRing.EveryInterleavingIsFifo | src/cuda.c:277-326 | with the interrupt preempting the DPC anywhere: deliveries are a prefix of what was accepted, accepted and dropped add up to what arrived, at most 63 wait, and no wake-up is lost |
| AdbRing.ServiceParks | src/cuda.c:297-313 | an interrupt parks exactly the ADB packets presented, without their first byte and in order, as long as they fit, and queues the DPC if there were any |
| AdbRing.ServiceLeaves | src/cuda.c:297-307 | a packet that finds 63 waiting is dropped and counted; what is behind the 64th reply stays for the next interrupt |
| AdbRing.HeldSlotIsStable | src/cuda.c:321-324 | the slot in delivery is never overwritten |
| AdbRing.DrainDeliversAll | src/cuda.c:321-325 | once interrupts stop, one run of the DPC hands over everything accepted |
| AdbRing.Ring.CudaService | src/cuda.c:277-314 | the interrupt's loop is the producer step: at most 64 packets, parked or counted as dropped, the DPC queued if any was parked; before set-up, or while a request has the port, nothing happens |
| AdbRing.Ring.AcceptReply | src/cuda.c:298-311 | one packet: not ADB, ring full, or parked at the tail |
| AdbRing.Ring.TestRing | src/cuda.c:321-321 | the DPC's loop test |
| AdbRing.Ring.DeliverHead | src/cuda.c:322-323 | the packet handed over is the oldest waiting |
| AdbRing.Ring.AdvanceHead | src/cuda.c:324-324 | the slot is freed after delivery |
| AdbRing.Ring.AdbDpcRoutine | src/cuda.c:317-326 | the DPC left alone delivers everything and leaves the ring empty |
| MemoryMap.EncodedIsExact | src/arcfw/memory.c:24-34 | the merged list expands to the pages it was made from and has no mergeable neighbours |
| MemoryMap.CanonicalIsEncoded | src/arcfw/memory.c:24-34 | there is no other such list |
| MemoryMap.InstalledOnce | src/arcfw/memory.c:80-97 | with regions in ascending order every installed page appears exactly once, with its type |
| MemoryMap.InstalledIff | src/arcfw/memory.c:80-81 | a page is listed exactly when a region of installed memory holds it |
| MemoryMap.TypesAre | src/arcfw/memory.c:40-58 | the type of every page, by what is available and what was loaded: the first ten permanent, free only below 8 MB |
| MemoryMap.Map.NoteClaim | src/arcfw/memory.c:65-68 | the pages noted are as many as the size needs, counted from the base rounded down |
| MemoryMap.ClaimHoldsProgramIff | src/arcfw/memory.c:65-68 | they hold every byte of the program exactly when what is before its first byte on that byte's page still fits |
| MemoryMap.ClaimMissesByte | src/arcfw/memory.c:65-68 | two bytes on either side of a page boundary, of which the second is left out |
| MemoryMap.Map.Add | src/arcfw/memory.c:24-34 | extends the list by a block of pages, merging with the last descriptor, or halts exactly past 64 |
| MemoryMap.Map.NextCut | src/arcfw/memory.c:40-58 | each stretch cut off is nonempty and of one type throughout |
| MemoryMap.Map.TypeRange | src/arcfw/memory.c:37-62 | types every page of a range by the page-wise policy, always progressing |
| MemoryMap.Map.MemoryInit | src/arcfw/memory.c:70-99 | the descriptors are the unique encoding of every installed page with its policy type; it halts exactly when that needs more than 64 |
| MemoryMap.Map.MemoryNext | src/arcfw/memory.c:101-108 | the descriptor after the one given, the first after none, none after the last |
| MemoryMap.ListsEveryDescriptor | src/arcfw/memory.c:101-108 | asking from nothing on until there is none lists every descriptor once, in order |
| Carve.CarveIsExact | src/oemdisk.c:50-79 | a carve keeps ranges disjoint and the page total, retypes exactly [lo, hi) when a descriptor of an accepted type covers it, and changes nothing otherwise |
| Carve.BothCarvesCompose | src/init.c:114-149 | the aperture's carve and then the disk's: both ranges get their types and the rest keeps its own, also when the second splits the first one's tail |
| Carve.PhaseZeroMeans | src/init.c:98-149 | in the loader's own numbers: which pages end up of type 6 and of type 22, and that all others keep theirs |
| Carve.CoverAboveSurvives | src/init.c:130-143 | a range above the first carve can be carved afterwards exactly when it could before |
| Carve.LinksAreInverse | src/oemdisk.c:40-46 | in a linked list every entry is its successor's predecessor and its predecessor's successor |
| Carve.InsertAfter | src/oemdisk.c:40-46 | the list with the item inserted is linked again |
| Carve.Reserve | src/oemdisk.c:50-79 | the list walk and the in-place edits produce exactly the carved descriptors, still linked, and return the covering type |
| Carve.ReserveBoth | src/init.c:114-149 | both carves on one list |
| Dma.IoMapTransfer | src/dma.c:74-129 | from StartVa if that puts CurrentVa inside, else from the system address, else refused: the address is the page array's for that byte, and the length that of the longest run from there on, up to what was asked for and the buffer's end |
| Dma.BytesOfBuffer | src/dma.c:91-91 | the k-th byte of a buffer is byteOffset + k bytes past its first page |
| Dma.RunFrom | src/dma.c:106-126 | the growing loop finds that run for any alignment of the buffer |
| Dma.PageGuardIsImplied | src/dma.c:119-120 | the page-array guard never fires before the total guard |
| Dma.PageIndexInArray | src/dma.c:92-106 | the accepted offset one past the end indexes inside the page array exactly when the buffer does not end on a page boundary |
| Dma.IndexPastPages | src/dma.c:92-106 | a one-page buffer where it does not |
| Dma.ScatterListIsTheTransfer | src/dma.c:78-129 | asking until nothing is left touches every byte of the transfer once, in order, and no two neighbouring runs could have been one |
| Dma.SystemAddressIsExactIff | src/dma.c:91-95 | an address in system space is translated to the right byte exactly when the buffer starts on a page boundary |
| Dma.SystemAddressMisses | src/dma.c:91-95 | a buffer in the middle of a page, whose first byte is translated to the page's start |
| EnvStore.SetRefinesMapIff | src/misc.c:107-129 | one set or delete acts on the store as on a case-insensitive map, a refusal for space removing exactly the named variable, except exactly when a value is stored under a name with an '=' |
| EnvStore.HistoryRefinesMap | src/misc.c:107-129 | so does any sequence of calls that sets no value under such a name |
| EnvStore.HistoryRefinesQueues | src/misc.c:32-129 | any sequence of calls, whatever the names, acts on the store as on a map of queues: a call takes its name's first value away, and a value set goes behind those of the name up to the first '=' |
| EnvStore.ValueIsFirst | src/misc.c:59-68 | a lookup finds the first value of the queue |
| EnvStore.SetWithEqualsSign | src/misc.c:107-129 | setting a name with an '=' removes nothing and adds a variable of the name before it |
| EnvStore.SetThenGetIff | src/misc.c:32-43 | a value set can be read back exactly when its name has no '=' |
| EnvStore.RefusedIff | src/misc.c:115-121 | a value is refused exactly when the variables left after the removal, the new one and the terminator do not fit 2048 bytes |
| EnvStore.ShorterValueFits | src/misc.c:115-121 | setting a variable to a value no longer than its own never fails |
| EnvStore.SameNameIs | src/misc.c:32-43 | names are the same but for the case of a to z |
| EnvStore.Store.EnvNameIs | src/misc.c:32-43 | compares an entry's name, case-insensitively, without leaving the entry |
| EnvStore.Store.EnvUsed | src/misc.c:48-57 | finds the end of the packed entries |
| EnvStore.Store.EnvFind | src/misc.c:59-68 | finds the first entry of the name or none |
| EnvStore.Store.EntryEnd | src/misc.c:64-65 | the walk to an entry's terminator |
| EnvStore.Store.EnvRemove | src/misc.c:74-85 | takes exactly one entry out and leaves the array packed and zero behind |
| EnvStore.Store.CloseGap | src/misc.c:82-84 | moves the tail down and clears what it vacated |
| EnvStore.Store.GetVariable | src/misc.c:89-105 | returns the value, cut to the buffer with ENOMEM, touching no other byte of the buffer |
| EnvStore.Store.SetVariable | src/misc.c:107-129 | keeps the packed structure and has exactly the specified effect in every outcome |
| ArcPath.AtoulReadsDecimal | src/arcfw/string.c:18-24 | parsing inverts printing for every 32-bit number |
| ArcPath.AtoulIs | src/arcfw/string.c:18-24 | any digits, none included, read as the low 32 bits of their number |
| ArcPath.PartParses | src/arcfw/config.c:374-383 | a printed component parses back as its name and key |
| ArcPath.LongNameStops | src/arcfw/config.c:374-376 | a name of sixteen characters is no component |
| ArcPath.LoaderPath | src/arcfw/config.c:360-366 | the path of a disk the loader boots from, spelled out |
| ArcPath.PathIsRead | src/arcfw/config.c:369-394 | looking up a path with anything behind it goes through the path's own nodes first |
| ArcPath.PathFindsNodeIff | src/arcfw/config.c:369-402 | a node's printed path finds that node with nothing left over exactly when each node on the way is the first of its name and key among its siblings |
| ArcPath.FittedPathFindsNodeIff | src/arcfw/config.c:369-402 | cut to a buffer, exactly when moreover nothing was cut |
| ArcPath.PrintAndFind | src/arcfw/config.c:369-402 | on the linked tree: printing a node into a buffer and looking it up gives the node back under exactly those two conditions |
| ArcPath.PathAndRest | src/arcfw/config.c:369-402 | where siblings differ, a suffix that names no child is left exactly |
| ArcPath.PartitionPathFindsDevice | src/arcfw/config.c:383-383 | a path followed by partition(N), in either case, and a file finds the device and leaves that suffix |
| ArcPath.Config.NewNode | src/arcfw/config.c:24-39 | a new node goes behind its last brother and changes no other link |
| ArcPath.Config.Append | src/arcfw/config.c:34-37 | the walk over the peers ends at the last child, and only its link changes |
| ArcPath.Config.Find | src/arcfw/config.c:369-394 | the linked-list lookup equals the lookup on the tree |
| ArcPath.Config.FindChild | src/arcfw/config.c:384-388 | the first child of that name and key |
| ArcPath.ChildIs | src/arcfw/config.c:384-388 | the child found has the key and, case aside, the type's name, and none before it has both |
| ArcPath.SameNameIs | src/arcfw/string.c:10-10 | names are the same but for the case of a to z |
| ArcPath.Config.NodePath | src/arcfw/config.c:396-402 | the recursion writes the whole path, cut once to the buffer |
| ArcPath.EmitNum | src/arcfw/console.c:17-24 | digits collected backwards come out as the decimal number |
| ArcPath.NextComponent | src/arcfw/config.c:374-383 | the fifteen-character name buffer and the bracketed number |
| ArcPath.ParseNumber | src/arcfw/string.c:18-24 | the digit loop, wrapping at 32 bits |
| Reloc.EmitReloc | tools/elf2pe.py:296-312 | the section written for any fixups reads back as exactly them, in blocks on 32-bit boundaries |
| Reloc.SlotsAppend | tools/elf2pe.py:308-311 | slots decode one after another, the extra slot of HIGHADJ included |
| Reloc.DecodeAppend | tools/elf2pe.py:299-305 | blocks decode one after another |
| Reloc.CollectFixups | tools/elf2pe.py:229-239 | each ELF relocation becomes its fixup, is skipped, or stops the tool |
| Reloc.SitesAre | tools/elf2pe.py:229-239 | types 0, 10 and 11 need nothing, 1, 4, 5 and 6 are places with the value symbol + addend, any other stops the tool |
| Reloc.SlotSays | tools/elf2pe.py:308-311 | the kind in a slot's upper four bits, and HIGHADJ's second slot |
| Reloc.HalvesMakeValue | tools/elf2pe.py:233-237 | a high and a low field make the value, and so do a high-adjusted field and a sign-extended low one |
| Reloc.PatchIsRelinkIff | tools/elf2pe.py:233-237 | patching a field for a move equals linking there: always for ADDR32, LO and HA, and for HI exactly when the low halves do not carry |
| Reloc.AllPatchesAreRelinksIff | tools/elf2pe.py:233-237 | every field survives a move exactly when it is a multiple of 64 KB |
| Reloc.ApplyRelinksIff | tools/elf2pe.py:229-240 | applying all fixups of a linked image changes its fields only, and gives the image linked at the new base exactly when no plain high field's low half carries |
| Reloc.BuildReloc | tools/elf2pe.py:228-312 | collecting, sorting and emitting: the section names every site once, or the tool refuses a relocation |
| Reloc.SectionRelinksIff | tools/elf2pe.py:228-312 | decoding the bytes written for a linked image and patching what they name: the image linked at the new base exactly under that condition, no other byte changed |
| Geometry.Fat16Geometry | tools/mkarcdisk.py:45-67 | succeeds exactly on partitions of 4152 to 4194144 sectors, with the smallest cluster that fits FAT16's window, a FAT for all clusters and two more, and regions that fill the partition |
| Geometry.SettleFat | tools/mkarcdisk.py:55-61 | the FAT's size settles in the first refinement |
| Geometry.NeedIsAntitone | tools/mkarcdisk.py:57-58 | a larger FAT never needs a larger FAT |
| Geometry.SettlesAtOnce | tools/mkarcdisk.py:55-61 | and then holds an entry for every cluster and two more |
| Geometry.BootFields | tools/mkarcdisk.py:20-42 | the boot sector's fields are found where a FAT reader looks for them |
| Geometry.FirmwareAgrees | src/arcfw/fat.c:193-204 | the firmware computes the same regions and cluster count from that boot sector and takes it for FAT16 |
| ArcDisk.MakeDisk | tools/mkarcdisk.py:104-151 | a disk results exactly for at most four partitions that are on the disk and of a size FAT16 can have; it has the table, and partitions that do not overlap are all formatted |
| ArcDisk.Format | tools/mkarcdisk.py:119-143 | one partition: boot sector, two empty FATs, an empty root, nothing outside changed |
| ArcDisk.EmptyFatIs | tools/mkarcdisk.py:133-134 | the two reserved entries, every cluster free |
| ArcDisk.PartitionsAre | tools/mkarcdisk.py:122-132 | to the firmware, partition i + 1 is the i-th one made, where it was put, and there is none behind the last |
| ArcDisk.PartitionMounts | tools/mkarcdisk.py:119-143 | the firmware mounts every one as the FAT16 volume the tool laid out |
| ArcDisk.NothingThere | tools/mkarcdisk.py:142-143 | and finds nothing in it under any name |
| ArcDisk.HalReads | tools/mkarcdisk.py:122-132 | the HAL reads the partitions as asked for: start, length, type, recognised, numbered from 1, the first one bootable |
| ArcDisk.AllArePrimary | src/misc.c:306-339 | and takes all of them for primaries when it gives letters |
| Letters.HalpScanDisk | src/misc.c:306-339 | reading the layout in sectors of 512 bytes: the first 24 numbered entries, primary when among the first four; no partitions on a disk that cannot be opened or read |
| Letters.ScanCounts | src/misc.c:327-334 | as many partitions as the first 64 slots have recognised ones, but 24 at most |
| Letters.PrimaryIsMbr | src/misc.c:322-334 | the first four entries of an unfiltered layout are exactly the master boot record's slots |
| Letters.ScanNumbers | src/misc.c:327-334 | the n-th partition scanned is number n |
| Letters.OrderIsNts | src/misc.c:363-393 | the three passes visit every scanned volume exactly once: first primaries, then logical drives, then the other primaries, each by disk and place |
| Letters.LettersByKind | src/misc.c:363-392 | each disk's first primary before all logical drives, these before the other primaries, and within a kind by disk and place |
| Letters.LetterIs | src/misc.c:363-399 | the i-th link from C on and its device, 24 at most; Partition1 of a disk nothing was found on |
| Letters.ScannedIsPartition | src/misc.c:306-339 | the k-th partition scanned is partition k + 1: a recognised slot, the one the other walker finds under that number, and primary exactly when its table is the master boot record |
| Letters.LettersReachPartitions | src/misc.c:306-399 | from the disks to the letters: links are to distinct devices under rising letters, and each link to a scanned partition names its own recognised slot of the disk's tables, in the pass that slot belongs to |
| Letters.Assignment.IoAssignDriveLetters | src/misc.c:341-399 | floppies from A, then from C the volumes in that order and the CD-ROMs, consecutively while letters last; the boot letter is that of the boot device's link |
| Letters.Assignment.OneDisk | src/misc.c:379-391 | a pass letters exactly its own partitions of a disk |
| Clock.HalpDivU64 | src/misc.c:157-166 | is n / d for every 64-bit n and 32-bit d, and 0 for d == 0 |
| Clock.Cuda.GetTime | src/cuda.c:333-352 | the seconds are assembled from the four bytes, most significant first, or it fails without an answer |
| Clock.Cuda.SetTime | src/cuda.c:354-365 | Cuda's clock holds the four bytes of the seconds sent, most significant first, or is unchanged |
| Clock.Cuda.HalQueryRealTimeClock | src/misc.c:173-197 | Cuda's seconds as NT time, or the made-up moment |
| Clock.Cuda.HalSetRealTimeClock | src/misc.c:199-210 | succeeds exactly on a valid moment in Cuda's range that Cuda acknowledges, and otherwise leaves the clock alone |
| Clock.SetThenQuery | src/misc.c:173-210 | a moment set is read back rounded down to the second; one out of range is refused |
| Clock.EpochIs | src/misc.c:170-171 | the seconds from 1601 to 1904, leap years counted |
| Clock.RangeIs | src/misc.c:199-210 | the moments whose second fits Cuda's 32 bits |
| Partitions.FindInTable | src/disk.c:240-252 | the second walker's slot loop: counts recognised slots and follows the last link |
| FatReader.FatFile.ReadFatWord | src/arcfw/fat.c:72-75 | two neighbouring bytes of the FAT, across a sector boundary if need be |
| FatOpen.CopyField | src/arcfw/fat.c:101-105 | one copying loop fills a padded upper-case field, or refuses what does not fit |
| AdbRing.Ring.Park | src/cuda.c:308-310 | a packet goes into the free slot at the tail and no waiting slot changes |
| AdbRing.Ring.DispatchDpc | src/cuda.c:313-321 | the queued DPC starts once and is no longer queued |
| EnvStore.Store.ValueOf | src/misc.c:99-100 | the scan past the '=' finds the value |
| EnvStore.Store.CopyOut | src/misc.c:101-104 | the bounded copy, its terminator and its verdict |
| EnvStore.Store.Append | src/misc.c:119-127 | the new entry lands on the old final terminator and the structure holds |
| MemoryMap.Map.InitRegion | src/arcfw/memory.c:80-97 | one region of installed memory, split by the available ranges |
| Carve.CarveEntry | src/oemdisk.c:54-76 | the covering entry is replaced by its one, two or three pieces |
| Carve.SetPieces | src/oemdisk.c:59-73 | the descriptors of the pieces, each page of the old one in exactly one of them |
| Carve.LinkPieces | src/oemdisk.c:67-75 | the one or two insertions leave the pieces in order behind the covering entry |
| FatPut.Fat16.LinkExtra | tools/fatput.py:92-95 | links the new clusters behind the last one and ends the chain |
| FatPut.Fat16.FreeTail | tools/fatput.py:97-100 | frees the clusters cut off and ends the chain |
| FatPut.Fat16.WriteClusters | tools/fatput.py:103-105 | writes the data cluster by cluster, the last one padded |
| Reloc.Flush | tools/elf2pe.py:299-305 | closing a block appends exactly its fixups to what the section decodes to |
| Letters.FindFirst | src/misc.c:366-368 | the index of a disk's first primary |
| Letters.Assignment.Make | src/misc.c:258-268 | one link more, and the boot letter if it is the boot device's |
| Letters.Assignment.OnePass | src/misc.c:365-392 | a pass letters its volumes disk by disk while letters last |
| Letters.Assignment.Opticals | src/misc.c:394-399 | the CD-ROMs take what letters are left |
| Interrupts.Hal.MaskOf | src/ints.c:35-38 | one level's mask is exactly the sources above it |
| Interrupts.HighestBit | src/ints.c:151-151 | the highest-numbered pending source |

## Left out

- FatReader.FatFile.FatRead: for volumes whose clusters are on the disk, files whose size leaves room
  for a cluster in 32 bits, and directory entries that do not name cluster 1, which no FAT links to.
- FatReader.ReadOfChain: for chains whose part of the FAT can be read.
- FatReader.FatFile.PartSector: a device read either succeeds whole or fails; `of_read` returning a
  few bytes at a time is not modelled.
- FatOpen.OpenFile: the Open Firmware device and its open and close calls are not modelled.
- FloppyRoundTrip.BuildImage: uses the builder's one geometry and one subdirectory, as its main
  program does (TreeReadsBack has no such limit); the Forth boot scripts among the files are not
  modelled.
- BootFloppy.Fat12.Finish: the 11-byte volume label is a parameter.
- FatPut.Fat16.WriteFile: the directory search that finds the entry is not part of this model; its
  result is a parameter, the FAT is taken to be in memory as it is on the disk, and the chain's
  clusters are taken to be the volume's.
- FatPutReads.RewrittenFileOpens: for a file that has a cluster, as FatPutSafety.ChainIsFoundIff shows
  it must, and directories that are whole chains apart from it.
- ArcDisk.MakeDisk: the command line is read already and the cylinder-head-sector bytes are a
  parameter function; partitions that overlap, which the tool does not refuse, get no promise.
- PartitionWrite.IoWritePartitionTable: the cylinder-head-sector bytes are a parameter function,
  because nothing here reads them.
- Partitions.IoReadPartitionTable: pool exhaustion, IRPs and the check of the device object are not
  modelled; any failing sector read has one status.
- Interrupts.Hal.KeLowerIrql: the software interrupt the kernel may dispatch afterwards is not
  modelled.
- Interrupts.StepKeepsInv: handlers give back the levels they raise and never lower below their own,
  as the kernel demands of them.
- Interrupts.Hal.constructor: starts where the I/O window is mapped; before that the code ignores
  every write of the mask.
- AdbRing.Ring.CudaService: the dropped-packet counter is unbounded, where the code's wraps at 32
  bits and is only printed; delivery before a callback is registered and the direct delivery of a
  request's own packets are not modelled.
- MemoryMap.Map.MemoryInit: for cells whose 32-bit sums do not wrap and available ranges in
  ascending order, as the code assumes.
- MemoryMap.Map.InitRegion: the same.
- Dma.IoMapTransfer: leaves out the offset equal to the end of a buffer that ends on a page
  boundary, where the code reads past its page array.
- EnvStore.HistoryRefinesMap: for histories that set no value under a name with an '=';
  HistoryRefinesQueues is about all of them.
- ArcPath.Config.NodePath: for a buffer of at least one character; the code writes a terminator into
  any.
- ArcPath.Config.NewNode: component class, flags, identifiers and resource lists are not modelled.
- Reloc.EmitReloc: for fewer fixups than would overflow a block's 32-bit size; Python's sort is a
  parameter of BuildReloc, and the theorems hold for whatever order it gives.
- Reloc.ApplyRelinksIff: the loader is the specification's; the NT loader is not part of this model.
- Letters.Assignment.IoAssignDriveLetters: device names are the numbers in them; symbolic links are a
  list; rewriting the system path with the boot letter is left out.
- Clock.Cuda.HalQueryRealTimeClock: the kernel's conversion to time fields is left out.
- Clock.Cuda.HalSetRealTimeClock: the kernel's conversion of time fields is a parameter, and Cuda's
  clock does not tick between two calls.
- PCI bus translation and configuration overlays, the RAM disk, ISO 9660, keyboard and mouse tables,
  screen drawing, the debugger and the emulator drivers: small members beside the ones above.
- FAT timestamps, and file-system structures the repository writes but never reads.
