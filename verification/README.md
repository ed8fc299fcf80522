# LakeOS storage, paging and heap, verified

A Dafny model of three parts of the LakeOS kernel, with proofs of what each keeps over all inputs and
all runs. Run `dafny verify dfyconfig.toml`.

## What is modelled

**Storage stack** (`kernel/src/sal.c`, `kernel/src/fat.c`). `Sal` turns byte ranges into sector reads and
read-modify-writes over a device of sectors and shows when that is a slice update of one flat disk. On it,
`FatTable` packs 12- and 16-bit entries, `FatEntries` stores and reads single ones as the storage layer
really does, `FatLayout` computes the regions of a volume, `FatChain` treats the table as an array with
cluster chains, `FatFiles` and `FatImages` give the contents of files, `FatDriver` runs the driver's
methods on the disk, `FatFile` appends and reads, and `FatMount` derives all that they assume from a boot
sector; `FatLimits` holds concrete inputs on which the code loses bytes. The layout follows the FAT32 File
System Specification, revision 1.03, "FAT Data Structure", "FAT Type Determination" and "FAT Volume
Initialization".

**Paging stack** (`kernel/src/pmm.c`, `kernel/src/vmm.c`, `kernel/src/umm.c`). `Pmm` is the bitmap of
frames. `Paging` is the two-level page table edited through one window, proved to be a partial map;
`Accounts` and `FrameMachine` keep the books of frames over runs; `Vmm` is the code itself. `UserBlocks`,
`UserGrowth` and `UserMemory` specify the list of user blocks, faults that grow a block downwards, and the
agreement of list and page tables; `Umm` is the linked list.

**Kernel heap** (`kernel/src/kmm.c`). `HeapLayout` and `HeapRuns` say which blocks are free and live and
what each operation does to that; `HeapMemory` says how the layout lies in the heap's bytes; `Kmm` is the
code, loading and storing little-endian words at addresses.

Each class method is proved equal to a step of a specification function, and the lemmas about those
functions carry the properties over all runs. `Bytes` holds the shared sequence and division facts.

## Where the code falls short of its intent

The model follows the code. These are its exact limits, each with a lemma or a precondition.

- A short unaligned request that runs over the end of its sector loses the bytes behind it, and bounced
  parts of sectors over 4096 bytes are skipped (`WriteFaithfulIff`, `ReadFaithfulIff`). FAT12 entries such as
  cluster 341 meet the first case (`EntryRoundTripsIff`, `EndMarkBecomes15`, `Fat12MountsIff`), and so can
  the first piece of an append when clusters have several sectors (`ArrivesWholeIff`).
- `FAT_write` takes more clusters than it fills; `Grows` is the exact count.
- Freeing a chain also zeroes the slot numbered by its end marker (`MarkerStoreHarmlessIff`).
- The scan for a free cluster is bounded by the 16-bit sector count times the cluster size, so it sees
  nothing when that count is zero (`ScanReachesIff`) and otherwise runs past the last entry
  (`ScanLeavesVolume`). On a full volume it may so answer a cluster that does not exist (`FullScanIff`);
  where it answers 0, extending a chain frees the chain's last cluster (`ExtendKeepsLastIff`).
- `FAT_calc_size` can leave a FAT16 table up to two entries short (`Fat16TableFitsIff`), although the
  comment in the code says the computation works.
- `FAT_read` does not stop at the end of the file; `Read` covers every request inside the clusters.
- `alloc_page` looks only at or above its hint (`MissesIff`, `FreeBlockMissed`). `alloc_pages(n)` takes
  `n + 1` blocks and reads one bit past the bitmap, which must read as used.
- Unmapping clears only the present bit, so permissions stay in the slot (`MapRefines`).
- `ualloc_pages` answers 0 both for address 0 and for failure, and with no blocks does not look at the
  length (`FirstFitRightIff`). Splitting the first block has no predecessor to link from (`Splittable`).
- Taking the heap's base block whole breaks the list, whose head never moves (`MallocKeepsIff`); a request
  near 2^32 wraps (`NeedCoversIff`, `CarveTestIff`); a release joins only one neighbour
  (`ReleaseTightIff`); `krealloc` compares with the whole block's size and so can leave the block four bytes
  short (`ResizeCoversIff`), and its copy reads four bytes past the old block, for the first block ever
  allocated past the heap (`CopyStaysIff`, `FirstBlockReadsBeyond`).

## Model

| member | source | states |
|---|---|---|
| Sal.FlatSector | kernel/src/sal.c:51-76 | sector `lba` is the slice of the one flat byte disk that starts at `lba * sector_size` |
| Sal.FlatPut | kernel/src/sal.c:78-107 | overwriting a sector is a slice update of the flat disk |
| Sal.ReadModifyWrite | kernel/src/sal.c:13-26 | reading a sector into the bounce buffer, patching it and writing it back patches the disk with the bytes that stay inside the sector, and no other |
| Sal.WriteSteps | kernel/src/sal.c:78-107 | head, whole-sector loop and tail of a write, composed, are one slice update of the disk |
| Sal.ReadSteps | kernel/src/sal.c:51-76 | head, whole-sector loop and tail of a read, composed, are one fetch |
| Sal.Storage.WriteUnaligned | kernel/src/sal.c:13-26 | the read-modify-write of one sector, on the real bounce buffer, changes exactly the bytes that stay in the sector; nothing for sectors over 4096 bytes |
| Sal.Storage.ReadUnaligned | kernel/src/sal.c:34-45 | delivers the sector's bytes, then whatever the bounce buffer still held behind the sector; the caller's own bytes for sectors over 4096 bytes |
| Sal.Storage.WriteWholeSectors | kernel/src/sal.c:93-96 | the loop stores every whole sector that remains and stops with less than one sector left |
| Sal.Storage.ReadWholeSectors | kernel/src/sal.c:65-68 | the loop fetches every whole sector that remains and stops with less than one sector left |
| Sal.Storage.Write | kernel/src/sal.c:78-107 | for any offset and length the flat disk changes by exactly the bytes that land, at exactly the place asked for |
| Sal.Storage.Read | kernel/src/sal.c:51-76 | for any offset and length the buffer afterwards holds exactly the bytes fetched |
| Sal.WriteFaithfulIff | kernel/src/sal.c:83-91 | a write stores all of its data, whatever they are, if and only if no short unaligned request runs over the end of its sector and no bounced part meets a sector over 4096 bytes |
| Sal.ReadFaithfulIff | kernel/src/sal.c:55-63 | a read returns the disk slice, whatever the buffers held before, under the same condition and only then |
| Sal.LandedByte | kernel/src/sal.c:78-107 | each byte of a write reaches the disk unless the request is short, unaligned and past the end of its sector, or, with sectors over 4096 bytes, its sector is not asked for as a whole |
| Sal.FetchedByte | kernel/src/sal.c:51-76 | each byte of a read is the disk's under the same condition, otherwise the bounce buffer's stale byte or the caller's own |
| FatLimits.StraddleLoses | kernel/src/sal.c:83-91 | two bytes written at byte 511 of a 512-byte sector: the second one is lost |
| Sal.ReadBack | kernel/src/sal.c:51-107 | reading back what an exact write stored returns its data |
| FatTable.GetPutSame | kernel/src/fat.c:69-123 | an entry read back is the stored value cut to the entry's 12 or 16 bits, for both parities of a FAT12 entry |
| FatTable.GetPutOther | kernel/src/fat.c:69-123 | storing one entry leaves every other entry as it was, although neighbouring FAT12 entries share a byte |
| FatTable.EntryBytes | kernel/src/fat.c:51-164 | a FAT16 entry is two bytes at `2c`, the low one first; FAT12 entries at `3c/2` are a byte and the low nibble of the next (even) or a high nibble and the next byte (odd) |
| FatTable.StoreBytes | kernel/src/fat.c:69-118 | storing an entry puts the value's bits into exactly those bytes and nibbles and changes no other bit |
| FatTable.EndMarks | kernel/src/fat.c:171-185 | the end marks are the eight highest values of an entry |
| FatTable.SetCopiesEntry | kernel/src/fat.c:120-123 | setting an entry in the first `n` copies sets it there and changes no other entry of any copy |
| FatTable.SetCopiesFrame | kernel/src/fat.c:120-123 | an entry inside the copies is set without touching a byte outside the tables |
| FatTable.SetCopiesKeepsMirror | kernel/src/fat.c:120-123 | copies that were equal byte for byte stay equal |
| FatTable.MarkerStoreHarmlessIff | kernel/src/fat.c:697-698 | the extra store to the slot numbered by the end marker keeps every other entry of every copy and every byte outside the tables, whatever the disk holds, if and only if each copy is long enough to have the slot |
| FatTable.FloppyMarkerHarms | kernel/src/fat.c:697-698 | on a 1.44 MB floppy it is not, and the store destroys bytes behind the tables |
| FatEntries.EntryRoundTripsIff | kernel/src/fat.c:69-164 | on every disk and with whatever byte the bounce buffer holds behind the sector, setting an entry and getting it again through the storage layer returns every value if and only if the two bytes are accessed exactly |
| FatEntries.EndMarkBecomes15 | kernel/src/fat.c:69-164 | on zeroed sectors of 512 bytes the entry of cluster 341 set to the end mark reads back as cluster 15 |
| FatEntries.ExactStored | kernel/src/fat.c:69-118 | an exact store through the storage layer is the packed store of the table |
| FatDriver.Driver.GetEntry | kernel/src/fat.c:129-164 | the entry as the storage layer delivers it on any disk; for an exact access the two bytes at `start + copy * size + 2c` or `+ 3c/2`, put together as the format says |
| FatDriver.Driver.SetEntry | kernel/src/fat.c:69-118 | the disk changes by exactly the bytes of the patched word that land; for an exact access by exactly the two bytes of that place, a neighbour's nibble kept |
| FatDriver.Driver.SetEntries | kernel/src/fat.c:120-123 | the disk changes by exactly those stores, one for every copy in order |
| FatDriver.Driver.SetExactEntries | kernel/src/fat.c:120-123 | where no copy of the entry straddles two sectors that is exactly the packed store in every copy |
| FatFiles.SeenInTable | kernel/src/fat.c:129-164 | for every cluster of a well-formed volume the entry delivered is the element of the table |
| FatDriver.Driver.SetCluster | kernel/src/fat.c:120-123 | the table, seen as an array of cluster numbers, changes at one index; no byte outside the tables changes, and equal copies stay equal |
| FatLayout.RegionsDisjoint | kernel/src/fat.c:375-383 | reserved area, every copy of the table, root directory and all cluster ranges follow each other without overlap |
| FatLayout.ClusterInVolume | kernel/src/fat.c:477-483 | every counted cluster lies behind the metadata and inside the volume |
| FatLayout.ClustersApart | kernel/src/fat.c:477-483 | different clusters occupy disjoint ranges |
| FatLayout.ClustersContiguous | kernel/src/fat.c:477-483 | cluster 2 starts the data region and each cluster follows the one before |
| FatLayout.RootSectorsLeast | kernel/src/fat.c:25-28 | the root directory gets the least number of sectors that holds its 32-byte entries |
| FatLayout.ComputedClustersIff | kernel/src/fat.c:17-39 | the count computed is the number of whole clusters in the sectors behind reserved area, tables and root directory, in 32-bit arithmetic |
| FatLayout.ScanReachesIff | kernel/src/fat.c:334-342 | the scan for a free cluster reaches every cluster of the volume if and only if the 16-bit sector count is in use |
| FatLayout.FatContext.InitType | kernel/src/fat.c:14-45 | FAT12 below 4085 such clusters, FAT16 below 65525, else FAT32, with the 32-bit subtraction; on a valid boot sector the one the layout calls for |
| FatLayout.FatContext.Mount | kernel/src/fat.c:375-401 | the data region starts behind reserved area, tables and the least number of sectors that holds the root directory; type and cluster size are those of the layout |
| FatLayout.FatContext.CalcSize | kernel/src/fat.c:193-226 | stores, in the field of the volume's type, the least number of table sectors that covers the sectors behind reserved area and root directory, by 256 clusters and one sector of each copy |
| FatLayout.CeilIsLeastCover | kernel/src/fat.c:213-219 | the rounded-up quotient is the least cover, in both directions |
| FatLayout.ClustersBounded | kernel/src/fat.c:193-226 | behind tables of that size at most 256 clusters remain for each table sector |
| FatLayout.Fat12TableFits | kernel/src/fat.c:193-226 | with 512-byte sectors a FAT12 table of that size has an entry for every cluster and the two reserved ones |
| FatLayout.Fat16TableFitsIff | kernel/src/fat.c:193-226 | a FAT16 table of that size has them if and only if rounding up left more than one cluster of slack; it is never more than two entries short |
| FatLimits.ShortFat16Table | kernel/src/fat.c:193-226 | 25833 sectors formatted with one sector for each cluster: the tables lack the entries of the last two clusters |
| FatMount.EntryExactIff | kernel/src/fat.c:129-164 | an entry can be accessed through the storage layer if and only if it does not start at the last byte of a sector |
| FatMount.ClusterPosIsStart | kernel/src/fat.c:477-483 | the driver looks for a cluster exactly where the layout of the volume puts it |
| FatMount.ClusterOffRoot | kernel/src/fat.c:477-483 | numbers 0 and 1 lead to the first sector behind the tables |
| FatMount.EntriesIff | kernel/src/fat.c:477-483 | the volume has the entry of a cluster if and only if the cluster ends inside it |
| FatMount.Fat16Mounts | kernel/src/fat.c:375-401 | a valid FAT16 boot sector with tables that reach every cluster, the 16-bit count in use and sectors of an even size above 2 and up to 4096 bytes describes a volume that meets all that the file results ask for |
| FatMount.Fat12MountsIff | kernel/src/fat.c:375-401 | a valid FAT12 boot sector with tables that reach every cluster, the 16-bit count in use and sectors above 2 and up to 4096 bytes does if and only if none of its entries starts at the last byte of a sector |
| FatMount.Cluster341 | kernel/src/fat.c:51-63 | with 512-byte sectors the first FAT12 entry that does is that of cluster 341 |
| FatMount.ScanLeavesVolume | kernel/src/fat.c:334-342 | on a valid boot sector with the 16-bit count in use and a fixed root directory the scan for a free cluster is bounded beyond the last entry |
| FatChain.ChainUnique | kernel/src/fat.c:724-731 | a head determines its chain |
| FatChain.CreateKeeps | kernel/src/fat.c:841-849 | a new file takes the least free cluster and disturbs no chain |
| FatChain.ExtendKeeps | kernel/src/fat.c:724-736 | extending appends exactly the least free cluster to one chain and disturbs no other |
| FatChain.RemoveKeeps | kernel/src/fat.c:688-699 | freeing zeroes every cluster of one chain and disturbs no other |
| FatChain.ExtendKeepsLastIff | kernel/src/fat.c:724-736 | the last cluster of the extended chain stays in use if and only if a free cluster was found; on a full volume the link stored is 0 and the next search hands that cluster out again |
| FatChain.RunKeeps | kernel/src/fat.c:688-736 | over every run of creating, extending and freeing, all chains stay acyclic, end-marked and pairwise disjoint, and the clusters in use are exactly the union of the chains |
| FatChain.CreateRemove | kernel/src/fat.c:688-849 | creating a file and freeing its chain gives back the very same table |
| FatDriver.Driver.FindFreeCluster | kernel/src/fat.c:334-342 | returns what the scan gives, whatever the table holds, as long as the entries met can be read: the least slot within the bound that reads 0, else 0 |
| FatFiles.ScanFinds | kernel/src/fat.c:334-342 | while the volume has a free cluster the scan finds the least one |
| FatFiles.FullScanIff | kernel/src/fat.c:334-342 | on a full volume the scan answers 0 if and only if no slot between the last entry and the bound reads 0; otherwise it answers a cluster that does not exist |
| FatDriver.Driver.LastCluster | kernel/src/fat.c:725-730 | the walk ends at the last cluster of the chain |
| FatDriver.Driver.AllocateCluster | kernel/src/fat.c:724-736 | on the packed tables this is exactly the extending step of the chain model; on a full volume on which the scan answers 0 the table changes by the same two stores with 0 as the link |
| FatDriver.Driver.CreateChain | kernel/src/fat.c:841-849 | on the packed tables this is exactly the creating step of the chain model; the new file holds what its cluster held and every other file keeps its bytes |
| FatDriver.Driver.ZeroChain | kernel/src/fat.c:688-695 | the loop, which reads each link just before zeroing it, zeroes exactly the chain's clusters |
| FatDriver.Driver.FreeChain | kernel/src/fat.c:688-699 | the disk with the chain freed, then the extra store; when each copy has the marker's slot that is exactly the freeing step of the chain model and every other file keeps its bytes |
| FatFiles.ChainPosIs | kernel/src/fat.c:421-450 | the position computed by walking is byte `offset % cluster` of the `(offset / cluster)`-th cluster of the chain |
| FatFiles.PositionsInjective | kernel/src/fat.c:421-450 | different pairs of file and offset are stored at different places of the disk |
| FatFiles.ChainWalks | kernel/src/fat.c:421-450 | on a chain the walk of the table finds that position, or 0 and the last cluster when the chain is too short |
| FatFiles.AnyTableWalks | kernel/src/fat.c:421-450 | on a disk that has the entry of every number below the end markers, with sectors of any size but 4096 bytes, the walk needs nothing of the table: it may loop or leave the volume, and its entries may straddle sectors |
| FatFiles.WalkFollows | kernel/src/fat.c:421-450 | on any table the walk follows one entry for each whole cluster of the offset and adds the rest, and gives up with 0 and the last cluster at an end mark |
| FatDriver.Driver.AbsoluteOffset | kernel/src/fat.c:421-450 | returns what the walk of the table gives, whatever the table holds, as long as the entries met can be read; for clusters 0 and 1 the root-directory position |
| FatFiles.WritePiece | kernel/src/fat.c:915-940 | writing inside one cluster on the disk is a slice update of the file's contents |
| FatFiles.ReadPiece | kernel/src/fat.c:952-978 | reading inside one cluster from the disk is a slice of the file's contents |
| FatImages.ImagesWrite | kernel/src/fat.c:905-943 | such a write updates one file at that offset and no other file |
| FatImages.ImagesGrow | kernel/src/fat.c:724-736 | table updates leave all contents alone; a new last cluster adds its bytes to its own file |
| FatImages.ImagesDrop | kernel/src/fat.c:688-699 | freeing a chain leaves the contents of every other file alone |
| FatImages.ImagesCreate | kernel/src/fat.c:841-849 | a new chain of one cluster adds a file holding what the cluster held; all other contents stay |
| FatImages.ArrivesWholeIff | kernel/src/fat.c:915-922 | an append keeps all of its data, whatever they are, if and only if the piece that completes the last cluster is transferred exactly |
| FatImages.ArrivesByte | kernel/src/fat.c:915-922 | each byte of an append is the data's, or, behind the end of the sector in which a short head starts, what the cluster held there |
| FatLimits.AppendLoses | kernel/src/fat.c:915-922 | with clusters of two sectors an append of 20 bytes at 500 is not |
| FatImages.OneSectorClustersExact | kernel/src/fat.c:915-922 | with one sector for each cluster that always holds |
| FatImages.SmallSectorsHeadSafe | kernel/src/fat.c:915-922 | with sectors up to 2048 bytes no such piece overruns the bounce buffer |
| FatImages.DataKeepsMeta | kernel/src/fat.c:905-943 | a store into the data region keeps reserved area and root directory, and equal copies of the table equal |
| FatImages.GrowsBound | kernel/src/fat.c:905-943 | an append takes at most `len / cluster + 2` clusters |
| FatImages.GrowsExact | kernel/src/fat.c:905-943 | the clusters an append takes: what the longer file needs more, at least one for a file, and one spare if and only if `size % cluster == 0 && (size > 0 || len >= cluster)` |
| FatDriver.Driver.StorePiece | kernel/src/fat.c:915-940 | on the volume, one file changes at that offset by the bytes that land; tables and all other files stay |
| FatDriver.Driver.FetchPiece | kernel/src/fat.c:952-978 | on the volume, an exact piece read is the slice of that file |
| FatDriver.Driver.Grow | kernel/src/fat.c:724-736 | a file's contents gain one cluster at the end; all other files stay |
| FatFile.File.WriteWhole | kernel/src/fat.c:924-930 | the whole-cluster loop appends exactly the whole clusters of data and takes one cluster for each |
| FatFile.File.Append | kernel/src/fat.c:905-943 | head, loop and tail together append the data as it arrives, and the chain grows by an exact count |
| FatFile.File.WriteRest | kernel/src/fat.c:924-940 | loop and tail append the rest of the data and take an exact count of clusters |
| FatFile.File.Write | kernel/src/fat.c:905-943 | contents become old contents followed by the data, `len` is returned, the chain covers the size and grows by what the longer file needs more and one spare exactly in the case above; every other chain, every byte of any other file and all metadata outside the tables stay, and equal copies of the table stay equal; nothing at all happens on a file not opened for writing |
| FatFile.File.WriteBoth | kernel/src/fat.c:905-943 | two open files written one after the other each hold their old bytes followed by their own data, and both stay valid |
| FatFile.File.ReadWhole | kernel/src/fat.c:962-968 | the whole-cluster loop returns the contents in order and gives up only beyond the file's size |
| FatFile.File.Fetch | kernel/src/fat.c:945-981 | head, loop and tail together return one slice of the stored bytes |
| FatFile.File.Read | kernel/src/fat.c:945-981 | inside the file exactly `contents[position..position+len]`, the position advanced by `len`, the rest of the buffer untouched; a longer read ends at the first cluster boundary behind more bytes than the file is long, or with the whole request |
| FatFile.File.Seek | kernel/src/fat.c:1019-1024 | the position moves unless the request is -1 |
| FatFile.File.WriteSeekRead | kernel/src/fat.c:905-1024 | a write, a seek back to where it went and a read return the written bytes |
| Pmm.SetBitChangesOne | kernel/src/pmm.c:11-13 | setting a bit of a bitmap byte changes that bit only |
| Pmm.ClearBitChangesOne | kernel/src/pmm.c:14-15 | clearing a bit of a bitmap byte changes that bit only |
| Pmm.FrameAllocator.Used | kernel/src/pmm.c:9 | a block is used if and only if bit `n % 8` of byte `n / 8` is one |
| Pmm.FrameAllocator.SetBlockState | kernel/src/pmm.c:9-16 | the byte store is an update of the bit sequence at one index |
| Pmm.FrameAllocator.AllocPage | kernel/src/pmm.c:105-114 | takes the least free block at or above the hint, or answers 0 and changes nothing |
| Pmm.FrameAllocator.FreePage | kernel/src/pmm.c:116-119 | frees that block and moves the hint to it |
| Pmm.FrameAllocator.CountRun | kernel/src/pmm.c:124-136 | the inner loop finds `n + 1` free blocks if and only if they are there, and else stops at a used one |
| Pmm.FrameAllocator.AllocPages | kernel/src/pmm.c:121-141 | takes the lowest run of `n + 1` free blocks at or above the hint, and marks exactly those |
| Pmm.FrameAllocator.FreePages | kernel/src/pmm.c:143-147 | gives back exactly `n + 1` blocks |
| Pmm.TakeGiveBack | kernel/src/pmm.c:121-147 | giving back a run just taken restores the bitmap |
| Pmm.RunKeeps | kernel/src/pmm.c:105-147 | over every run of allocations and releases no block is handed out twice while live |
| Pmm.MissesIff | kernel/src/pmm.c:105-114 | an allocation misses a free block if and only if every free block lies below the hint |
| Pmm.FreeBlockMissed | kernel/src/pmm.c:105-119 | that state is reached: of two blocks, taken, given back in the same order and one taken again, block 0 is free and the next call finds nothing |
| Paging.MapRefines | kernel/src/vmm.c:70-118 | mapping sets exactly one page of a partial map from pages to frames; permissions become the requested ones plus what the slot held; every other page but the window keeps its translation |
| Paging.MapKeepsEntries | kernel/src/vmm.c:70-118 | every other mapped page keeps its whole entry |
| Paging.MapEntry | kernel/src/vmm.c:70-118 | all four fields of the page's entry and of its directory slot, for every `write` and `ring3`: bits asked for or found there, a new table writable; no other directory slot changes |
| Paging.MapKeepsSlots | kernel/src/vmm.c:70-118 | what the slot of every other page holds stays, mapped or not |
| Paging.AddressSplits | kernel/include/kernel/vmm.h:92-94 | an address is its directory slot, its table slot and its offset, from the top down |
| Paging.UnmapRefines | kernel/src/vmm.c:120-149 | unmapping removes exactly one page of the map by clearing its present bit alone, and the table leaves the directory, by that bit alone, if and only if it held no other page |
| Paging.UnmapKeepsEntries | kernel/src/vmm.c:120-149 | every other mapped page keeps its whole entry and its directory slot |
| Paging.EmptyIff | kernel/src/vmm.c:140-145 | a table scans as empty if and only if none of its pages translates |
| Paging.LookupKeeps | kernel/src/vmm.c:28-50 | a look-up, which moves the window, changes the entry of no other page |
| Accounts.MapAccounts | kernel/src/vmm.c:70-118 | mapping keeps the books: each used frame is reserved, held, one page's or one table's, and only one of these |
| Accounts.UnmapAccounts | kernel/src/vmm.c:120-149 | unmapping keeps the books once the frame, and the table if emptied, are given back |
| FrameMachine.VallocKeeps | kernel/src/vmm.c:151-154 | allocation maps exactly one page to the next free frame, writable and no more open to ring 3 than its slots were, and keeps the invariant |
| FrameMachine.VfreeKeeps | kernel/src/vmm.c:156-163 | release unmaps exactly one page, gives back its frame and an emptied table, and keeps the invariant |
| FrameMachine.VfreeTwice | kernel/src/vmm.c:156-163 | releasing a page again changes nothing |
| FrameMachine.AllocFreeRestores | kernel/src/vmm.c:151-163 | allocating a page, at a given address or at the frame's own, and releasing it restores bitmap and translations exactly |
| FrameMachine.NoFrameShared | kernel/src/vmm.c:151-206 | no two present entries name the same frame, and every named frame is marked used |
| FrameMachine.RunKeeps | kernel/src/vmm.c:151-206 | that holds over every run of allocations, releases and heap faults, with no used frame lost and no present directory slot on an empty table |
| Vmm.Mmu.VirtToPhys | kernel/src/vmm.c:28-50 | computes the partial map |
| Vmm.Mmu.ShowTable | kernel/src/vmm.c:81-102 | the table, fresh and empty if it was absent, is there and the window shows it |
| Vmm.Mmu.MapPage | kernel/src/vmm.c:70-118 | the stores through the window are exactly the modelled mapping; the entry's four fields and the directory slot's access for every `write` and `ring3` |
| Vmm.Mmu.UnmapPage | kernel/src/vmm.c:120-149 | the stores and the emptiness scan are exactly the modelled unmapping |
| Vmm.Mmu.VallocPage | kernel/src/vmm.c:151-154 | exactly the modelled allocation; the page translates to the frame taken, writable, and the user bits of entry and directory slot are as they were |
| Vmm.Mmu.VfreePage | kernel/src/vmm.c:156-163 | exactly the modelled release; the page no longer translates |
| Vmm.Mmu.HeapFault | kernel/src/vmm.c:204-206 | a fault in the kernel heap leaves the faulting page translating to the frame taken, writable, its user bits as they were |
| UserBlocks.InsertKeeps | kernel/src/umm.c:22-40 | a block that fits is put in place: sorted, disjoint, exactly its range mapped anew |
| UserBlocks.FirstFitIsLowest | kernel/src/umm.c:68-96 | first fit returns the lowest address with room and fails only when no gap has room |
| UserBlocks.FirstFitRightIff | kernel/src/umm.c:68-96 | on every sorted list the answer is the lowest place with room, or rightly none, if and only if there is a block or the length fits user memory, which the code does not ask |
| UserBlocks.UnmapKeeps | kernel/src/umm.c:178-209 | unmapping a page removes exactly that page and keeps the attributes of all others, through splits |
| UserBlocks.SplittableNext | kernel/src/umm.c:211-214 | only the first page of a range can ask for a split of the first block |
| UserBlocks.InsertUnmapRestores | kernel/src/umm.c:13-214 | mapping a range and unmapping it page by page restores the block list |
| UserGrowth.GrowKeeps | kernel/src/umm.c:98-148 | a served fault adds exactly one page with the attributes of the block above; guard pages survive |
| UserGrowth.GrownIff | kernel/src/umm.c:98-148 | a fault is served if and only if the address lies in a gap of two pages or more below a block whose flags have bit 0x100 |
| UserGrowth.GrowCloser | kernel/src/umm.c:98-148 | each served fault that leaves the address unmapped brings the block nearer to it |
| UserGrowth.FaultsMapIff | kernel/src/umm.c:98-148 | repeated faults end, and the address is mapped then if and only if it was, or lies below a block that grows down and outside the page kept free above the previous block |
| UserMemory.ServeUntilMapsIff | kernel/src/umm.c:98-152 | with two frames for each page of the gap, repeated faults on a user address end with list and tables in agreement and its page translating if and only if it did before, or the address lies below a block that grows down and outside the page kept free above the previous block |
| UserMemory.ServeUntilKeeps | kernel/src/umm.c:98-152 | they follow the faults of the block list alone |
| UserGrowth.GuardsSurvive | kernel/src/umm.c:98-148 | guard pages survive every sequence of faults |
| UserMemory.UmapKeeps | kernel/src/umm.c:13-48 | list and page tables agree after mapping a block: same pages, with the access asked for |
| UserMemory.MapFreshAccess | kernel/src/umm.c:42-47 | a fresh user page is open to ring 3, and writable exactly if asked for or if its slot was |
| UserMemory.UmapAccess | kernel/src/umm.c:42-47 | every page of a mapped block is writable if and only if `prot` has bit 2 or the page's slot was writable |
| UserMemory.FitCanUmap | kernel/src/umm.c:68-96 | the place first fit chooses is aligned, inside user memory and touches no block |
| UserMemory.UnmapPageKeeps | kernel/src/umm.c:178-209 | they agree after unmapping a page, which removes exactly that page |
| UserMemory.UnmapAllKeeps | kernel/src/umm.c:211-214 | they agree after unmapping a range, which removes exactly that range |
| UserMemory.ServeKeeps | kernel/src/umm.c:98-148 | they agree after a served fault |
| UserMemory.ServeAccess | kernel/src/umm.c:107-141 | so is the page that a fault adds, by the `prot` of the block it extends |
| UserMemory.RunKeeps | kernel/src/umm.c:13-214 | over every run of mapping, allocating wherever first fit says, unmapping and faulting the list stays sorted, aligned and disjoint, its pages are exactly the user pages that translate, and the books of frames balance |
| UserMemory.UmapUnmapRestores | kernel/src/umm.c:13-214 | mapping a range and unmapping it restores the block list and the set of used frames |
| Umm.Process.InsertBlock | kernel/src/umm.c:14-40 | the linked list afterwards holds exactly the modelled list |
| Umm.Process.UmapPages | kernel/src/umm.c:13-48 | list edit and mapping loop together are exactly the modelled step, and each page has exactly that access |
| Umm.Process.FindFit | kernel/src/umm.c:71-92 | the walk finds the modelled first fit |
| Umm.Process.UallocPages | kernel/src/umm.c:68-96 | exactly the modelled step; answers 0 both for address 0 and for failure |
| Umm.Process.EditBlock | kernel/src/umm.c:154-206 | shrinking, splitting or unlinking the node is exactly the modelled edit |
| Umm.Process.UnmapPage | kernel/src/umm.c:178-209 | list edit and release, with the second release after a split, are exactly the modelled step |
| Umm.Process.UnmapRange | kernel/src/umm.c:211-214 | the loop is exactly the modelled range |
| Umm.Process.FindGrowth | kernel/src/umm.c:98-134 | the handler finds the modelled block to grow, or stops where the model stops |
| Umm.Process.PageFault | kernel/src/umm.c:98-152 | a served fault is exactly the modelled step, its page with exactly that access; otherwise nothing changes |
| Umm.MemoryMap | kernel/src/vmm.c:198-213 | user memory ends at 3 GB where the higher-half slot begins, the window is the last page of that slot, and the kernel heap lies above it |
| HeapLayout.NeedCoversIff | kernel/src/kmm.c:95-99 | the block taken holds the request if and only if adding the size word does not wrap |
| HeapLayout.CarveTestIff | kernel/src/kmm.c:104 | the test that a node still fits is true of every block if and only if it does not wrap |
| HeapLayout.FirstFitMeans | kernel/src/kmm.c:89-121 | a block is chosen if and only if it fits and none met before it on the walk does |
| HeapLayout.MallocMeans | kernel/src/kmm.c:89-121 | the size taken is the request and its size word, at least 12 bytes, off the upper end of the block chosen, or the whole block, with the rest lost, if it would keep less than 12 |
| HeapLayout.MallocKeepsIff | kernel/src/kmm.c:89-124 | free and live blocks stay disjoint, ordered and inside the heap with all bytes accounted for, if and only if the base block is not taken whole; fewer than 12 bytes are lost; nothing is answered if and only if no free block is large enough |
| HeapLayout.FreshHeapExhausted | kernel/src/kmm.c:112-117 | asking for all of a fresh heap takes the base block whole and leaves no list |
| HeapLayout.CoalescedKeeps | kernel/src/kmm.c:126-149 | joining neighbours keeps the layout |
| HeapLayout.ReleaseKeeps | kernel/src/kmm.c:60-81 | a release keeps the layout and gives back exactly the block's bytes |
| HeapRuns.AllocReleaseRestoresIff | kernel/src/kmm.c:60-124 | releasing what was just allocated restores the layout if and only if the block chosen leaves room for a node or fits exactly, and touches no free block the released one could be joined to instead |
| HeapRuns.ReleaseTightIff | kernel/src/kmm.c:126-149 | a release leaves no two touching free blocks if and only if not both neighbours touch, since only one is joined |
| HeapRuns.ResizeKeeps | kernel/src/kmm.c:19-52 | keeping, splitting, absorbing and moving keep the layout and every other live block |
| HeapRuns.ResizeMeans | kernel/src/kmm.c:19-52 | nothing if the block is large enough; else the free block right behind gives up its lower part, or all of it if it would keep less than 12 bytes; else the data moves to a new block |
| HeapRuns.ResizeCoversIff | kernel/src/kmm.c:22-43 | the resized block has room for the size asked for exactly when kept or absorbed with four bytes to spare, or moved; splitting always leaves it four bytes short |
| HeapRuns.CopyStaysIff | kernel/src/kmm.c:49 | the copy out of a moved block reads only bytes of the heap if and only if the block ends four bytes before its end |
| HeapRuns.FirstBlockReadsBeyond | kernel/src/kmm.c:48-51 | the first block ever allocated ends with the heap, whatever its size, and growing it always moves it, so that copy reads beyond |
| HeapRuns.RunKeeps | kernel/src/kmm.c:14-149 | over every run of allocating, releasing and resizing no two blocks overlap, free, live and lost bytes add up to the heap, and each call loses fewer than 12 |
| HeapMemory.Unlinked | kernel/src/kmm.c:114-115 | leading the links past a block leaves the nodes of a ring, linked both ways, without it |
| HeapMemory.LinkedInEncodes | kernel/src/kmm.c:72-78 | linking a block in between its neighbours leaves the nodes of a ring with it |
| HeapMemory.NodeMovedEncodes | kernel/src/kmm.c:31-35 | a node moved up, over itself if need be, with its neighbours' links mended, is again a node of the ring |
| Kmm.Heap.constructor | kernel/src/kmm.c:8-12 | one free block, linked to itself, whatever the memory held |
| Kmm.Heap.Search | kernel/src/kmm.c:89-123 | the walk along the links finds the modelled first fit |
| Kmm.Heap.Kmalloc | kernel/src/kmm.c:14-18 | on the bytes of the heap exactly the modelled allocation; 0 if and only if nothing changed; the payload of every live block is untouched |
| Kmm.Heap.Predecessor | kernel/src/kmm.c:60-69 | the walk along the links ends at the last free block below the released one |
| Kmm.Heap.CoalesceNeighbors | kernel/src/kmm.c:126-149 | exactly the modelled joining, with every live payload untouched |
| Kmm.Heap.Kfree | kernel/src/kmm.c:60-81 | exactly the modelled release, with every other live payload untouched |
| Kmm.Heap.GrowInPlace | kernel/src/kmm.c:20-46 | keeps, splits or absorbs exactly as modelled, or reports that the block must move |
| Kmm.Heap.MoveAway | kernel/src/kmm.c:48-51 | allocates, copies and releases; the old payload bytes arrive in the new block, whatever the four bytes read behind the old one are |
| Kmm.Heap.Krealloc | kernel/src/kmm.c:19-52 | exactly the modelled resizing; every other live payload and the old payload of the resized block are kept; for a null pointer all that allocation promises |
| Kmm.Heap.Kexpand | kernel/src/kmm.c:54-58 | resizing to the whole block's size plus the increment, in 32 bits, with the same guarantees, for a null pointer too |
| Kmm.Heap.Ksize | kernel/src/kmm.c:83-87 | the size of the whole block, its size word included, which is the little-endian word in front of the payload |

## Left out

- FAT32 entries, `FAT_is_root`, long and 8.3 names, directories, dates: the file model is a set of chains
  with sizes.
- FAT_create's directory slot: only its choice and marking of the first cluster is modelled.
- Drivers, interrupts and descriptor tables: the device is a sequence of sectors and reading it cannot fail.
- `PMM_init`, `VMM_init`, `new_page_directory`, `copy_ptes`, big pages and TLB flushes.
- `umm_unmap_pages`, and `exe.c`, `elf.c`, `vfs.c`, `vfm.c`, `dev.c`, `sys.c`.
- Page-table entries are records of frame, present, writable and user; the other bits of the word are not
  modelled, nor is the walk the hardware makes.
- A caller's buffer is passed and returned as a value, so aliasing of buffers with each other is not modelled.
- Disk offsets and file sizes are unbounded integers; 32-bit wrap-around is modelled where the code's result
  turns on it (type detection, heap request sizes).
- Want of free clusters and frames, which the callers do not check: each operation requires what it takes.
- FatDriver.Driver.FindFreeCluster: requires the entries met to be on the disk and, on sectors of exactly 4096
  bytes, not to straddle two of them, where the read overruns the bounce buffer.
- FatDriver.Driver.GetEntry: the same, for its one entry.
- FatDriver.Driver.SetEntry: the same.
- FatDriver.Driver.SetEntries: the same, for every copy.
- FatFiles.AnyTableWalks: leaves out sectors of exactly 4096 bytes for that reason.
- FatDriver.Driver.AbsoluteOffset: requires the entries met to be readable in that sense.
- FatDriver.Driver.SetCluster: requires volumes none of whose entries straddles two sectors.
- FatDriver.Driver.AllocateCluster: requires a free cluster or a scan that answers 0; the stores that follow the
  answer of a cluster that does not exist are not modelled.
- FatDriver.Driver.CreateChain: requires a free cluster.
- FatDriver.Driver.Grow: requires a free cluster.
- FatFile.File.WriteWhole: requires the free clusters it takes.
- FatFile.File.Append: requires them too, and a head that stays inside the bounce buffer.
- FatFile.File.WriteRest: requires the free clusters it takes.
- FatFile.File.Write: requires what Append does.
- FatFile.File.WriteSeekRead: requires a head that is transferred exactly, and free clusters.
- FatDriver.Driver.StorePiece: excludes pieces that overrun the bounce buffer.
- FatLayout.FatContext.CalcSize: requires a count that exceeds the reserved and root sectors; below it the
  32-bit subtraction wraps.
- FatMount.Fat16Mounts: says nothing of volumes whose tables are too short, whose 16-bit count is zero or
  whose sectors are of odd size; on these the driver itself goes wrong.
- FatMount.Fat12MountsIff: says nothing of the first two kinds.
- Vmm.Mmu.ShowTable: requires a frame for a new table, which the code does not check.
- Vmm.Mmu.MapPage: the same.
- Vmm.Mmu.HeapFault: requires the frames it takes.
- Vmm.Mmu.VallocPage: requires them too, and a page that is not mapped.
- Paging.UnmapRefines: requires a present directory slot, which the code does not check.
- Paging.UnmapKeepsEntries: the same.
- Vmm.Mmu.UnmapPage: requires a present directory slot, which the code does not check.
- Umm.Process.UmapPages: requires a range that touches no block, and frames for it.
- Umm.Process.UallocPages: requires frames, and a length inside user memory when there is no block.
- Umm.Process.UnmapRange: requires a predecessor for a split by its first page.
- Kmm.Heap.Kmalloc: requires that the base block is not taken whole and that the size test does not wrap.
- Kmm.Heap.Kexpand: requires the fallback allocation to succeed.
- Kmm.Heap.MoveAway: requires the fallback allocation to succeed without taking the base block; the four
  bytes read behind a block that ends with the heap are a parameter; that such a read faults
  and halts the machine is not modelled.
- List nodes come from `new`, not from the modelled heap, and nodes taken out of the list are not returned.
- Blocks of length 0: `ualloc_pages` and `umap_pages` are modelled for positive lengths.
- Sal.Storage.Write: bounced requests that would overrun the 4096-byte bounce buffer are excluded, because
  what they overwrite is outside the model.
- Sal.Storage.Read: the same exclusion.
- Sal.Storage.WriteUnaligned: the same exclusion.
- Sal.Storage.ReadUnaligned: the same exclusion.
- FatFile.File.Read: requests that run past the clusters of the chain are excluded, because the code then
  goes on at disk position 0.
- FatFile.File.ReadWhole: the same exclusion.
- FatFile.File.Fetch: the same exclusion.
- FatDriver.Driver.FreeChain: where a copy lacks the marker's slot only the stores are stated, not what is left
  of the files.
- Pmm.FrameAllocator.CountRun: requires the bit behind the bitmap to exist and read as used.
- Pmm.FrameAllocator.AllocPages: requires the bit behind the bitmap to exist and read as used.
- Umm.Process.UnmapPage: requires a predecessor for a split.
- Umm.Process.PageFault: requires at least one block, since the handler follows the list head unchecked.
- Kmm.Heap.Krealloc: requires the fallback allocation to succeed.
- HeapLayout.MallocKeepsIff: excludes requests whose size test wraps; `CarveTestIff` says which those are.
