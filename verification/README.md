# DCWin verification

Dafny models of the parts of DCWin whose correctness is hardest to see, with proofs.

The main subject is the FAT engine `drivers/sdcard/fatfs/ff.c` in the configuration of its
`ffconf.h`: 512-byte sectors, a private sector buffer per file, long names in a static
buffer, no fast seek, one volume. It is modelled as the stack of caches it is, and every
layer is proved to mean something simple:

- **Layout, BootSector** - what the mount accepts, and that an accepted volume's areas are disjoint.
- **Window** - the one-sector write-back window. Its meaning is the *logical disk*: what the
  medium will hold after a flush. Moving and flushing never change it.
- **FatTable** - packed 12-, 16- and 32-bit entries through the window: an array of cluster values.
- **Chains, ChainOps, GetFree** - linked clusters: a set of disjoint end-marked lists, a free
  count, and a next-fit search.
- **FileView, FileState, DiskIO, FilObject, FileRead, FileGrow, FileWrite, FileSeek,
  FileTruncate, FileSync, FileTheorems** - an open file: a byte sequence with a position. Bytes
  that nobody wrote (after an extending seek) are unspecified, written `None`. The key invariant
  is that `clust` holds byte `fptr - 1` and the buffer overlays sector `dsect`.
- **Lfn, LongSlots, Directory, DirAttributes, DirRuns, DirTheorems, DirShort, DirState, DirObject, DirScan, DirUpdate,
  DirRoundTrip, DirFile** - long names in 13-character slots, a directory as a list of slots, what the two
  scans make of it, and the DIR object over the window that reads and changes it. The invariant
  that makes registering and removing work is that no live slot follows the first zero slot.
- **DiskFormat** - the on-disk formats byte by byte: what the fields, FAT entries and slots of the
  other modules are on the medium.

Around it stand smaller models, each with one or two hard claims:

- **Seqlock, SeqlockInvariant, SeqlockRuns** - the hand-off of a window's draw commands between a client and the shell, as
  interleaved steps (`shell/dcwlib.c`, `shell/dcshell.c`).
- **Resampler** - the streaming resampler of the player and its closed form (`shell/dcwplay.c`).
- **Trampoline, PageWalk, PageOrder, Chainloader** - the page list that C builds and the SH-4 loop that walks it
  (`shell/dcwboot.c`, `shell/trampoline.src`).
- **Quads** - the compositor's growing quad list, its desktop cache and its draw batches
  (`shell/dcgfx.c`).
- **Checksum, Nat, Dns, DnsMessage, DnsTheorems** - ones-complement checksums, the game-master address rewrite and the
  flattening of DNS replies (`net/netif/netif.c`).

`Arith` and `Bytes` hold the arithmetic and the little-endian fields that the FAT layers share.
Division by a variable cluster size is written as repeated subtraction; `Arith.QuotRemAreDivMod`
says that this is the machine's division. Code that updates fields or arrays in place is modelled
by classes and methods whose postconditions are stated in terms of functions on values; what the
code promises is then proved about those functions.

## What the proofs found

- The mount adds and multiplies in 32 bits without a check. It accepts boot sectors whose areas
  overlap or whose clusters lie past sector 2^32 (`BootSector.WrappedMountIsAccepted`,
  `BootSector.WrappedClusterIsAccepted`); `Layout.MountIsSoundIff` says exactly which ones are sound.
- The mount does not check that the FSINFO sector lies before the FAT (`FileSync.FsInfoCanBeFat`).
  If it does not and FSINFO is due, `sync_fs` frees clusters 2 to 120 (`FileSync.SyncFs`,
  `FileSync.FsInfoBreaksChain`); in every other case it keeps the FAT (`FileSync.FsInfoKeepsFatIff`).
- A new file without a long name appears under the name of a vanished one when the long slots of
  that one are still in front of its entry and carry its checksum (`DirShort.ShortAddsOne`,
  `DirShort.OrphanExample`). Removing the file takes those slots along and is still an undo.
- The FAT16/FAT32 scan of `f_getfree` also counts entries 0 and 1 (`GetFree.WideScanIsExact`). The
  FAT12 scan stores the count it has reached even when it stops at an entry that holds 1.
- `pick_lfn` rejects names of 254 and 255 characters and `cmp_lfn` those of 255, although the
  buffer is sized for 255 (`Lfn.PickRoundTrip`, `Lfn.LongestNeverMatches`).
- After `f_truncate`, a buffer that was dirty is flushed to its sector even when that sector's
  cluster has just been freed. Nothing in the file or in another file is affected, because the
  cluster is free.
- The sequence counter of the compositor is 32 bits wide. A torn frame needs 2^31 frames published
  within one attempt (`SeqlockRuns.CounterWrapTears`); short of that none is ever accepted.
- The resampler's step drops bits for source rates from 65536 Hz on (`Resampler.StepIsExact`), so a
  96 kHz file plays far too slowly and a 65536 Hz one never advances. The last source frame is
  never played unless it is the only one.
- The chainloader does not check that the image is read before it is overwritten. Up to 1520 pages
  it always is (`Chainloader.SmallImageIsOrdered`); beyond that it depends on where the pages lie
  (`Chainloader.LargeImageIsLate`), and a page that is read too late is copied wrongly for some
  content of the image (`PageOrder.CopiesAllIff`).
- A game that dials one dead address after another gets replies to the first under the address of
  the second (`Nat.RepliesGoToLastDialler`).
- A DNS reply without a question section would be rebuilt with an answer whose name points to
  itself (`DnsTheorems.FlattenedMessage`).

## Model

| member | source | states |
|---|---|---|
| Arith.PowersOfTwo | drivers/sdcard/fatfs/ff.c:2325-2327 | the mount's test on the cluster size, `x && !(x & (x - 1))` on a byte, accepts exactly 1, 2, 4, ... 128 |
| Arith.PowersOfTwoBelow256 | drivers/sdcard/fatfs/ff.c:2325-2327 | the recursive power-of-two test of the model accepts the same eight sizes |
| Arith.QuotRemAreDivMod | drivers/sdcard/fatfs/ff.c:1205-1225 | the recursive quotient and remainder of the model are the machine's `/` and `%` |
| Bytes.LdStLe | drivers/sdcard/fatfs/ff.h:343-351 | loading a little-endian field that was stored gives the value truncated to the field |
| Bytes.LdStOther | drivers/sdcard/fatfs/ff.h:343-351 | a store leaves every field that does not overlap it |
| Bytes.LdBytes | drivers/sdcard/fatfs/ff.h:343-351 | the low byte of a field comes first, in loads |
| Bytes.StBytes | drivers/sdcard/fatfs/ff.h:343-351 | and in stores: the bytes of a stored field |
| Layout.AreasInOrderIff | drivers/sdcard/fatfs/ff.c:2318-2351 | reserved, FAT, root and data areas of an accepted volume follow one another if and only if the sector after the system areas has a 32-bit number |
| Layout.ClustersReachedIff | drivers/sdcard/fatfs/ff.c:891-899 | clust2sect and the sector offsets after it reach every cluster if and only if the sector after the last one is at most 2^32 |
| Layout.TableInsideIff | drivers/sdcard/fatfs/ff.c:2356-2360 | every entry lies in the first FAT copy if and only if the FAT has the bytes for them in exact arithmetic |
| Layout.MountIsSoundIff | drivers/sdcard/fatfs/ff.c:2309-2360 | an accepted volume has its areas in order, its clusters reachable and its entries inside the FAT if and only if the sums, the sector numbers and the FAT size are right in exact arithmetic; which volumes are accepted is the next row |
| Layout.MountAcceptsIff | drivers/sdcard/fatfs/ff.c:2309-2360 | where the sums fit 32 bits: the mount accepts exactly the fields with 512-byte sectors, 1 or 2 FATs, a power of two of sectors per cluster, whole root sectors, reserved sectors, at least one cluster, a FAT as long as its clusters ask and a root area exactly below 65526 clusters; and the geometry it then fills in |
| Layout.ClusterSizeBits | drivers/sdcard/fatfs/ff.c:2325-2327 | the test on the cluster size in bits, x & (x - 1) |
| Layout.OrdinarySize | drivers/sdcard/fatfs/ff.c:2356-2360 | up to 0x0FFFFFF5 clusters the mount's own check of the FAT size is exact, and only the sums and sector numbers can go wrong |
| Layout.MountIsValid | drivers/sdcard/fatfs/ff.c:2309-2360 | such a volume has the geometry that every other layer builds on |
| BootSector.BootReadsBack | drivers/sdcard/fatfs/ff.c:2309-2339 | a boot sector made from BPB fields passes the signature tests and reads as those fields |
| DiskFormat.BpbBytes | drivers/sdcard/fatfs/ff.c:2309-2339 | each field of the boot sector by its byte offset, with the 16-bit sizes taken when they are not 0 |
| DiskFormat.BootSignature | drivers/sdcard/fatfs/ff.c:2218-2226 | a FAT boot sector ends in 55 AA and says FAT at offset 54 or 82 |
| DiskFormat.FsInfoUsedBytes | drivers/sdcard/fatfs/ff.c:2367-2369 | FSINFO is in use when a FAT32 boot sector says at offset 48 that it is sector 1 |
| BootSector.BootIsSoundIff | drivers/sdcard/fatfs/ff.c:2309-2360 | the same equivalence for every 512-byte boot sector |
| BootSector.WrappedMountIsAccepted | drivers/sdcard/fatfs/ff.c:2319-2352 | the mount accepts a boot sector with two FATs of 2^31 sectors although its root directory lies on the FAT |
| BootSector.WrappedClusterIsAccepted | drivers/sdcard/fatfs/ff.c:891-899 | the mount accepts a boot sector near the end of a disk of 2^32 sectors whose areas are in order and one of whose clusters gets sector number 0 |
| Layout.EntryFits | drivers/sdcard/fatfs/ff.c:918-938 | every byte that get_fat touches for a valid entry is in the first FAT copy, including the second byte of a FAT12 entry |
| Layout.ClustersDisjoint | drivers/sdcard/fatfs/ff.c:891-899 | distinct valid clusters own disjoint sector ranges inside the data area, away from both FATs |
| DiskFormat.ClusterSector | drivers/sdcard/fatfs/ff.c:891-899 | cluster c starts at bsect + reserved + FATs + root area + (c - 2) * csize |
| Window.FatFs.constructor | drivers/sdcard/fatfs/ff.c:2343-2385 | a mounted volume starts with a clean window; the free count and the last cluster are those of a signed FSINFO sector if it is in use, and unknown otherwise |
| Window.SyncWindow | drivers/sdcard/fatfs/ff.c:760-782 | afterwards the medium is the logical disk of before, with both FAT copies written |
| Window.MoveWindow | drivers/sdcard/fatfs/ff.c:791-829 | the logical disk never changes, and the window shows the requested sector of it |
| Window.StoreByte | drivers/sdcard/fatfs/ff.c:933-934 | a store through the window replaces one byte of the logical disk, and of the mirror if the sector is a FAT sector |
| Window.PutKeepsMirrored | drivers/sdcard/fatfs/ff.c:772-778 | a write through the window keeps the two FAT copies together |
| Window.CopiesAgree | drivers/sdcard/fatfs/ff.c:760-782 | if the copies agreed at mount time, they differ at most at the sector of a dirty window |
| FatTable.GetFat | drivers/sdcard/fatfs/ff.c:909-945 | the entry of the array of cluster values for FAT12, FAT16 and FAT32; 1 for a number that is no cluster; nothing on disk changes |
| FatTable.PutFat | drivers/sdcard/fatfs/ff.c:955-1007 | exactly entry clst becomes the value truncated to the entry width; every other entry, the FAT32 reserved bits and all sectors outside the FATs stay |
| FatTable.PutFat12 | drivers/sdcard/fatfs/ff.c:971-983 | the two byte stores of a packed entry, with the window moved in between when the entry straddles sectors |
| FatTable.PutFat32 | drivers/sdcard/fatfs/ff.c:992-998 | the FAT32 store keeps the four reserved bits of the field |
| FatTable.Packed12Odd | drivers/sdcard/fatfs/ff.c:971-983 | packing and unpacking an odd FAT12 entry gives the low 12 bits |
| FatTable.Packed12Even | drivers/sdcard/fatfs/ff.c:971-983 | packing and unpacking an even FAT12 entry gives the low 12 bits |
| FatTable.Neighbour12 | drivers/sdcard/fatfs/ff.c:971-983 | a FAT12 store leaves every other entry, also the two that share its bytes |
| FatTable.Put16 | drivers/sdcard/fatfs/ff.c:985-990 | a FAT16 store sets its entry to the low 16 bits and leaves the others |
| FatTable.Put32 | drivers/sdcard/fatfs/ff.c:992-998 | a FAT32 store sets its entry and leaves the others and all reserved bits |
| DiskFormat.EntryBytes12 | drivers/sdcard/fatfs/ff.c:922-928 | entry c of a FAT12: 12 bits of the two bytes at 3c/2 |
| DiskFormat.EntryBytes16 | drivers/sdcard/fatfs/ff.c:930-933 | entry c of a FAT16: the two bytes at 2c |
| DiskFormat.EntryBytes32 | drivers/sdcard/fatfs/ff.c:935-938 | entry c of a FAT32: 28 bits of the four bytes at 4c |
| Chains.SameHeadSameChain | drivers/sdcard/fatfs/ff.c:1033-1056 | a start cluster has only one end-marked list |
| Chains.ChainIsAcyclic | drivers/sdcard/fatfs/ff.c:1033-1056 | a list that reaches an end mark visits no cluster twice |
| Chains.SharedTail | drivers/sdcard/fatfs/ff.c:1033-1056 | two lists that meet are equal from there on |
| Chains.RemoveOnlyClears | drivers/sdcard/fatfs/ff.c:1033-1056 | on any table, even with a cyclic or broken list, removing only turns entries to 0 and counts exactly those |
| Chains.RemoveFreesChain | drivers/sdcard/fatfs/ff.c:1033-1056 | on a well-formed list removing frees exactly its clusters |
| Chains.SearchIsComplete | drivers/sdcard/fatfs/ff.c:1092-1104 | when no entry holds 1, the wrap-around search fails if and only if no cluster is free |
| Chains.SearchIsDetermined | drivers/sdcard/fatfs/ff.c:1092-1104 | the search has a single outcome |
| Chains.StretchedChain | drivers/sdcard/fatfs/ff.c:1106-1109 | linking a free cluster behind the last one gives the list with that cluster appended |
| Chains.CutChain | drivers/sdcard/fatfs/ff.c:3786-3790 | writing an end mark after k clusters leaves the first k as a list and the rest as another |
| Chains.CreateKeepsChains | drivers/sdcard/fatfs/ff.c:1106-1109 | create_chain(0) adds one singleton list to a set of disjoint lists |
| Chains.StretchKeepsChains | drivers/sdcard/fatfs/ff.c:1106-1109 | create_chain on the last cluster of a list appends one cluster to that list and leaves the others |
| Chains.RemoveKeepsChains | drivers/sdcard/fatfs/ff.c:1033-1056 | remove_chain deletes exactly one list from a set of disjoint lists |
| ChainOps.RemoveChain | drivers/sdcard/fatfs/ff.c:1018-1060 | terminates on every table, clears what the list view says, keeps a right free count right, and makes FSINFO due exactly when a known count changes |
| ChainOps.FindFree | drivers/sdcard/fatfs/ff.c:1092-1104 | returns the first free cluster after the start, going round once; 0 if there is none; 1 if an entry holds 1 |
| ChainOps.CreateChain | drivers/sdcard/fatfs/ff.c:1071-1121 | follows an existing link or links the first free cluster; keeps last_clust, and a free count that is right stays known and right; FSINFO becomes due exactly when a cluster is taken and the count is known, and a current FSINFO stays current |
| ChainOps.TakesNextFree | drivers/sdcard/fatfs/ff.c:1080-1104 | the cluster taken is the next free one behind the end of the chain, or behind the one taken last, and only when there is none up to the end of the FAT the first free one |
| ChainOps.InfoKeptByFat | drivers/sdcard/fatfs/ff.c:1111-1115 | changes of the FAT keep the count in a FSINFO that is not due, as long as every change of the count makes it due |
| ChainOps.LinkNew | drivers/sdcard/fatfs/ff.c:1106-1115 | the new cluster gets the end mark of the entry width and hangs behind clst |
| ChainOps.EndMarkEndsChains | drivers/sdcard/fatfs/ff.c:1106 | the stored end mark is not a cluster number on any FAT type |
| DiskFormat.EndMarkBits | drivers/sdcard/fatfs/ff.c:1106 | it has all bits of the entry set: 0xFFF, 0xFFFF or 0x0FFFFFFF |
| GetFree.Scan12 | drivers/sdcard/fatfs/ff.c:3717-3724 | counts the zero entries from 2 on, or reports an entry that holds 1 |
| GetFree.ScanWide | drivers/sdcard/fatfs/ff.c:3725-3743 | counts the zero entries of a FAT16 or FAT32 table from entry 0 on |
| GetFree.FGetFree | drivers/sdcard/fatfs/ff.c:3712-3748 | the cached count while in range, otherwise the count of the scan, which is the number of free clusters (and so an accurate cached count) if and only if the volume is FAT12 or entries 0 and 1 are nonzero; a scan makes FSINFO due |
| GetFree.WideScanIsExact | drivers/sdcard/fatfs/ff.c:3725-3743 | the FAT16/FAT32 scan equals the number of free clusters if and only if entries 0 and 1 are nonzero |
| FileView.SectorAt | drivers/sdcard/fatfs/ff.c:891-899 | position q of a file is sector q mod csize of cluster q div csize |
| FileView.SectorsDistinct | drivers/sdcard/fatfs/ff.c:891-899 | an acyclic list names no sector twice |
| FileView.SectorsApart | drivers/sdcard/fatfs/ff.c:891-899 | lists without a common cluster have no common sector |
| FileView.BufferWrite | drivers/sdcard/fatfs/ff.c:3117-3126 | writing into the buffer of a sector overwrites exactly those bytes of the file |
| FileView.DirectWrite | drivers/sdcard/fatfs/ff.c:3081-3101 | writing whole sectors past the buffer, and refreshing the buffer if it is among them, overwrites exactly those bytes of the file |
| FileView.FlushKeeps | drivers/sdcard/fatfs/ff.c:3072-3076 | writing a dirty buffer back changes nothing of the file |
| FilObject.Fil.Open | drivers/sdcard/fatfs/ff.c:2584-2610 | an opened file has size and start cluster of its directory entry and the content its chain holds |
| FilObject.FlushBuffer | drivers/sdcard/fatfs/ff.c:2720-2724 | flushing the buffer changes neither the file nor anything else |
| FileState.NextCluster | drivers/sdcard/fatfs/ff.c:2662-2678 | at a cluster boundary the cluster that get_fat names holds the next byte: clust holds byte fptr - 1 |
| FileState.ClusterIsContiguous | drivers/sdcard/fatfs/ff.c:2682-2700 | the sectors left in a cluster are consecutive on the medium |
| FileRead.FRead | drivers/sdcard/fatfs/ff.c:2636-2758 | returns exactly the next min(btr, rest) bytes of the content and moves the pointer behind them |
| FileRead.ReadDirect | drivers/sdcard/fatfs/ff.c:2682-2715 | sectors read past the buffer are patched from a dirty buffer that is among them |
| FileWrite.FWrite | drivers/sdcard/fatfs/ff.c:3021-3134 | the content is the old one overwritten from the pointer by exactly the *bw bytes reported; short only when the size would wrap, or when no cluster is free and the last cluster is written to its end; a tight chain stays tight; a current FSINFO stays current |
| FileWrite.PutSectors | drivers/sdcard/fatfs/ff.c:3081-3101 | the whole-sector part of a write |
| FileWrite.EnterCluster | drivers/sdcard/fatfs/ff.c:3048-3067 | the cluster for the next byte: the next link, or a new cluster at the end of the chain |
| FileSeek.FLseek | drivers/sdcard/fatfs/ff.c:3441-3517 | inside the file only the pointer moves; past the end a writable file grows by unspecified bytes, stopping short only at the end of its last cluster when no cluster is free; a read-only one stops at its end |
| FileSeek.Walk | drivers/sdcard/fatfs/ff.c:3472-3488 | walking the chain reaches the cluster of the target, stretching it where it ends |
| FileTruncate.FTruncate | drivers/sdcard/fatfs/ff.c:3761-3808 | keeps exactly the first fptr bytes and exactly the clusters that cover them, frees the rest, and flushes a dirty buffer |
| FileTruncate.CutAtPointer | drivers/sdcard/fatfs/ff.c:3779-3803 | the part of f_truncate behind its size test |
| FileTruncate.CutAfter | drivers/sdcard/fatfs/ff.c:3785-3794 | ending the chain and removing the tail frees the tail's clusters and no others |
| FileSync.SyncFs | drivers/sdcard/fatfs/ff.c:838-880 | afterwards window and medium agree and FSINFO holds the counts if it was due; no FAT value changes unless FSINFO is due and lies on the FAT, and then clusters 2 to 120 are free; otherwise a current FSINFO stays current |
| FileSync.FSync | drivers/sdcard/fatfs/ff.c:3143-3181 | after a sync of a changed file the medium alone decodes to its size, start cluster, chain and every specified byte, on every FAT type; of the entry bytes 0-10 and 12-17 stay, byte 11 is the old one OR 0x20, and the rest are date, time, cluster and size; only the entry, the file's sectors and a due FSINFO sector differ, and a current FSINFO stays current |
| FileSync.FsInfoKeepsFatIff | drivers/sdcard/fatfs/ff.c:851-862 | on a volume with a cluster among 2 to 120 in use, rewriting FSINFO keeps the FAT if and only if FSINFO does not lie on it |
| FileSync.FsInfoBreaksChain | drivers/sdcard/fatfs/ff.c:851-862 | otherwise every file that uses one of those clusters has lost its chain |
| FileSync.FsInfoCanBeFat | drivers/sdcard/fatfs/ff.c:2335-2369 | the mount accepts such a volume: a boot sector for a FAT32 with one reserved sector and FSINFO in use |
| FileSync.FsInfoReadsBack | drivers/sdcard/fatfs/ff.c:2371-2383 | what the mount loads from the FSINFO sector that sync_fs writes are the counts that were stored |
| FileSync.SyncedSize | drivers/sdcard/fatfs/ff.c:3168 | the rewritten entry holds the size |
| FileSync.SyncedCluster | drivers/sdcard/fatfs/ff.c:3169 | the rewritten entry holds the start cluster, split over its two fields |
| FileSync.SyncedOthers | drivers/sdcard/fatfs/ff.c:3166-3172 | no byte outside the 32 of the entry changes |
| FileSync.SyncedIsRewritten | drivers/sdcard/fatfs/ff.c:3166-3172 | the stores into the entry, field by field, are those 32 bytes |
| DiskFormat.ClusterBytes | drivers/sdcard/fatfs/ff.c:1343-1372 | the start cluster of an entry: bytes 26-27, and 20-21 on FAT32 only |
| DiskFormat.FsInfoBytes | drivers/sdcard/fatfs/ff.c:2371-2383 | the mount takes the counts at 488 and 492 of a sector with the three signatures |
| DiskFormat.FsInfoSectorBytes | drivers/sdcard/fatfs/ff.c:851-862 | the sector that sync_fs writes, byte by byte |
| DirFile.SyncReplacesSlot | drivers/sdcard/fatfs/ff.c:3163-3175 | when the entry is slot i of a directory on clusters of its own, the listing after the sync is the old one with slot i replaced |
| DirFile.SyncKeepsDirectory | drivers/sdcard/fatfs/ff.c:3163-3175 | and both scans see the same directory: the same objects, and the same outcome of dir_find for every query |
| DirFile.SyncListed | drivers/sdcard/fatfs/ff.c:3143-3181 | f_sync itself leaves the enumeration and every outcome of dir_find of the file's directory |
| FileTheorems.OtherFileUnchanged | drivers/sdcard/fatfs/ff.c:3021-3134 | read, write, seek and truncate of one file leave chain, buffer and content of every other open file |
| FileTheorems.ClosedFileUnchanged | drivers/sdcard/fatfs/ff.c:3021-3134 | the same for files that are not open, read from the medium |
| FileTheorems.OtherFileSynced | drivers/sdcard/fatfs/ff.c:3143-3181 | a sync of one file leaves chain, buffer and content of every other open file |
| FileTheorems.ClosedFileSynced | drivers/sdcard/fatfs/ff.c:3143-3181 | the same for a file that is not open, whose entry may lie in the same sector |
| FileTheorems.Remount | drivers/sdcard/fatfs/ff.c:838-880 | flushing and mounting again, with nothing assumed about what was due: if FSINFO was current and the free count accurate or unknown, the new mount has the same count, or none without FSINFO, and it is accurate |
| FileTheorems.WriteSyncRemount | drivers/sdcard/fatfs/ff.c:3021-3181 | f_write, f_sync and a new mount: the count is the number of free clusters or unknown, and the medium holds the file as written |
| FileState.InfoKeptByFile | drivers/sdcard/fatfs/ff.c:1041-1044 | what f_write, f_lseek and f_truncate may change keeps FSINFO current |
| DirUpdate.InfoKeptByTable | drivers/sdcard/fatfs/ff.c:1111-1115 | and so does what dir_register and dir_remove may change |
| FileTheorems.FileOperationKeepsChains | drivers/sdcard/fatfs/ff.c:3021-3134 | the chains of all files stay a set of disjoint end-marked lists under every file operation |
| FileTheorems.ReopenedContent | drivers/sdcard/fatfs/ff.c:3143-3181 | opening a synchronised file from the medium gives the content back wherever it is specified |
| FileTheorems.WriteThenRead | drivers/sdcard/fatfs/ff.c:2636-2758 | writing, seeking back and reading returns the bytes written, also after a short write |
| Lfn.FitLfn | drivers/sdcard/fatfs/ff.c:1446-1471 | a slot holds its 13 characters, terminator and filler, its order with the end flag on the last part, and the sum |
| Lfn.PickLfn | drivers/sdcard/fatfs/ff.c:1413-1441 | stores one slot's characters into the name buffer or rejects the slot, as the specification function says |
| Lfn.CmpLfn | drivers/sdcard/fatfs/ff.c:1382-1408 | accepts a slot exactly when the specification function does |
| Lfn.PickRoundTrip | drivers/sdcard/fatfs/ff.c:1413-1441 | splitting a name into slots and collecting them in stored order gives it back if and only if it has at most 253 characters |
| Lfn.MatchesExactly | drivers/sdcard/fatfs/ff.c:1382-1408 | for names of up to 254 characters all slots match a buffer if and only if the names are equal after upcasing, whatever follows the terminator in the buffer |
| Lfn.LongestNeverMatches | drivers/sdcard/fatfs/ff.c:1395-1397 | the last slot of a 255-character name matches no buffer |
| LongSlots.PickableIff | drivers/sdcard/fatfs/ff.c:1413-1441 | for any 32 bytes: pick_lfn accepts a slot if and only if its order is at least 1, filler follows its terminator and its characters fit the buffer |
| LongSlots.PickedBytes | drivers/sdcard/fatfs/ff.c:1413-1441 | and stores exactly them at their place, with a terminator behind the last part |
| LongSlots.MatchesIff | drivers/sdcard/fatfs/ff.c:1382-1408 | for any 32 bytes: cmp_lfn accepts a slot if and only if filler follows its terminator, its characters are those at its place in the buffer up to case, and a full last part ends the name there |
| LongSlots.OrderByte | drivers/sdcard/fatfs/ff.c:1391 | the order byte in bits: 0x40 marks the last part |
| DiskFormat.LongSlotBytes | drivers/sdcard/fatfs/ff.c:1378 | a slot fits a part of a name if and only if all its 32 bytes are the ones the format gives, with the table of offsets written out |
| DiskFormat.SlotsNeeded | drivers/sdcard/fatfs/ff.c:1712-1714 | a long name takes the fewest slots of 13 characters that hold it |
| DiskFormat.SumIsRotating | drivers/sdcard/fatfs/ff.c:1543-1556 | the sum of a short name is eleven times a rotation of the byte to the right and an addition |
| Directory.ReadingEnumerates | drivers/sdcard/fatfs/ff.c:1624-1672 | calling dir_read again and again, each time behind the last object, yields the list of objects |
| Directory.PickableAnyBuffer | drivers/sdcard/fatfs/ff.c:1413-1441 | whether pick_lfn accepts a slot does not depend on the buffer |
| Directory.ReadNewObject | drivers/sdcard/fatfs/ff.c:1646-1659 | dir_read meets the slots of a new object as one object with its long name, whatever scan state came before |
| DirRuns.FindsWanted | drivers/sdcard/fatfs/ff.c:1563-1614 | for every directory: dir_find returns the first live short entry that has the short name looked for, or behind it in one piece the parts n | 0x40, n - 1, ... 1 of the long name, each tied to the sum of the short one; and where that run begins |
| DirRuns.ObjectNames | drivers/sdcard/fatfs/ff.c:1640-1659 | for every directory: an enumerated object shows the long name whose parts stand complete and in order right in front of its entry, and none otherwise |
| DirAttributes.ObjectsAreReadable | drivers/sdcard/fatfs/ff.c:1640-1646 | a slot in front of the end mark is the entry of an enumerated object if and only if byte 0 is neither 0xE5 nor a dot, attr & 0x3F is not 0x0F, and attr & 0x1F is not 0x08 |
| DirAttributes.ObjectsAscend | drivers/sdcard/fatfs/ff.c:1640-1646 | the objects are enumerated in the order of their entries, each once |
| DirAttributes.FoundIsFindable | drivers/sdcard/fatfs/ff.c:1583-1587 | what dir_find returns lies in front of the end mark, is not deleted, no part of a long name, and has the volume bit clear |
| DirAttributes.ShortSearchIff | drivers/sdcard/fatfs/ff.c:1583-1602 | a search by short name alone returns the first such entry with that name, and none if there is none |
| DirAttributes.ArchiveBitIsIgnored | drivers/sdcard/fatfs/ff.c:1640-1646 | setting or clearing the archive bit of an entry changes neither scan |
| DirAttributes.ArchiveBitKeepsShort | drivers/sdcard/fatfs/ff.c:1640-1646 | a slot is of the kind that the archive bit keeps if and only if it is no part of a long name |
| DirTheorems.FirstRunBeforeEnd | drivers/sdcard/fatfs/ff.c:1318-1326 | the first run of free slots never lies behind the end mark |
| DirTheorems.RegisterAddsOne | drivers/sdcard/fatfs/ff.c:1712-1745 | an object with a long name of up to 253 characters adds exactly one object to the enumeration and keeps every slot behind the end mark free |
| DirTheorems.RegisterIsFound | drivers/sdcard/fatfs/ff.c:1563-1614 | an object with a long name that dir_find did not find is found afterwards, at its short entry and with its first long slot |
| DirTheorems.RegisterKeepsOthers | drivers/sdcard/fatfs/ff.c:1563-1614 | registering an object with a long name changes the outcome of dir_find for no name it does not answer to |
| DirTheorems.RemoveUndoesRegister | drivers/sdcard/fatfs/ff.c:1761-1797 | removing an object with a long name restores the enumeration and every outcome of dir_find |
| DirShort.ShortAddsOne | drivers/sdcard/fatfs/ff.c:1735-1745 | without a long name exactly one object is added; it shows a long name if and only if the slots in front complete one with its checksum |
| DirShort.OrphanBecomesName | drivers/sdcard/fatfs/ff.c:1646-1659 | long slots left in front with the new entry's checksum become its name |
| DirShort.OrphanExample | drivers/sdcard/fatfs/ff.c:1646-1659 | a concrete directory of one orphan slot and one empty slot where this happens to any short name |
| DirShort.ShortFindOutcome | drivers/sdcard/fatfs/ff.c:1584-1603 | for every query, what dir_find makes of the directory with the new short entry |
| DirShort.ShortIsFound | drivers/sdcard/fatfs/ff.c:1602 | a short name that dir_find did not find is found at the new entry |
| DirShort.ShortKeepsOthersIff | drivers/sdcard/fatfs/ff.c:1584-1603 | the outcome changes for exactly the short name itself and the long names that the slots in front complete |
| DirShort.ShortRemoveUndoes | drivers/sdcard/fatfs/ff.c:1761-1797 | removing the entry, alone or with the long slots in front of it, restores the enumeration and every outcome of dir_find |
| DirTheorems.HitShape | drivers/sdcard/fatfs/ff.c:1584-1600 | what dir_find returns is a run of long slots and a short entry, in front of the end mark |
| DirTheorems.RemoveTakesOne | drivers/sdcard/fatfs/ff.c:1761-1797 | removing any object dir_find found takes exactly that one out of the enumeration |
| DirTheorems.RemoveKeepsOthers | drivers/sdcard/fatfs/ff.c:1761-1797 | and changes the outcome of dir_find for no name that led elsewhere or nowhere |
| DirState.SdiFinds | drivers/sdcard/fatfs/ff.c:1213-1225 | walking the chain by whole clusters and dividing the rest names the sector and slot of index i |
| DiskFormat.TableStart | drivers/sdcard/fatfs/ff.c:1200-1209 | a directory starts at its start cluster, the root at the cluster the boot sector names on FAT32 and in the fixed area otherwise |
| DiskFormat.TableSectors | drivers/sdcard/fatfs/ff.c:1211-1224 | sector o of cluster k of a directory is its sector k * csize + o |
| DiskFormat.RootSectors | drivers/sdcard/fatfs/ff.c:1206-1209 | sector q of the fixed root area is sector dirbase + q |
| DiskFormat.ListingBytes | drivers/sdcard/fatfs/ff.c:1224-1225 | slot i is the 32 bytes at 32 * (i mod 16) of sector i div 16 of the table, up to 65536 slots |
| DirState.NextInChain | drivers/sdcard/fatfs/ff.c:1261-1286 | at a cluster boundary the next slot is the first of the linked cluster, or the chain ends |
| DirState.SlotWritten | drivers/sdcard/fatfs/ff.c:1735-1742 | writing 32 bytes at the current slot replaces that slot of the listing and no other |
| DirObject.DirSdi | drivers/sdcard/fatfs/ff.c:1190-1228 | goes to slot i if the table has one, otherwise FR_INT_ERR with the position kept |
| DirObject.DirNext | drivers/sdcard/fatfs/ff.c:1238-1296 | goes to the next slot; at the end reports it or stretches the chain by one cluster of zero slots, unless the table is fixed, full at 65536 slots, or no cluster is free |
| DirObject.ClearCluster | drivers/sdcard/fatfs/ff.c:1272-1282 | the new cluster is all zeros on the medium, written through the window, and nothing else changes |
| DirObject.DirStretch | drivers/sdcard/fatfs/ff.c:1268-1282 | create_chain and the clean-up: the listing grows by zero slots, other files and clusters stay |
| DirScan.WalkFromStart | drivers/sdcard/fatfs/ff.c:1238-1296 | dir_sdi(0) and i steps of dir_next reach slot i, or report the end of the table |
| DirScan.ByStepsAndByIndex | drivers/sdcard/fatfs/ff.c:1190-1296 | random access equals sequential access: both end at the same index, cluster, sector and slot |
| DirScan.SumOf | drivers/sdcard/fatfs/ff.c:1542-1552 | the checksum loop over a short name computes the rotating sum |
| DirScan.DirFind | drivers/sdcard/fatfs/ff.c:1563-1614 | over the window, the scan returns what the list of slots says, positioned there, and changes nothing on disk |
| DirScan.DirRead | drivers/sdcard/fatfs/ff.c:1624-1672 | the object that the specification's scan reads, positioned there with its long name collected; which slots are objects is told by `DirAttributes.ObjectsAreReadable`; nothing on disk changes |
| DirScan.ReadDead | drivers/sdcard/fatfs/ff.c:1632-1660 | the outcome of dir_read does not depend on what an earlier scan left in the object |
| DirUpdate.DirAlloc | drivers/sdcard/fatfs/ff.c:1307-1332 | finds the first run of nent free slots of the table, stretched if need be; fails only when there is none and the table cannot grow |
| DirUpdate.ChooseNumber | drivers/sdcard/fatfs/ff.c:1700-1709 | takes the first generated short name below 100 that no short entry has |
| DirUpdate.StoreName | drivers/sdcard/fatfs/ff.c:1718-1730 | writes the long slots, last part first, tied to the sum of the short name |
| DirUpdate.DirRegister | drivers/sdcard/fatfs/ff.c:1682-1750 | the listing becomes the old one, stretched, with exactly the new object's slots in the first run that fits; chains and sectors outside the directory stay |
| DiskFormat.ShortSlotBytes | drivers/sdcard/fatfs/ff.c:1738-1743 | the short entry written: the name, no attribute, bits 3 and 4 of the flag byte, zeros; preceded by long slots exactly when bit 1 asks for them |
| DiskFormat.FlagBits | drivers/sdcard/fatfs/ff.c:403-407 | the flag byte of a short name in bits |
| DirUpdate.DirRemove | drivers/sdcard/fatfs/ff.c:1761-1797 | marks exactly the object's slots deleted |
| DiskFormat.DeletedBytes | drivers/sdcard/fatfs/ff.c:1775-1776 | a deleted slot is 0xE5 and 31 zeros, and dir_alloc takes slots that begin with 0xE5 or 0 |
| DirUpdate.RegisterEnumerates | drivers/sdcard/fatfs/ff.c:1682-1750 | with a long name: dir_read enumerates the old objects and exactly the registered one |
| DirUpdate.RegisterThenFind | drivers/sdcard/fatfs/ff.c:1682-1750 | with a long name: dir_find leads to the registered object, in any mix of cases |
| DirUpdate.RegisterThenRead | drivers/sdcard/fatfs/ff.c:1624-1672 | with a long name: the name that dir_read collects for the registered object is its name |
| DirUpdate.RegisterThenRemove | drivers/sdcard/fatfs/ff.c:1761-1797 | with a long name: dir_remove brings the old directory back for dir_read and for every dir_find |
| DirUpdate.DirectoryKeepsFiles | drivers/sdcard/fatfs/ff.c:1682-1797 | changing a directory keeps chain and data of every file that shares no cluster with it |
| DirRoundTrip.RegisterAddsExactlyOne | drivers/sdcard/fatfs/ff.c:1682-1750 | with or without a long name, dir_register adds exactly one object to the enumeration |
| DirRoundTrip.RegisterShortEnumerates | drivers/sdcard/fatfs/ff.c:1682-1750 | without a long name: which object it is, and when it shows a long name all the same |
| DirRoundTrip.RegisterShortThenFind | drivers/sdcard/fatfs/ff.c:1563-1614 | without a long name: dir_find leads to the new entry |
| DirRoundTrip.RegisterShortThenRemove | drivers/sdcard/fatfs/ff.c:1761-1797 | without a long name: dir_remove of what dir_find finds brings the old directory back |
| DirRoundTrip.RegisterToRemove | drivers/sdcard/fatfs/ff.c:1563-1797 | over the window: registering a name not found before, finding it, reading it and removing it gives its name in between and the old directory at the end |
| SeqlockInvariant.ClientKeepsInv | shell/dcwlib.c:147-155 | every single store of DCWinEndFrame keeps the protocol's invariant |
| SeqlockInvariant.ShellKeepsInv | shell/dcshell.c:1138-1174 | every single load or copy of SnapWindows keeps the protocol's invariant |
| SeqlockRuns.AcceptedFramesAreWhole | shell/dcshell.c:1138-1174 | over every interleaving a call ends with one whole published frame, unless the counter went all the way round during the attempt it accepted, or after eight failures with none; accepted frame numbers never go backwards |
| SeqlockRuns.UndisturbedAttemptSucceeds | shell/dcshell.c:1150-1172 | an attempt that no store interrupts accepts the newest frame |
| SeqlockRuns.CounterWrapTears | shell/dcshell.c:1166-1172 | without that condition a torn frame can be accepted: 2^31 frames published between two copies of one attempt |
| SeqlockRuns.PublishRuns | shell/dcwlib.c:147-155 | the steps of DCWinEndFrame, run without interruption, publish the frame |
| SeqlockRuns.DcWin.BeginFrame | shell/dcwlib.c:98-101 | drawing starts from an empty frame |
| SeqlockRuns.DcWin.Fill | shell/dcwlib.c:103-115 | appends one fill command; past 192 commands the call is dropped |
| SeqlockRuns.DcWin.EndFrame | shell/dcwlib.c:147-155 | the loop publishes what was drawn, as the steps do |
| Resampler.StepIsExact | shell/dcwplay.c:140-145 | the 16.16 step is the true ratio if and only if the source rate is below 65536 Hz |
| Resampler.StepDropsHighBits | shell/dcwplay.c:140-145 | at every rate the step is that of the low 16 bits of the rate |
| Resampler.HighRateWraps | shell/dcwplay.c:140-145 | at 96 kHz the shift drops bits and the step is less than a third of the ratio |
| Resampler.StuckRate | shell/dcwplay.c:140-145 | at exactly 65536 Hz the step is 0 and the first source frame repeats without end |
| Resampler.EmitsExactly | shell/dcwplay.c:231-252 | for N >= 2 source frames exactly the output frames k with k * step < (N - 1) * 65536 are produced |
| Resampler.OutFrameInRange | shell/dcwplay.c:233-235 | an output sample never leaves the range of the two source samples it lies between, so the cast to short is exact |
| Resampler.OutFrameIsLinear | shell/dcwplay.c:228-235 | output frame k is the straight line between the two source frames around k * step / 65536, with a weight in 256ths, rounded down |
| Resampler.IdentityAtOutputRate | shell/dcwplay.c:211-256 | at 44100 Hz the output is the source, short of its last frame |
| Resampler.Player.Decode | shell/dcwplay.c:211-256 | a call yields the next frames of the closed form, fewer than asked only at its end |
| Resampler.Player.Advance | shell/dcwplay.c:238-249 | stepping past a source frame keeps current and next sample and the end flag in step with the source |
| Resampler.DecodeChunks | shell/dcwplay.c:211-256 | calls with any list of chunk sizes yield the prefix of the closed form as long as their sum, or the whole of it |
| Resampler.PrefixUnique | shell/dcwplay.c:211-256 | there is only one such prefix, so the split into chunks cannot matter |
| Trampoline.P2Bits | shell/dcwboot.c:94-97 | the P2 alias is (pa & 0x1FFFFFFF) | 0xA0000000 |
| Trampoline.EntryBits | shell/dcwboot.c:266 | the entry point is ((dwBase & 0x1FFFFFFF) | 0x80000000) + 4 |
| Trampoline.ShiftsArePowers | shell/dcwboot.c:64-76 | the shifts multiply and divide by powers of two in 32 bits |
| Chainloader.RamPages | shell/dcwboot.c:73 | the pages of that window are those whose addresses ShiftOf accepts |
| Trampoline.ShiftOf | shell/dcwboot.c:66-77 | the first of the three shifts that lands the frame number in RAM, or none |
| Trampoline.ShiftIsRecovered | shell/dcwboot.c:66-77 | for a page address in RAM that shift is the one it was encoded with, and shifting back gives the address |
| Trampoline.BuildTables | shell/dcwboot.c:229-267 | the page tables list every shifted frame number at [i >> 10][i & 1023], and the descriptor names them, the destination, the count and the entry |
| Trampoline.Chainload | shell/trampoline.src:38-72 | the loop with its two counters and three pointers computes the rounds of the specification for every memory content; a page is copied before the count is tested |
| Trampoline.CopyEntry | shell/trampoline.src:42-69 | one round: the pointer is reloaded every 1024 pages, fetches an entry and moves on, and its page is copied |
| PageWalk.RoundCopies | shell/trampoline.src:42-69 | a round that reads its descriptor word, its entry and its page in time copies page i of the list to page i of the destination and nothing else |
| PageWalk.RoundsCopy | shell/trampoline.src:38-72 | rounds in time copy the image in order, the pointer always being behind the entry just used |
| PageOrder.LateIsWrong | shell/trampoline.src:38-72 | when some round reads too late, there is an image, with everything else in memory the same, that is copied wrongly |
| PageOrder.CopiesAllIff | shell/trampoline.src:38-72 | the loop copies every image right if and only if every round reads its descriptor word, table word and source page before they are overwritten |
| Chainloader.BootImage | shell/dcwboot.c:229-267 | building the tables and running the loop loads the image that was in memory before, if the reads are in time |
| Chainloader.SmallImageIsOrdered | shell/dcwboot.c:179-267 | for images of up to 1520 pages in the accepted RAM window they are |
| Chainloader.LargeImageIsLate | shell/dcwboot.c:179-267 | for a longer image whose page 1521 or later is the first page of that window they are not: nothing in the code excludes it |
| Quads.GrowQuads | shell/dcgfx.c:237-283 | keeps the first nKeep quads and their indices; fails only above 16384 quads or without memory; the capacity at least doubles and stays below twice the need |
| Quads.Gfx.PushQuad | shell/dcgfx.c:300-387 | appends the quad with its texture, or leaves the list when there is no room or nothing is visible |
| Quads.StoreIndices | shell/dcgfx.c:378-385 | slot n gets 4n + {0,1,2,1,3,2}, which fits 16 bits below the ceiling |
| Quads.Gfx.EndDesktopCache | shell/dcgfx.c:941-954 | the recorded quads become the cached desktop, or without memory as many of the first ones as it has room for |
| Quads.Gfx.BlitDesktopCache | shell/dcgfx.c:956-973 | the scene becomes the cached desktop again, or empty without memory |
| Quads.Gfx.ShrinkScene | shell/dcgfx.c:287-299 | back to the static arrays, unless the scene is on them or wants more; the desktop and the quad count stay |
| Quads.BatchDraws | shell/dcgfx.c:1029-1043 | a run of quads drawn with its own vertices and the indices of slot 0 shows exactly those quads |
| Quads.DrawBatches | shell/dcgfx.c:1026-1046 | the draw calls show exactly the emitted quads, each once, in order, in its own texture; a new call starts only where the texture changes |
| Quads.Present | shell/dcgfx.c:982-1065 | drag ghost and cursor go on top, the draw calls show exactly the resulting list if the scene begins and nothing otherwise, and the next frame starts empty with the desktop kept |
| Quads.Recycle | shell/dcgfx.c:1049-1066 | every 120 frames, and only then, the scene goes back to the static arrays if half as much again as the largest of those frames, and 32, fit there |
| Checksum.FoldKeeps | net/netif/netif.c:236-237 | folding carries preserves the value modulo 65535 and gives 0 only for 0 |
| Checksum.Csum16 | net/netif/netif.c:228-239 | the complement of the folded sum of big-endian words; modulo 65535 the sum is the big-endian number that the bytes spell, an odd number of bytes being padded with a zero |
| Checksum.VerifiesIff | net/netif/netif.c:228-239 | the receiver's test of RFC 1071, on the number that the padded bytes spell, accepts exactly what folds to 0xFFFF |
| Checksum.WordSumIsNumber | net/netif/netif.c:228-239 | the sum of words and that number agree modulo 65535 |
| Checksum.PseudoIsSeed | net/netif/netif.c:460-476 | summing the 12 bytes of the pseudo-header in front is starting from the sum of the two addresses, the protocol and the length |
| Checksum.IhlBits | net/netif/netif.c:562 | the header length is four times the low nibble of the first byte |
| Checksum.StoredVerifies | net/netif/netif.c:560-589 | a checksum computed over a zero field makes a receiver accept the whole; so does 0xFFFF in place of 0 |
| Checksum.IpFixChecksum | net/netif/netif.c:560-568 | the receiver's test accepts the header; only its two checksum bytes change |
| Checksum.TcpFixChecksum | net/netif/netif.c:460-476 | the receiver's test accepts the segment behind its pseudo-header, for even and odd lengths; only its two checksum bytes change |
| Checksum.UdpFixChecksum | net/netif/netif.c:571-589 | the receiver's test accepts the datagram behind its pseudo-header and its checksum is never 0; only its two checksum bytes change |
| Nat.Rewrite | net/netif/netif.c:496-506 | replacing an address changes only it and checksum bytes, and all checksums verify afterwards |
| Nat.Table.RedirectDest | net/netif/netif.c:593-602 | dead addresses map to the revival server, and the pair is remembered |
| Nat.DeadAddresses | net/netif/netif.c:140-141 | the dead addresses are 63.251.242.131 and 204.210.43.239 |
| Nat.Table.TranslateOut | net/netif/netif.c:496-513 | an outgoing datagram to a dead address goes to the revival server; every other one is unchanged; the state is that of the whole run |
| Nat.Table.TranslateIn | net/netif/netif.c:403-418 | after any run of datagrams, a reply from the revival server carries the dead address dialled last as its source, in a copy; every other datagram is passed on |
| Nat.RepliesGoToLastDialler | net/netif/netif.c:593-602 | a caller that dialled a dead address last gets it back as the source of replies if and only if no other dead address was dialled since |
| Nat.NormalizeSyn | net/netif/netif.c:531-545 | a segment with SYN and PSH and without ACK loses PSH and its checksum is valid; other segments are unchanged |
| Dns.QuestionsSame | net/netif/netif.c:266-272 | the same question bytes read as the same questions, whatever follows them |
| Dns.SkipOne | net/netif/netif.c:214-225 | DnsSkipName: labels up to a root label, a pointer, or the end |
| Dns.WalkAnswers | net/netif/netif.c:273-290 | the walk notes whether a CNAME occurs and the first A address |
| Dns.DnsFlatten | net/netif/netif.c:248-334 | rewrites exactly the replies with a complete question section, a CNAME and an A record; lengths are consistent and header and UDP checksums verify |
| DnsTheorems.RewrittenIff | net/netif/netif.c:266-292 | a reply that reads as a message in the sense of RFC 1035 is rewritten if and only if it has a CNAME record and an address record, and the address taken is that of the first address record |
| DnsTheorems.FlattenedMessage | net/netif/netif.c:294-311 | the rewritten reply reads, with names decoded through pointers, as the same questions and one address record owned by the first question's name; without a question its name points to itself and it cannot be read |
| DnsTheorems.FlattenedReply | net/netif/netif.c:248-334 | for a readable reply: the result can be read if and only if it asks something, and then answers with the first address of the original |
| Dns.FlattenedReads | net/netif/netif.c:248-334 | flattening again leaves a rewritten reply alone, and its length fields are consistent |

## Left out

- Failing disk calls: the model covers the path on which every `disk_read`, `disk_write` and `disk_ioctl` succeeds.
- Whether a signed FSINFO sector tells the truth at mount time: the counts are taken over as the code does; an accurate or unknown free count is proved to stay so, and to reach the next mount.
- Boot sector search and partition tables.
- `f_open` beyond the fields it fills in at its end, `create_name`, `follow_path`, `f_mkdir`, `f_rename`, `f_unlink` and `f_opendir`'s path walk: the DIR and FIL objects are constructed directly.
- `gen_numname` is a parameter of `DirUpdate.DirRegister`, as is the upcasing table of the scans; the theorems about names need only that the table maps nothing but the terminator to the terminator.
- Volume labels in `dir_read` (its second argument is always 0 here).
- Timestamps: a parameter of `FileSync.FSync`.
- Caller buffers of `f_read` and `f_write` are sequences, so a buffer that overlaps the file object is not modelled.
- `fs->win`, DIR and FIL objects of several tasks: one caller at a time, no `_FS_LOCK`, no reentrancy.
- Layout.MountIsValid: takes volumes of up to 0x0FFFFFF5 clusters, as the layers above do; `Layout.MountIsSoundIff` has no such bound.
- FatTable.PutFat: takes values below 2^28, which is all that the callers pass.
- FileSync.FSync: assumes that a due FSINFO does not lie on the FAT (what happens otherwise is stated by `FileSync.SyncFs`), and that the file's directory entry is in the root area or in a cluster in use that is not the file's own.
- Directories whose chain is broken, cyclic or shared: the DIR methods take a well-formed table, and the error codes for malformed chains are not modelled there. `ChainOps.RemoveChain` and the search are modelled on any table.
- The mask with the cluster size less one is modelled as a remainder; `Arith.MaskIsRemainder` shows that these agree on 32-bit words.
- Seqlock: stores and loads take effect in program order, as on the console's single core; one window slot in one lifetime, since the slots do not share state. Besides the fill command the text and icon commands are left out: they append in the same way.
- Resampler: WAV and MP3 decoding stand behind a finite source; a source that delivers again after reporting its end is not modelled. The visualisation ring is left out.
- Trampoline: cache operations, the status register, the instruction encoding, and fetching the code itself from memory. Memory is words of physical RAM; an address that is no multiple of four names the word it lies in, where the processor would raise an error.
- Chainloader.BootImage: takes an image of at least one page; allocating an empty one is not part of this model.
- Quads: software clipping and vertex values; the clip enters `PushQuad` as corners and a flag. Freed heap arrays are not tracked. Depth, blending, a lost surface and the renderer behind the draw calls are left out.
- Checksum: lengths up to 65536 bytes, where the 32-bit running sum cannot wrap.
- Nat.Rewrite: takes datagrams whose IP, UDP and TCP lengths lie within the buffer; `RxFrame` itself does not check them.
- Dns.DnsFlatten: takes an output buffer that is large enough for the reply it rewrites, and datagrams of up to 0xFF00 bytes.
- DnsMessage: the limit of 255 octets on a name; the authority and additional sections are counted but not read.
- ARP, DHCP, NDIS buffers, logging and registry access in `net/netif/netif.c`.
- Hardware register code, DirectDraw/Direct3D calls, windows and dialogs, and the scripts.
