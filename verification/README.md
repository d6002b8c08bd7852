# Filesystem, terminal and path models of PiPyOS

This project models the stateful core of PiPyOS in Dafny and proves what that code is relied on for. The models follow
the code in its own form: objects whose fields are updated are classes, loops are loops, and each method is tied to a
function or relation about which the properties are proved.

- **The FAT volume** (`deps/ff13a/ff.c`). `Bits`, `FatCodec` and `Geometry` hold the packed table codec and the layout
  that mounting accepts; `Volume` is the filesystem object with its one-sector write-back window, `Mounting` builds it.
  `Chains`, `Allocator` and `Families` treat cluster chains, `Span`, `FileBytes`, `FileAccess` and `FileRuns` open
  files, `LinkMap` the fast-seek map. `DirWalk`, `Lfn`, `DirScan`, `DirRead`, `DirFind` and `DirRegister` are directories
  with long names, `Glob` the wildcard matcher. The sector size is 512, the window is shared by data and FAT sectors, exFAT is
  off. A file without write access behaves as in the read-only build, one with write access as in the writable build.
- **The initfs image** (`tools/mkinitfs.py`, `src/os/initfs.c`, `src/os/os.c`). `MkInitfs` writes the image, `Initfs`
  reads it, `InitfsTree` connects the two, `Descriptors` is the table of open files below `/boot`.
- **The line editor and the terminal** (`python/_readline.py`, `src/pi/bcmframebuffer.c`). `Terminal` is the emulator at
  the level of character cells, `Readline` the editor and the simulation between the two.
- **Path algebra** (`lib/posixpath.py`). `PosixPath` has the string functions and what a path means.

The disk is a sequence of sectors and its reads and writes succeed. The two free parameters of the string code, the case
mapping of the file system and `NAME_MAX` of the C library, are parameters of the model; the current directory is one of
`PosixPath`. `struct.pack` is taken as little-endian, as on the machines that build the image. An initfs image is
assumed to be shorter than 2 GiB, since the reader keeps sizes in signed 32-bit integers.

Where the code decides against its own promise, the model keeps the code and states when the promise holds:

- Boot sectors with sums that wrap in 32 bits are accepted; the layout is sound exactly when none wraps
  (`Mount.AcceptedIffNoWrap`).
- Long names of 254 and 255 units can be stored but not read back, those of 255 units not found by name
  (`DirScan.NameRoundTrip`, `DirFind.RegisteredIsFound`).
- A chain whose end mark is one above its last cluster is refused by the link map builder (`LinkMap.CreateLinkMap`).
- The free count of a sector scan includes the two reserved entries (`Allocator.SectorCountExact`).
- With write access a seek past the end lets the file grow, while a seek by a link map stops at the end
  (`LinkMap.SeekBothWays`).
- Where used entries follow an end mark, room for a new object can lie behind the mark; such an object is not found
  (`DirRegister.RegisterThenFind`).
- A file that is also a directory of another file is listed twice (`InitfsTree.OnceIffNoConflict`).
- Seeking to the end of an initfs file is an error (`Initfs.OpenFile.Lseek`), and closing a standard descriptor returns
  an error without setting `errno` (`Descriptors.OsFiles.Close`).
- `handler_for_path` measures a name before its null check; the model has the guard that is meant.
- `realpath` and `relpath` treat exactly two leading slashes differently from `abspath` (`PosixPath.RealPath`,
  `PosixPath.RelPathInverse`).

## Model

| member | source | states |
|---|---|---|
| `FatCodec.PutGet` | deps/ff13a/ff.c:1141-1269 | For 12, 16 and 28-bit entries: a stored entry reads back cut to its width, and every other entry keeps its value, neighbours that share a byte and the reserved top nibble included |
| `FatCodec.EntryBytes` | deps/ff13a/ff.c:1158-1175 | An entry in the bytes of the table: two nibbles of three, a word, or the low 28 bits of a double word |
| `FatCodec.EntryPair` | deps/ff13a/ff.c:1158-1166 | Three bytes of a 12-bit table, least significant first, hold two entries: the low and the high 12 bits |
| `FatCodec.StoredBytes` | deps/ff13a/ff.c:1228-1264 | The table after a store, byte by byte: which bytes change, what they hold, and which nibbles of them are kept |
| `Volume.FlushTells` | deps/ff13a/ff.c:1031-1049 | Writing a dirty window back changes nothing a reader through the window sees, and makes the two FAT copies equal again |
| `Volume.PokeTells` | deps/ff13a/ff.c:1233-1264 | Changing a byte of a FAT sector in the window changes exactly that byte of the first FAT as a reader sees it |
| `Volume.OverlayTells` | deps/ff13a/ff.c:3892-3913 | Whole sectors written past the window change exactly those sectors, with a window among them brought up to date |
| `Volume.DirectRead` | deps/ff13a/ff.c:3777-3796 | A multi-sector read past the window, with a dirty window patched in, gives the sectors as they are seen through the window |
| `Volume.FatFs.AreaOnDisk` | deps/ff13a/ff.c:1054-1075 | Byte i of the table is byte i % 512 of sector fatbase + i / 512, in the window if that sector is there |
| `Volume.FatFs.FatOnDisk` | deps/ff13a/ff.c:1152-1175 | Each decoded entry in the bytes of the window and the disk, for the three widths |
| `Volume.FatFs.StoreOnDisk` | deps/ff13a/ff.c:1054-1075 | Every other sector is that of the window if it is there, else that of the disk |
| `Volume.FatFs.MirrorOnDisk` | deps/ff13a/ff.c:1036-1045 | Equal FAT copies are equal on the disk, but for a sector that is dirty in the window |
| `Volume.PutDecodes` | deps/ff13a/ff.c:1219-1269 | The decoded table after a store is the table with that one entry updated |
| `Volume.FatFs.constructor` | deps/ff13a/ff.c:3381-3400 | A freshly mounted volume meets the invariant: the window is clean, the decoded FAT and the sectors are those of the disk |
| `Volume.FatFs.SyncWindow` | deps/ff13a/ff.c:1031-1049 | The window is clean afterwards, what a reader sees is the same, and equal FAT copies are equal again |
| `Volume.FatFs.MoveWindow` | deps/ff13a/ff.c:1054-1075 | The window shows the wanted sector as last written, a dirty one having been written back first |
| `Volume.FatFs.GetFat` | deps/ff13a/ff.c:1142-1209 | Reads an entry through the window, stated in the bytes of the table for each width, 12-bit entries across two sectors included; 1 for a number out of range |
| `Volume.FatFs.PutFat` | deps/ff13a/ff.c:1220-1269 | Updates exactly one entry of the decoded table, cut to the width of the FAT; refused for a number out of range, with no byte changed |
| `Volume.FatFs.ReadSectors` | deps/ff13a/ff.c:3777-3796 | Sectors read past the window are those a reader through it sees |
| `Volume.FatFs.WriteSectors` | deps/ff13a/ff.c:3892-3913 | Sectors written past the window replace those a reader through it sees, and no others |
| `Volume.FatFs.WriteWindow` | deps/ff13a/ff.c:3914-3933 | Bytes of one sector written through the window; on the growing edge the sector is not fetched first |
| `Geometry.ClusterInDataArea` | deps/ff13a/ff.c:1124-1132 | A cluster number is valid exactly when its sector is not 0, and then the whole cluster lies in the data area |
| `Geometry.ClustersDisjoint` | deps/ff13a/ff.c:1124-1132 | Two valid clusters share no sector |
| `Geometry.EntryInFirstFat` | deps/ff13a/ff.c:1152-1175 | Every byte of an entry lies in the first FAT; only 12-bit entries can lie in two sectors |
| `Geometry.EndMarksAreNoClusters` | deps/ff13a/ff.c:3369-3383 | The end marks of each sub-type are above every cluster number |
| `Mount.AcceptedIffNoWrap` | deps/ff13a/ff.c:3347-3396 | An accepted boot sector gives disjoint, ordered areas inside the volume and a FAT with room for every cluster exactly when none of the 32-bit sums wraps |
| `Mount.WrapAccepted` | deps/ff13a/ff.c:3195-3396 | A boot sector, byte by byte, that passes check_fs and is accepted although its sums wrap: two FATs of 2^31 sectors too many; its layout is not sound |
| `Mount.FloppyAccepted` | deps/ff13a/ff.c:3195-3396 | The same sector with the right size passes check_fs and is accepted, and no sum wraps |
| `Mount.AcceptedMeans` | deps/ff13a/ff.c:3195-3396 | Which boot sectors are accepted, in their bytes: signature, jump, type string, sizes, and a FAT large enough for the clusters of its width; 32-bit wrap-around included |
| `Mount.LayoutMeans` | deps/ff13a/ff.c:3347-3396 | The layout of an accepted one from its bytes: sub-type by the number of clusters, the bases of the areas and the root |
| `Mount.NoWrapIsSound` | deps/ff13a/ff.c:3347-3396 | The direction from the absence of wrap-around to a sound layout |
| `Mount.SoundDoesNotWrap` | deps/ff13a/ff.c:3347-3396 | The direction back: a sound layout can only come from sums that did not wrap |
| `Mount.SingleBit` | deps/ff13a/ff.c:3357-3358 | Clearing the lowest bit leaves nothing exactly for the powers of two |
| `Mounting.MountVolume` | deps/ff13a/ff.c:3195-3420 | From an accepted boot sector to a filesystem object that meets its invariant; the free count and the last cluster allocated are those of the next sector if, on FAT32, the boot sector names it as FSInfo and it has the three signatures, else unknown; any other boot sector gives none |
| `Chains.ChainAcyclic` | deps/ff13a/ff.c:1413-1500 | A chain that reaches an end mark visits no cluster twice |
| `Chains.ChainUnique` | deps/ff13a/ff.c:1413-1500 | The table determines the chain of a cluster |
| `Chains.ChainAppend` | deps/ff13a/ff.c:1585-1588 | Linking a free cluster behind the tail makes the chain longer by it |
| `Chains.ReleasedChain` | deps/ff13a/ff.c:1438-1471 | Releasing a chain frees exactly its clusters |
| `Chains.ReleasedCount` | deps/ff13a/ff.c:1438-1471 | Releasing a chain makes as many entries free as it has clusters |
| `Chains.CountMeans` | deps/ff13a/ff.c:4600-4680 | The free count is the number of zero entries |
| `Allocator.FindFree` | deps/ff13a/ff.c:1571-1584 | Finds the first free cluster behind the given one, around the table, or shows that none is free; 1 only where an entry of 1 was met |
| `Allocator.CreateChain` | deps/ff13a/ff.c:1509-1600 | Follows the link of the given tail, or links one formerly free cluster behind it, the next one if that is free, which becomes the last one allocated; 0 only when none is free, or the known count says so; a cluster taken is one fewer free and lowers a known count by one; an exact or unknown count stays exact or unknown |
| `Allocator.NoSupply` | deps/ff13a/ff.c:1549-1584 | No cluster can be taken exactly when the count in memory is zero or no entry is free |
| `Allocator.RoomMeans` | deps/ff13a/ff.c:1549-1598 | How a known or unknown free count bounds what can be taken, and how taking and giving back change it |
| `Allocator.FreeFrom` | deps/ff13a/ff.c:1438-1471 | The release loop ends on every table, cyclic ones included, and computes the released table; the free count rises by the entries freed, up to its largest value |
| `Allocator.RemoveChain` | deps/ff13a/ff.c:1414-1500 | Ends the chain at the given tail and releases everything behind, on any table at all |
| `Allocator.GetFree` | deps/ff13a/ff.c:4600-4680 | The count from memory while it is in range, else what the scan of the table counts |
| `Allocator.SectorCountExact` | deps/ff13a/ff.c:4653-4675 | The raw sector scan counts the free clusters exactly when neither reserved entry is zero |
| `Allocator.ReservedCounted` | deps/ff13a/ff.c:4653-4675 | A full 16-bit table, of any size such a volume can have, with reserved entries of zero, for which the scan reports two free clusters |
| `Allocator.StoppedCountExact` | deps/ff13a/ff.c:4623-4630 | A 12-bit scan that stopped at an entry of 1 is exact exactly when nothing is free behind it |
| `Families.FamilyStretch` | deps/ff13a/ff.c:1509-1600 | Stretching one of a family of disjoint chains by a free cluster gives a family of disjoint chains, the others unchanged |
| `Families.StretchAccounts` | deps/ff13a/ff.c:1509-1600 | The clusters in use are still those of the chains: none is lost by stretching |
| `Families.CutEntries` | deps/ff13a/ff.c:1414-1500 | After a cut the suffix is free, the new tail is an end, and every other entry is as it was |
| `Families.FamilyCut` | deps/ff13a/ff.c:1414-1500 | Cutting one of a family of disjoint chains gives a family of disjoint chains, the others unchanged |
| `Families.CutAccounts` | deps/ff13a/ff.c:1414-1500 | The clusters in use are still those of the chains: none is lost by cutting |
| `Families.StretchChain` | deps/ff13a/ff.c:1509-1600 | create_chain on a sound family: one chain grows by the cluster returned, which was free, or nothing changes because none is free |
| `Families.CutChain` | deps/ff13a/ff.c:1414-1500 | remove_chain on a sound family: exactly the named suffix becomes free |
| `Families.CountClusters` | deps/ff13a/ff.c:4600-4680 | f_getfree on a sound family: the exact number of free clusters, known from then on |
| `Families.AllocationRun` | deps/ff13a/ff.c:1414-1600 | Any run of creations, removals and counts: a trace of tables and families explains every answer, and all along the chains are disjoint and end, no cluster is lost, and the free count is exact or unknown |
| `Families.CountRun` | deps/ff13a/ff.c:1414-1600 | Any run of these calls on any table at all: an exact or unknown free count stays one while no call ends a chain at a free cluster and no count is made over reserved entries of zero or past an entry of 1 |
| `Span.SectorInData` | deps/ff13a/ff.c:1124-1132 | Every sector of a file lies behind the FATs and inside the volume |
| `Span.SectorsApart` | deps/ff13a/ff.c:1124-1132 | Different sectors of one file have different places on the disk |
| `Span.ByteOnDisk` | deps/ff13a/ff.c:3774-3796 | Where a byte of a file lies: in the cluster that many links along the chain, its sector in the data area, its place in the sector |
| `FileBytes.ReadRun` | deps/ff13a/ff.c:3774-3796 | Sectors read within one cluster are the bytes of the file there |
| `FileBytes.WriteRun` | deps/ff13a/ff.c:3889-3913 | Sectors written within one cluster replace or extend the bytes of the file there, and touch no sector outside its clusters |
| `FileBytes.WritePart` | deps/ff13a/ff.c:3914-3937 | The same for part of a sector |
| `FileBytes.FrameKeeps` | deps/ff13a/ff.c:3831-3943 | A step that only touches its own clusters and free ones leaves the chain and the bytes of every other file |
| `FileAccess.Fil.FRead` | deps/ff13a/ff.c:3731-3821 | Returns exactly the bytes from the file pointer on, as many as asked for or as there are; the file is unchanged; refused without read access, and with the recorded error after one |
| `FileAccess.Fil.FWrite` | deps/ff13a/ff.c:3831-3943 | Replaces or extends the bytes at the file pointer by a prefix of the data, whose length is exactly the smaller of the 4 GiB limit and the room in the clusters that the file has and that can be taken; it takes no cluster it does not need. Only where a search for a cluster meets an entry of 1 it stops at the end of the clusters with an internal error, which is recorded |
| `FileAccess.NeedFits` | deps/ff13a/ff.c:3852-3867 | The clusters counted as needed for some bytes hold them, and no smaller number does |
| `FileAccess.Fil.FLseek` | deps/ff13a/ff.c:4220-4372 | The file pointer goes to the target, cut to the end without write access and to the room that can be had with it; the file grows to it, its old bytes stay, and it takes no cluster it does not need. Only where a search for a cluster meets an entry of 1 it breaks off with a recorded internal error, size and bytes unchanged |
| `FileAccess.Fil.FTruncate` | deps/ff13a/ff.c:4689-4730 | Keeps the bytes before the file pointer and as many clusters as they need; exactly the others become free, and the free count rises by them |
| `FileAccess.SeekBase` | deps/ff13a/ff.c:4305-4309 | The masked start of a forward seek is the first byte of the current cluster |
| `FileAccess.SeekCluster` | deps/ff13a/ff.c:4324-4350 | Where the loop stops, the cluster and sector are those of the target |
| `FileAccess.TakeCluster` | deps/ff13a/ff.c:1585-1588 | A file that takes a free cluster keeps its chain and everybody else theirs |
| `FileAccess.CutOutcome` | deps/ff13a/ff.c:4702-4714 | Cutting a file to some clusters frees the rest of its chain and nothing else |
| `FileRuns.Perform` | deps/ff13a/ff.c:3731-4730 | One operation on one file is one step of a flat byte sequence that knows its clusters and the free ones, and touches only its own and free clusters |
| `FileRuns.StepDetermined` | deps/ff13a/ff.c:3731-4730 | A step that does not break off determines the outcome, the position, the size, the clusters and the bytes, but for those between the old end and the target of a seek |
| `FileRuns.OnlyGrowthBreaks` | deps/ff13a/ff.c:3831-4372 | A step breaks off only when it needs more clusters than the file has, on a table with an entry of 1 |
| `FileRuns.RoomIsUsable` | deps/ff13a/ff.c:3831-4372 | On a table without an entry of 1, with the free count right or unknown, a write or seek to below 4 GiB into the clusters held or free does all that was asked |
| `FileRuns.OtherKept` | deps/ff13a/ff.c:3731-4730 | Such a step leaves every other open file as it was |
| `FileRuns.PerformAmong` | deps/ff13a/ff.c:3731-4730 | One operation among several open files with disjoint chains: its file takes the flat step, all others keep bytes, position and clusters |
| `FileRuns.Run` | deps/ff13a/ff.c:3731-4730 | Every run of reads, writes, seeks and truncations on several open files, on any table, is explained by flat byte sequences, one per file, that share the free clusters; where the free count was exact or unknown, every cluster that is free can be taken all along |
| `LinkMap.RunIsMaximal` | deps/ff13a/ff.c:4250-4257 | A fragment is a maximal run of consecutive clusters |
| `LinkMap.DecodeFragments` | deps/ff13a/ff.c:1620-1630 | Decoding the fragments of a chain at an index gives the cluster reached by that many links, 0 behind the end |
| `LinkMap.CreateLinkMap` | deps/ff13a/ff.c:4231-4268 | Needs two items and two per fragment: stores the map when they fit, reports the need when not; a chain whose end mark looks like one more link is refused, and the error recorded |
| `LinkMap.OddMark` | deps/ff13a/ff.c:4250-4257 | A chain that is refused: it ends in the last cluster with the number behind it as its mark |
| `LinkMap.StandardMarks` | deps/ff13a/ff.c:4250-4257 | No chain that ends in a mark of the standard is refused |
| `LinkMap.ClmtClust` | deps/ff13a/ff.c:1613-1631 | The cluster of an offset by the map is the one reached by following the chain |
| `LinkMap.FastSeek` | deps/ff13a/ff.c:4269-4290 | A seek by the map leaves a valid cursor at the target, cut to the size |
| `LinkMap.SeekBothWays` | deps/ff13a/ff.c:4269-4369 | A seek by the map and a seek along the chain leave the same file pointer, cluster and mid-sector sector wherever the target lies in the file or the file cannot be written; behind the end of a writable file they agree exactly when the file has no room to grow |
| `DirWalk.StepAgrees` | deps/ff13a/ff.c:1733-1783 | One step on from the place of an entry is the place of the next entry, or both fail |
| `DirWalk.EndStays` | deps/ff13a/ff.c:1684-1723 | Behind the end of the table random access fails for good |
| `DirWalk.WalkAgrees` | deps/ff13a/ff.c:1684-1783 | Random access to entry k and k steps from the first entry reach the same place, or both fail, in the static root and in chained tables |
| `DirWalk.FirstEntry` | deps/ff13a/ff.c:1696-1717 | Where a table begins: the static root at its base, start cluster 0 on FAT32 at the root cluster of the boot sector, any other at its first cluster |
| `DirWalk.PlaceOnDisk` | deps/ff13a/ff.c:1684-1723 | Every place reached lies behind the FATs and inside the volume |
| `DirWalk.Dir.DirSdi` | deps/ff13a/ff.c:1684-1723 | Sets the object to the place of an entry, or fails when there is none |
| `DirWalk.Dir.DirNext` | deps/ff13a/ff.c:1733-1783 | Moves the object to the next place, or fails at the end of the table |
| `Lfn.PutLfn` | deps/ff13a/ff.c:1949-1974 | Writes one long entry of a name: units, end mark, filler, order, last flag and checksum |
| `Lfn.LongEntryBytes` | deps/ff13a/ff.c:1949-1974 | All bytes of a long entry: order with the last flag, attribute, type, checksum, cluster, and thirteen units in their places, low byte first, then 0, then 0xFFFF |
| `Lfn.PickLfn` | deps/ff13a/ff.c:1911-1940 | Accepts an entry exactly when its units and end mark fit below position 255 and only filler follows, and then takes its units into the buffer |
| `Lfn.CmpLfn` | deps/ff13a/ff.c:1875-1903 | Accepts an entry exactly when its units equal the buffer up to case and only filler follows |
| `Lfn.PickedMeans` | deps/ff13a/ff.c:1911-1940 | Which entries are picked, in their bytes: cluster 0, an end mark or none, filler behind it, and all units below position 255 |
| `Lfn.ComparedMeans` | deps/ff13a/ff.c:1875-1903 | Which entries compare equal, in their bytes, with a buffer and a case mapping |
| `Lfn.ComputeSum` | deps/ff13a/ff.c:2046-2057 | The checksum loop computes the rotate-and-add sum of the eleven characters |
| `Lfn.SumRotates` | deps/ff13a/ff.c:2046-2057 | Each character turns the sum right by one bit, the lowest becoming the highest, and is added |
| `Lfn.SumExample` | deps/ff13a/ff.c:2046-2057 | The checksum of README.TXT |
| `Lfn.PickedIffShort` | deps/ff13a/ff.c:1911-1974 | Each stored entry of a name is picked again, except the last one of a name longer than 253 units |
| `Lfn.ComparedIffShort` | deps/ff13a/ff.c:1875-1974 | Each stored entry of a name compares equal in any case, except the last one of a name of 255 units |
| `DirScan.LongNameIff` | deps/ff13a/ff.c:2348-2416 | On any table a long name is reported if and only if a complete sequence with falling orders and the right checksum directly precedes, and then with the offset of its first entry |
| `DirScan.StateIsPartial` | deps/ff13a/ff.c:2384-2403 | The running order and checksum describe a partial sequence |
| `DirScan.PartialIsState` | deps/ff13a/ff.c:2384-2403 | A partial sequence is what the running state says |
| `DirScan.KindBytes` | deps/ff13a/ff.c:2384-2390 | Which bytes make an entry the end, an object or a part of a long name |
| `DirScan.StopBytes` | deps/ff13a/ff.c:2379-2403 | The scan passes over deleted, dot and long entries and those of the other label kind only, and stops at the first other one or at the end mark |
| `DirScan.LongBlockBytes` | deps/ff13a/ff.c:2384-2403 | A complete long name sequence in bytes: orders falling to 1, the last flag on the first, attribute and checksum |
| `DirScan.NameRoundTrip` | deps/ff13a/ff.c:2348-2600 | A read that comes to the entries stored for a name, over any blank or long entries, gives that name and the offset of the first of them when it has at most 253 units, and no long name when it has more |
| `DirRead.DirReadEntry` | deps/ff13a/ff.c:2348-2416 | dir_read over the volume stops at the first entry that is not deleted, a dot entry, a long entry or of the other label kind, told by bytes 0 and 11, and fails only when the end mark or the end comes first; it reports the long name offset of the object and has put the name into the buffer |
| `DirFind.AcceptsIffHit` | deps/ff13a/ff.c:2474-2488 | The running comparison accepts an entry exactly when a complete equal long name precedes it or its short name is equal |
| `DirFind.KindBytes` | deps/ff13a/ff.c:2468-2488 | Which bytes make an entry the end, an object or a part of a long name for a lookup |
| `DirFind.EqualBlockBytes` | deps/ff13a/ff.c:2474-2482 | A complete equal long name in bytes: orders falling to 1, the last flag on the first, attribute, checksum and comparison |
| `DirFind.FindsFirst` | deps/ff13a/ff.c:2464-2498 | The search ends at the first object of the name, or at the end mark |
| `DirFind.CompareEntry` | deps/ff13a/ff.c:2468-2488 | One round of the loop: the object, or the next running state |
| `DirFind.FindObject` | deps/ff13a/ff.c:2427-2498 | dir_find over the volume stands at the first object of the name, an entry with byte 0 neither 0 nor 0xE5, with none of the entries before it an end mark, or reports no file |
| `DirRegister.PlacesApart` | deps/ff13a/ff.c:1684-1723 | Different entries of a table with a sound chain lie in different places of the disk |
| `DirRegister.EntryPlace` | deps/ff13a/ff.c:1684-1723 | Where entry k of a table of clusters lies: which cluster of the chain, sector and offset; none behind the end of the chain |
| `DirRegister.EntryPlaceStatic` | deps/ff13a/ff.c:1684-1723 | The same for the static root, which ends behind its last entry |
| `DirRegister.EntryWritten` | deps/ff13a/ff.c:2575-2600 | Writing one entry through the window changes that entry of the table and no other |
| `DirRegister.StoreLong` | deps/ff13a/ff.c:2576-2579 | One round of the storing loop puts one long entry of the name into the table |
| `DirRegister.StoreShort` | deps/ff13a/ff.c:2591-2600 | The short entry, written into a cleaned entry |
| `DirRegister.ShortEntryBytes` | deps/ff13a/ff.c:2591-2600 | The bytes of a new short entry: name, case flags, and zeros |
| `DirRegister.DirAlloc` | deps/ff13a/ff.c:1793-1825 | Stands at the last of the first free entries in a row that are enough, or fails when there is no such room |
| `DirRegister.Store` | deps/ff13a/ff.c:2568-2600 | The table on the disk holds the long entries from the highest order down, if the object has any, and then the short entry, across sectors and clusters, and is otherwise as it was |
| `DirRegister.Register` | deps/ff13a/ff.c:2546-2600 | Where the table has room the object lies in the first free entries that hold it and the table is otherwise as it was; else the table is unchanged and an error is returned |
| `DirRegister.StaysWellEnded` | deps/ff13a/ff.c:1793-2600 | A table whose entries behind the first end mark are all free stays so |
| `DirRegister.RegisterThenRead` | deps/ff13a/ff.c:2348-2600 | What dir_register has stored, a dir_read that comes to it over blank or long entries reports with exactly its name when that has at most 253 units, and with no long name otherwise |
| `DirRegister.RegisterThenFind` | deps/ff13a/ff.c:2427-2600 | What dir_register has stored, dir_find finds by its long name of at most 254 units, in any case, unless an end mark lies before it, as it never does on a table that is free behind its first end mark; behind one the lookup gives what it gave before |
| `DirFind.RegisteredIsFound` | deps/ff13a/ff.c:2427-2600 | A stored object is found by its long name, in any case, exactly when that has at most 254 units, and else only by its short name |
| `Glob.BlockMatches` | deps/ff13a/ff.c:2818-2824 | A block of wildcards in any order asks for as many characters as it has question marks, and any more if it has a star |
| `Glob.MatchMeans` | deps/ff13a/ff.c:2800-2837 | The relation by the first pattern character: ? takes one, * takes any number, others take an equal one, and the end takes the end |
| `Glob.TooFewLeft` | deps/ff13a/ff.c:2832-2834 | More plain characters than the name has left cannot match: retrying stops without losing a match |
| `Glob.TryAt` | deps/ff13a/ff.c:2814-2831 | One comparison decides the match from a position; a failure at the end of the name rules out all later positions |
| `Glob.PatternMatching` | deps/ff13a/ff.c:2800-2837 | Decides matching after a skip, with or without a free run, and ends for every pattern and name |
| `Glob.MatchName` | deps/ff13a/ff.c:2800-2837 | Decides exactly the relation in which ? is any character, * any run, and other characters are equal up to case |
| `MkInitfs.PrefixBetween` | tools/mkinitfs.py:60-62 | In the order of names, what lies between two names with a prefix has that prefix |
| `MkInitfs.SortIsStable` | tools/mkinitfs.py:60-62 | The sort orders by name and keeps the entries of each name in their order |
| `MkInitfs.LexMeans` | tools/mkinitfs.py:60-62 | The order of names is decided by the first place where they differ, and a name comes before its extensions |
| `MkInitfs.FindDirs` | tools/mkinitfs.py:41-50 | The closure loop ends, and gives the least set that holds all parents of the files and of its own members |
| `MkInitfs.ClosureIsSlashDirs` | tools/mkinitfs.py:41-50 | For absolute names that set is exactly the directories they lie in, at every depth |
| `MkInitfs.SortTable` | tools/mkinitfs.py:53-62 | The table is sorted; under each name it has the files as added and then the directory |
| `MkInitfs.InitFs.AddFile` | tools/mkinitfs.py:31-35 | The file table and the data hold one more file |
| `MkInitfs.InitFs.ToString` | tools/mkinitfs.py:37-87 | The image of the sorted table, or none when a name is not ASCII or a number does not fit |
| `MkInitfs.NameStrings` | tools/mkinitfs.py:70-76 | The name strings and where each begins |
| `MkInitfs.PackTable` | tools/mkinitfs.py:78-84 | The records, or an error when a number does not fit |
| `Initfs.OpenFile.Open` | src/os/initfs.c:18-39 | Opens the first entry of the name unless it is a directory |
| `Initfs.OpenFile.Read` | src/os/initfs.c:41-50 | Delivers the slice at the position and moves behind it |
| `Initfs.OpenFile.Lseek` | src/os/initfs.c:171-202 | Moves to the offset, the position plus the offset, or the size plus the offset, when that lies before the end; anything else is an error and leaves the position |
| `Initfs.Dir.Opendir` | src/os/initfs.c:53-76 | Opens the first directory whose name begins with the path without its trailing slashes |
| `Initfs.Dir.Readdir` | src/os/initfs.c:84-125 | The next child, the end, or an error for a name too long for a directory entry |
| `Initfs.ListDir` | src/os/initfs.c:53-125 | Repeated calls deliver the children in the order of the table, up to the first name that is too long |
| `InitfsTree.SerialiseHolds` | tools/mkinitfs.py:67-87 | The image decodes, record by record and string by string, to the table and the data it was made from |
| `InitfsTree.OneFileImage` | tools/mkinitfs.py:64-87 | The image of one file in the root directory, byte by byte |
| `InitfsTree.OpensItself` | src/os/initfs.c:53-76 | Opening a directory that exists finds its own entry |
| `InitfsTree.OpensPrefix` | src/os/initfs.c:63-75 | For any other path, opening succeeds exactly when some directory begins with it |
| `InitfsTree.PrefixGone` | src/os/initfs.c:91-99 | All names with a prefix stand together, so leaving at the first other name loses nothing |
| `InitfsTree.ListingOf` | src/os/initfs.c:84-125 | A component is listed in a directory once for the file and once for the directory of that name |
| `InitfsTree.OnceIffNoConflict` | tools/mkinitfs.py:41-62 | Every directory lists each of its children exactly once and nothing else, exactly when no file is also a directory of another file |
| `InitfsTree.ConflictExample` | tools/mkinitfs.py:31-62 | Two files of which one is a directory of the other |
| `InitfsTree.AllReachable` | tools/mkinitfs.py:41-57 | Walking from the root by listings reaches every file and every directory |
| `InitfsTree.OpensFile` | src/os/initfs.c:18-39 | Opening an added file finds its own entry, even beside a directory of that name |
| `InitfsTree.OpensNoOther` | src/os/initfs.c:18-39 | A name that was not added opens nothing: it is missing, or a directory |
| `InitfsTree.ImageShows` | tools/mkinitfs.py:31-87 | Where open finds an added file, the image holds its bytes |
| `InitfsTree.ListFrom` | src/os/initfs.c:53-125 | From added files through the image to the listing: each child as often as it should be, unless a name is too long |
| `Descriptors.HandlerForPath` | src/os/os.c:252-280 | The one file system whose name is the path or begins it up to a slash, the root for the single slash, else none |
| `Descriptors.Effect` | src/os/os.c:303-745 | Every call keeps all positions inside their files and descriptors 0 to 2 on the serial line |
| `Descriptors.HandlerNames` | src/os/os.c:158-168 | The paths below which each file system is found |
| `Descriptors.OpenMeans` | src/os/os.c:303-372 | open on the abstract table, for each kind of path: the lowest free descriptor, or the error |
| `Descriptors.ReadMeans` | src/os/os.c:433-476 | read on the abstract table: the bytes from the position on, as many as asked for or left; one byte at most for descriptor 0 |
| `Descriptors.LseekMeans` | src/os/os.c:661-714 | lseek on the abstract table: the three targets, and the error for one that is not before the end |
| `Descriptors.CloseDupMean` | src/os/os.c:377-745 | close and dup on the abstract table |
| `Descriptors.SeekTells` | src/os/os.c:661-714 | A seek by 0 from the current position reports the position that reads have reached |
| `Descriptors.LastBytes` | src/os/os.c:433-714 | A seek to k bytes before the end and a read of k deliver the last k bytes |
| `Descriptors.DupGoesOn` | src/os/os.c:729-745 | The first read through a copy delivers the bytes of the original from its position on |
| `Descriptors.ImageServes` | src/os/initfs.c:18-39 | The image made of some files opens them with their bytes and opens no other name |
| `Descriptors.OsFiles.constructor` | src/os/os.c:180-288 | The first three descriptors are the serial line, all others closed |
| `Descriptors.OsFiles.Open` | src/os/os.c:303-372 | The lowest free descriptor at the start of the file, or the error the code sets; nothing else changes |
| `Descriptors.OsFiles.Read` | src/os/os.c:433-476 | The bytes at the descriptor's position, which moves behind them; one byte at most for descriptor 0 |
| `Descriptors.OsFiles.Lseek` | src/os/os.c:661-714 | Moves only that descriptor's position, to the offset counted from the start, the position or the end, and only to before the end of its file |
| `Descriptors.OsFiles.Close` | src/os/os.c:377-401 | Frees a descriptor, but never one of the first three |
| `Descriptors.OsFiles.Dup` | src/os/os.c:729-745 | The lowest free descriptor becomes a copy with a position of its own |
| `Descriptors.OsFiles.Run` | src/os/os.c:303-745 | Any run of calls gives the results of the abstract table |
| `Descriptors.OwnPosition` | src/os/os.c:433-745 | Over any run, a descriptor is moved by its own calls alone and each read delivers the slice of its file at the position they reached |
| `Descriptors.ReadsReach` | src/os/os.c:433-476 | Reads alone move a descriptor by as many bytes as they ask for in all, up to the end |
| `Descriptors.RunFromFiles` | src/os/os.c:303-745 | Every open file is one of the added files |
| `Descriptors.OpenedContent` | src/os/os.c:303-372 | A file opened below /boot has the bytes it was added with, at position 0 |
| `Descriptors.ReadFrom` | src/os/os.c:303-745 | From files added to an image to the bytes read: after any calls, opening a file below /boot succeeds unless no descriptor is left, and over any calls that do not close it its reads deliver the bytes the file was added with, in order from the position its own seeks and reads have reached |
| `Terminal.Framebuffer.constructor` | src/pi/bcmframebuffer.c:74-113 | A blank screen with the cursor in the corner |
| `Terminal.Framebuffer.PutString` | src/pi/bcmframebuffer.c:120-246 | Writes a string as the cell-level emulator does: escape parser, motion, wrapping, scrolling |
| `Terminal.Framebuffer.PutChar` | src/pi/bcmframebuffer.c:136-228 | One character of it |
| `Terminal.Framebuffer.FixCursorPos` | src/pi/bcmframebuffer.c:230-242 | The end-of-line and end-of-screen checks |
| `Terminal.PlainMeans` | src/pi/bcmframebuffer.c:136-242 | A plain character by its code: cell, column, tab, new line, wrapping and scrolling |
| `Terminal.EscapeMeans` | src/pi/bcmframebuffer.c:150-228 | A finished escape sequence by its final code: erase to the end of line, move left, move right |
| `Terminal.ScanMeans` | src/pi/bcmframebuffer.c:136-228 | The escape parser: ESC, bracket, decimal parameter |
| `Readline.DrawsNumber` | src/pi/bcmframebuffer.c:162-166 | The parser reads back the number the editor printed |
| `Readline.WritesTyped` | python/_readline.py:47-55 | A typed character: the line shows it, the rest behind it, the cursor after it |
| `Readline.WritesErased` | python/_readline.py:37-45 | An erased character: the rest moves left and a blank follows |
| `Readline.WritesRecalled` | python/_readline.py:67-81 | A recalled entry replaces the text, with the cursor at its end |
| `Readline.WritesMoved` | python/_readline.py:58-65 | The arrow keys move the cursor by one cell |
| `Readline.WritesPrompt` | python/_readline.py:13-21 | The prompt behind what stood there, and blanks |
| `Readline.Editor.ReadCmd` | python/_readline.py:23-25 | A command is the shortest beginning of the input that is not a beginning of ESC[, and incomplete while there is none |
| `Readline.KeyMeans` | python/_readline.py:37-81 | What each command does to text, cursor and history, by the codes that arrive |
| `Readline.KeysMeans` | python/_readline.py:23-36 | Editing goes on command by command and returns at a line feed |
| `Readline.NextEntered` | python/_readline.py:12-81 | A line typed without editing is returned as it was typed, and the history goes on with it |
| `Readline.FinalMeans` | python/_readline.py:12-81 | The screen that shows an editor state, cell by cell: what stood there, prompt, text, blanks; a new line after the end |
| `Readline.Editor.Obey` | python/_readline.py:37-81 | One command does to buffer, position and history what it means for a text with a cursor, and its output redraws the line |
| `Readline.Editor.Readline` | python/_readline.py:12-81 | Whole lines: the text entered is returned, the history grows without equal neighbours, and after every command the screen shows prompt, text and blanks |
| `Readline.FinishedNoTwins` | python/_readline.py:28-32 | Completing a line leaves no two equal neighbours in the history |
| `Readline.FinishedMeans` | python/_readline.py:28-32 | A completed line stands at the end of the history, once |
| `Readline.Key` | python/_readline.py:37-81 | After every command the text is the history entry at the current place |
| `Readline.Edit` | src/pi/bcmframebuffer.c:120-246 | The editor on the terminal: it returns the line and keeps the history, and its writes turn the screen into the one that shows the editor state |
| `Readline.Session` | python/_readline.py:12-81 | Line after line on the terminal: exactly the lines that the input enters are returned, with the history and the screen of editing them one after the other |
| `Readline.KeysKeep` | python/_readline.py:37-81 | Editing leaves a printable history and text that fits the room |
| `Readline.MoveSwallowsDigits` | src/pi/bcmframebuffer.c:177-182 | Behind a move to the right in the same call, digits are taken as a parameter |
| `PosixPath.Join` | lib/posixpath.py:73-94 | The loop joins the parts from left to right |
| `PosixPath.JoinMeans` | lib/posixpath.py:84-90 | One step of join: an absolute part replaces, others follow a slash |
| `PosixPath.JoinStartsOver` | lib/posixpath.py:84-85 | join starts over at an absolute part |
| `PosixPath.JoinSteps` | lib/posixpath.py:84-90 | Joining a relative path goes on from where the first path leads and keeps its root |
| `PosixPath.SplitParts` | lib/posixpath.py:102-111 | Head, separators and tail make up the path; the tail holds no separator and the head none at its end, unless it has nothing else |
| `PosixPath.SplitOfSnoc` | lib/posixpath.py:102-111 | Splitting undoes joining a component |
| `PosixPath.Normpath` | lib/posixpath.py:331-366 | The loop over the components computes the normal form |
| `PosixPath.PartsOfPath` | lib/posixpath.py:352 | The components of a path hold no slash and, joined with slashes, make up the path |
| `PosixPath.NormPathMeans` | lib/posixpath.py:331-366 | The normal form is the slashes of the root and the stack joined with slashes, or a dot |
| `PosixPath.MoveMeans` | lib/posixpath.py:354-361 | What an empty, dot, parent or named component does to the place reached |
| `PosixPath.RootMeans` | lib/posixpath.py:346-351 | Leading slashes: none, one, or exactly two |
| `PosixPath.NormPathReads` | lib/posixpath.py:331-366 | A normal form has parent steps only in front, none below a root, and reads back as the same root and stack |
| `PosixPath.NormPathIdempotent` | lib/posixpath.py:331-366 | Normalising twice is normalising once |
| `PosixPath.NormPathKeepsMeaning` | lib/posixpath.py:331-366 | The normal form leads to the same place from every directory |
| `PosixPath.NormPathDecides` | lib/posixpath.py:331-366 | Two paths have the same normal form exactly when they have the same root and lead to the same place from every directory |
| `PosixPath.RelPathInverse` | lib/posixpath.py:446-476 | Joined to the start and normalised, the relative path gives the absolute path, exactly when both absolute forms begin with the same number of slashes |
| `PosixPath.RelListShortest` | lib/posixpath.py:470-476 | No list of components that leads from the start to the path is shorter than the one of relpath |
| `PosixPath.RelPathBelow` | lib/posixpath.py:470-476 | A path below the start is given by its components behind those of the start, with no parent step |
| `PosixPath.RelPathOfSelf` | lib/posixpath.py:470-476 | relpath from a path to itself is a dot |
| `PosixPath.AbsPathLeads` | lib/posixpath.py:369-379 | abspath leads where the path leads from the current directory |
| `PosixPath.ParentStep` | lib/posixpath.py:412-420 | The parent step on strings is the parent step on the stack |
| `PosixPath.JoinRealPath` | lib/posixpath.py:393-441 | The string-based loop computes the rendered component stack |
| `PosixPath.RealPath` | lib/posixpath.py:384-389 | realpath equals abspath exactly when the path does not begin with exactly two slashes |
| `PosixPath.RealPathIsAbsPath` | lib/posixpath.py:384-441 | The two results are equal exactly when the path does not begin with exactly two slashes |

## Left out

- `FileAccess.Fil.FRead` and the other file operations: a failing disk, which only aborts them, is not modelled, nor is
  the check that the object is still valid.
- `Mounting.MountVolume`: an accepted boot sector whose sums wrap, or whose volume reaches past the end of the disk, gives no
  sound object; for these only the acceptance itself is modelled (`Mount.WrapAccepted`).
- `FileAccess.Fil.FTruncate`: `f_sync`, which brings the directory entry and the FSInfo sector up to date, is not modelled.
- `FileRuns.Run`: files are opened by giving their chain and size; following a path to them (`follow_path`, `f_open`) is not
  modelled beyond the lookup of one name in one directory.
- `Mount.AcceptedIffNoWrap`: finding the partition and starting the drive are not modelled; the boot sector is given.
- `Lfn.CmpLfn`: the Unicode and code page tables are not part of this repository; up-casing is any function.
- `Glob.MatchName`: a character is one unit; decoding of multi-byte characters is not modelled.
- `DirRegister.Register`: stretching a table without room, the check of the name and numbering short names that collide are
  not modelled; the table's clusters form a chain.
- `DirRead.DirReadEntry`: `get_fileinfo`, which rebuilds the case of short names by an index into the packed name, is not
  modelled.
- `DirWalk.Dir.DirNext`: stretching a table by a cleared cluster is not modelled.
- `Descriptors.OsFiles.Open`: paths below `/sd` lead to the FAT volume and are not connected to it here.
- `Descriptors.OsFiles.Lseek`: like `dup` and the reads, only for descriptors inside the table, which the code does not check.
- `Initfs.OpenFile.Read`: counts of 2^31 and more, whose conversion to `int` is negative, are not modelled.
- `Terminal.Framebuffer.PutString`: pixels, colours, the cursor's image and its saving and restoring are not modelled, nor
  escape parameters of 2^28 and more, with which the 32-bit cursor sums could wrap.
- `Readline.Editor.Readline`: waiting for input and the end of the input stream are not modelled; text is ASCII.
- `PosixPath.JoinRealPath`: `islink` always returns false here, so the code behind it that resolves links cannot be reached.
- The branches that abort an operation on an inconsistent chain: they cannot be reached while the chain of an open file is
  sound, which every operation keeps. `f_read` and `f_write` through a link map are not modelled, since the map gives the
  same clusters (`LinkMap.ClmtClust`).
- The FSInfo flag `fsi_flag`, which only delays a write.
- exFAT, `f_mkfs`, `f_fdisk`, `f_expand`, labels, rename, and the string and printf functions of FatFs: bulk without harder
  invariants.
- Device drivers, CPython glue, graphics library, boot code and build scripts: their meaning lies in hardware or in code
  outside this repository.
- `seekdir`, `telldir`, time functions and the unimplemented calls of `os.c`: trivial.
