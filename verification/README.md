# A verified model of the FAT32 driver

This project models the core of a FAT32 file system driver for IRIX and proves what it does to the
disk. The model keeps the driver's own shape: a mounted volume is an object over an array of bytes, an
in-memory file is an object with its 16-slot position cache, and the loops of the C code are loops
with invariants. Every operation is proved against a specification on values, and the laws a user of a
file system counts on are proved about those specifications.

The layers, bottom up:

| files | what they model |
|---|---|
| `Bytes`, `Layout` | little-endian words, shifts and masks, the geometry computed from the boot sector, where every FAT entry and every cluster lies |
| `Volume`, `Chains`, `Clusters`, `Runs` | the device as bytes; the FAT as a forest of disjoint chains plus free clusters; allocate, follow, free, seek; every run of them |
| `Contents`, `Vnodes`, `Files`, `ReadWrite` | the bytes of a chain as one sequence, the position cache, truncate, read, write |
| `Slots`, `Listings`, `Names`, `Placing`, `Integrity`, `Stale`, `DirectoryMap`, `Updating` | directories as values: reading slots, long and short names, finding room, the integrity checker, what a failed growth leaves behind, the case-insensitive map from names to entries |
| `SlotBytes`, `DirReading`, `Lookups`, `DirWriting`, `DirGrowth`, `DirCreation`, `Making`, `Removal`, `Readdir` | the directory operations in place, on cluster buffers |
| `Tree`, `Consistency` | all directories of a volume together: they form a tree, every entry owns its chain, no file claims more than its chain has; what each operation does as a step, and that every step keeps this |
| `Operations` | the operations on such a volume, with contracts that compose: what one leaves is what the next asks for |
| `Histories` | any sequence of these steps, with any number of files open: when all goes well, exactly, and what one file sees of the others |
| `Mounting` | from the boot sector to a mounted volume; a device on which everything the operations rely on holds |
| `Format` | the on-disk format in its own numbers: what the small functions mean that operations and specifications share |
| `Calendar`, `Writeback` | FAT dates and times; writing metadata back to the directory entry |
| `Concurrency` | threads that share the FAT, interleaved between the look at an entry and the allocation |

How to read the state. `Volume.fat`, `data`, `infoFree`, `infoNext` are ghost views of the bytes in
`disk`; `Valid()` ties them together, with every FAT copy equal. `chains` maps the first cluster of
each chain to its clusters, and `WellFormed(fat, chains)` is the invariant: chains are in range, linked,
closed by an end mark and without repetition, no cluster is on two chains, and every entry is free,
bad or on a chain. `Exact` says that the cached free count is the number of free entries and equals
the FSInfo sector, as long as no FSInfo access has failed (`intact`). Device reads of the FAT, of
directories and of data succeed; reading FSInfo may fail at any time, and the results that depend on
it say so. The current time is a parameter.

## What the proofs found

The model follows the code. These are the places where the code does less than one might expect; each
has a lemma with the exact condition.

- The size of a file is not bounded in memory, but the sync stores its low 32 bits and clears the dirty
  flag (`fat32_dir.c:588-594`). Memory and entry agree after a sync exactly if the size is below 2^32
  (`Writeback.SyncIsCoherent`, over runs `Writeback.RunIsCoherent`); what was written comes back after
  sync and lookup exactly then (`Operations.SyncLookupRead`, `Operations.CreateWriteReadBack`).
- A name is listed as it was given exactly when it is an 8.3 name other than "." that does not start
  with byte 0xE5, or a long name of 7-bit characters (`Names.RoundTripExact`), and only such a name is
  found after it was created (`DirectoryMap.CreateThenFind`). Every other long name is listed as a
  different name that is listed as itself (`Names.HighCharactersClash`). The driver looks for the name
  it was given, so names stay unique exactly as long as no entry is created whose *listed* name is taken
  (`DirectoryMap.RunKeepsUnique`).
- The cluster count in truncate is cut to 32 bits; it is right exactly for sizes up to 2^32 - 1
  clusters (`Files.NeededExact`). One byte more empties the file, and one byte more than 2^32 clusters
  leaves one cluster with the full size (`Files.NeededWraps`); the size fits the chain exactly up to the
  bound, its low 32 bits always (`Files.Truncate`).
- The cluster index of a write offset is cut in the same way: beyond 2^32 clusters the bytes go to the
  wrong place and the size exceeds the chain (`ReadWrite.AddressableExact`, `ReadWrite.Write`).
- Unix times survive the conversion exactly from 1980 to the end of 2107, down to 10 ms
  (`Calendar.UnixRoundTrip`), and packed times are in order exactly as far (`Calendar.MonotoneExact`).
- The sizes in the boot sector are not checked. The shift that replaces the cluster size keeps clusters
  apart exactly if it is a power of two (`Layout.ClustersApartExact`). FAT entries are found four bytes
  per cluster exactly if a sector has 512 bytes (`Layout.SectorSizeExact`), and offsets in a cluster stay
  in its buffer exactly if it has no more (`Layout.ClusterBufferExact`).
- FSInfo counts as optional when mounting (`fat32_vfs.c:175-189`), but without it the free count is
  unknown, and `Clusters.AllocateCluster` then always answers ENOSPC: nothing on the volume can grow,
  though files can be overwritten, cut and removed.
- When FSInfo cannot be read after a cluster was linked, the call reports EIO although the cluster
  stays on the chain, uncleared. The forest survives this (`Runs.RunKeepsForest`). A directory that grew
  in such a call gains the slots that the cluster held before it was free. It is still a directory
  exactly if these are end markers throughout, or, when no end marker comes before them, are a directory
  of their own (`Stale.StaleExact`); it passes the integrity check exactly if an end marker comes before
  them or they pass on their own (`Stale.StaleCheck`). A full directory and a cluster that begins with a
  later part of a long name is an input on which it does not (`Stale.StaleGroupBreaks`,
  `Stale.StaleExample`). The volume stays consistent exactly if the slots leave no trace
  (`Operations.MakeInVolume`).
- An empty file or a new directory whose first cluster was marked when FSInfo could not be read does not get it;
  the cluster stays marked and belongs to no entry (`Files.Truncate`, `ReadWrite.Write`, `DirCreation.CreateFdentry`).
  That is the only way for a cluster to get lost: all other clusters that are no longer free have gone to the
  file or directory that the call was for.
- The times of a directory entry hold less than those in memory: after setting or creating, a lookup gives the
  access time to the day, the time of the last write to two seconds and the time of creation to 10 ms
  (`Operations.SetattrLookup`, `Operations.MakeLookup`).
- On a damaged FAT the freeing walk counts one cluster too many exactly if it comes to a free entry or
  goes in a circle (`Chains.WalkCount`, `Chains.MeetsFreeExact`).
- The vnode locks protect the chains exactly if no chain is known to two vnodes
  (`Concurrency.OneVnodeExact`); every lookup makes a new vnode.
- Removing an entry frees its chain without asking whether a file is open on it; an open file keeps its
  chain exactly if it is not the one removed (`Histories.RemoveKeepsHeld`). This and the conditions above
  are all that a caller has to look after: over any history the volume and all open files are well
  exactly if every event meets its own (`Histories.HistoryExact`).
- A vnode made by mkdir or create keeps attribute byte 0 in memory whatever its entry says; it is
  coherent with its entry exactly for a regular file with write permission (`Writeback.CreatedCoherent`).
  Setting the mode of a new directory leaves its entry that of a directory exactly if the mode has write
  permission (`Writeback.ChmodOfNewDirectory`).
- `fat32_dirempty` goes by the first byte of the 8.3 name. That tells the dot entries from all others
  exactly as long as no entry ".." is created (`DirectoryMap.RunKeepsDots`), which the root directory
  allows. Its test for a long-name slot can never fire, because such slots carry the volume bit and are
  skipped before (`fat32_vnode.c:1250-1259`). The comment on `fat32_update_fdentry` speaks of the access
  time only, but the code writes all dirty fields; the model follows the code.

## Model

| member | source | states |
|---|---|---|
| Layout.Log2 | fat32_util.c:6-15 | the result is the position of the highest set bit |
| Layout.ShrAnd | fat32_cls.c:57-60 | shifting by k and masking with 2^k - 1 are quotient and remainder by 2^k |
| Layout.ReadGeometry | fat32_vfs.c:130-164 | for a boot sector as the format prescribes it, with 512-byte sectors and a power of two of them per cluster, shifts and masks agree with the sizes, the areas follow each other inside the partition, and the cluster count is the number of whole clusters behind the FATs, despite 32-bit arithmetic |
| Layout.GeometryUnique | fat32_vfs.c:130-164 | a boot sector describes one geometry only |
| Layout.FatAddressing | fat32_cls.c:57-60 | the sector and offset computed for a FAT entry are the byte position FAT start + 4 * cluster of its copy |
| Layout.FatEntriesDisjoint | fat32_cls.c:57-60 | different entries, of the same or of different FAT copies, do not overlap |
| Layout.ClusterAddressing | fat32_cls.c:7-11 | a cluster lies inside the partition, behind FSInfo and all FAT copies |
| Layout.ClustersDisjoint | fat32_cls.c:7-11 | different clusters do not overlap |
| Layout.ClustersApartExact | fat32_cls.c:7-11 | the shift for the cluster size keeps neighbouring clusters apart exactly if the size is a power of two |
| Layout.SectorSizeExact | fat32_cls.c:57-60 | the sector and offset computed for the FAT entries are four bytes per cluster exactly if the boot sector says 512 bytes per sector |
| Layout.ClusterBufferExact | fat32_cls.c:18-24 | the offset in a cluster stays inside the buffer read for it exactly if the boot sector says at most 512 bytes per sector |
| Format.FlagIsAnd | fat32_dir.c:286-287 | a flag of an attribute byte is set exactly if the C operator `&` with its mask gives something |
| Format.LabelForgets | fat32_dir.c:286-299 | behind a volume label nothing is left of what was read before it |
| Format.LfnCharacters | fat32.h:169-178 | the thirteen characters of a long-name slot lie in three stretches of it, in this order |
| Format.EntryCodes | fat32_cls.c:323-358 | which FAT entries are free, bad, links and end marks, as the driver follows them |
| Volumes.Volume.Mount | fat32_vfs.c:168-197 | on a device whose FAT copies agree the volume is valid; count and hint come from a signed, readable FSInfo sector and are unknown otherwise |
| Volumes.Volume.RmwCluster | fat32_cls.c:43-102 | reads the entry; a write sets that entry, cut to 28 bits, in every FAT copy and changes no other entry, cluster or FSInfo word; a cluster out of range is EINVAL |
| Volumes.Volume.ReadCluster | fat32_cls.c:18-24 | returns the contents of the cluster |
| Volumes.Volume.ClearCluster | fat32_cls.c:687-702 | the cluster is zero afterwards, no other cluster, FAT entry or FSInfo word changes |
| Volumes.EntryWritten | fat32_cls.c:85-99 | four bytes written at the position of an entry change no other entry, no cluster and no FSInfo word |
| Clusters.SearchFree | fat32_cls.c:145-204 | the search finds the first free cluster in wrap-around order from its start, and reports ENOSPC only if there is none |
| Clusters.AllocateCluster | fat32_cls.c:123-277 | ENOSPC exactly when the count is 0 or unknown or no entry is free; otherwise takes the first free cluster from the clamped hint, marks it, links the parent, and updates count, hint and FSInfo; after a failed FSInfo read the link stays |
| Clusters.NextCluster | fat32_cls.c:297-372 | follows a link, or hands out one cluster behind the end of a chain or for a new one, the first free one from the hint on, and moves count and hint on; the forest and the exactness of the free count are kept, and every error leaves what it must |
| Clusters.FreeClusters | fat32_cls.c:391-527 | ends on every FAT, whatever its contents, with the effect of the walk, and with FSInfo readable the count grows by what the walk counted, in memory and in FSInfo, and the hint stays; for a whole chain or a tail it frees exactly that, and keeps forest and free count |
| Clusters.FreeOwned | fat32_cls.c:413-488 | freeing a chain or a tail succeeds, leaves the other chains, and the free count grows by the clusters counted |
| Clusters.CutEffect | fat32_cls.c:422-488 | cutting behind cluster n frees the clusters after it and nothing else |
| Clusters.SeekOnChain | fat32_cls.c:545-578 | a seek along a chain arrives at the cluster of that number, and beyond the end answers ENOSPC |
| Clusters.SeekCluster | fat32_cls.c:545-578 | without allocation the outcome is that of following links; with it the chain grows just far enough, or as far as there is room, by the clusters that come next from the hint on, linked one to the other, and nothing else changes |
| Clusters.SeekDetermined | fat32_cls.c:545-578 | unless FSInfo cannot be read, a seek succeeds exactly if there is room, and two seeks from the same state have the same result and leave the same FAT, chains, cluster contents, count and hint; if it cannot, one has gone as far as the other or further |
| Clusters.DrawnOnce | fat32_cls.c:145-204 | the clusters handed out from one state are determined by how many they are |
| Clusters.DrawnMore | fat32_cls.c:145-262 | the first free cluster of the FAT after some were handed out is the next free one of the FAT before |
| Chains.BirthKeepsForest | fat32_cls.c:209-216 | marking a free cluster as a chain of its own keeps the forest |
| Chains.LinkKeepsForest | fat32_cls.c:209-230 | appending a free cluster to a chain keeps the forest |
| Chains.CutKeepsForest | fat32_cls.c:422-488 | cutting a chain keeps the forest |
| Chains.FreeKeepsForest | fat32_cls.c:462-488 | freeing a chain keeps the forest |
| Chains.ChainUnique | fat32_cls.c:323-358 | the FAT determines the chain of a first cluster |
| Chains.ChainsAreAcyclic | fat32_cls.c:323-358 | links that reach an end mark form no cycle |
| Chains.WalkFreesChain | fat32_cls.c:462-488 | on a chain the freeing walk frees exactly its clusters and counts them |
| Chains.WalkCount | fat32_cls.c:462-488 | on any FAT the walk counts every cluster it frees, and one more exactly if it comes to a free cluster |
| Chains.MeetsFreeExact | fat32_cls.c:462-488 | that happens exactly if the links lead from the start to a free entry or back to a cluster on the way |
| Runs.RunKeepsForest | fat32_cls.c:297-527 | over every run of allocations, cuts and frees the forest stays well formed and the free clusters change by what was handed out and given back |
| Vnodes.UpdateCache | fat32_cls.c:587-625 | the slot for the same index, the first unused one or the oldest gives way, the others move up, the new position is last |
| Vnodes.InsertKeepsSound | fat32_cls.c:587-625 | inserting a true position keeps every entry true |
| Vnodes.CutKeepsSound | fat32_file.c:129-140 | after a cut the remaining entries are true of the shorter chain |
| Vnodes.TrimIsNeeded | fat32_file.c:129-140 | without dropping entries the cache stays true exactly if none lies behind the cut |
| Vnodes.VnodeSeek | fat32_cls.c:633-682 | through the cache the outcome is that of a plain seek from the first cluster, which determines it; the cache stays true and has the position found as its newest entry |
| Vnodes.CachedSeekIsPlain | fat32_cls.c:633-682 | the cached and the plain seek from the same state have the same result and extend the chain identically: the same clusters, FAT, contents, count and hint, as long as FSInfo can be read |
| Contents.ContentSplice | fat32_vnode.c:278-309 | writing into a cluster writes at that place of the file's bytes |
| Contents.GrowthKeepsOthers | fat32_cls.c:366-371 | growing a chain leaves the clusters and bytes of every other chain |
| Contents.OtherBytesKept | fat32_vnode.c:278-309 | a change to one chain changes the bytes of no other file |
| Files.NeededExact | fat32_file.c:37-45 | the computed number of clusters is right exactly for sizes up to 2^32 - 1 clusters |
| Files.NeededWraps | fat32_file.c:37-45 | what is computed just beyond that bound |
| Files.Truncate | fat32_file.c:22-153 | the chain becomes its first n clusters, the others are free and no other FAT entry changes; or itself plus the free clusters that come next, linked behind it, and no other FAT entry changes; or none; the clusters that a directory gains are cleared; the free count moves by the difference; on ENOSPC and EIO the size stays and the old chain is a prefix; on success the size fits the chain exactly if it is at most 2^32 - 1 clusters, and its low 32 bits always; other files and all flags are as stated |
| ReadWrite.Read | fat32_vnode.c:57-196 | returns exactly the bytes from the offset up to the end of file |
| ReadWrite.Write | fat32_vnode.c:198-345 | at every offset that is addressable the data, or the prefix that found room, is at its place, all other old bytes are as before and the size reaches as far; beyond, the bytes go to the place of the cut cluster index; the file gains no more than the clusters it takes, the ones that come next, and nothing else in the FAT changes; the time of the last write is set, and exactly the changes are flagged |
| ReadWrite.FollowOrGrow | fat32_cls.c:297-372 | behind the last cluster of a chain comes the next free one, handed out only there |
| ReadWrite.AddressableExact | fat32_vnode.c:260-262 | the cut cluster index is the right one exactly for these offsets |
| Slots.ComputeChecksum | fat32_util.c:476-486 | the rotating sum of the eleven name bytes |
| Slots.ChecksumStep | fat32_util.c:476-486 | one step, bit by bit: the eight bits of the sum move one place to the right, bit 0 to bit 7, and the next byte is added without carry |
| Names.NameIsShort | fat32_util.c:229-280 | accepts exactly the valid 8.3 names and the two dot names |
| Names.FormatShort | fat32_dir.c:1055-1073 | base and extension padded with spaces |
| Names.ShortRoundTrip | fat32_dir.c:311-334 | a formatted 8.3 name reads back as it was, except the name of one dot |
| Names.LfnGroupOk | fat32_dir.c:838-928 | the slots written for a long name count down to 1, only the first is marked as last, all carry the checksum |
| Names.LongRoundTrip | fat32_dir.c:230-284 | whatever the name buffer held, the slots written for a name of up to 255 characters read back as that name, higher characters replaced |
| Names.RoundTripExact | fat32_util.c:64-78 | exactly the described names survive being written and read |
| Names.HighCharactersClash | fat32_util.c:64-78 | every other long name is listed as a different name, which is listed as itself |
| Names.GenerateShortName | fat32_util.c:496-526 | the eleven hexadecimal digits of the place of the entry |
| Names.PlaceNamesDiffer | fat32_util.c:496-526 | within one directory the synthetic names of different places differ |
| Names.EntryReadBack | fat32_dir.c:1052-1128 | an entry as the driver writes it reads back under its listed name, independent of left-over bytes, and passes the checks |
| Names.MainSlotBytes | fat32_dir.c:1079-1116 | every byte of a new 8.3 slot: name, attributes, 10 ms units, time before date for creation and writing, date of access, the two halves of the cluster, size 0 |
| Calendar.ComputeUnixToFat | fat32_util.c:96-164 | the packed civil date and time of the Unix time, clamped to 1980 |
| Calendar.ComputeFatToUnix | fat32_util.c:169-221 | the seconds from 1970 to the civil date and time, with out-of-range fields corrected |
| Calendar.SecondsAreGregorian | fat32_util.c:96-221 | the seconds from 1970 of every calendar time are 86400 times its Gregorian day number, from quotients by 4, 100 and 400 and the (153 m + 2) / 5 formula, plus the time of day |
| Calendar.CalendarSpan | fat32_util.c:109-122 | the calendar begins on 1 January 1980 and ends with 2107, as Gregorian day numbers |
| Calendar.UnixToFatIsDate | fat32_util.c:96-164 | what is packed for a Unix time is its Gregorian date and time of day with the 10 ms units, and for times before 1980 New Year 1980 |
| Calendar.FatToUnixIsDate | fat32_util.c:169-221 | what is computed for a date and time in the calendar is its Gregorian second |
| Calendar.UnixRoundTrip | fat32_util.c:96-221 | a Unix time survives exactly if it lies from 1980 to the end of 2107, down to 10 ms |
| Calendar.FatRoundTrip | fat32_util.c:96-221 | a packed time survives exactly if its fields are in the calendar |
| Calendar.WhatIsLeft | fat32_util.c:96-221 | a time that went through the date alone is cut to its day, through date and time to two seconds, through all three to 10 ms |
| Calendar.PackedMonotone | fat32_util.c:96-164 | up to the end of 2107 a later Unix time, also before 1980, never packs to an earlier date and time |
| Calendar.MonotoneExact | fat32_util.c:96-164 | the packed times below a bound are in order exactly if the bound is at most the end of 2107 |
| Placing.FreeRunFinds | fat32_dir.c:702-755 | the run found is deleted slots, enough or up to the end marker, with no end marker before it |
| Placing.RoomIsFree | fat32_dir.c:702-771 | no slot handed out is in use |
| Placing.PlaceKeepsDir | fat32_dir.c:702-771 | an entry placed there leaves a well-formed directory whose listing gains exactly that entry |
| Placing.EraseKeepsDir | fat32_vnode.c:799-844 | marking the slots of a listed entry leaves a well-formed directory whose listing loses exactly that entry |
| Listings.ListingIsEntries | fat32_dir.c:143-409 | in a well-formed directory repeated calls list its live entries, each once and in slot order, whatever the buffer held |
| Integrity.CheckExact | fat32_dir.c:1166-1368 | the checker accepts exactly the slot sequences of the directory grammar |
| Integrity.DirPassesCheck | fat32_dir.c:1166-1368 | every well-formed directory passes |
| Integrity.EmptyExact | fat32_vnode.c:1207-1282 | from any item on, the emptiness scan accepts exactly if only dot entries follow |
| Stale.StaleExact | fat32_dir.c:760-771 | after a failed growth the slots are a directory exactly if the stale ones do no harm |
| Stale.StaleCheck | fat32_dir.c:1166-1368 | the integrity check passes then exactly if an end marker comes before the stale slots or they pass on their own |
| Stale.StaleGroupBreaks | fat32_dir.c:1166-1368 | a full directory does not pass, and is none, when the stale slots begin inside a long name |
| Stale.StaleExample | fat32_dir.c:1166-1368 | such an input |
| DirectoryMap.AddUnique | fat32_dir.c:468-481 | an added entry keeps the names unique up to case exactly if its name is new |
| DirectoryMap.SameNameExact | fat32fs.h:262-268 | names are the same to the driver exactly if they have the same length and each two characters are equal or the two cases of one letter |
| DirectoryMap.CreateEffect | fat32_dir.c:987-1147 | creating keeps the directory well formed and adds exactly the entry, at its place in slot order |
| DirectoryMap.RemoveEffect | fat32_vnode.c:849-956 | removing keeps the directory well formed and deletes exactly the entry |
| DirectoryMap.CreateThenFind | fat32_dir.c:425-484 | after creating an absent name a lookup finds something exactly if the name reads back, and then it is the new entry; the names stay unique exactly if the listed name is new |
| DirectoryMap.RemoveThenFind | fat32_dir.c:425-484 | after removing a name a lookup does not find it |
| DirectoryMap.CreateRemove | fat32_vnode.c:849-956 | creating a name and removing it restores the listing |
| DirectoryMap.GrowEffect | fat32_dir.c:143-409 | when the stale slots do no harm the listing is the old one, followed by what they list on their own if no end marker comes before them |
| DirectoryMap.GrowKeepsDir | fat32_dir.c:760-771 | the directory stays one with the same listing exactly if the stale slots leave no trace |
| DirectoryMap.RunKeepsDirectory | fat32_dir.c:987-1147 | over every run of creations of any names, removals and failed creations the directory stays well formed all the way exactly if no creation failed over stale slots that do harm |
| DirectoryMap.RunKeepsUnique | fat32_dir.c:425-484 | over a run without stale slots that leave a trace the listed names are unique up to case all the way exactly if no creation lists an entry under a taken name |
| DirectoryMap.GuardIsEnough | fat32_vnode.c:1104-1199 | for names that read back, and for those that leave no trace, looking for the name as given is enough for that |
| DirectoryMap.RunKeepsDots | fat32_vnode.c:1207-1282 | over such a run exactly the dot entries have 8.3 names that start with a dot, exactly if no entry ".." is created |
| DirReading.SetDnameInPlace | fat32_util.c:63-78 | puts one character, or ends the name |
| DirReading.ReadLfnInPlace | fat32_dir.c:230-284 | one long-name slot changes buffer and length as specified |
| DirReading.FinishNameInPlace | fat32_dir.c:311-334 | an 8.3 name is taken only when no long name was read |
| DirReading.ScanCluster | fat32_dir.c:207-391 | the scan of one cluster buffer is that stretch of the scan of the directory |
| DirReading.GetDirent | fat32_dir.c:143-409 | reports the entry that the scan of all slots finds from the offset on, also when it straddles clusters, with its place, and where to go on |
| DirReading.FillVnode | fat32_dir.c:353-380 | the vnode takes cluster, attributes, size, place, type, mode and times from the entry |
| DirReading.ModeMeans | fat32_dir.c:363-375 | the mode, bit by bit: the type, everyone may read, the owner may write exactly if the entry is a directory or not read-only, everyone may enter a directory and execute nothing else |
| DirReading.TimesComeBack | fat32_dir.c:377-380 | a time stored in a slot comes back in the vnode: the access to the day, the write to two seconds, the creation to 10 ms |
| Lookups.FindDirent | fat32_dir.c:425-484 | finds the first entry with the name, in any casing, and reports that there is none exactly if none is listed in any casing |
| Lookups.AnswerOfDir | fat32_dir.c:449-452 | bytes left in the name buffer do not matter in a well-formed directory |
| Lookups.DirEmpty | fat32_vnode.c:1207-1282 | 0 exactly when the emptiness scan of all slots accepts |
| Lookups.CheckDirIntegrity | fat32_dir.c:1166-1368 | 0 exactly when the checker's scan of all slots accepts |
| DirWriting.WriteFdentry | fat32_dir.c:807-832 | replaces exactly that slot, or reports an error beyond the end; other directories and files are unchanged |
| DirWriting.ReadFdentry | fat32_dir.c:777-802 | returns exactly that slot, or reports an error beyond the end |
| DirWriting.LaidRewritten | fat32_dir.c:807-832 | putting back one cluster buffer changes the slots in it and no other directory or file |
| DirWriting.DeleteFdentryChain | fat32_vnode.c:799-844 | marks exactly the slots of the range as deleted, across clusters; running past the end is an error after marking what exists |
| DirWriting.BuildLfn | fat32_dir.c:859-907 | the 32 bytes of a long-name slot |
| DirWriting.WriteLfnFdentry | fat32_dir.c:837-928 | the group and the 8.3 slot stand at their place, as far as the directory reaches, and it is an error if it does not |
| SlotBytes.SlotsHalfGrown | fat32_cls.c:232-262 | clusters of which the last was not cleared append cleared slots and then the slots that it held |
| DirGrowth.ScanRoom | fat32_dir.c:718-742 | the scan of one cluster buffer is that stretch of the search for room |
| DirGrowth.AllocFdentry | fat32_dir.c:702-771 | the offset is the first run of free slots; the directory grows by cleared clusters, the ones that come next, no more than needed; on ENOSPC by those there were; on EIO the last one still holds the slots that it held before |
| DirCreation.InitDir | fat32_dir.c:933-982 | the cluster holds the two dot entries, directories that carry the time of creation three times, and cleared slots |
| DirCreation.NewDirOk | fat32_dir.c:933-982 | such a directory is well formed and lists "." and "..", naming itself and its parent |
| DirCreation.CreateFdentry | fat32_dir.c:987-1147 | on success the entry is placed with its slots, 8.3 name, attribute byte, the time of creation at bytes 13 to 19 and 22 to 25, and first cluster; the vnode has the mode asked for or the default; a new directory has its own cluster with dot entries; on ENOSPC the directory has at most grown by cleared slots, on EIO by these and the slots of a cluster that was not cleared; other chains are unchanged, and no cluster is lost unless the call answers EIO |
| DirCreation.MakeVnode | fat32_file.c:170-253 | the fields of the vnode, with the mode in octal digits for every case; the dirty flags are cleared unless it is the root |
| Making.MakeEntry | fat32_vnode.c:1104-1199 | a name is refused exactly when it is listed in any casing, else created, with every effect on directory and volume; the new vnode has the mode asked for or the default, all three times and the flags, the entry the attribute byte and the times; what the directory has gained after an error; no cluster is lost unless the call answers EIO |
| Making.MakeIsStep | fat32_vnode.c:1104-1199 | for every name the directory is well formed afterwards; the new entry is found exactly if the name reads back, names stay unique exactly if the listed one is new; after ENOSPC or a refusal the listing is as before; after EIO it is well formed, passes the check, or lists the same exactly under the stated conditions on the stale slots |
| Making.RemoveIsStep | fat32_vnode.c:849-956 | afterwards the directory is well formed with unique names and the name is absent |
| Making.DirectoryPassesCheck | fat32_dir.c:1166-1368 | from its initialisation on, over every run of creations of any names, removals and failed creations over slots that do no harm, a directory passes the integrity check |
| Making.EmptyMeansDots | fat32_vnode.c:1207-1282 | a directory counts as empty exactly when it lists only "." and ".." |
| Making.EmptyOverRuns | fat32_vnode.c:1207-1282 | that holds over every run from its initialisation on that does not create ".." and has no stale slots that leave a trace |
| Making.NewDirIsEmpty | fat32_vnode.c:1207-1282 | a directory that was just made counts as empty |
| Removal.RemoveEntry | fat32_vnode.c:849-956 | the answer for every case, ENOENT exactly if the name is listed in no casing; on success the entry's slots are deleted, exactly its clusters are free, the directory's time is set, all other chains keep their bytes and the free count is exact |
| Tree.MakeKeepsTree | fat32_vnode.c:1104-1199 | a new entry keeps the tree: every directory reached from the root, no chain shared, none the root's or the directory's own, directories exactly where entries say so |
| Tree.RemoveKeepsTree | fat32_vnode.c:849-956 | so does a removal, which leaves no entry that refers to a freed chain; a directory goes only when it lists nothing but the dot entries |
| Tree.AdoptKeepsTree | fat32_vnode.c:439-514 | so does an entry that takes over its file's chain, even when the file's old chain is gone |
| Tree.AdoptKeepsSizes | fat32_dir.c:561-605 | after the sync no entry claims more bytes than its chain has |
| Consistency.MakeKeepsVolume | fat32_vnode.c:1104-1199 | a creation keeps the volume consistent exactly if the name under which the entry is listed, if any, is new |
| Consistency.FreshIsAbsent | fat32_dir.c:425-484 | for names that read back this is what the code asks |
| Consistency.GrowKeepsVolume | fat32_dir.c:702-771 | a creation that failed keeps the volume consistent exactly if the stale slots leave no trace |
| Consistency.RemoveKeepsVolume | fat32_vnode.c:849-956 | a removal keeps it; exactly the entry, its chain and, for a directory, its listing have gone |
| Consistency.WriteKeepsVolume | fat32_vnode.c:198-345 | a file that gains clusters or bytes keeps it, and the chain it has then is its own |
| Consistency.SetKeepsVolume | fat32_vnode.c:439-514 | the sync of a file after any change of its size, mode or times keeps it |
| Operations.LookupInVolume | fat32_vnode.c:527-640 | a name is found exactly if it is listed in some casing; every field of the vnode is that of the entry, also for directories: cluster, attributes, size, place, parent, type, three times, and the mode bit by bit; the vnode of a file belongs to its entry, agrees with it, has a chain of its own and fits it, and that of a directory can be opened |
| Operations.MakeInVolume | fat32_vnode.c:1104-1199 | a name other than the dot names is refused exactly if it is listed in some casing; mode and times of the vnode, attribute byte and times of the entry and the directory's time are as asked for; the directory can be worked on, other chains are kept, no cluster is lost unless the call answers EIO; the volume stays consistent exactly if the listed name is new, or, if nothing was made, if what the directory has gained leaves no trace; the vnode of a new file belongs to its entry exactly if the mode has write permission |
| Operations.MakeLookup | fat32_vnode.c:527-640 | a new entry is found under every casing of its name, as the file or directory that was asked for, with its write permission, no bytes, and the time of its creation cut to the day, to two seconds and to 10 ms |
| Operations.NewIsFile | fat32_file.c:170-253 | the vnode of a new file belongs to its entry exactly if the file can be written to |
| Operations.RemoveInVolume | fat32_vnode.c:849-956 | the answer follows the listings, ENOENT exactly if the name is listed in no casing, also for what counts as empty; on success exactly the entry has gone, with its chain and, for a directory, its listing, and the directory's time is set |
| Operations.TreeIsRooted | fat32_vnode.c:875-942 | in a consistent volume the entry that a removal finds owns its chain, which is what `RemoveEntry` asks for |
| Operations.EmptyIsDots | fat32_vnode.c:1207-1282 | in a consistent volume a directory counts as empty exactly if it lists only the dot entries |
| Operations.WriteInVolume | fat32_vnode.c:198-345 | a write leaves all listings and other chains, with bytes, size, times, flags, clusters and result of `Write`; the file stays with its entry exactly if the offset was addressable or nothing was written |
| Operations.SetattrInVolume | fat32_vnode.c:439-514 | on success size, mode and times are the ones asked for and everything else is as before, in memory and in the entry, of which exactly the 8.3 slot has changed; the chain is cut or extended as by `Truncate` and the bytes that both sizes reach stay; after an error nothing but the chain has changed; the file still belongs to its entry after an error, and after success exactly if its size is below 2^32 |
| Operations.SetattrLookup | fat32_vnode.c:439-640 | looking a file up after its attributes were set gives back the size below 2^32, the write permission of the mode, and the times to the day, to two seconds and to 10 ms |
| Operations.SyncInVolume | fat32_dir.c:614-645 | the sync writes exactly the 8.3 slot and clears exactly the dirty flags, the file keeps its bytes and everything it has in memory, and still belongs to its entry exactly if its size is below 2^32 |
| Operations.SyncLookupRead | fat32_dir.c:614-645 | after a sync, looking the file up and reading it gives its bytes exactly if there are fewer than 2^32 |
| Operations.CreateWriteReadBack | fat32_vnode.c:198-345 | what is written to a new file comes back after sync and lookup, exactly if it is less than 4 gigabytes |
| Operations.StaysOpen | fat32_cls.c:633-682 | a directory vnode stays usable, cache included, while other chains change |
| Histories.RemoveKeepsHeld | fat32_vnode.c:849-956 | an open file stays on its entry, where it remembers it, and keeps its chain exactly if it is not the one removed |
| Histories.OpenedOwns | fat32_file.c:170-253 | an opened file owns its entry exactly if it has its attribute byte |
| Histories.WrittenOwns | fat32_vnode.c:198-345 | after a change of its bytes a file still owns its entry exactly if its size fits its chain |
| Histories.SyncIsSet | fat32_dir.c:492-612 | the slot at the place that an open file remembers is that of its entry, so the sync changes that entry and no other |
| Histories.SetOwns | fat32_dir.c:561-605 | after the sync a file still owns its entry exactly if its size is below 2^32 |
| Histories.EventKeepsHeld | fat32_vnode.c:198-1199 | an event that meets its condition leaves every other open file on its entry, at the remembered place, in agreement with it, with the same clusters and bytes |
| Histories.UnguardedBreaks | fat32_vnode.c:198-1199 | an event that does not meet its condition breaks the volume or an open file |
| Histories.HistoryExact | fat32_vnode.c:198-1199 | over every history of creations, removals, openings, writes, syncs and failed creations, in any directories and with any files open, the volume is consistent and every open file is on its entry, at the remembered place, agrees with it, and has a chain of its own with room for its size, all the way exactly if every event meets its condition: listed names new, stale slots without a trace, open files not removed or opened again and new ones writable, offsets addressable, sizes below 2^32 |
| Histories.FileIsHeld | fat32_dir.c:492-612 | an open file of a history is exactly a file as the operations on a volume ask for it |
| Histories.FileStays | fat32_vnode.c:198-1199 | after an event that concerns another file or a directory an open file can be worked on as before and has the same bytes |
| Histories.WriteBeside | fat32_vnode.c:198-345 | a write to one open file is an event, and every other open file can be worked on as before and has the same bytes |
| Mounting.ReadBoot | fat32_vfs.c:112-198 | a boot sector without signature is refused; else, if it has the prescribed form, the volume is mounted with the geometry that its bytes describe, and count and hint from FSInfo |
| Mounting.MountFresh | fat32_vfs.c:112-198 | a witness: a freshly formatted device with one FAT, one sector per cluster and at most 126 clusters mounts, from its boot sector, as a consistent volume with an empty root and an exact count, so the assumptions of the other members can be met |
| Mounting.MakeFirst | fat32_vnode.c:1104-1199 | the first entry of such a volume is then the only one listed, unless there was no room or FSInfo failed |
| Readdir.InoRoundTrip | fat32_util.c:28-61 | an inode number gives back exactly the places whose parts fit their fields |
| Readdir.NextEntry | fat32_vnode.c:1397-1424 | from an entry boundary the next entry does not depend on left-over bytes and ends at a boundary |
| Readdir.ReadDirectory | fat32_vnode.c:1291-1466 | one call hands out the longest prefix of the rest that fits its room, and returns the offset of what remains |
| Readdir.CallsAreMet | fat32_vnode.c:1325-1459 | calls resumed from offset 0 on always start where a listing can be resumed |
| Readdir.ResumedListsAll | fat32_vnode.c:1325-1459 | calls resumed up to the end list every entry exactly once and in order, for the root after one "." and one ".." |
| Readdir.CallsReachEnd | fat32_vnode.c:1325-1459 | if every call has room for one line, the end is reached after at most one call per line |
| Writeback.UpdatedMeans | fat32_dir.c:561-605 | each dirty field is written, every other field and the name stay |
| Writeback.UpdateFdentry | fat32_dir.c:492-612 | changes only the last slot of the entry; the root, a bad parent and a missing slot behave as in the code |
| Writeback.LookupIsCoherent | fat32_dir.c:353-380 | a looked-up vnode agrees with its entry |
| Writeback.SyncIsCoherent | fat32_dir.c:561-605 | after the sync nothing is dirty; the entry has the low 32 bits of the size, and agrees with the file exactly if that is all of it |
| Writeback.CreatedCoherent | fat32_file.c:170-253 | the vnode that making returns agrees with its entry exactly if it is a regular file with write permission |
| Writeback.ChmodOfNewDirectory | fat32_vnode.c:467-481 | after setting any mode on a new directory and the sync, its entry is that of a directory exactly if the mode has write permission |
| Writeback.RunIsCoherent | fat32_dir.c:492-612 | over every run of operations and syncs each field is dirty or equals the entry all the way, exactly if no sync meets a size of 2^32 or more; the entry keeps its name |
| Writeback.SetMode | fat32_vnode.c:467-481 | only the read-only bit follows the mode, and a change is flagged |
| Writeback.WriteFile | fat32_vnode.c:198-345 | a write sets the size and the time of the last write and flags exactly what has changed; it leaves the entry alone; the result, the bytes and the clusters are those of `Write` |
| Writeback.Setattr | fat32_vnode.c:439-514 | on success each of size, mode and times is what was asked for, or as before, and flagged before the sync; the entry then holds the times asked for at bytes 13 to 19 and 22 to 25, and nothing is dirty; on an error the entry is untouched and nothing but the chain has changed; the file fits its chain unless it was extended beyond 2^32 - 1 clusters |
| Updating.SyncKeepsDirectory | fat32_dir.c:561-605 | the sync keeps the directory well formed and every name and place in its listing |
| Concurrency.LookStays | fat32_cls.c:323-358 | a thread with the lock of its file never meets a broken link |
| Concurrency.LinkIsSafe | fat32_cls.c:366-371 | when a cluster is linked its parent still carries the end mark and the cluster is on no chain |
| Concurrency.StepKeepsSafe | fat32_cls.c:297-527 | every atomic step of a thread keeps forest, locks and positions |
| Concurrency.RunIsSafe | fat32_cls.c:297-527 | every interleaving keeps the forest and overwrites no link |
| Concurrency.SharedChainBreaks | fat32_cls.c:323-371 | from every quiet state in which two vnodes know one chain, two threads and two free clusters are enough for a run that overwrites a link and loses a cluster |
| Concurrency.OneVnodeExact | fat32_cls.c:323-371 | no run from a quiet state overwrites a link exactly if no chain is known to two vnodes |
| Concurrency.TwoVnodesLoseCluster | fat32_cls.c:323-371 | an instance of the two |

## Left out

- Rename: `fat32_rename` and the rename and reuse flags of `fat32_create_fdentry`.
- Opening an existing file through `fat32_create`, with or without truncation; `MakeEntry` models exclusive creation.
- The branch of `fat32_alloc_fdentry` for a directory whose first cluster is 0; directories in the model have clusters.
- Failing reads of FAT, directory and data sectors; only FSInfo reads may fail.
- GetDirent: directories of 2^32 bytes and more are excluded, because the code keeps offsets in 32 bits; the same holds for the other directory operations.
- AllocFdentry: the sum that rounds the missing bytes up to clusters is not cut to 32 bits; it stays far below for clusters of at most 255 sectors.
- ReadDirectory: offsets that no call has returned (unaligned ones, or inside an entry) are excluded; the sizes of the two record formats are a parameter, the copy to the caller always succeeds.
- Write: negative offsets are excluded; the bytes of a gap beyond the old end of file are not specified, because the code does not clear them.
- Truncate: negative sizes are excluded.
- RemoveEntry: the entry found must own its chain, which `Operations.TreeIsRooted` shows of every consistent volume; the permission checks before it are not modelled.
- MakeInVolume: the two dot names are excluded.
- HistoryExact: creations of the dot names, and what the volume is worth after an event that does not meet its condition.
- Setattr: ownership, which is kept in memory only, and the read-only mount.
- ReadGeometry: partition detection; boot sectors that the format does not allow, which the code accepts; for sector and cluster sizes see `Layout.SectorSizeExact`, `Layout.ClusterBufferExact` and `Layout.ClustersApartExact`.
- RunIsSafe: readers that share a vnode lock, and the device caches below the FAT lock.
- Buffer cache, kernel locks as objects, `uiomove`, mount options, vnode reference counts and behaviour descriptors, unsupported operations, and the formatting of directory records for the two ABIs.
- Volume label, lookup of "." and "..", getattr, statvfs and sync of the whole file system: they would only add easy members.
