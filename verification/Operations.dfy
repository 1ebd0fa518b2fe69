/** The operations of the driver on a consistent volume (fat32_vnode.c): each is a step that keeps it
    so, says what has become of the listings and of the files, and leaves what the next one asks for. */
module Operations {
  import opened Bytes
  import opened Layout
  import opened Volumes
  import opened Chains
  import opened Clusters
  import opened Contents
  import opened Vnodes
  import opened Calendar
  import opened Files
  import opened ReadWrite
  import opened Slots
  import opened SlotBytes
  import opened Names
  import opened Placing
  import opened Integrity
  import opened Listings
  import opened DirectoryMap
  import opened DirGrowth
  import opened DirReading
  import opened Lookups
  import opened DirWriting
  import opened DirCreation
  import opened Removal
  import opened Making
  import opened Writeback
  import opened Updating
  import opened Tree
  import opened Consistency

  lemma VolumeFacts(v: Volume, lists: Lists)
    requires VolumeOk(v, lists)
    ensures v.Valid() && WellFormed(v.fat, v.chains) && SnapOk(Now(v), v.g, lists) && Backed(Now(v), SLOT * PerCluster(v.g))
    ensures v.g.bytesPerCluster == SLOT * PerCluster(v.g) && PerCluster(v.g) >= 16 && 0 !in v.chains
  {
    hide WellFormed, DeviceHolds, TreeOk, AllShow, SizesFit, Backed;
    PerClusterIs(v.g, 0);
    ZeroIsNoChain(v.fat, v.chains);
  }

  lemma VolumeIs(v: Volume, lists: Lists)
    requires v.Valid() && SnapOk(Now(v), v.g, lists)
    ensures VolumeOk(v, lists)
  {
    hide SnapOk;
  }

  lemma VolumeBacked(v: Volume)
    requires v.Valid() && WellFormed(v.fat, v.chains)
    ensures Backed(Now(v), SLOT * PerCluster(v.g))
  {
    hide WellFormed, DeviceHolds, Backed, Mul;
    PerClusterIs(v.g, 0);
    SoundIsBacked(v);
  }

  /** What is known of the slots of a directory of the volume. */
  lemma SlotsFacts(v: Volume, lists: Lists, d: nat, slots: seq<Slot>)
    requires VolumeOk(v, lists) && OnDir(v, d, slots) && d in lists
    ensures DirOk(slots) && ListOf(slots) == lists[d] && Unique(lists[d]) && DotsPlain(lists[d])
    ensures d in v.chains && d != 0 && Laid(Now(v), d, PerCluster(v.g), slots)
  {
    hide DirOk, ListOf, Laid, WellFormed, DeviceHolds, Consistent, Unique, DotsPlain, SnapOk;
    DirectoryFacts(Now(v), v.g, lists, d, slots);
  }

  /** A directory stays open while other chains change. */
  lemma StaysOpen(v: Volume, dir: Vnode, s: Snap, h: nat, slots: seq<Slot>)
    requires v.Valid() && WellFormed(v.fat, v.chains) && v.g.bytesPerCluster == SLOT * PerCluster(v.g) && PerCluster(v.g) >= 16
    requires Laid(s, dir.cluster, PerCluster(v.g), slots) && SLOT * |slots| < WORD && dir.cache.Length == CACHE_SIZE
    requires CacheSound(dir.cache[..], ChainOf(s.chains, dir.cluster))
    requires h != dir.cluster && |v.data| == |s.data| && OthersKept(s, Now(v), h)
    ensures Open(v, dir, slots)
  {
    hide WellFormed, DeviceHolds, Consistent, Laid, Backed, OthersKept, CacheSound;
    VolumeBacked(v);
    LaidKept(s, Now(v), h, dir.cluster, PerCluster(v.g), slots);
    LaidChain(s, dir.cluster, PerCluster(v.g), slots);
    ChainStays(s, Now(v), h, dir.cluster);
  }

  // ---- files ----

  /** The vnode `fv` belongs to entry `j` of directory `d`, agrees with it, fits its chain, and shares
      it with nothing. */
  ghost predicate FileOf(v: Volume, fv: Vnode, lists: Lists, slots: seq<Slot>, d: nat, j: nat)
    reads v, v.disk, fv`cluster, fv`flags, fv`parentCluster, fv`diroff, fv`dirsz, fv`size, fv`attr, fv`atime, fv`mtime, fv`ctime,
          fv.cache
  {
    && OwnHead(lists, d, j, fv.cluster) && d == ParentOf(v.g, fv.parentCluster) && Fits(v, fv)
    && var e := lists[d][j];
       && !IsDots(e.name) && !IsDirEntry(e)
       && HasEntry(v, fv, slots, e.main) && fv.diroff == SLOT * e.start && fv.dirsz == e.count
       && Coherent(MetaOf(fv), e.main) && fv.attr / 2 == Attr(e.main) / 2
  }

  lemma FileFacts(v: Volume, fv: Vnode, lists: Lists, slots: seq<Slot>, d: nat, j: nat)
    requires FileOf(v, fv, lists, slots, d, j)
    ensures OwnHead(lists, d, j, fv.cluster) && d == ParentOf(v.g, fv.parentCluster) && Fits(v, fv) && fv.cluster != d
    ensures HasEntry(v, fv, slots, lists[d][j].main) && OnDir(v, d, slots) && Coherent(MetaOf(fv), lists[d][j].main)
    ensures fv.attr / 2 == Attr(lists[d][j].main) / 2 && !IsDirEntry(lists[d][j]) && IsRoot !in fv.flags
    ensures lists[d][j].count > 0 && lists[d][j].start + lists[d][j].count <= |slots|
    ensures slots[lists[d][j].start + lists[d][j].count - 1] == lists[d][j].main
    ensures fv.diroff / SLOT + fv.dirsz - 1 == lists[d][j].start + lists[d][j].count - 1
  {
    hide OnDir, Attached, Coherent, Private, IsDots, Bit, Mul;
  }

  lemma HeadFits(v: Volume, fv: Vnode)
    requires v.Valid() && WellFormed(v.fat, v.chains) && Attached(v, fv)
    ensures fv.cluster == 0 || (fv.cluster in v.chains && fv.cluster < WORD)
  {
    hide DeviceHolds, WellFormed, CacheSound;
    if fv.cluster in v.chains {
      ChainEntryIn(v, fv.cluster);
      ClusterNumbersFit(v.g);
    }
  }

  // ---- looking up ----

  /** What a lookup answers. */
  ghost predicate LookupAnswer(lists: Lists, d: nat, name: seq<byte>, err: Errno, j: nat) {
    && d in lists && (err == OK || err == ENOENT)
    && (err == ENOENT <==> Absent(lists[d], Key(name)))
    && (err == OK ==> FoundAt(lists[d], Key(name), j) && j < |lists[d]|)
  }

  /** In a consistent volume the chain of an entry is its own; that of a file has room for its size. */
  lemma EntryFacts(chains: Forest, lists: Lists, root: nat, d: nat, j: nat, size: nat)
    requires TreeOk(chains, lists, root) && SizesFit(chains, lists, size) && d in lists && j < |lists[d]| && !IsDots(lists[d][j].name)
    ensures var c := FirstCluster(lists[d][j].main); c == 0 || (c in chains && c != d)
    ensures !IsDirEntry(lists[d][j]) ==>
              var main := lists[d][j].main;
              OwnHead(lists, d, j, FirstCluster(main)) && FileSize(main) <= Mul(|ChainOf(chains, FirstCluster(main))|, size)
  {
    hide TreeOk, FirstCluster, FileSize, IsDots, Bit, Mul;
    var c := FirstCluster(lists[d][j].main);
    assert EntryFits(chains, lists[d][j], size);
    RemovedHead(chains, lists, root, d, j);
    if c != 0 && !IsDirEntry(lists[d][j]) {
      forall d', j' | Refers(lists, d', j', c)
        ensures d' == d && j' == j
      {
        assert Refers(lists, d, j, c);
        SameOwner(chains, lists, root, d, j, d', j', c);
      }
    }
  }

  /** The last slot of a listed entry is its 8.3 slot. */
  lemma MainIsLast(slots: seq<Slot>, j: nat)
    requires DirOk(slots) && j < |ListOf(slots)|
    ensures var e := ListOf(slots)[j]; e.count > 0 && e.start + e.count <= |slots| && slots[e.start + e.count - 1] == e.main
  {
    hide DirOk, ListOf;
    ListedKind(slots, j);
    SameStandsIn(ListOf(slots)[j].main);
    UpdateKeepsDirectory(slots, j, ListOf(slots)[j].main);
  }

  lemma SameStandsIn(main: Slot)
    requires IsMain(main) && DirectorySizeZero(main)
    ensures StandsIn(main, main)
  {
  }

  /** The vnode that a lookup fills belongs to its entry. */
  lemma FoundIsFile(v: Volume, fv: Vnode, lists: Lists, slots: seq<Slot>, d: nat, j: nat)
    requires VolumeOk(v, lists) && d in lists && j < |lists[d]| && OnDir(v, d, slots)
    requires !IsDots(lists[d][j].name) && Filled(fv, lists[d][j].main, lists[d][j].start, lists[d][j].count, d)
    requires !IsDirEntry(lists[d][j]) ==> fv.flags == {}
    requires fv.cache.Length == CACHE_SIZE && forall i :: 0 <= i < CACHE_SIZE ==> fv.cache[i] == CacheEntry(0, 0)
    ensures Attached(v, fv) && fv.cluster != d
    ensures !IsDirEntry(lists[d][j]) ==> FileOf(v, fv, lists, slots, d, j)
  {
    hide DirOk, ListOf, WellFormed, DeviceHolds, Consistent, TreeOk, AllShow, SizesFit, Unique, DotsPlain, Backed, Coherent, Bit,
         FirstCluster, FileSize, TimeOf, ModeOf, FatToUnix, Private, Laid, IsDots, Mul;
    var e := lists[d][j];
    SlotsFacts(v, lists, d, slots);
    EntryFacts(v.chains, lists, v.g.rootCluster, d, j, v.g.bytesPerCluster);
    MainIsLast(slots, j);
    LookupIsCoherent(fv, e.main, e.start, e.count, d);
    ChainEntryIn(v, d);
    ClusterNumbersFit(v.g);
  }

  lemma FoundName(es: seq<Dirent>, name: seq<byte>, j: nat)
    requires FoundAt(es, Key(name), j) && !IsDots(name)
    ensures j < |es| && !IsDots(es[j].name)
  {
    hide IsDots, Key;
    NotDots(name, es[j].name);
  }

  lemma NotDots(name: seq<byte>, other: seq<byte>)
    requires SameName(Key(name), other)
    ensures IsDots(other) ==> IsDots(name)
  {
    if IsDots(other) {
      assert Key(name) == name;
      assert Upper(name[0]) == Upper(other[0]);
      assert |name| == 2 ==> Upper(name[1]) == Upper(other[1]);
    }
  }

  /** A filled vnode has a mode of its own, so `fat32_make_vnode` keeps it. */
  lemma FilledAgain(fv: Vnode, main: Slot, start: nat, count: nat, dirCluster: nat)
    requires Filled(fv, main, start, count, dirCluster)
    ensures fv.mode != 0 && fv.mode == ModeOf(Attr(main)) && fv.cluster == FirstCluster(main) && fv.parentCluster == dirCluster
    ensures fv.attr == Attr(main)
    ensures fv.vtype == VDIR <==> Bit(Attr(main), DIRECTORY)
  {
    hide FatToUnix, FirstCluster, FileSize, Bit;
  }

  /** The mode follows bits 4 (directory) and 0 (read-only) of byte 11 of the entry. */
  predicate ModeOfEntry(mode: nat, main: Slot) {
    ModeSays(mode, main[11] / 16 % 2 == 1, main[11] / 16 % 2 == 1 || main[11] % 2 == 0)
  }

  lemma FilledMode(fv: Vnode, main: Slot, start: nat, count: nat, dirCluster: nat)
    requires Filled(fv, main, start, count, dirCluster)
    ensures ModeOfEntry(fv.mode, main)
  {
    hide ModeOf, ModeSays, TimeOf, FatToUnix, FileSize, FirstCluster, Bit;
    ModeMeans(main[11]);
  }

  /** `fat32_lookup` of a name other than the dot names: the vnode of a file is one that the other
      operations can work on, and that of a directory can be opened. */
  method LookupInVolume(v: Volume, dir: Vnode, name: seq<byte>, ghost lists: Lists, ghost slots: seq<Slot>)
    returns (err: Errno, fv: Vnode, ghost j: nat)
    requires VolumeOk(v, lists) && Open(v, dir, slots) && dir.vtype == VDIR && dir.cluster in lists && !IsDots(name)
    modifies v, v.disk, dir.cache
    ensures fresh(fv) && fresh(fv.cache)
    ensures VolumeOk(v, lists) && Open(v, dir, slots) && LookupAnswer(lists, dir.cluster, name, err, j)
    ensures Now(v) == old(Now(v)) && (old(Exact(v)) ==> Exact(v))
    ensures err == OK <==> Listed(lists[dir.cluster], Key(name))
    ensures err == OK ==> Recased(Key(name), lists[dir.cluster][j].name)
    ensures err == OK ==>
              var e := lists[dir.cluster][j];
              Filled(fv, e.main, e.start, e.count, dir.cluster) && fv.flags == {} && ModeOfEntry(fv.mode, e.main)
    ensures err == OK ==>
              && Attached(v, fv) && fv.cluster == FirstCluster(lists[dir.cluster][j].main)
              && (fv.vtype == VDIR <==> IsDirEntry(lists[dir.cluster][j])) && (fv.vtype != VDIR ==> fv.vtype == VREG)
    ensures err == OK && fv.vtype != VDIR ==>
              FileOf(v, fv, lists, slots, dir.cluster, j) && fv.flags == {}
              && fv.size == FileSize(lists[dir.cluster][j].main) && fv.attr == Attr(lists[dir.cluster][j].main)
  {
    hide DirOk, ListOf, Listing, WellFormed, DeviceHolds, Consistent, SnapOk, OnDir, Attached, Exact, DirReady, SlotsOf, TimeOf,
         ModeOf, FatToUnix, FirstCluster, FileSize, FoundAt, Absent, Answer, Open, IsDots, Key, Bit, FileOf, Unique, DotsPlain, Laid,
         Filled, ModeOfEntry, Listed, Recased;
    OpenMeans(v, dir, slots);
    SlotsFacts(v, lists, dir.cluster, slots);
    fv := new Vnode();
    OpenIsReady(v, dir, slots);
    ghost var junk;
    err, junk, j := FindDirent(v, dir, name, fv);
    ReadyIsOpen(v, dir);
    OpenMeans(v, dir, slots);
    OnDirIsValid(v, dir.cluster, slots);
    AnswerOfDir(slots, junk);
    if err != OK {
      AnswerAbsent(ListOf(slots), Key(name), err, j);
      return;
    }
    AnswerFound(ListOf(slots), Key(name), j);
    ghost var e := lists[dir.cluster][j];
    FilledMeans(fv, e.main, e.start, e.count, dir.cluster);
    FoundName(lists[dir.cluster], name, j);
    FilledAgain(fv, e.main, e.start, e.count, dir.cluster);
    FoundIsFile(v, fv, lists, slots, dir.cluster, j);
    MakeFound(v, fv, lists, slots, dir.cluster, j);
    FilledMode(fv, e.main, e.start, e.count, dir.cluster);
  }

  /** No entry but a dot entry leads to the root. */
  lemma NotRoot(v: Volume, lists: Lists, d: nat, j: nat)
    requires VolumeOk(v, lists) && d in lists && j < |lists[d]| && !IsDots(lists[d][j].name)
    ensures FirstCluster(lists[d][j].main) != v.g.rootCluster
  {
    hide WellFormed, DeviceHolds, TreeOk, AllShow, SizesFit, Backed, FirstCluster, IsDots, IsDirEntry;
    RemovedHead(v.chains, lists, v.g.rootCluster, d, j);
    RootNotNone(v.chains, lists, v.g.rootCluster);
  }

  lemma RootNotNone(chains: Forest, lists: Lists, root: nat)
    requires TreeOk(chains, lists, root)
    ensures root != 0
  {
    hide TreeOk;
    RootListed(chains, lists, root);
    TreeFacts(chains, lists, root, root);
  }

  lemma RootListed(chains: Forest, lists: Lists, root: nat)
    requires TreeOk(chains, lists, root)
    ensures root in lists
  {
  }

  /** `fat32_make_vnode` on a vnode that a lookup has filled. */
  method MakeFound(v: Volume, fv: Vnode, ghost lists: Lists, ghost slots: seq<Slot>, dirCluster: nat, ghost j: nat)
    requires VolumeOk(v, lists) && dirCluster in lists && j < |lists[dirCluster]| && OnDir(v, dirCluster, slots)
    requires !IsDots(lists[dirCluster][j].name) && fv.flags == {}
    requires var e := lists[dirCluster][j]; Filled(fv, e.main, e.start, e.count, dirCluster)
    requires fv.cache.Length == CACHE_SIZE && forall i :: 0 <= i < CACHE_SIZE ==> fv.cache[i] == CacheEntry(0, 0)
    modifies fv`cluster, fv`vtype, fv`parentCluster, fv`flags, fv`mode
    ensures Attached(v, fv) && fv.cluster == old(fv.cluster) && fv.vtype == old(fv.vtype) && fv.flags == {}
    ensures var e := lists[dirCluster][j]; Filled(fv, e.main, e.start, e.count, dirCluster)
    ensures fv.vtype != VDIR ==>
              && FileOf(v, fv, lists, slots, dirCluster, j)
              && fv.size == FileSize(lists[dirCluster][j].main) && fv.attr == Attr(lists[dirCluster][j].main)
  {
    hide WellFormed, DeviceHolds, Consistent, SnapOk, Laid, TimeOf, ModeOf, FatToUnix, FirstCluster, IsDots, Bit, FileOf, CacheSound,
         FileSize, Rle16;
    ghost var e := lists[dirCluster][j];
    FilledAgain(fv, e.main, e.start, e.count, dirCluster);
    FoundIsFile(v, fv, lists, slots, dirCluster, j);
    NotRoot(v, lists, dirCluster, j);
    MakeVnode(v.g, fv, fv.cluster, fv.vtype, dirCluster);
    if fv.vtype != VDIR {
      FoundIsFile(v, fv, lists, slots, dirCluster, j);
    }
  }

  // ---- writing ----

  /** `fat32_write` on a file of a consistent volume is a step that leaves the listings; the bytes are
      those of `ReadWrite.Write`, and the file stays with its entry exactly if the offset was
      addressable or nothing was written. */
  method WriteInVolume(v: Volume, fv: Vnode, offset: nat, data: seq<byte>, append: bool, now: Timespec,
                       ghost lists: Lists, ghost slots: seq<Slot>, ghost d: nat, ghost j: nat)
    returns (err: Errno, done: nat)
    requires VolumeOk(v, lists) && FileOf(v, fv, lists, slots, d, j)
    modifies v, v.disk, fv`cluster, fv`size, fv`mtime, fv`flags, fv.cache
    ensures VolumeOk(v, lists) && (old(Exact(v)) ==> Exact(v)) && OnDir(v, d, slots)
    ensures WriteStep(v.g, old(Now(v)), Now(v), lists, d, j, old(fv.cluster), fv.cluster)
    ensures FileOf(v, fv, lists, slots, d, j) <==> append || StaysInside(v.g, offset, done)
    ensures done <= |data| && (err == OK || err == EISDIR || err == ENOSPC || err == EIO)
    ensures (err == EISDIR <==> fv.vtype != VREG) && (err != EISDIR ==> (err == OK <==> done == |data|))
    ensures Fits(v, fv) <==> append || StaysInside(v.g, offset, done)
    ensures Fits(v, fv) ==>
              WrittenAt(old(FileBytes(v, fv)), FileBytes(v, fv), if append then old(fv.size) else offset, data[..done])
    ensures Flagged(old(MetaOf(fv)), MetaOf(fv)) && Attached(v, fv)
    ensures WriteNoted(old(MetaOf(fv)), MetaOf(fv), fv.vtype, if append then old(fv.size) else offset, done, now)
    ensures Extended(old(Now(v)), Now(v), old(fv.cluster), fv.cluster, v.g.bytesPerCluster,
                     Landing(v.g, if append then old(fv.size) else offset) + |data|, err)
    ensures (err == ENOSPC && old(Exact(v)) && v.intact ==> FreeCount(v.fat) == 0) && (err == EIO ==> !v.intact)
    ensures append || offset <= old(fv.size) ==>
              && Fits(v, fv)
              && FileBytes(v, fv) == Overwrite(old(FileBytes(v, fv)), if append then old(fv.size) else offset, data[..done])
  {
    hide WellFormed, DeviceHolds, Consistent, Backed, Mul, Exact, OthersKept, FreeCount, Addressable, CacheSound, HeadMoved, Flagged,
         Coherent, Private, SnapOk, OnDir, FileBytes, Overwrite, Bit, IsDots, WrittenAt, Extended, Landing;
    ghost var s, h, e := Now(v), fv.cluster, lists[d][j];
    ghost var m0 := MetaOf(fv);
    FileFacts(v, fv, lists, slots, d, j);
    VolumeFacts(v, lists);
    err, done := WriteFile(v, fv, offset, data, append, now, slots, e.main);
    OnDirHolds(v, d, slots);
    VolumeBacked(v);
    FlaggedIsCoherent(m0, MetaOf(fv), e.main);
    ZeroIsNoChain(v.fat, v.chains);
    WroteInVolume(v, fv, s, lists, d, j, h);
    FlaggedAttr(m0, MetaOf(fv), e.main);
  }

  /** A write changes no attribute bits but what it flags; it flags none. */
  lemma FlaggedAttr(m: Meta, m': Meta, main: Slot)
    ensures m'.attr == m.attr && m.attr / 2 == Attr(main) / 2 ==> m'.attr / 2 == Attr(main) / 2
  {
  }

  /** The step of a write, once `Writeback.WriteFile` has returned. */
  lemma WroteInVolume(v: Volume, fv: Vnode, s: Snap, lists: Lists, d: nat, j: nat, h: nat)
    requires v.Valid() && WellFormed(v.fat, v.chains) && Backed(Now(v), SLOT * PerCluster(v.g)) && SnapOk(s, v.g, lists)
    requires |v.data| == |s.data| && OthersKept(s, Now(v), h) && OwnHead(lists, d, j, h) && Attached(v, fv)
    requires HeadMoved(s.chains, h, fv.cluster) && (h in s.chains ==> fv.cluster == h)
    requires |ChainOf(s.chains, h)| <= |ChainOf(v.chains, fv.cluster)|
    ensures WriteStep(v.g, s, Now(v), lists, d, j, h, fv.cluster) && VolumeOk(v, lists) && OwnHead(lists, d, j, fv.cluster)
  {
    hide WellFormed, DeviceHolds, Consistent, Backed, OthersKept, CacheSound, HeadMoved, OwnHead, SnapOk;
    WriteKeepsVolume(v.g, s, Now(v), lists, d, j, h, fv.cluster);
    VolumeIs(v, lists);
  }

  // ---- setting attributes and the sync ----

  /** The step of a sync, once the slot of the entry has been written. */
  lemma SyncedInVolume(v: Volume, fv: Vnode, s: Snap, lists: Lists, d: nat, j: nat, slots: seq<Slot>, m: Meta, h: nat)
    requires SnapOk(s, v.g, lists) && Laid(s, d, PerCluster(v.g), slots) && KeptBut(s, Now(v), h, d)
    requires OwnHead(lists, d, j, h) && h != d && HeadMoved(s.chains, h, m.cluster) && Attached(v, fv) && m.cluster == fv.cluster
    requires var e := lists[d][j];
      && !IsDirEntry(e) && Coherent(m, e.main) && m.attr / 2 == Attr(e.main) / 2 && e.count > 0 && e.start + e.count <= |slots|
      && slots[e.start + e.count - 1] == e.main
      && OnDir(v, d, slots[e.start + e.count - 1 := UpdatedSlot(e.main, m)])
    requires m.size % WORD <= Mul(|ChainOf(v.chains, m.cluster)|, v.g.bytesPerCluster)
    ensures SetStep(v.g, s, Now(v), lists, d, j, slots, m, h)
    ensures VolumeOk(v, ListsAfterSet(lists, d, j, m)) && OwnHead(lists, d, j, m.cluster)
  {
    hide WellFormed, DeviceHolds, Consistent, Backed, KeptBut, HeadMoved, SnapOk, UpdatedSlot, Coherent, Laid, CacheSound, Mul,
         OwnHead, Bit, FileSize, FirstCluster;
    VolumeBacked(v);
    HeadFits(v, fv);
    OwnIsEntry(lists, d, j, h);
    assert |v.data| == |s.data| by {
      KeptLength(s, Now(v), h, d);
    }
    SetKeepsVolume(v.g, s, Now(v), lists, d, j, slots, m, h);
    AdoptsInStep(v.g, s, Now(v), lists, d, j, slots, m, h);
    VolumeIs(v, ListsAfterSet(lists, d, j, m));
  }

  lemma OwnIsEntry(lists: Lists, d: nat, j: nat, h: nat)
    requires OwnHead(lists, d, j, h)
    ensures d in lists && j < |lists[d]|
  {
  }

  lemma KeptLength(s: Snap, s': Snap, h: nat, d: nat)
    requires KeptBut(s, s', h, d)
    ensures |s'.data| == |s.data|
  {
  }

  /** After the sync the vnode still belongs to its entry, exactly if its size fits in 32 bits. */
  lemma SyncedFile(v: Volume, fv: Vnode, lists: Lists, slots: seq<Slot>, d: nat, j: nat, m: Meta)
    requires OwnHead(lists, d, j, fv.cluster) && d == ParentOf(v.g, fv.parentCluster) && (m.size < WORD ==> Fits(v, fv))
    requires var e := lists[d][j];
      && !IsDots(e.name) && !IsDirEntry(e) && e.count > 0 && e.start + e.count <= |slots|
      && fv.diroff == SLOT * e.start && fv.dirsz == e.count
      && OnDir(v, d, slots[e.start + e.count - 1 := UpdatedSlot(e.main, m)])
      && Coherent(m, e.main) && m.attr / 2 == Attr(e.main) / 2
    requires Attached(v, fv) && fv.cluster != d && IsRoot !in m.flags && fv.parentCluster != BAD && fv.cluster < WORD
    requires MetaOf(fv) == m.(flags := m.flags - DIRTY)
    ensures var e := lists[d][j];
      FileOf(v, fv, ListsAfterSet(lists, d, j, m), slots[e.start + e.count - 1 := UpdatedSlot(e.main, m)], d, j) <==> m.size < WORD
  {
    hide OnDir, Attached, UpdatedSlot, Coherent, FirstCluster, FileSize, IsDots, Bit, Mul;
    var e := lists[d][j];
    SyncedSlot(e.main, m);
    SyncIsCoherent(e.main, m);
    UpdatedFields(e.main, m);
    StaysOwn(lists, d, j, UpdatedSlot(e.main, m), fv.cluster);
  }

  lemma StaysOwn(lists: Lists, d: nat, j: nat, u: Slot, h: nat)
    requires OwnHead(lists, d, j, h)
    ensures OwnHead(Adopted(lists, d, j, u), d, j, h)
  {
    hide FirstCluster, IsDots;
    var lists' := Adopted(lists, d, j, u);
    forall d', j' | Refers(lists', d', j', h) && h != 0
      ensures d' == d && j' == j
    {
      assert (d' != d || j' != j) ==> Refers(lists, d', j', h);
    }
  }

  /** What a change to the entry of a file does to the listings. */
  ghost predicate SetResult(lists: Lists, lists': Lists, d: nat, j: nat, m: Meta, err: Errno) {
    && d in lists && j < |lists[d]|
    && lists' == if err == OK then ListsAfterSet(lists, d, j, m) else lists
  }

  /** `fat32_sync_metadata` on a file of a consistent volume: its 8.3 slot takes what the file holds
      in memory, and the file still belongs to its entry exactly if its size fits in 32 bits. */
  method SyncInVolume(v: Volume, fv: Vnode, ghost lists: Lists, ghost slots: seq<Slot>, ghost d: nat, ghost j: nat)
    returns (err: Errno, ghost lists': Lists, ghost slots': seq<Slot>)
    requires VolumeOk(v, lists) && FileOf(v, fv, lists, slots, d, j)
    modifies v, v.disk, fv`flags
    ensures VolumeOk(v, lists') && err == OK && (old(Exact(v)) ==> Exact(v)) && OnDir(v, d, slots')
    ensures SetStep(v.g, old(Now(v)), Now(v), lists, d, j, slots, old(MetaOf(fv)), old(fv.cluster))
    ensures SetResult(lists, lists', d, j, old(MetaOf(fv)), err) && |slots'| == |slots|
    ensures FileOf(v, fv, lists', slots', d, j) <==> fv.size < WORD
    ensures MetaOf(fv) == old(MetaOf(fv)).(flags := old(fv.flags) - DIRTY)
    ensures Fits(v, fv) && FileBytes(v, fv) == old(FileBytes(v, fv)) && Now(v) == old(Now(v)).(data := v.data)
    ensures OnlyDir(old(Now(v)), Now(v), d)
  {
    hide WellFormed, DeviceHolds, Consistent, Backed, Mul, Exact, OthersKept, CacheSound, Coherent, Private, SnapOk, OnDir, UpdatedSlot,
         Bit, IsDots, Laid, FileOf, Attached;
    FileMore(v, fv, lists, slots, d, j);
    ghost var s, h, e, m := Now(v), fv.cluster, lists[d][j], MetaOf(fv);
    FileFacts(v, fv, lists, slots, d, j);
    VolumeFacts(v, lists);
    SlotsFacts(v, lists, d, slots);
    HeadFits(v, fv);
    FitsIsRoom(v, fv);
    err := SyncMetadata(v, fv, slots, e.main);
    lists' := ListsAfterSet(lists, d, j, m);
    slots' := slots[e.start + e.count - 1 := UpdatedSlot(e.main, m)];
    KeptAlso(s, Now(v), h, d);
    SyncedInVolume(v, fv, s, lists, d, j, slots, m, h);
    SyncedFile(v, fv, lists, slots, d, j, m);
  }

  lemma FileMore(v: Volume, fv: Vnode, lists: Lists, slots: seq<Slot>, d: nat, j: nat)
    requires FileOf(v, fv, lists, slots, d, j)
    ensures d in lists && j < |lists[d]| && !IsDots(lists[d][j].name) && fv.parentCluster != BAD && Attached(v, fv)
    ensures fv.diroff == SLOT * lists[d][j].start && fv.dirsz == lists[d][j].count
  {
    hide OnDir, Attached, Coherent, Private, IsDots, Bit, Mul;
  }

  lemma KeptAlso(s: Snap, s': Snap, h: nat, d: nat)
    requires OnlyDir(s, s', d)
    ensures KeptBut(s, s', h, d) && HeadMoved(s.chains, h, h)
  {
  }

  /** The step of `Writeback.Setattr` when it has answered OK. */
  lemma SetattrDone(v: Volume, fv: Vnode, s: Snap, lists: Lists, slots: seq<Slot>, d: nat, j: nat, m0: Meta, m: Meta, h: nat)
    requires SnapOk(s, v.g, lists) && Laid(s, d, PerCluster(v.g), slots) && d in s.chains && d != 0 && d == ParentOf(v.g, fv.parentCluster)
    requires OwnHead(lists, d, j, h) && h != d && KeptBut(s, Now(v), h, d) && HeadMoved(s.chains, h, fv.cluster) && Attached(v, fv)
    requires var e := lists[d][j];
      && !IsDots(e.name) && !IsDirEntry(e) && e.count > 0 && e.start + e.count <= |slots| && fv.diroff == SLOT * e.start
      && slots[e.start + e.count - 1] == e.main
      && fv.dirsz == e.count && OnDir(v, d, slots[e.start + e.count - 1 := UpdatedSlot(e.main, m)])
      && Coherent(m0, e.main) && Flagged(m0, m) && m.attr / 2 == Attr(e.main) / 2
    requires IsRoot !in m.flags && fv.parentCluster != BAD && MetaOf(fv) == m.(flags := m.flags - DIRTY)
    requires (fv.size <= Mul(WORD - 1, v.g.bytesPerCluster) ==> Fits(v, fv)) && LowSizeFits(v, fv)
    ensures SetStep(v.g, s, Now(v), lists, d, j, slots, m, h) && VolumeOk(v, ListsAfterSet(lists, d, j, m))
    ensures var e := lists[d][j];
      FileOf(v, fv, ListsAfterSet(lists, d, j, m), slots[e.start + e.count - 1 := UpdatedSlot(e.main, m)], d, j) <==> m.size < WORD
  {
    hide WellFormed, DeviceHolds, Consistent, Mul, CacheSound, Coherent, SnapOk, OnDir, UpdatedSlot, Bit, IsDots, Laid, FileOf, Attached,
         Flagged, HeadMoved, KeptBut, SetStep, OwnHead;
    OwnIsEntry(lists, d, j, h);
    OnDirIsValid(v, d, slots[lists[d][j].start + lists[d][j].count - 1 := UpdatedSlot(lists[d][j].main, m)]);
    FlaggedIsCoherent(m0, m, lists[d][j].main);
    HeadFits(v, fv);
    SyncedInVolume(v, fv, s, lists, d, j, slots, m, h);
    NotParent(s.chains, d, h, fv.cluster);
    WordsFit(v.g, fv.size);
    SyncedFile(v, fv, lists, slots, d, j, m);
  }

  /** The step of `Writeback.Setattr` when it has failed. */
  lemma SetattrFailed(v: Volume, fv: Vnode, s: Snap, lists: Lists, slots: seq<Slot>, d: nat, j: nat, m0: Meta, m: Meta, h: nat)
    requires SnapOk(s, v.g, lists) && d in s.chains && d != 0 && d == ParentOf(v.g, fv.parentCluster) && Fits(v, fv)
    requires OwnHead(lists, d, j, h) && h != d && |v.data| == |s.data| && OthersKept(s, Now(v), h) && OnDir(v, d, slots)
    requires HeadMoved(s.chains, h, fv.cluster) && (h in s.chains ==> fv.cluster == h)
    requires |ChainOf(s.chains, h)| <= |ChainOf(v.chains, fv.cluster)|
    requires var e := lists[d][j];
      && !IsDots(e.name) && !IsDirEntry(e) && e.count > 0 && e.start + e.count <= |slots| && slots[e.start + e.count - 1] == e.main
      && fv.diroff == SLOT * e.start && fv.dirsz == e.count
      && Coherent(m0, e.main) && Flagged(m0, m) && m.attr / 2 == Attr(e.main) / 2
    requires IsRoot !in fv.flags && fv.parentCluster != BAD && MetaOf(fv) == m
    ensures WriteStep(v.g, s, Now(v), lists, d, j, h, fv.cluster) && VolumeOk(v, lists) && FileOf(v, fv, lists, slots, d, j)
  {
    hide WellFormed, DeviceHolds, Consistent, Mul, CacheSound, Coherent, SnapOk, OnDir, Bit, IsDots, FileOf, Attached, Flagged,
         HeadMoved, OthersKept, WriteStep, OwnHead;
    OwnIsEntry(lists, d, j, h);
    OnDirIsValid(v, d, slots);
    FlaggedIsCoherent(m0, m, lists[d][j].main);
    VolumeBacked(v);
    WroteInVolume(v, fv, s, lists, d, j, h);
    NotParent(s.chains, d, h, fv.cluster);
    StillFile(v, fv, lists, slots, d, j, m);
  }

  /** What the entry says after the attributes were set: the size's low 32 bits, the first cluster, the
      attributes, and the times that were asked for. */
  ghost predicate EntryHolds(a: Vattr, m: Meta, u: Slot) {
    FileSize(u) == m.size % WORD && FirstCluster(u) == m.cluster && u[11] == m.attr && TimesHeld(a, u)
  }

  lemma EntryIsHeld(a: Vattr, m: Meta, main: Slot)
    requires Coherent(m, main) && m.cluster < WORD && TimesHeld(a, UpdatedSlot(main, m))
    ensures EntryHolds(a, m, UpdatedSlot(main, m))
  {
    hide UpdatedSlot, FileSize, FirstCluster, ShortName, TimesHeld;
    UpdatedFields(main, m);
    SyncIsCoherent(main, m);
    FieldsBelowWord(main);
  }

  /** `fat32_setattr` on a file of a consistent volume, even when it is truncated to nothing; on
      success exactly the 8.3 slot of its entry has changed, and the file still belongs to it exactly
      if the size fits in 32 bits.  After an error it does in any case. */
  method SetattrInVolume(v: Volume, fv: Vnode, a: Vattr, ghost lists: Lists, ghost slots: seq<Slot>, ghost d: nat, ghost j: nat)
    returns (err: Errno, ghost m: Meta, ghost lists': Lists, ghost slots': seq<Slot>)
    requires VolumeOk(v, lists) && FileOf(v, fv, lists, slots, d, j)
    modifies v, v.disk, fv`cluster, fv`size, fv`mode, fv`attr, fv`atime, fv`mtime, fv`ctime, fv`flags, fv.cache
    ensures VolumeOk(v, lists') && SetResult(lists, lists', d, j, m, err) && (old(Exact(v)) ==> Exact(v))
    ensures err == OK ==> SetStep(v.g, old(Now(v)), Now(v), lists, d, j, slots, m, old(fv.cluster))
    ensures err != OK ==> WriteStep(v.g, old(Now(v)), Now(v), lists, d, j, old(fv.cluster), fv.cluster)
    ensures OnDir(v, d, slots') && |slots'| == |slots| && Attached(v, fv)
    ensures Flagged(old(MetaOf(fv)), m) && m.attr / 2 == old(fv.attr) / 2
    ensures MetaOf(fv) == if err == OK then m.(flags := m.flags - DIRTY) else m
    ensures FileOf(v, fv, lists', slots', d, j) <==> err != OK || fv.size < WORD
    ensures (err == EISDIR <==> a.size.Some? && fv.vtype == VDIR) && (err == OK || err == EISDIR || err == ENOSPC || err == EIO)
    ensures err == OK ==> Applied(a, old(MetaOf(fv)), old(fv.mode), m, fv.mode) && Resized(v.g, a.size, old(MetaOf(fv)), m)
    ensures a.size.None? || fv.vtype == VDIR ==> fv.cluster == old(fv.cluster) && Now(v) == old(Now(v)).(data := v.data)
    ensures a.size.Some? && fv.vtype != VDIR ==> Resulted(v.g, old(Now(v)), Now(v), old(fv.cluster), fv.cluster, a.size.value, err)
    ensures err != OK ==> NotApplied(old(MetaOf(fv)), old(fv.mode), m, fv.mode)
    ensures (err == ENOSPC && old(Exact(v)) && v.intact ==> FreeCount(v.fat) == 0) && (err == EIO ==> !v.intact)
    ensures err == OK ==> EntryHolds(a, m, lists'[d][j].main)
    ensures old(Fits(v, fv)) && (Fits(v, fv) ==> SameStart(old(FileBytes(v, fv)), FileBytes(v, fv)))
  {
    hide WellFormed, DeviceHolds, Consistent, Backed, Mul, Exact, OthersKept, CacheSound, Coherent, Private, SnapOk, OnDir, UpdatedSlot,
         Bit, IsDots, Laid, FileOf, Attached, Flagged, HeadMoved, KeptBut, Needed, SetStep, WriteStep, OwnHead, HasEntry, Fits,
         RoomAfter, LowSizeFits, Applied, Resized, NotApplied, SameStart, FileBytes, TimesHeld, EntryHolds,
         FreeCount, Resulted;
    FileMore(v, fv, lists, slots, d, j);
    ghost var s, h, e, m0 := Now(v), fv.cluster, lists[d][j], MetaOf(fv);
    FileFacts(v, fv, lists, slots, d, j);
    VolumeFacts(v, lists);
    SlotsFacts(v, lists, d, slots);
    err, m := Setattr(v, fv, a, slots, e.main);
    RoomMeans(v, fv, err);
    if err == OK {
      lists' := ListsAfterSet(lists, d, j, m);
      slots' := slots[e.start + e.count - 1 := UpdatedSlot(e.main, m)];
      SetattrDone(v, fv, s, lists, slots, d, j, m0, m, h);
      FlaggedIsCoherent(m0, m, e.main);
      HeadFits(v, fv);
      EntryIsHeld(a, m, e.main);
    } else {
      lists', slots' := lists, slots;
      SetattrFailed(v, fv, s, lists, slots, d, j, m0, m, h);
    }
  }

  lemma RoomMeans(v: Volume, fv: Vnode, err: Errno)
    requires RoomAfter(v, fv, err)
    ensures err != OK || fv.size <= Mul(WORD - 1, v.g.bytesPerCluster) ==> Fits(v, fv)
  {
    hide Fits, Mul;
  }

  lemma NotParent(chains: Forest, d: nat, h: nat, h': nat)
    requires d in chains && d != 0 && h != d && HeadMoved(chains, h, h')
    ensures h' != d
  {
  }

  lemma WordsFit(g: Geometry, size: nat)
    requires Consistent(g)
    ensures size < WORD ==> size <= Mul(WORD - 1, g.bytesPerCluster)
  {
    hide Pow2;
    MulMonotone(1, g.sectorsPerCluster, SECTOR);
    assert g.bytesPerCluster >= 512;
    MulSides(WORD - 1, g.bytesPerCluster);
  }

  lemma MulSides(a: nat, b: nat)
    requires b >= 2
    ensures Mul(a, b) >= 2 * a
  {
  }

  lemma StillFile(v: Volume, fv: Vnode, lists: Lists, slots: seq<Slot>, d: nat, j: nat, m: Meta)
    requires OwnHead(lists, d, j, fv.cluster) && d == ParentOf(v.g, fv.parentCluster) && Fits(v, fv)
    requires var e := lists[d][j];
      && !IsDots(e.name) && !IsDirEntry(e) && e.count > 0 && e.start + e.count <= |slots| && slots[e.start + e.count - 1] == e.main
      && fv.diroff == SLOT * e.start && fv.dirsz == e.count && OnDir(v, d, slots)
      && Coherent(m, e.main) && m.attr / 2 == Attr(e.main) / 2
    requires fv.cluster != d && IsRoot !in fv.flags && fv.parentCluster != BAD && MetaOf(fv) == m
    ensures FileOf(v, fv, lists, slots, d, j)
  {
    hide OnDir, Attached, Coherent, IsDots, Bit, Mul;
  }

  // ---- making ----

  lemma NewAttributeKind(isDir: bool, mode: nat)
    ensures Bit(NewAttribute(isDir, mode), DIRECTORY) <==> isDir
  {
  }

  lemma NewVnodeMeans(g: Geometry, fv: Vnode, main: Slot, slots: seq<Slot>, name: seq<byte>, isDir: bool, mode: nat, d: nat)
    requires NewVnode(g, fv, main, slots, name, isDir, mode, d)
    ensures (Bit(Attr(main), DIRECTORY) <==> isDir) && fv.cluster == FirstCluster(main) && (!isDir ==> fv.cluster == 0)
  {
    hide NewAttribute, FirstCluster, FileSize, FreeRun, Bit;
    NewAttributeKind(isDir, mode);
  }

  /** The slots of a new directory. */
  lemma NewInner(v: Volume, chains: Forest, cluster: nat, parent: nat, now: Timespec) returns (inner: seq<Slot>)
    requires NewDirectory(v, chains, cluster, parent, now)
    ensures cluster !in chains && cluster != 0 && Laid(Now(v), cluster, PerCluster(v.g), inner) && NewlyMade(v.g, cluster, inner)
  {
    hide NewDir, Laid, WellFormed, DeviceHolds, Consistent, StampOf;
    inner := NewDir(PerCluster(v.g), cluster, if parent == v.g.rootCluster then 0 else parent, StampOf(now));
  }

  /** The step of a creation, once `Making.MakeEntry` has answered OK. */
  lemma MadeInVolume(v: Volume, s: Snap, fv: Vnode, lists: Lists, d: nat, slots: seq<Slot>, slots': seq<Slot>, name: seq<byte>,
                     main: Slot, isDir: bool, mode: nat, now: Timespec)
    returns (inner: seq<Slot>, lists': Lists)
    requires SnapOk(s, v.g, lists) && |v.data| == |s.data| && OthersKept(s, Now(v), d) && d in lists
    requires Laid(s, d, PerCluster(v.g), slots) && OnDir(v, d, slots') && Created(slots, slots', name, main, d) && !IsDots(name)
    requires NewVnode(v.g, fv, main, slots, name, isDir, mode, d) && (isDir ==> NewDirectory(v, s.chains, fv.cluster, d, now))
    ensures MakeStep(v.g, s, Now(v), lists, d, slots, slots', name, main, inner)
    ensures lists' == ListsAfterMake(lists, d, slots', name, main, inner)
    ensures VolumeOk(v, lists') <==> Fresh(lists[d], name)
  {
    hide Laid, WellFormed, DeviceHolds, Consistent, Created, FirstCluster, Bit, Backed, SnapOk, NewDirectory, OthersKept, NewVnode,
         IsDots, NewlyMade, Fresh, ListsAfterMake;
    NewVnodeMeans(v.g, fv, main, slots, name, isDir, mode, d);
    VolumeBacked(v);
    inner := [];
    if isDir {
      inner := NewInner(v, s.chains, fv.cluster, d, now);
    }
    lists' := ListsAfterMake(lists, d, slots', name, main, inner);
    MakeKeepsVolume(v.g, s, Now(v), lists, d, slots, slots', name, main, inner);
    assert VolumeOk(v, lists') <==> SnapOk(Now(v), v.g, lists');
  }

  /** Where the new entry stands in the new listing. */
  lemma MadePlace(g: Geometry, s: Snap, s': Snap, lists: Lists, d: nat, slots: seq<Slot>, slots': seq<Slot>,
                  name: seq<byte>, main: Slot, inner: seq<Slot>) returns (j: nat)
    requires SnapOk(s, g, lists) && MakeStep(g, s, s', lists, d, slots, slots', name, main, inner) && Visible(name)
    ensures IsName(name)
    ensures var lists' := ListsAfterMake(lists, d, slots', name, main, inner);
      d in lists' && j < |lists'[d]| && lists'[d][j] == MadeEntry(slots, name, main) && !IsDots(lists'[d][j].name)
  {
    hide DirOk, ListOf, Laid, WellFormed, SnapOk, Visible, FirstCluster, Created, IsDots, NewlyMade, Shown, FreeRun, SlotCount,
         IsShort, AddedAt;
    MadeListing(g, s, s', lists, d, slots, slots', name, main, inner);
    DirectoryFacts(s, g, lists, d, slots);
    NotTheNewOne(s, lists, d, main, slots');
    j :| 0 <= j <= |lists[d]| && AddedAt(lists[d], ListOf(slots'), MadeEntry(slots, name, main), j);
    AddedIs(lists[d], ListOf(slots'), MadeEntry(slots, name, main), j);
  }

  /** The 8.3 slot of a new entry is the last of its slots. */
  lemma MadeMain(slots: seq<Slot>, slots': seq<Slot>, name: seq<byte>, main: Slot, d: nat)
    requires Created(slots, slots', name, main, d)
    ensures var start, n := FreeRun(slots, 0, 0, SlotCount(name)), SlotCount(name);
      n > 0 && start + n <= |slots'| && slots'[start + n - 1] == main
  {
    hide FreeRun, MainFor, LfnGroup, IsShort;
  }

  /** The vnode of a new file belongs to its entry exactly if the file can be written to. */
  lemma NewIsFile(v: Volume, fv: Vnode, lists: Lists, d: nat, j: nat, slots: seq<Slot>, slots': seq<Slot>, name: seq<byte>,
                  main: Slot, mode: nat)
    requires OnDir(v, d, slots') && Created(slots, slots', name, main, d) && NewVnode(v.g, fv, main, slots, name, false, mode, d)
    requires d in lists && j < |lists[d]| && lists[d][j] == MadeEntry(slots, name, main) && !IsDots(lists[d][j].name)
    ensures FileOf(v, fv, lists, slots', d, j) <==> mode / S_IWUSR % 2 == 1
  {
    hide FreeRun, Created, SlotCount, IsDots, Bit, FirstCluster, FileSize, Laid, WellFormed, DeviceHolds, Consistent, Mul, Shown,
         Coherent;
    MadeMain(slots, slots', name, main, d);
    CreatedCoherent(v.g, fv, main, slots, name, false, mode, d);
    NewVnodeMeans(v.g, fv, main, slots, name, false, mode, d);
    LaidChain(Now(v), d, PerCluster(v.g), slots');
    ChainEntryIn(v, d);
    ClusterNumbersFit(v.g);
    ZeroIsNoChain(v.fat, v.chains);
  }

  /** Nothing was made, and the directory has grown at most. */
  lemma NotMadeInVolume(v: Volume, s: Snap, lists: Lists, d: nat, slots: seq<Slot>, slots': seq<Slot>, count: nat, stale: seq<Slot>)
    requires SnapOk(s, v.g, lists) && |v.data| == |s.data| && OthersKept(s, Now(v), d) && d in lists
    requires Laid(s, d, PerCluster(v.g), slots) && OnDir(v, d, slots') && slots' == slots + Cleared(count) + stale
    ensures GrowStep(v.g, s, Now(v), lists, d, slots, count, stale)
    ensures VolumeOk(v, lists) <==> NoTrace(slots, count, stale)
  {
    hide Laid, WellFormed, DeviceHolds, Consistent, Backed, SnapOk, OthersKept, NoTrace;
    VolumeBacked(v);
    GrowKeepsVolume(v.g, s, Now(v), lists, d, slots, count, stale);
    assert VolumeOk(v, lists) <==> SnapOk(Now(v), v.g, lists);
  }

  lemma MadeMeans(slots: seq<Slot>, slots': seq<Slot>, name: seq<byte>, isDir: bool, cluster: nat, err: Errno, main: Slot, j: nat,
                  count: nat, stale: seq<Slot>)
    requires MakeAnswer(slots, slots', name, isDir, cluster, err, main, j, count, stale)
    ensures err == OK ==> Absent(ListOf(slots), name) && Created(slots, slots', name, main, cluster)
    ensures err != OK ==> slots' == slots + Cleared(count) + stale
    ensures err != OK && err != EIO ==> stale == [] && NoTrace(slots, count, stale)
    ensures err != OK && err != ENOSPC && err != EIO <==> !Absent(ListOf(slots), name)
    ensures !Absent(ListOf(slots), name) ==>
              j < |ListOf(slots)| && FoundAt(ListOf(slots), name, j) && err == Refusal(isDir, ListOf(slots)[j].main)
  {
    hide Absent, ListOf, Created, FoundAt, NoTrace;
    assert slots + Cleared(0) + [] == slots;
    NothingStale(slots, count);
    if !Absent(ListOf(slots), name) {
      FoundIn(ListOf(slots), name, j);
    }
  }

  lemma FoundIn(es: seq<Dirent>, name: seq<byte>, j: nat)
    requires FoundAt(es, name, j)
    ensures j < |es|
  {
  }

  /** What making answers: a name is refused exactly if it is taken. */
  ghost predicate MakeReply(es: seq<Dirent>, name: seq<byte>, isDir: bool, err: Errno, k: nat) {
    if Absent(es, name) then err == OK || err == ENOSPC || err == EIO
    else FoundAt(es, name, k) && k < |es| && err == Refusal(isDir, es[k].main)
  }

  /** `fat32_mkdir` or exclusive `fat32_create` of any name but the dot names.  The volume stays
      consistent exactly if the name under which the new entry is listed is new, and the vnode of a
      new file belongs to its entry exactly if the mode has write permission.  When nothing was made
      the volume stays consistent exactly if the directory has gained no slots that leave a trace. */
  method MakeInVolume(v: Volume, dir: Vnode, name: seq<byte>, isDir: bool, mode: nat, now: Timespec,
                      ghost lists: Lists, ghost slots: seq<Slot>)
    returns (err: Errno, fv: Vnode, ghost main: Slot, ghost slots': seq<Slot>, ghost inner: seq<Slot>, ghost lists': Lists, ghost j: nat,
             ghost count: nat, ghost stale: seq<Slot>)
    requires VolumeOk(v, lists) && Open(v, dir, slots) && dir.vtype == VDIR && dir.cluster in lists
    requires IsName(name) && !IsDots(name) && SLOT * (|slots| + SlotCount(name)) < WORD
    modifies v, v.disk, dir.cache, dir`mtime, dir`flags
    ensures fresh(fv) && fresh(fv.cache) && v.Valid() && Attached(v, dir) && (old(Exact(v)) ==> Exact(v))
    ensures |v.data| == |old(v.data)| && OthersKept(old(Now(v)), Now(v), dir.cluster)
    ensures OnDir(v, dir.cluster, slots')
    ensures exists k: nat :: MakeReply(lists[dir.cluster], name, isDir, err, k)
    ensures Listed(lists[dir.cluster], name) <==> err != OK && err != ENOSPC && err != EIO
    ensures ClustersAccounted(old(Now(v)), Now(v), dir.cluster, fv.cluster, err)
    ensures err == OK ==> Born(v.g, fv, main, isDir, mode, now) && dir.mtime == now && dir.flags == old(dir.flags) + {MtimeDirty, Modified}
    ensures err == OK && isDir ==> NewDirectory(v, old(v.chains), fv.cluster, dir.cluster, now)
    ensures err != OK ==> dir.mtime == old(dir.mtime) && dir.flags == old(dir.flags)
    ensures (err == ENOSPC && old(Exact(v)) && v.intact ==> FreeCount(v.fat) == 0) && (err == EIO ==> !v.intact)
    ensures err == OK ==>
              && MakeStep(v.g, old(Now(v)), Now(v), lists, dir.cluster, slots, slots', name, main, inner)
              && lists' == ListsAfterMake(lists, dir.cluster, slots', name, main, inner)
              && (VolumeOk(v, lists') <==> Fresh(lists[dir.cluster], name))
              && NewVnode(v.g, fv, main, slots, name, isDir, mode, dir.cluster)
              && |slots'| <= |slots| + SlotCount(name) + PerCluster(v.g)
    ensures err == OK && Visible(name) ==>
              && dir.cluster in lists' && j < |lists'[dir.cluster]| && lists'[dir.cluster][j] == MadeEntry(slots, name, main)
              && (!isDir ==> (FileOf(v, fv, lists', slots', dir.cluster, j) <==> mode / S_IWUSR % 2 == 1))
    ensures err != OK ==>
              && lists' == lists && slots' == slots + Cleared(count) + stale
              && GrowStep(v.g, old(Now(v)), Now(v), lists, dir.cluster, slots, count, stale)
              && LeftOver(old(Now(v)), PerCluster(v.g), count, stale)
              && (VolumeOk(v, lists) <==> NoTrace(slots, count, stale))
    ensures err != OK && err != EIO ==> stale == [] && VolumeOk(v, lists)
  {
    hide DirOk, ListOf, Unique, DotsPlain, Laid, WellFormed, DeviceHolds, Consistent, Created, Absent, FreeRun, SnapOk,
         NewDirectory, OthersKept, IsShort, NewVnode, FoundAt, OnDir, Attached, Exact, Refusal, IsDots, Visible, Shown, Fresh, MakeStep,
         GrowStep, ListsAfterMake, FileOf, Backed, SlotCount, VolumeOk, LeftOver, NoTrace, Born, Listed, Recased, FreeCount,
         ClustersAccounted;
    ghost var s, k, d := Now(v), 0, dir.cluster;
    lists', inner, j := lists, [], 0;
    VolumeFacts(v, lists);
    OpenMeans(v, dir, slots);
    SlotsFacts(v, lists, d, slots);
    err, fv, main, slots', k, count, stale := MakeEntry(v, dir, name, isDir, mode, now, slots);
    MadeMeans(slots, slots', name, isDir, d, err, main, k, count, stale);
    OnDirIsValid(v, d, slots');
    assert MakeReply(lists[d], name, isDir, err, k);
    if err == OK {
      inner, lists' := MadeInVolume(v, s, fv, lists, d, slots, slots', name, main, isDir, mode, now);
      if Visible(name) {
        j := MadePlace(v.g, s, Now(v), lists, d, slots, slots', name, main, inner);
        if !isDir {
          NewIsFile(v, fv, lists', d, j, slots, slots', name, main, mode);
        }
      }
    } else {
      NotMadeInVolume(v, s, lists, d, slots, slots', count, stale);
    }
  }

  // ---- removing ----

  /** The directory with first cluster `c`, if there is one, lists only the dot entries. */
  ghost predicate ListsOnlyDots(lists: Lists, c: nat) {
    c in lists ==> forall k :: 0 <= k < |lists[c]| ==> IsDots(lists[c][k].name)
  }

  /** What a removal answers: by the name, then by the entry that was found. */
  ghost predicate RemoveReply(lists: Lists, d: nat, name: seq<byte>, isDir: bool, cdir: Option<nat>, err: Errno, j: nat) {
    && d in lists
    && if IsDots(name) then err == EINVAL
       else if Absent(lists[d], Key(name)) then err == ENOENT
       else
         && FoundAt(lists[d], Key(name), j) && j < |lists[d]|
         && var main := lists[d][j].main;
            err == Verdict(main, isDir, cdir, ListsOnlyDots(lists, FirstCluster(main)))
  }

  /** A directory counts as empty exactly if it lists only the dot entries. */
  lemma EmptyIsDots(s: Snap, g: Geometry, lists: Lists, d: nat, j: nat)
    requires SnapOk(s, g, lists) && d in lists && j < |lists[d]| && !IsDots(lists[d][j].name) && IsDirEntry(lists[d][j])
    ensures var c := FirstCluster(lists[d][j].main);
      EmptyDir(s, c, PerCluster(g)) <==> ListsOnlyDots(lists, c)
  {
    hide DirOk, ListOf, Laid, WellFormed, Unique, DotsPlain, TreeOk, SizesFit, Backed, IsDots, EmptyFrom, FirstCluster, IsDirEntry;
    var c := FirstCluster(lists[d][j].main);
    RemovedHead(s.chains, lists, g.rootCluster, d, j);
    HeadsOf(s.chains, lists, g.rootCluster);
    if c in lists {
      assert Shows(s, PerCluster(g), c, lists[c]);
      var inner :| Laid(s, c, PerCluster(g), inner) && DirOk(inner) && ListOf(inner) == lists[c];
      DirectoryFacts(s, g, lists, c, inner);
      EmptyMeansDots(inner);
      EmptyOf(s, c, PerCluster(g), inner);
    }
  }

  /** In a consistent volume the entry of a name owns its chain. */
  lemma TreeIsRooted(s: Snap, g: Geometry, lists: Lists, d: nat, slots: seq<Slot>, name: seq<byte>)
    requires SnapOk(s, g, lists) && d in lists && Laid(s, d, PerCluster(g), slots) && !IsDots(name)
    ensures FoundIsRooted(s.chains, d, slots, name)
  {
    hide ListOf, DirOk, Laid, WellFormed, TreeOk, AllShow, SizesFit, Backed, FirstCluster, SameName, IsDots, Key, Unique, DotsPlain;
    DirectoryFacts(s, g, lists, d, slots);
    forall i: nat | FoundAt(ListOf(slots), Key(name), i)
      ensures Rooted(s.chains, d, ListOf(slots)[i].main)
    {
      FoundName(lists[d], name, i);
      RemovedHead(s.chains, lists, g.rootCluster, d, i);
    }
  }

  lemma AnswerMeans(s: Snap, p: nat, slots: seq<Slot>, name: seq<byte>, isDir: bool, cdir: Option<nat>, err: Errno, j: nat)
    requires RemoveAnswer(s, p, slots, name, isDir, cdir, err, j)
    ensures IsDots(name) ==> err == EINVAL
    ensures !IsDots(name) && Absent(ListOf(slots), Key(name)) ==> err == ENOENT
    ensures !IsDots(name) && !Absent(ListOf(slots), Key(name)) ==>
              && FoundAt(ListOf(slots), Key(name), j) && j < |ListOf(slots)|
              && err == Verdict(ListOf(slots)[j].main, isDir, cdir, EmptyDir(s, FirstCluster(ListOf(slots)[j].main), p))
  {
    hide ListOf, Verdict, EmptyDir, IsDots, Absent, Key;
  }

  /** The answer in terms of the listings. */
  lemma ReplyInVolume(s: Snap, g: Geometry, lists: Lists, d: nat, slots: seq<Slot>, name: seq<byte>, isDir: bool, cdir: Option<nat>,
                      err: Errno, j: nat)
    requires SnapOk(s, g, lists) && d in lists && lists[d] == ListOf(slots)
    requires RemoveAnswer(s, PerCluster(g), slots, name, isDir, cdir, err, j)
    ensures RemoveReply(lists, d, name, isDir, cdir, err, j)
    ensures err == OK ==> j < |lists[d]| && !IsDots(lists[d][j].name)
                          && (IsDirEntry(lists[d][j]) ==> EmptyDir(s, FirstCluster(lists[d][j].main), PerCluster(g)))
  {
    hide ListOf, EmptyDir, IsDots, Absent, Key, FoundAt, FirstCluster, SnapOk, ListsOnlyDots;
    AnswerMeans(s, PerCluster(g), slots, name, isDir, cdir, err, j);
    if !IsDots(name) && !Absent(lists[d], Key(name)) {
      FoundName(lists[d], name, j);
      if IsDirEntry(lists[d][j]) {
        EmptyIsDots(s, g, lists, d, j);
      }
    }
  }

  lemma ErasedLength(slots: seq<Slot>, slots': seq<Slot>, j: nat)
    requires RemovedAt(slots, slots', j)
    ensures |slots'| == |slots| && j < |ListOf(slots)|
  {
    hide ListOf;
  }

  /** The step of a removal, once `Removal.RemoveEntry` has answered OK. */
  lemma RemovedInVolume(v: Volume, s: Snap, lists: Lists, d: nat, slots: seq<Slot>, slots': seq<Slot>, j: nat)
    requires SnapOk(s, v.g, lists) && d in lists && j < |lists[d]| && !IsDots(lists[d][j].name)
    requires Laid(s, d, PerCluster(v.g), slots) && OnDir(v, d, slots') && RemovedAt(slots, slots', j)
    requires Removed(s, Now(v), d, FirstCluster(lists[d][j].main))
    requires IsDirEntry(lists[d][j]) ==> EmptyDir(s, FirstCluster(lists[d][j].main), PerCluster(v.g))
    ensures RemoveStep(v.g, s, Now(v), lists, d, j, slots, slots') && VolumeOk(v, ListsWithout(lists, d, j))
  {
    hide Laid, WellFormed, DeviceHolds, Consistent, Backed, SnapOk, FirstCluster, EmptyDir, IsDots, RemovedAt, IsDirEntry, FreeCount;
    VolumeBacked(v);
    RemoveKeepsVolume(v.g, s, Now(v), lists, d, j, slots, slots');
    VolumeIs(v, ListsWithout(lists, d, j));
  }

  /** `fat32_remove` or `fat32_rmdir` on a consistent volume: the answer follows the listings, and on
      success exactly the entry has gone, with its chain and, for a directory, its listing. */
  method RemoveInVolume(v: Volume, dir: Vnode, name: seq<byte>, isDir: bool, cdir: Option<nat>, now: Timespec,
                        ghost lists: Lists, ghost slots: seq<Slot>)
    returns (err: Errno, ghost j: nat, ghost slots': seq<Slot>, ghost lists': Lists)
    requires VolumeOk(v, lists) && Open(v, dir, slots) && dir.vtype == VDIR && dir.cluster in lists
    modifies v, v.disk, dir.cache, dir`mtime, dir`flags
    ensures VolumeOk(v, lists') && Open(v, dir, slots') && (old(Exact(v)) ==> Exact(v))
    ensures RemoveReply(lists, dir.cluster, name, isDir, cdir, err, j)
    ensures err == ENOENT <==> !IsDots(name) && !Listed(lists[dir.cluster], Key(name))
    ensures err == OK ==> j < |lists[dir.cluster]| && Recased(Key(name), lists[dir.cluster][j].name)
    ensures err == OK ==> dir.mtime == now && dir.flags == old(dir.flags) + {MtimeDirty, Modified}
    ensures err != OK ==> dir.mtime == old(dir.mtime) && dir.flags == old(dir.flags)
    ensures err == OK ==>
              && RemoveStep(v.g, old(Now(v)), Now(v), lists, dir.cluster, j, slots, slots')
              && lists' == ListsWithout(lists, dir.cluster, j)
    ensures err != OK ==> lists' == lists && slots' == slots && Now(v) == old(Now(v))
  {
    hide DirOk, ListOf, Unique, DotsPlain, Laid, WellFormed, DeviceHolds, Consistent, Absent, SnapOk, OnDir, Attached, Exact,
         FoundIsRooted, RemovedAt, Removed, FirstCluster, Verdict, EmptyDir, IsDots, Key, FoundAt, Backed, RemoveAnswer, RemoveReply,
         IsDirEntry, RemoveStep, Listed, Recased;
    ghost var s, d := Now(v), dir.cluster;
    lists' := lists;
    VolumeFacts(v, lists);
    OpenMeans(v, dir, slots);
    SlotsFacts(v, lists, d, slots);
    if !IsDots(name) {
      TreeIsRooted(s, v.g, lists, d, slots, name);
    }
    err, j, slots' := RemoveEntry(v, dir, name, isDir, cdir, now, slots);
    ReplyInVolume(s, v.g, lists, d, slots, name, isDir, cdir, err, j);
    OnDirIsValid(v, d, slots');
    if err == OK {
      ErasedLength(slots, slots', j);
      RemovedInVolume(v, s, lists, d, slots, slots', j);
      lists' := ListsWithout(lists, d, j);
    }
  }

  // ---- what comes back ----

  /** The names of a listing do not change when a file is synced, so a lookup finds the same entry. */
  lemma FoundAgain(lists: Lists, d: nat, j: nat, m: Meta, key: seq<byte>)
    requires d in lists && j < |lists[d]| && FoundAt(lists[d], key, j)
    ensures FoundAt(ListsAfterSet(lists, d, j, m)[d], key, j) && !Absent(ListsAfterSet(lists, d, j, m)[d], key)
    ensures forall k: nat :: FoundAt(ListsAfterSet(lists, d, j, m)[d], key, k) ==> k == j
  {
    hide SameName, UpdatedSlot;
    var es' := ListsAfterSet(lists, d, j, m)[d];
    assert forall i :: 0 <= i < |es'| ==> es'[i].name == lists[d][i].name;
  }

  lemma BytesKept(s: Snap, s': Snap, h: nat, d: nat, size: nat)
    requires OnlyDir(s, s', d) && Backed(s, size) && Backed(s', size) && h != d
    ensures ChainBytes(s', h) == ChainBytes(s, h)
  {
    if h in s.chains {
      OtherBytesKept(s, s', d, h, size);
    }
  }

  lemma SizeBack(size: nat)
    ensures size % WORD == size <==> size < WORD
  {
  }

  lemma DirStaysOpen(v: Volume, dir: Vnode, slots: seq<Slot>, slots': seq<Slot>)
    requires OnDir(v, dir.cluster, slots') && |slots'| == |slots| && SLOT * |slots| < WORD && Attached(v, dir)
    ensures Open(v, dir, slots')
  {
    hide OnDir, Attached;
  }

  /** Write-back is coherent: after the sync of a file, looking it up again and reading all of it
      gives its bytes exactly if there are fewer than 2^32 of them. */
  method SyncLookupRead(v: Volume, dir: Vnode, fv: Vnode, name: seq<byte>, now: Timespec,
                        ghost lists: Lists, ghost slots: seq<Slot>, ghost j: nat)
    returns (err: Errno, bytes: seq<byte>, ghost lists': Lists, ghost slots': seq<Slot>)
    requires VolumeOk(v, lists) && Open(v, dir, slots) && dir.vtype == VDIR && FileOf(v, fv, lists, slots, dir.cluster, j)
    requires !IsDots(name) && FoundAt(lists[dir.cluster], Key(name), j) && fv.vtype == VREG && dir != fv && dir.cache != fv.cache
    modifies v, v.disk, fv`flags, dir.cache
    ensures VolumeOk(v, lists') && Open(v, dir, slots') && (old(Exact(v)) ==> Exact(v))
    ensures err == OK && (bytes == old(FileBytes(v, fv)) <==> old(fv.size) < WORD)
  {
    hide WellFormed, DeviceHolds, Consistent, Backed, Mul, Exact, OthersKept, CacheSound, SnapOk, OnDir, UpdatedSlot, Bit, IsDots, Laid,
         FileOf, Attached, FoundAt, Key, FileBytes, SetStep, FirstCluster, FileSize, Absent, Content, OwnHead, Fits, VolumeOk, Coherent,
         Filled, ModeOfEntry, Listed, Recased;
    ghost var s, d, h, m := Now(v), dir.cluster, fv.cluster, MetaOf(fv);
    FileMore(v, fv, lists, slots, d, j);
    FileFacts(v, fv, lists, slots, d, j);
    VolumeFacts(v, lists);
    OpenMeans(v, dir, slots);
    BytesAre(v, fv);
    HeadFits(v, fv);
    ghost var content := FileBytes(v, fv);
    err, lists', slots' := SyncInVolume(v, fv, lists, slots, d, j);
    FoundAgain(lists, d, j, m, Key(name));
    SyncedSlot(lists[d][j].main, m);
    DirStaysOpen(v, dir, slots, slots');
    var got;
    ghost var k;
    err, got, k := LookupInVolume(v, dir, name, lists', slots');
    assert lists'[d][j].main == UpdatedSlot(lists[d][j].main, m);
    FileFacts(v, got, lists', slots', d, k);
    VolumeFacts(v, lists');
    OpenMeans(v, dir, slots');
    err, bytes := Read(v, got, 0, got.size, now);
    BytesAre(v, got);
    BytesKept(s, Now(v), h, d, v.g.bytesPerCluster);
    assert bytes == FileBytes(v, got);
    SizeBack(fv.size);
    VolumeIs(v, lists');
    DirStaysOn(v, dir, slots');
  }

  lemma DirStaysOn(v: Volume, dir: Vnode, slots: seq<Slot>)
    requires v.Valid() && WellFormed(v.fat, v.chains) && Laid(Now(v), dir.cluster, PerCluster(v.g), slots) && Attached(v, dir)
    requires v.g.bytesPerCluster == SLOT * PerCluster(v.g) && PerCluster(v.g) >= 16 && SLOT * |slots| < WORD
    ensures Open(v, dir, slots)
  {
    hide Laid, WellFormed, DeviceHolds, CacheSound;
  }

  /** What looking a file up gives back of the attributes that were set before, when `size` was its size: the size, if it has
      32 bits, the owner's write permission, the access time to the day, the time of the last write to two
      seconds, the time of creation to 10 ms. */
  ghost predicate GivesBack(a: Vattr, size: nat, got: Vnode)
    reads got`size, got`mode, got`atime, got`mtime, got`ctime
  {
    && (a.size.Some? && a.size.value < WORD ==> got.size == a.size.value)
    && (a.size.None? && size < WORD ==> got.size == size)
    && (a.mode.Some? ==> got.mode / 0x80 % 2 == a.mode.value / 0x80 % 2)
    && (a.atime.Some? && Holdable(a.atime.value) ==> CutToDay(got.atime, a.atime.value))
    && (a.mtime.Some? && Holdable(a.mtime.value) ==> CutToTwoSeconds(got.mtime, a.mtime.value))
    && (a.ctime.Some? && Holdable(a.ctime.value) ==> CutToTenMs(got.ctime, a.ctime.value))
  }

  lemma GivenBack(g: Geometry, a: Vattr, m0: Meta, mode0: nat, m: Meta, mode: nat, main: Slot, u: Slot, got: Vnode, start: nat,
                  count: nat, d: nat)
    requires Consistent(g) && Applied(a, m0, mode0, m, mode) && Resized(g, a.size, m0, m) && EntryHolds(a, m, u)
    requires m.attr / 2 == Attr(main) / 2 && !Bit(Attr(main), DIRECTORY)
    requires Filled(got, u, start, count, d)
    ensures GivesBack(a, m0.size, got)
  {
    hide Consistent, Mul, UnixToFat, FatToUnix, ModeOf, FirstCluster, FileSize, CutToDay, CutToTwoSeconds, CutToTenMs, AccessIs, WriteIs,
         CreationIs;
    FilledMode(got, u, start, count, d);
    HighBits(m.attr, Attr(main));
    if a.size.Some? {
      WordsFit(g, a.size.value);
    }
    TimesGivenBack(a, got, u, start, count, d);
  }

  lemma TimesGivenBack(a: Vattr, got: Vnode, u: Slot, start: nat, count: nat, d: nat)
    requires TimesHeld(a, u) && Filled(got, u, start, count, d)
    ensures a.atime.Some? && Holdable(a.atime.value) ==> CutToDay(got.atime, a.atime.value)
    ensures a.mtime.Some? && Holdable(a.mtime.value) ==> CutToTwoSeconds(got.mtime, a.mtime.value)
    ensures a.ctime.Some? && Holdable(a.ctime.value) ==> CutToTenMs(got.ctime, a.ctime.value)
  {
    hide Filled, AccessIs, WriteIs, CreationIs, CutToDay, CutToTwoSeconds, CutToTenMs;
    if a.atime.Some? && Holdable(a.atime.value) {
      TimesComeBack(got, u, start, count, d, a.atime.value);
    }
    if a.mtime.Some? && Holdable(a.mtime.value) {
      TimesComeBack(got, u, start, count, d, a.mtime.value);
    }
    if a.ctime.Some? && Holdable(a.ctime.value) {
      TimesComeBack(got, u, start, count, d, a.ctime.value);
    }
  }

  /** A directory other than the file's own chain is open as before once a file in it was synced. */
  lemma OpenAfterSet(v: Volume, dir: Vnode, s: Snap, lists: Lists, j: nat, slots: seq<Slot>, slots': seq<Slot>, m: Meta, h: nat)
    requires SetStep(v.g, s, Now(v), lists, dir.cluster, j, slots, m, h) && OnDir(v, dir.cluster, slots') && |slots'| == |slots|
    requires dir.cluster in s.chains && SLOT * |slots| < WORD && dir.cache.Length == CACHE_SIZE
    requires CacheSound(dir.cache[..], ChainOf(s.chains, dir.cluster))
    ensures Open(v, dir, slots') && ListsAfterSet(lists, dir.cluster, j, m).Keys == lists.Keys
  {
    hide OnDir, Laid, WellFormed, Backed, CacheSound, UpdatedSlot, Bit, Coherent, Private, Mul;
  }

  /** Setting attributes, then looking the file up: the lookup gives back what was asked for. */
  method SetattrLookup(v: Volume, dir: Vnode, fv: Vnode, name: seq<byte>, a: Vattr,
                       ghost lists: Lists, ghost slots: seq<Slot>, ghost j: nat)
    returns (err: Errno, got: Vnode, ghost lists': Lists, ghost slots': seq<Slot>)
    requires VolumeOk(v, lists) && Open(v, dir, slots) && dir.vtype == VDIR && FileOf(v, fv, lists, slots, dir.cluster, j)
    requires !IsDots(name) && FoundAt(lists[dir.cluster], Key(name), j) && dir != fv && dir.cache != fv.cache
    modifies v, v.disk, fv`cluster, fv`size, fv`mode, fv`attr, fv`atime, fv`mtime, fv`ctime, fv`flags, fv.cache, dir.cache
    ensures VolumeOk(v, lists') && (old(Exact(v)) ==> Exact(v))
    ensures err == EISDIR ==> a.size.Some? && fv.vtype == VDIR
    ensures err == OK || err == EISDIR || err == ENOSPC || err == EIO
    ensures err == OK ==> Open(v, dir, slots') && GivesBack(a, old(fv.size), got)
  {
    hide WellFormed, DeviceHolds, Consistent, Backed, Mul, Exact, CacheSound, SnapOk, OnDir, UpdatedSlot, Bit, IsDots, Laid, FileOf,
         Attached, FoundAt, Key, FileBytes, SetStep, FirstCluster, FileSize, Absent, Content, OwnHead, Fits, VolumeOk, Coherent, Applied,
         Resized, NotApplied, EntryHolds, GivesBack, Filled, SameStart, WriteStep, FreeCount, ModeOfEntry, Listed, Recased;
    ghost var s, d, h, m0, mode0 := Now(v), dir.cluster, fv.cluster, MetaOf(fv), fv.mode;
    got := fv;
    FileMore(v, fv, lists, slots, d, j);
    FileFacts(v, fv, lists, slots, d, j);
    VolumeFacts(v, lists);
    SlotsFacts(v, lists, d, slots);
    OpenMeans(v, dir, slots);
    AttachedSound(v, dir);
    ghost var m;
    err, m, lists', slots' := SetattrInVolume(v, fv, a, lists, slots, d, j);
    if err != OK {
      return;
    }
    FoundAgain(lists, d, j, m, Key(name));
    OpenAfterSet(v, dir, s, lists, j, slots, slots', m, h);
    ghost var mode := fv.mode;
    ghost var k;
    err, got, k := LookupInVolume(v, dir, name, lists', slots');
    VolumeFacts(v, lists');
    GivenBack(v.g, a, m0, mode0, m, mode, lists[d][j].main, lists'[d][j].main, got, lists'[d][j].start, lists'[d][j].count, d);
  }

  /** A name that is listed once is found by a lookup. */
  lemma ListedIsFound(es: seq<Dirent>, name: seq<byte>, j: nat)
    requires Unique(es) && IsName(name) && j < |es| && es[j].name == name
    ensures FoundAt(es, Key(name), j)
  {
    hide SameName;
    SameNameRefl(name);
    forall i | 0 <= i < j
      ensures !SameName(name, es[i].name)
    {
      SameNameSymmetric(name, es[i].name);
    }
  }

  lemma MadeFile(g: Geometry, fv: Vnode, lists: Lists, slots: seq<Slot>, d: nat, j: nat, name: seq<byte>, main: Slot, mode: nat)
    requires NewVnode(g, fv, main, slots, name, false, mode, d) && IsName(name) && Shown(name) == name
    requires d in lists && j < |lists[d]| && lists[d][j] == MadeEntry(slots, name, main)
    ensures fv.vtype == VREG && fv.size == 0 && fv.cluster == 0 && lists[d][j].name == name
  {
    hide FreeRun, SlotCount, FirstCluster, FileSize, NewAttribute;
  }

  /** The only entry that a name can mean is found under every casing of it. */
  lemma FoundRecased(es: seq<Dirent>, name: seq<byte>, other: seq<byte>, j: nat)
    requires Unique(es) && IsName(name) && j < |es| && es[j].name == name && Recased(name, other)
    ensures Key(other) == other && Listed(es, other) && (IsDots(other) <==> IsDots(name))
    ensures forall k: nat :: FoundAt(es, other, k) ==> k == j
  {
    hide SameName;
    SameNameExact(name, other);
    SameNameSymmetric(name, other);
    SameNameExact(other, es[j].name);
    assert Recased(other, es[j].name);
    NotDots(name, other);
    NotDots(other, name);
    forall k: nat | FoundAt(es, other, k)
      ensures k == j
    {
      FoundIsOnly(es, other, k, j);
    }
  }

  /** What looking a new entry up gives: a file or directory as asked for, with its permission to write, no
      bytes, and three times the time of its creation. */
  ghost predicate AsMade(got: Vnode, isDir: bool, mode: nat, cluster: nat, now: Timespec)
    reads got`cluster, got`vtype, got`size, got`mode, got`atime, got`mtime, got`ctime
  {
    && got.vtype == (if isDir then VDIR else VREG) && got.size == 0 && got.cluster == cluster
    && ModeSays(got.mode, isDir, isDir || mode / 0x80 % 2 == 1)
    && (Holdable(now) ==> CutToDay(got.atime, now) && CutToTwoSeconds(got.mtime, now) && CutToTenMs(got.ctime, now))
  }

  lemma MadeAgain(g: Geometry, fv: Vnode, got: Vnode, main: Slot, slots: seq<Slot>, name: seq<byte>, isDir: bool, mode: nat, d: nat,
                  now: Timespec, start: nat, count: nat)
    requires NewVnode(g, fv, main, slots, name, isDir, mode, d) && Born(g, fv, main, isDir, mode, now)
    requires Filled(got, main, start, count, d)
    ensures AsMade(got, isDir, mode, fv.cluster, now)
  {
    hide UnixToFat, FatToUnix, ModeOf, ModeSays, FirstCluster, FileSize, FreeRun, SlotCount, CutToDay, CutToTwoSeconds, CutToTenMs,
         AccessIs, WriteIs, CreationIs;
    FilledMode(got, main, start, count, d);
    if Holdable(now) {
      TimesComeBack(got, main, start, count, d, now);
    }
  }

  /** Making an entry, then looking it up under any casing of its name: it is found, as it was made. */
  method MakeLookup(v: Volume, dir: Vnode, name: seq<byte>, other: seq<byte>, isDir: bool, mode: nat, now: Timespec,
                    ghost lists: Lists, ghost slots: seq<Slot>)
    returns (err: Errno, fv: Vnode, got: Vnode)
    requires VolumeOk(v, lists) && Open(v, dir, slots) && dir.vtype == VDIR && dir.cluster in lists
    requires IsName(name) && RoundTrips(name) && !IsDots(name) && Recased(name, other)
    requires SLOT * (|slots| + SlotCount(name) + PerCluster(v.g)) < WORD
    modifies v, v.disk, dir.cache, dir`mtime, dir`flags
    ensures Listed(lists[dir.cluster], name) <==> err != OK && err != ENOSPC && err != EIO
    ensures err == OK ==> AsMade(got, isDir, mode, fv.cluster, now)
  {
    hide WellFormed, DeviceHolds, Consistent, Backed, Mul, Exact, OthersKept, CacheSound, SnapOk, OnDir, Bit, IsDots, Laid, IsShort,
         FileOf, Attached, FoundAt, Key, FirstCluster, FileSize, Absent, OwnHead, Fits, VolumeOk, MakeStep, Fresh, NewDirectory,
         Visible, Shown, SlotCount, FreeRun, ListsAfterMake, Unique, DotsPlain, DirOk, ListOf, RoundTrips, Refusal, FreeCount,
         NewVnode, Born, Filled, AsMade, Listed, Recased, ModeOfEntry;
    ghost var main, slots', inner, lists', j, count, stale;
    ghost var d := dir.cluster;
    FreshIsAbsent(lists[d], name);
    ListedExact(lists[d], name);
    ShownSame(name);
    err, fv, main, slots', inner, lists', j, count, stale := MakeInVolume(v, dir, name, isDir, mode, now, lists, slots);
    got := fv;
    if err != OK {
      return;
    }
    SlotsFacts(v, lists', d, slots');
    FoundRecased(lists'[d], name, other, j);
    ghost var k;
    err, got, k := LookupInVolume(v, dir, other, lists', slots');
    MadeAgain(v.g, fv, got, main, slots, name, isDir, mode, d, now, lists'[d][j].start, lists'[d][j].count);
  }

  lemma AttachedSound(v: Volume, dir: Vnode)
    requires Attached(v, dir)
    ensures dir.cache.Length == CACHE_SIZE && CacheSound(dir.cache[..], ChainOf(v.chains, dir.cluster))
  {
  }

  /** A write of everything from the start of an empty file. */
  lemma WholeWrite(g: Geometry, data: seq<byte>)
    requires Consistent(g)
    ensures Overwrite([], 0, data[..|data|]) == data && StaysInside(g, 0, |data|)
  {
    hide Consistent, Mul;
    SizePositive(g);
    MulMonotone(1, WORD, g.bytesPerCluster);
    MulSucc(0, g.bytesPerCluster);
  }

  lemma WriteKept(g: Geometry, s: Snap, s': Snap, lists: Lists, d: nat, j: nat, h: nat, h': nat)
    requires WriteStep(g, s, s', lists, d, j, h, h')
    ensures |s'.data| == |s.data| && OthersKept(s, s', h) && WellFormed(s'.fat, s'.chains)
  {
    hide WellFormed, Backed, OwnHead, HeadMoved;
  }

  lemma EmptyBytes(v: Volume, fv: Vnode)
    requires v.Valid() && WellFormed(v.fat, v.chains) && Fits(v, fv) && fv.size == 0
    ensures FileBytes(v, fv) == []
  {
    hide WellFormed, DeviceHolds, Consistent, Mul;
  }

  /** The whole way: make a file that can be written to, write to it without looking it up, sync it,
      look it up and read it.  What comes back is what was written, exactly if that is less than 4
      gigabytes. */
  method CreateWriteReadBack(v: Volume, dir: Vnode, name: seq<byte>, mode: nat, data: seq<byte>, now: Timespec,
                             ghost lists: Lists, ghost slots: seq<Slot>)
    returns (err: Errno, bytes: seq<byte>)
    requires VolumeOk(v, lists) && Open(v, dir, slots) && dir.vtype == VDIR && dir.cluster in lists
    requires IsName(name) && RoundTrips(name) && !IsDots(name) && Absent(lists[dir.cluster], name) && mode / S_IWUSR % 2 == 1
    requires SLOT * (|slots| + SlotCount(name) + PerCluster(v.g)) < WORD
    modifies v, v.disk, dir.cache, dir`mtime, dir`flags
    ensures err == OK || err == ENOSPC || err == EIO
    ensures err == OK ==> (bytes == data <==> |data| < WORD)
  {
    hide WellFormed, DeviceHolds, Consistent, Backed, Mul, Exact, OthersKept, CacheSound, SnapOk, OnDir, Bit, IsDots, Laid, IsShort,
         FileOf, Attached, FoundAt, Key, FileBytes, FirstCluster, FileSize, Absent, OwnHead, Fits, VolumeOk, MakeStep, WriteStep, Fresh,
         Visible, Shown, SlotCount, FreeRun, ListsAfterMake, Unique, DotsPlain, Overwrite, DirOk, ListOf, RoundTrips, Open, Refusal,
         WrittenAt, WriteNoted, Extended, Born, ClustersAccounted, Listed, NewDirectory, StaysInside, Landing;
    bytes := [];
    var fv;
    ghost var main, slots', inner, lists', j, count, stale;
    ghost var d := dir.cluster;
    FreshIsAbsent(lists[d], name);
    ShownSame(name);
    err, fv, main, slots', inner, lists', j, count, stale := MakeInVolume(v, dir, name, false, mode, now, lists, slots);
    if err != OK {
      return;
    }
    SlotsFacts(v, lists', d, slots');
    MadeFile(v.g, fv, lists', slots, d, j, name, main, mode);
    ListedIsFound(lists'[d], name, j);
    ghost var s := Now(v);
    VolumeFacts(v, lists');
    FileFacts(v, fv, lists', slots', d, j);
    EmptyBytes(v, fv);
    AttachedSound(v, dir);
    WholeWrite(v.g, data);
    var done;
    err, done := WriteInVolume(v, fv, 0, data, false, now, lists', slots', d, j);
    if err != OK {
      return;
    }
    WriteKept(v.g, s, Now(v), lists', d, j, 0, fv.cluster);
    VolumeFacts(v, lists');
    StaysOpen(v, dir, s, 0, slots');
    FileFacts(v, fv, lists', slots', d, j);
    WrittenSize(v, fv, data);
    ghost var lists2, slots2;
    err, bytes, lists2, slots2 := SyncLookupRead(v, dir, fv, name, now, lists', slots', j);
  }

  lemma WrittenSize(v: Volume, fv: Vnode, data: seq<byte>)
    requires v.Valid() && WellFormed(v.fat, v.chains) && Fits(v, fv) && FileBytes(v, fv) == data
    ensures fv.size == |data|
  {
    hide WellFormed, DeviceHolds, Consistent, Mul;
  }
}
