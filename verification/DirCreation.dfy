/** Making directories and entries in place: `fat32_init_dir` and `fat32_create_fdentry` (without
    the rename flags). */
module DirCreation {
  import opened Bytes
  import opened Layout
  import opened Volumes
  import opened Chains
  import opened Clusters
  import opened Contents
  import opened Vnodes
  import opened Files
  import opened Slots
  import opened SlotBytes
  import opened Names
  import opened Placing
  import opened Listings
  import opened DirectoryMap
  import opened Calendar
  import opened DirReading
  import opened DirWriting
  import opened DirGrowth

  function StampOf(t: Timespec): Stamp {
    var p := UnixToFat(t.sec, t.nsec);
    Stamp(p.date, p.time, p.tenths % 256)
  }

  method ComputeStamp(t: Timespec) returns (s: Stamp)
    ensures s == StampOf(t)
  {
    hide UnixToFat;
    var p := ComputeUnixToFat(t.sec, t.nsec);
    s := Stamp(p.date, p.time, p.tenths % 256);
  }

  /** All three times of a slot are those of `t`. */
  predicate Stamped(main: Slot, t: Timespec) {
    AccessIs(main, t) && WriteIs(main, t) && CreationIs(main, t)
  }

  /** A new 8.3 slot says at byte 11 whether it is a directory and whether it may be written, and carries
      the time of its creation three times. */
  predicate SaysNew(main: Slot, isDir: bool, writable: bool, now: Timespec) {
    main[11] == (if isDir then 16 else 0) + (if writable then 0 else 1) && Stamped(main, now)
  }

  lemma MainSlotSays(name: seq<byte>, attr: byte, now: Timespec, cluster: nat)
    requires |name| == 11
    ensures var s := MainSlot(name, attr, StampOf(now), cluster); s[11] == attr && Stamped(s, now)
  {
    hide MainSlot, UnixToFat, Rle16;
    MainSlotBytes(name, attr, StampOf(now), cluster);
  }

  // ---- frames ----

  /** A directory whose chain was not touched still has its slots. */
  lemma LaidKept(s: Snap, s': Snap, k: nat, h: nat, p: nat, slots: seq<Slot>)
    requires Laid(s, h, p, slots) && k != h && |s'.data| == |s.data| && OthersKept(s, s', k) && Backed(s', SLOT * p)
    ensures Laid(s', h, p, slots)
  {
    hide Mul, DirSlots, Backed;
    OtherSlotsKept(s, s', k, h, SLOT * p);
  }

  /** Changes to chain `h`, and to a chain `k` that is new since `s`. */
  lemma KeptThrough(s: Snap, s1: Snap, s2: Snap, h: nat, k: nat)
    requires |s.data| == |s1.data| == |s2.data| && OthersKept(s, s1, h) && OthersKept(s1, s2, k) && k !in s.chains
    ensures OthersKept(s, s2, h)
  {
  }

  // ---- a new directory ----

  /** The names of the two entries every directory starts with. */
  function DotName(): (n: seq<byte>)
    ensures |n| == 11
  {
    [DOT] + seq(10, _ => SPACE)
  }

  function DotDotName(): (n: seq<byte>)
    ensures |n| == 11
  {
    [DOT, DOT] + seq(9, _ => SPACE)
  }

  /** The slots that `fat32_init_dir` leaves in a cluster of `p` slots. */
  ghost function NewDir(p: nat, cluster: nat, parent: nat, t: Stamp): (slots: seq<Slot>)
    requires p >= 2
  {
    [MainSlot(DotName(), DIRECTORY, t, cluster), MainSlot(DotDotName(), DIRECTORY, t, parent)] + Cleared(p - 2)
  }

  /** A new directory is well formed and lists "." and "..", which name it and its parent. */
  lemma NewDirOk(p: nat, cluster: nat, parent: nat, t: Stamp)
    requires p >= 2
    ensures var slots := NewDir(p, cluster, parent, t);
      && DirOk(slots)
      && ListOf(slots) == [Dirent([DOT], 0, 1, slots[0]), Dirent([DOT, DOT], 1, 1, slots[1])]
      && Unique(ListOf(slots))
      && (cluster < WORD ==> FirstCluster(slots[0]) == cluster) && (parent < WORD ==> FirstCluster(slots[1]) == parent)
  {
    hide MainSlot, ListOf, ShortText, Checksum, Determined;
    var slots := NewDir(p, cluster, parent, t);
    var a, b := slots[0], slots[1];
    DotItems(a, [DOT]);
    DotItems(b, [DOT, DOT]);
    var items, tail := [Live([], a), Live([], b)], Cleared(p - 2);
    assert items[1..] == [Live([], b)] && items[1..][1..] == [];
    assert Flat(items[1..][1..]) == [];
    assert Flat(items[1..]) == [b] + [];
    assert Flat(items) == [a] + [b];
    assert IsDir(slots, items, tail);
    ListOfDir(slots, items, tail);
    assert Entries(items[1..][1..], 2) == [];
    assert Entries(items[1..], 1) == [Dirent([DOT, DOT], 1, 1, b)];
    assert Entries(items, 0) == [Dirent([DOT], 0, 1, a)] + Entries(items[1..], 1);
  }

  /** Both dot entries are directories and carry the time of creation. */
  lemma NewDirSays(p: nat, cluster: nat, parent: nat, now: Timespec)
    requires p >= 2
    ensures DotsSay(NewDir(p, cluster, parent, StampOf(now)), now)
  {
    hide MainSlot, Stamped, StampOf;
    MainSlotSays(DotName(), DIRECTORY, now, cluster);
    MainSlotSays(DotDotName(), DIRECTORY, now, parent);
  }

  ghost predicate DotsSay(slots: seq<Slot>, now: Timespec) {
    |slots| >= 2 && SaysNew(slots[0], true, true, now) && SaysNew(slots[1], true, true, now)
  }

  lemma DotItems(main: Slot, name: seq<byte>)
    requires name == [DOT] || name == [DOT, DOT]
    requires ShortName(main) == (if name == [DOT] then DotName() else DotDotName())
    requires Attr(main) == DIRECTORY && FileSize(main) == 0
    ensures ItemOk(Live([], main)) && GroupText([], main, Zeros(256)) == name
  {
    hide ShortText, Checksum, FileSize;
    assert main[0] == ShortName(main)[0] == DOT;
    DotText(main);
    forall buf: NameBuffer | buf[0] == 0
      ensures GroupText([], main, buf) == name
    {
      var t := ShortText(ShortName(main));
      assert Splice(buf, 0, t + [0])[..|t|] == t;
    }
    ZeroBuffer();
  }

  lemma DotText(main: Slot)
    ensures ShortName(main) == DotName() ==> ShortText(ShortName(main)) == [DOT]
    ensures ShortName(main) == DotDotName() ==> ShortText(ShortName(main)) == [DOT, DOT]
  {
    var n := ShortName(main);
    if n == DotName() {
      BeforeSpaceIs(n[..8], 1);
    } else if n == DotDotName() {
      BeforeSpaceIs(n[..8], 2);
    }
  }

  /** The slots of a cleared cluster. */
  lemma ClearedSlots(slots: seq<Slot>, p: nat)
    requires |slots| == p
    ensures Rewritten(slots, Cleared(p), 0, Zeros(SLOT * p))
  {
  }

  /** `fat32_init_dir`. */
  method InitDir(v: Volume, cluster: nat, parent: nat, now: Timespec, ghost slots: seq<Slot>) returns (err: Errno)
    requires OnDir(v, cluster, slots) && v.chains[cluster] == [cluster]
    modifies v, v.disk
    ensures err == OK && OnlyDir(old(Now(v)), Now(v), cluster) && (old(Exact(v)) ==> Exact(v))
    ensures OnDir(v, cluster, NewDir(PerCluster(v.g), cluster, if parent == v.g.rootCluster then 0 else parent, StampOf(now)))
    ensures DotsSay(NewDir(PerCluster(v.g), cluster, if parent == v.g.rootCluster then 0 else parent, StampOf(now)), now)
  {
    hide DeviceHolds, Consistent, WellFormed, Mul, Laid, Exact, OthersKept, MainSlot, Zeros, StampOf, DotsSay;
    ghost var s, p := Now(v), PerCluster(v.g);
    LaidChain(s, cluster, p, slots);
    ChainEntryIn(v, cluster);
    v.ClearCluster(cluster);
    MulSucc(0, p);
    ClearedSlots(slots, p);
    ghost var s1 := Now(v);
    LaidRewritten(s, s1, cluster, 0, p, Zeros(SLOT * p), slots, Cleared(p));
    var t := ComputeStamp(now);
    var dot := MainSlot(DotName(), DIRECTORY, t, cluster);
    err := WriteFdentry(v, cluster, 0, dot, Cleared(p));
    ghost var s2 := Now(v);
    OthersKeptTrans(s, s1, s2, cluster);
    var up := if parent == v.g.rootCluster then 0 else parent;
    var dotdot := MainSlot(DotDotName(), DIRECTORY, t, up);
    err := WriteFdentry(v, cluster, 32, dotdot, Cleared(p)[0 := dot]);
    OthersKeptTrans(s, s2, Now(v), cluster);
    assert Cleared(p)[0 := dot][1 := dotdot] == NewDir(p, cluster, up, t);
    NewDirSays(p, cluster, up, now);
  }

  lemma ChainEntryIn(v: Volume, c: nat)
    requires v.Valid() && WellFormed(v.fat, v.chains) && c in v.chains
    ensures InRange(v.g, c)
  {
    hide DeviceHolds, Consistent, WellFormed;
    ForestChain(v.fat, v.chains, c);
    assert In(v.fat, v.chains[c][0]);
  }

  // ---- a new entry ----

  /** Directory `d` may have grown and a chain of the one cluster `c` is new, unless that is 0; there is no other
      new chain, and these clusters are the ones that are no longer free. */
  ghost predicate NothingLost(s: Snap, s': Snap, d: nat, c: nat) {
    && s'.chains.Keys == s.chains.Keys + (if c == 0 then {} else {c})
    && FreeCount(s'.fat) + |ChainOf(s'.chains, d)| + (if c == 0 then 0 else 1) == FreeCount(s.fat) + |ChainOf(s.chains, d)|
  }

  /** What has become of the clusters once `fat32_create_fdentry` has returned; after EIO a cluster may be marked
      that belongs to no entry. */
  ghost predicate ClustersAccounted(s: Snap, s': Snap, d: nat, c: nat, err: Errno) {
    match err
    case OK => NothingLost(s, s', d, c)
    case EIO => exists x :: NothingLost(s, s', d, x)
    case _ => NothingLost(s, s', d, 0)
  }

  lemma NothingNew(s: Snap, s': Snap, d: nat)
    requires s' == s.(data := s'.data)
    ensures NothingLost(s, s', d, 0)
  {
    hide FreeCount;
  }

  lemma GrownLoses(s: Snap, s': Snap, h: nat, p: nat, slots: seq<Slot>, n: nat, err: Errno, offset: nat, ext: seq<nat>)
    requires Allocated(s, s', h, p, slots, n, err, offset, ext)
    ensures NothingLost(s, s', h, 0)
  {
    hide FreeCount, DataKept, Zeroed, Laid, FreeRun, Mul, OthersKept, Appended, Drawn, InOrder, HalfCleared;
  }

  lemma NewLoses(s: Snap, s1: Snap, s': Snap, d: nat, c: nat)
    requires NothingLost(s, s1, d, 0) && NothingLost(s1, s', d, c)
    ensures NothingLost(s, s', d, c)
  {
    hide FreeCount;
  }

  lemma BornLoses(s: Snap, s': Snap, d: nat, c: nat)
    requires In(s.fat, c) && s.fat[c] == FREE && c !in s.chains && d in s.chains && CLUSTER_MIN <= c
    requires s'.fat == Linked(s.fat, 0, c) && s'.chains == s.chains[c := [c]]
    ensures NothingLost(s, s', d, c)
  {
    hide FreeCount;
    LinkCount(s.fat, 0, c);
  }

  lemma SameLoses(s: Snap, s1: Snap, s': Snap, d: nat, c: nat)
    requires NothingLost(s, s1, d, c) && s' == s1.(data := s'.data)
    ensures NothingLost(s, s', d, c)
  {
    hide FreeCount;
  }

  lemma NewAccounted(s: Snap, s1: Snap, s': Snap, d: nat, c: nat, err: Errno)
    requires NothingLost(s, s1, d, 0) && ClustersAccounted(s1, s', d, c, err)
    ensures ClustersAccounted(s, s', d, c, err)
  {
    hide NothingLost;
    match err {
      case OK => NewLoses(s, s1, s', d, c);
      case EIO =>
        var x :| NothingLost(s1, s', d, x);
        NewLoses(s, s1, s', d, x);
      case _ => NewLoses(s, s1, s', d, 0);
    }
  }

  /** A cluster for a new directory, with its two dot entries. */
  method MakeDirCluster(v: Volume, ghost h: nat, parent: nat, now: Timespec, ghost slots: seq<Slot>)
    returns (err: Errno, c: nat)
    requires OnDir(v, h, slots)
    modifies v, v.disk
    ensures OnDir(v, h, slots) && (old(Exact(v)) ==> Exact(v)) && (v.intact ==> old(v.intact))
    ensures |v.data| == |old(v.data)| && OthersKept(old(Now(v)), Now(v), 0)
    ensures err == OK || err == ENOSPC || err == EIO
    ensures err == OK ==> c !in old(v.chains) && CLUSTER_MIN <= c < WORD && v.intact == old(v.intact)
    ensures err == OK ==> v.chains == old(v.chains)[c := [c]]
    ensures err == OK ==>
              && OnDir(v, c, NewDir(PerCluster(v.g), c, if parent == v.g.rootCluster then 0 else parent, StampOf(now)))
              && DotsSay(NewDir(PerCluster(v.g), c, if parent == v.g.rootCluster then 0 else parent, StampOf(now)), now)
    ensures err == ENOSPC ==> Now(v) == old(Now(v)) && (old(Exact(v)) && v.intact ==> FreeCount(v.fat) == 0)
    ensures err == EIO ==> !v.intact
    ensures ClustersAccounted(old(Now(v)), Now(v), h, c, err)
  {
    hide DeviceHolds, Consistent, WellFormed, Mul, Laid, Exact, OthersKept, StampOf, FreeCount, NewDir, Backed, DotsSay, NothingLost;
    ghost var s, p := Now(v), PerCluster(v.g);
    ghost var took;
    LaidChain(s, h, p, slots);
    ZeroIsNoChain(v.fat, v.chains);
    OthersKeptNow(s, 0);
    NoneFree(v, s.fat);
    NothingNew(s, s, h);
    err, c, took := NextCluster(v, 0, true, true);
    ghost var s1 := Now(v);
    if err == ENOSPC {
      return;
    }
    FreeIsUnowned(s.fat, s.chains, took);
    NewChainKeeps(s, s1, took, h);
    BornLoses(s, s1, h, took);
    NowBacked(v);
    LaidKept(s, s1, took, h, p, slots);
    if err != OK {
      return;
    }
    ghost var fresh' := DirSlotsNow(s1, c, p);
    err := InitDir(v, c, parent, now, fresh');
    NowBacked(v);
    KeptThrough(s, s1, Now(v), 0, c);
    SameLoses(s, s1, Now(v), h, c);
    LaidKept(s1, Now(v), c, h, p, slots);
    ClusterNumbersFit(v.g);
  }

  lemma HeadIsOwned(fat: seq<nat>, chains: Forest, c: nat)
    requires WellFormed(fat, chains)
    ensures c in chains ==> IsOwned(chains, c)
  {
    hide WellFormed;
    if c in chains {
      ForestChain(fat, chains, c);
      assert c in chains[c];
    }
  }

  lemma NewChainKeeps(s: Snap, s1: Snap, c: nat, h: nat)
    requires WellFormed(s.fat, s.chains) && In(s.fat, c) && s.fat[c] == FREE && !IsOwned(s.chains, c) && h in s.chains
    requires s1.chains == s.chains[c := [c]] && |s1.data| == |s.data|
    requires forall x: nat :: x < |s.data| && x != c ==> s1.data[x] == s.data[x]
    ensures c !in s.chains && OthersKept(s, s1, 0) && OthersKept(s, s1, c) && c != h && CLUSTER_MIN <= c
  {
    hide WellFormed;
    HeadIsOwned(s.fat, s.chains, c);
    BirthKeepsOthers(s, s1, c);
  }

  function NewAttribute(isDir: bool, mode: nat): byte {
    (if isDir then DIRECTORY else 0) + (if mode / S_IWUSR % 2 == 1 then 0 else READ_ONLY)
  }

  /** The 8.3 slot of a new entry. */
  method PrepareMain(name: seq<byte>, dirCluster: nat, offset: nat, isDir: bool, mode: nat, start: nat, now: Timespec)
    returns (main: Slot)
    requires IsName(name)
    ensures main == MainSlot(DiskName(name, dirCluster, offset), NewAttribute(isDir, mode), StampOf(now), start)
    ensures MainFor(main, name, dirCluster, offset) && SaysNew(main, isDir, mode / 0x80 % 2 == 1, now)
  {
    hide IsShort, ShortPadded, PlaceName, MainSlot, Stamped, StampOf;
    var short := NameIsShort(name);
    var diskName;
    if short {
      diskName := FormatShort(name);
    } else {
      diskName := GenerateShortName(dirCluster, offset);
    }
    var t := ComputeStamp(now);
    main := MainSlot(diskName, NewAttribute(isDir, mode), t, start);
    MainSlotSays(diskName, NewAttribute(isDir, mode), now, start);
  }

  /** The mode of the vnode of a new entry: the one asked for, or 0755 for a directory and 0644 for a file
      if that is 0. */
  ghost predicate ModeGiven(g: Geometry, fv: Vnode, isDir: bool, mode: nat)
    reads fv`cluster, fv`mode
  {
    fv.mode == if isDir && (mode == 0 || fv.cluster == g.rootCluster) then 0x41ED else if mode == 0 then 0x81A4 else mode
  }

  /** The part of `fat32_make_vnode` that concerns the in-memory file. */
  method MakeVnode(g: Geometry, fv: Vnode, cluster: nat, vtype: Vtype, parentCluster: nat)
    modifies fv`cluster, fv`vtype, fv`parentCluster, fv`flags, fv`mode
    ensures fv.cluster == cluster && fv.vtype == vtype && fv.parentCluster == parentCluster
    ensures fv.flags == if cluster == g.rootCluster && vtype == VDIR then old(fv.flags) + {IsRoot} else {}
    ensures ModeGiven(g, fv, vtype == VDIR, old(fv.mode))
  {
    fv.cluster, fv.vtype, fv.parentCluster := cluster, vtype, parentCluster;
    if cluster == g.rootCluster && vtype == VDIR {
      fv.flags := fv.flags + {IsRoot};
      fv.mode := S_IFDIR + 0x1ED;
    } else {
      fv.flags := {};
      if fv.mode == 0 {
        fv.mode := if vtype == VDIR then S_IFDIR + 0x1ED else S_IFREG + 0x1A4;
      }
    }
  }

  /** Writes the slots of an entry into room that `fat32_alloc_fdentry` has found. */
  method WriteEntrySlots(v: Volume, dirCluster: nat, offset: nat, name: seq<byte>, main: Slot,
                         ghost slots: seq<Slot>, ghost grown: seq<Slot>)
    returns (err: Errno)
    requires OnDir(v, dirCluster, grown) && IsName(name) && offset % SLOT == 0
    requires offset / SLOT + SlotCount(name) <= |grown| && |slots| <= |grown| && grown == slots + Cleared(|grown| - |slots|)
    modifies v, v.disk
    ensures err == OK && OnlyDir(old(Now(v)), Now(v), dirCluster) && (old(Exact(v)) ==> Exact(v))
    ensures var g := EntryLfn(name, main) + [main];
      OnDir(v, dirCluster, Overlay(grown, offset / SLOT, g)) && Placed(slots, Overlay(grown, offset / SLOT, g), offset / SLOT, g)
  {
    hide DeviceHolds, Consistent, WellFormed, Mul, Laid, Exact, OthersKept, IsShort, LfnGroup, Overlay, OnDir;
    var short := NameIsShort(name);
    ghost var start, g := offset / SLOT, EntryLfn(name, main) + [main];
    if short {
      err := WriteFdentry(v, dirCluster, offset, main, grown);
      OverlayOne(grown, start, main);
      assert g == [main];
    } else {
      err := WriteLfnFdentry(v, dirCluster, offset, main, name, grown);
    }
    OverlayPlaced(slots, grown, start, g);
  }

  lemma OverlayOne(slots: seq<Slot>, start: nat, main: Slot)
    requires start < |slots|
    ensures slots[start := main] == Overlay(slots, start, [main])
  {
  }

  lemma OverlayPlaced(slots: seq<Slot>, grown: seq<Slot>, start: nat, g: seq<Slot>)
    requires start + |g| <= |grown| && |slots| <= |grown| && grown == slots + Cleared(|grown| - |slots|)
    ensures Placed(slots, Overlay(grown, start, g), start, g)
  {
    var r := Overlay(grown, start, g);
    forall k | 0 <= k < |r|
      ensures r[k] == if start <= k < start + |g| then g[k - start] else if k < |slots| then slots[k] else Zeros(32)
    {
      assert k >= |slots| ==> grown[k] == Cleared(|grown| - |slots|)[k - |slots|] == Zeros(32);
    }
  }

  /** What the 8.3 slot of a new entry says. */
  ghost predicate NewEntry(fv: Vnode, main: Slot, name: seq<byte>, dirCluster: nat, offset: nat, isDir: bool, mode: nat, now: Timespec)
    reads fv`cluster, fv`parentCluster, fv`vtype
  {
    && IsName(name) && MainFor(main, name, dirCluster, offset)
    && main == MainSlot(DiskName(name, dirCluster, offset), NewAttribute(isDir, mode), StampOf(now), fv.cluster)
    && SaysNew(main, isDir, mode / 0x80 % 2 == 1, now)
    && fv.parentCluster == dirCluster && fv.vtype == (if isDir then VDIR else VREG)
    && (!isDir ==> fv.cluster == 0)
  }

  /** The cluster of a new directory is its own and holds the two dot entries. */
  ghost predicate NewDirectory(v: Volume, chains: Forest, cluster: nat, parent: nat, now: Timespec)
    reads v, v.disk
  {
    && cluster !in chains && CLUSTER_MIN <= cluster < WORD && PerCluster(v.g) >= 16
    && OnDir(v, cluster, NewDir(PerCluster(v.g), cluster, if parent == v.g.rootCluster then 0 else parent, StampOf(now)))
    && DotsSay(NewDir(PerCluster(v.g), cluster, if parent == v.g.rootCluster then 0 else parent, StampOf(now)), now)
  }

  lemma ChainStays(s: Snap, s': Snap, k: nat, h: nat)
    requires |s.data| == |s'.data| && OthersKept(s, s', k) && h != k && h in s.chains
    ensures h in s'.chains && ChainOf(s'.chains, h) == ChainOf(s.chains, h)
  {
  }

  lemma NewDirectoryStays(s: Snap, s': Snap, h: nat, c: nat, p: nat, slots: seq<Slot>)
    requires Laid(s, c, p, slots) && OnlyDir(s, s', h) && c != h && Backed(s', SLOT * p)
    ensures Laid(s', c, p, slots)
  {
    hide Laid, Backed, OthersKept;
    LaidKept(s, s', h, c, p, slots);
  }

  /** `fat32_create_fdentry` once room for the entry is found. */
  method FillEntry(v: Volume, dirCluster: nat, fv: Vnode, name: seq<byte>, isDir: bool, offset: nat, now: Timespec,
                   ghost slots: seq<Slot>, ghost grown: seq<Slot>)
    returns (err: Errno, ghost main: Slot, ghost slots': seq<Slot>)
    requires OnDir(v, dirCluster, grown) && IsName(name) && offset % SLOT == 0
    requires offset / SLOT + SlotCount(name) <= |grown| && |slots| <= |grown| && grown == slots + Cleared(|grown| - |slots|)
    modifies v, v.disk, fv`cluster, fv`vtype, fv`parentCluster, fv`flags, fv`mode
    ensures OnDir(v, dirCluster, slots') && (old(Exact(v)) ==> Exact(v)) && (v.intact ==> old(v.intact))
    ensures |v.data| == |old(v.data)| && OthersKept(old(Now(v)), Now(v), dirCluster)
    ensures dirCluster in v.chains && ChainOf(v.chains, dirCluster) == ChainOf(old(v.chains), dirCluster)
    ensures err == OK || err == ENOSPC || err == EIO
    ensures err == OK ==> NewEntry(fv, main, name, dirCluster, offset, isDir, old(fv.mode), now) && v.intact == old(v.intact)
    ensures err == OK ==> fv.flags == if isDir && fv.cluster == v.g.rootCluster then old(fv.flags) + {IsRoot} else {}
    ensures err == OK ==> ModeGiven(v.g, fv, isDir, old(fv.mode))
    ensures err == OK ==> Placed(slots, slots', offset / SLOT, EntryLfn(name, main) + [main])
    ensures err == OK && isDir ==> NewDirectory(v, old(v.chains), fv.cluster, dirCluster, now)
    ensures err != OK ==> slots' == grown
    ensures |slots'| == |grown|
    ensures ClustersAccounted(old(Now(v)), Now(v), dirCluster, fv.cluster, err)
    ensures err == ENOSPC && old(Exact(v)) && v.intact ==> FreeCount(v.fat) == 0
    ensures err == EIO ==> !v.intact
  {
    hide DeviceHolds, Consistent, WellFormed, Mul, Laid, Exact, OthersKept, StampOf, FreeCount, NewDir, Overlay,
         MainFor, MainSlot, DiskName, Placed, IsShort, NewAttribute, EntryLfn, Backed, DotsSay, SaysNew, NothingLost;
    ghost var s, h, p := Now(v), dirCluster, PerCluster(v.g);
    main, slots' := Zeros(32), grown;
    var start := 0;
    OthersKeptNow(s, h);
    OthersKeptNow(s, 0);
    ZeroIsNoChain(v.fat, v.chains);
    LaidChain(s, h, p, grown);
    NothingNew(s, s, h);
    if isDir {
      err, start := MakeDirCluster(v, h, dirCluster, now, grown);
      KeptThrough(s, s, Now(v), h, 0);
      ChainStays(s, Now(v), 0, h);
      if err != OK {
        return;
      }
    }
    ghost var s2 := Now(v);
    ghost var made := NewDir(p, start, if dirCluster == v.g.rootCluster then 0 else dirCluster, StampOf(now));
    var main' := PrepareMain(name, dirCluster, offset, isDir, fv.mode, start, now);
    main := main';
    err := WriteEntrySlots(v, dirCluster, offset, name, main', slots, grown);
    slots' := Overlay(grown, offset / SLOT, EntryLfn(name, main) + [main]);
    OthersKeptTrans(s, s2, Now(v), h);
    SameLoses(s, s2, Now(v), h, start);
    if isDir {
      NowBacked(v);
      NewDirectoryStays(s2, Now(v), h, start, p, made);
    }
    MakeVnode(v.g, fv, start, if isDir then VDIR else VREG, dirCluster);
  }

  lemma AllocatedMeans(s: Snap, s': Snap, h: nat, p: nat, slots: seq<Slot>, n: nat, err: Errno, offset: nat, ext: seq<nat>)
    requires Allocated(s, s', h, p, slots, n, err, offset, ext)
    ensures err == OK || err == ENOSPC || err == EIO
    ensures err == EIO ==> !s'.intact
    ensures err != EIO ==> s'.intact == s.intact
    ensures forall c :: c in s.chains ==> c in s'.chains
  {
    hide FreeCount, DataKept, Zeroed, Laid, FreeRun, Mul, Drawn, InOrder, Appended, HalfCleared;
  }

  /** What the directory has gained after an error, in slots. */
  lemma AllocationFailed(s: Snap, s': Snap, h: nat, p: nat, slots: seq<Slot>, n: nat, err: Errno, offset: nat, ext: seq<nat>)
    returns (count: nat, stale: seq<Slot>)
    requires Allocated(s, s', h, p, slots, n, err, offset, ext) && err != OK
    ensures LeftOver(s, p, count, stale) && Laid(s', h, p, slots + Cleared(count) + stale) && (err == ENOSPC ==> stale == [])
  {
    hide FreeCount, DataKept, Zeroed, Laid, FreeRun, Mul, GrownBy, OthersKept, InOrder;
    if err == EIO {
      count, stale := Mul(|ext| - 1, p), ToSlots(s.data[Last(ext)]);
    } else {
      count, stale := Mul(|ext|, p), [];
      assert slots + Cleared(count) + [] == slots + Cleared(count);
    }
  }

  /** The directory has grown by less than a cluster more than the entry needs. */
  lemma GrowthBound(s: Snap, s': Snap, h: nat, p: nat, slots: seq<Slot>, n: nat, offset: nat, ext: seq<nat>)
    requires Allocated(s, s', h, p, slots, n, OK, offset, ext)
    ensures Mul(|ext|, p) < n + p || ext == []
    ensures ext == [] ==> Mul(|ext|, p) == 0
  {
    hide FreeCount, DataKept, Zeroed, Laid, Mul, GrownBy, OthersKept, InOrder;
    if ext != [] {
      MulSucc(|ext| - 1, p);
    } else {
      MulSucc(0, p);
    }
  }

  lemma CreatedHere(slots: seq<Slot>, slots': seq<Slot>, name: seq<byte>, main: Slot, cluster: nat, offset: nat)
    requires IsName(name) && offset == SLOT * FreeRun(slots, 0, 0, SlotCount(name)) && MainFor(main, name, cluster, offset)
    requires Placed(slots, slots', offset / SLOT, EntryLfn(name, main) + [main])
    ensures Created(slots, slots', name, main, cluster)
  {
    hide FreeRun, MainFor, Placed, EntryLfn;
  }

  /** `fat32_create_fdentry` for a new file or directory.  `slots'` are the slots afterwards; when it
      fails they have gained `count` cleared ones and then the `stale` ones. */
  method CreateFdentry(v: Volume, dir: Vnode, fv: Vnode, name: seq<byte>, isDir: bool, now: Timespec, ghost slots: seq<Slot>)
    returns (err: Errno, ghost main: Slot, ghost slots': seq<Slot>, ghost count: nat, ghost stale: seq<Slot>)
    requires OnDir(v, dir.cluster, slots) && Attached(v, dir) && fv != dir
    requires IsName(name) && SLOT * (|slots| + SlotCount(name)) < WORD
    modifies v, v.disk, fv`cluster, fv`vtype, fv`parentCluster, fv`flags, fv`mode, fv`diroff, fv`dirsz
    ensures OnDir(v, dir.cluster, slots') && Attached(v, dir) && (old(Exact(v)) ==> Exact(v))
    ensures |v.data| == |old(v.data)| && OthersKept(old(Now(v)), Now(v), dir.cluster)
    ensures err == OK || err == ENOSPC || err == EIO
    ensures err == OK ==> Created(slots, slots', name, main, dir.cluster) && v.intact == old(v.intact)
    ensures err == OK ==> |slots'| <= |slots| + SlotCount(name) + PerCluster(v.g)
    ensures err == OK ==>
              && fv.diroff == SLOT * FreeRun(slots, 0, 0, SlotCount(name)) && fv.dirsz == SlotCount(name)
              && NewEntry(fv, main, name, dir.cluster, fv.diroff, isDir, old(fv.mode), now)
              && (fv.flags == if isDir && fv.cluster == v.g.rootCluster then old(fv.flags) + {IsRoot} else {})
              && ModeGiven(v.g, fv, isDir, old(fv.mode))
    ensures err == OK && isDir ==> NewDirectory(v, old(v.chains), fv.cluster, dir.cluster, now)
    ensures err != OK ==> slots' == slots + Cleared(count) + stale && LeftOver(old(Now(v)), PerCluster(v.g), count, stale)
    ensures err == ENOSPC ==> stale == [] && (old(Exact(v)) && v.intact ==> FreeCount(v.fat) == 0)
    ensures err == EIO ==> !v.intact
    ensures ClustersAccounted(old(Now(v)), Now(v), dir.cluster, fv.cluster, err)
  {
    hide NothingLost, DeviceHolds, Consistent, WellFormed, Mul, Laid, Exact, OthersKept, StampOf, FreeCount, NewDir, GrownBy, CacheSound,
         FreeRun, NewEntry, NewDirectory, Placed, IsShort, EntryLfn, Backed, Created, InOrder;
    ghost var s, h, p := Now(v), dir.cluster, PerCluster(v.g);
    main, slots', count, stale := Zeros(32), slots, 0, [];
    var short := NameIsShort(name);
    fv.dirsz := if short then 1 else (|name| + 12) / 13 + 1;
    var offset;
    ghost var ext;
    err, offset, ext := AllocFdentry(v, dir, fv.dirsz, slots);
    ghost var s1 := Now(v);
    AllocatedMeans(s, s1, h, p, slots, fv.dirsz, err, offset, ext);
    GrownLoses(s, s1, h, p, slots, fv.dirsz, err, offset, ext);
    if err != OK {
      count, stale := AllocationFailed(s, s1, h, p, slots, fv.dirsz, err, offset, ext);
      slots' := slots + Cleared(count) + stale;
      return;
    }
    count := Mul(|ext|, p);
    slots' := slots + Cleared(count);
    assert slots' == slots + Cleared(count) + [];
    GrowthBound(s, s1, h, p, slots, fv.dirsz, offset, ext);
    fv.diroff := offset;
    err, main, slots' := FillEntry(v, dir.cluster, fv, name, isDir, offset, now, slots, slots');
    OthersKeptTrans(s, s1, Now(v), h);
    NewAccounted(s, s1, Now(v), h, fv.cluster, err);
    if err == OK {
      EntryMain(fv, main, name, h, offset, isDir, old(fv.mode), now);
      CreatedHere(slots, slots', name, main, h, offset);
      if isDir {
        NewSince(v, s.chains, s1.chains, fv.cluster, h, now);
      }
    }
  }

  lemma EntryMain(fv: Vnode, main: Slot, name: seq<byte>, dirCluster: nat, offset: nat, isDir: bool, mode: nat, now: Timespec)
    requires NewEntry(fv, main, name, dirCluster, offset, isDir, mode, now)
    ensures MainFor(main, name, dirCluster, offset)
  {
    hide MainFor, MainSlot, DiskName, IsShort, StampOf, SaysNew;
  }

  lemma NewSince(v: Volume, chains: Forest, chains1: Forest, cluster: nat, parent: nat, now: Timespec)
    requires NewDirectory(v, chains1, cluster, parent, now) && forall c :: c in chains ==> c in chains1
    ensures NewDirectory(v, chains, cluster, parent, now)
  {
    hide WellFormed, Laid, DeviceHolds, NewDir, StampOf, Consistent, DotsSay;
  }
}
