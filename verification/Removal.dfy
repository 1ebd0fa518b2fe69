/** Removing an entry and what it owns: the core of `fat32_remove_common` (fat32_vnode.c). */
module Removal {
  import opened Bytes
  import opened Layout
  import opened Volumes
  import opened Chains
  import opened Clusters
  import opened Contents
  import opened Vnodes
  import opened Files
  import opened Slots
  import opened SlotBytes
  import opened Names
  import opened Placing
  import opened Integrity
  import opened Listings
  import opened DirectoryMap
  import opened DirReading
  import opened Lookups
  import opened DirWriting
  import opened DirGrowth

  /** A directory that is worked on, with offsets that fit in 32 bits. */
  ghost predicate Open(v: Volume, dir: Vnode, slots: seq<Slot>)
    reads v, v.disk, dir`cluster, dir.cache
  {
    OnDir(v, dir.cluster, slots) && Attached(v, dir) && SLOT * |slots| < WORD
  }

  lemma OpenMeans(v: Volume, dir: Vnode, slots: seq<Slot>)
    requires Open(v, dir, slots)
    ensures OnDir(v, dir.cluster, slots) && Attached(v, dir)
  {
  }

  lemma OnDirIsValid(v: Volume, h: nat, slots: seq<Slot>)
    requires OnDir(v, h, slots)
    ensures v.Valid() && WellFormed(v.fat, v.chains)
  {
  }

  lemma OpenIsReady(v: Volume, dir: Vnode, slots: seq<Slot>)
    requires Open(v, dir, slots)
    ensures DirReady(v, dir) && SlotsOf(v, dir) == slots
  {
    hide DeviceHolds, Consistent, WellFormed, Mul, CacheSound, Laid, SlotsOf;
    LaidChain(Now(v), dir.cluster, PerCluster(v.g), slots);
    SlotsOfSize(v, dir);
    LaidOnce(Now(v), dir.cluster, PerCluster(v.g), slots, SlotsOf(v, dir));
  }

  lemma ReadyIsOpen(v: Volume, dir: Vnode)
    requires DirReady(v, dir)
    ensures Open(v, dir, SlotsOf(v, dir))
  {
    hide DeviceHolds, Consistent, WellFormed, Mul, CacheSound, Laid, SlotsOf;
    SlotsOfSize(v, dir);
    LaidChain(Now(v), dir.cluster, PerCluster(v.g), SlotsOf(v, dir));
  }

  /** What an entry may point to: nothing, or a chain other than the directory's own. */
  ghost predicate Rooted(chains: Forest, h: nat, main: Slot) {
    var c := FirstCluster(main);
    c == 0 || (c in chains && c != h)
  }

  /** The entry of a name, if there is one, has its own chain. */
  ghost predicate FoundIsRooted(chains: Forest, h: nat, slots: seq<Slot>, name: seq<byte>) {
    forall i: nat :: FoundAt(ListOf(slots), Key(name), i) ==> Rooted(chains, h, ListOf(slots)[i].main)
  }

  lemma FoundRooted(chains: Forest, h: nat, slots: seq<Slot>, name: seq<byte>, i: nat)
    requires FoundIsRooted(chains, h, slots, name) && FoundAt(ListOf(slots), Key(name), i)
    ensures i < |ListOf(slots)| && Rooted(chains, h, ListOf(slots)[i].main)
  {
    hide Rooted, ListOf;
  }

  /** Whether the directory with first cluster `c` counts as empty. */
  ghost predicate EmptyDir(s: Snap, c: nat, p: nat) {
    c != 0 ==> forall slots :: Laid(s, c, p, slots) ==> EmptyFrom(slots, 0)
  }

  /** Why the removal of an entry is refused, or OK. */
  ghost function Verdict(main: Slot, isDir: bool, cdir: Option<nat>, empty: bool): Errno {
    if isDir then
      if !Bit(Attr(main), DIRECTORY) then ENOTDIR
      else if cdir == Some(FirstCluster(main)) then EINVAL
      else if !empty then ENOTEMPTY
      else OK
    else if Bit(Attr(main), DIRECTORY) then EISDIR
    else OK
  }

  /** What is left after removing an entry from directory `h`, whose first cluster was `c`: the
      entry's slots are marked as deleted, its clusters are free, and nothing else has changed. */
  ghost predicate Removed(s: Snap, s': Snap, h: nat, c: nat) {
    && |s'.data| == |s.data|
    && s'.chains == (if c == 0 then s.chains else s.chains - {c})
    && FreeCount(s'.fat) == FreeCount(s.fat) + |ChainOf(s.chains, c)| && s'.hint == s.hint
    && (if c == 0 then s'.fat == s.fat else Released(s.fat, s'.fat, ChainOf(s.chains, c), 0))
    && forall k :: k in s'.chains && k != h ==> forall x :: x in s.chains[k] && x < |s.data| ==> s'.data[x] == s.data[x]
  }

  /** The type checks of `fat32_remove_common` on the entry that was found.  `inner` are the slots of
      a directory that is to be removed. */
  method CheckRemovable(v: Volume, ghost dir: Vnode, fv: Vnode, isDir: bool, cdir: Option<nat>, ghost main: Slot, ghost slots: seq<Slot>,
                        ghost inner: seq<Slot>)
    returns (err: Errno)
    requires fv.vtype == (if Bit(Attr(main), DIRECTORY) then VDIR else VREG) && fv.cluster == FirstCluster(main)
    requires Open(v, dir, slots)
    requires fv.vtype == VDIR && fv.cluster != 0 ==> OnDir(v, fv.cluster, inner)
    modifies v, v.disk
    ensures Open(v, dir, slots) && Now(v) == old(Now(v)) && (old(Exact(v)) ==> Exact(v))
    ensures err == Verdict(main, isDir, cdir, EmptyDir(Now(v), fv.cluster, PerCluster(v.g)))
  {
    hide Exact, EmptyFrom, Laid, EmptyDir, WellFormed, DeviceHolds, Consistent;
    if isDir {
      if fv.vtype != VDIR {
        return ENOTDIR;
      }
      if cdir == Some(fv.cluster) {
        return EINVAL;
      }
      err := DirEmpty(v, fv, inner);
      EmptyOf(Now(v), fv.cluster, PerCluster(v.g), inner);
    } else {
      err := if fv.vtype == VDIR then EISDIR else OK;
    }
  }

  lemma EmptyOf(s: Snap, c: nat, p: nat, inner: seq<Slot>)
    requires c != 0 ==> Laid(s, c, p, inner)
    ensures EmptyDir(s, c, p) <==> (c != 0 ==> EmptyFrom(inner, 0))
  {
    hide Laid, EmptyFrom;
    if c != 0 {
      forall slots | Laid(s, c, p, slots)
        ensures slots == inner
      {
        LaidOnce(s, c, p, slots, inner);
      }
    }
  }

  /** The slots of the directory that an entry names, if it names one. */
  lemma RootedSlots(v: Volume, h: nat, main: Slot) returns (inner: seq<Slot>)
    requires v.Valid() && WellFormed(v.fat, v.chains) && Rooted(v.chains, h, main)
    ensures FirstCluster(main) != 0 ==> OnDir(v, FirstCluster(main), inner)
    ensures FirstCluster(main) == 0 || (FirstCluster(main) in v.chains && FirstCluster(main) != h)
  {
    hide DeviceHolds, Consistent, WellFormed, Mul, FirstCluster, Laid, Backed;
    inner := [];
    if FirstCluster(main) != 0 {
      PerClusterIs(v.g, 0);
      SoundIsBacked(v);
      inner := DirSlotsNow(Now(v), FirstCluster(main), PerCluster(v.g));
    }
  }

  // ---- the lookup ----

  /** `fat32_find_dirent` in a well-formed directory. */
  method FindIn(v: Volume, dir: Vnode, name: seq<byte>, fv: Vnode, ghost slots: seq<Slot>) returns (err: Errno, ghost j: nat)
    requires Open(v, dir, slots) && dir.vtype == VDIR && DirOk(slots) && fv != dir
    modifies v, v.disk, dir.cache, fv
    ensures Open(v, dir, slots) && Now(v) == old(Now(v)) && (old(Exact(v)) ==> Exact(v))
    ensures err == OK || err == ENOENT
    ensures err == OK <==> Listed(ListOf(slots), Key(name))
    ensures err == OK ==> j < |ListOf(slots)| && Recased(Key(name), ListOf(slots)[j].name)
    ensures err == ENOENT ==> Absent(ListOf(slots), Key(name)) && fv.flags == {} && fv.size == 0 && fv.attr == 0
    ensures err == OK ==> j < |ListOf(slots)| && FoundAt(ListOf(slots), Key(name), j) && !Absent(ListOf(slots), Key(name))
    ensures err == OK ==>
              var e := ListOf(slots)[j];
              && fv.cluster == FirstCluster(e.main) && fv.diroff == SLOT * e.start && fv.dirsz == e.count
              && fv.parentCluster == dir.cluster && fv.vtype == (if Bit(Attr(e.main), DIRECTORY) then VDIR else VREG)
  {
    hide DirOk, ListOf, Listing, SameName, DirReady, SlotsOf, Filled, FoundAt, Absent, Answer, Exact, Listed, Recased;
    OpenIsReady(v, dir, slots);
    ghost var junk;
    err, junk, j := FindDirent(v, dir, name, fv);
    ReadyIsOpen(v, dir);
    AnswerOfDir(slots, junk);
    if err == OK {
      AnswerFound(ListOf(slots), Key(name), j);
      ghost var e := ListOf(slots)[j];
      FilledMeans(fv, e.main, e.start, e.count, dir.cluster);
    } else {
      AnswerAbsent(ListOf(slots), Key(name), err, j);
    }
  }

  // ---- the operation ----

  /** The slots of a listed entry lie inside the directory. */
  lemma EntryWithin(slots: seq<Slot>, j: nat)
    requires DirOk(slots) && j < |ListOf(slots)|
    ensures var e := ListOf(slots)[j]; e.count > 0 && e.start + e.count <= |slots|
  {
    hide ListOf, Entries, Flat, ItemOk, ItemSlots, GroupText;
    var items, tail :| IsDir(slots, items, tail);
    ListOfDir(slots, items, tail);
    var a := EntryItem(items, 0, j);
    assert items == items[..a] + ([items[a]] + items[a + 1..]);
    FlatConcat(items[..a], [items[a]] + items[a + 1..]);
    FlatConcat([items[a]], items[a + 1..]);
    FlatOne(items[a]);
  }

  /** Gives back the clusters of the removed entry. */
  method FreeEntryChain(v: Volume, h: nat, c: nat, ghost slots: seq<Slot>)
    requires OnDir(v, h, slots) && (c == 0 || (c in v.chains && c != h))
    modifies v, v.disk
    ensures OnDir(v, h, slots) && (old(Exact(v)) ==> Exact(v)) && v.data == old(v.data)
    ensures v.chains == if c == 0 then old(v.chains) else old(v.chains) - {c}
    ensures FreeCount(v.fat) == FreeCount(old(v.fat)) + |ChainOf(old(v.chains), c)| && v.nextFree == old(v.nextFree)
    ensures c != 0 ==> Released(old(v.fat), v.fat, ChainOf(old(v.chains), c), 0)
    ensures c == 0 ==> Now(v) == old(Now(v))
  {
    hide DeviceHolds, Consistent, WellFormed, Mul, Laid, FreeCount, FreeEffect, FreeAll, FreedForest, Backed;
    ghost var s, p := Now(v), PerCluster(v.g);
    ZeroIsNoChain(v.fat, v.chains);
    if c != 0 {
      ForestChain(v.fat, v.chains, c);
      assert In(v.fat, v.chains[c][0]);
      FreeWholeChain(v.fat, v.chains, c);
      var err := FreeClusters(v, c, true);
      FreedMeans(s.chains, v.chains, c);
      NowBacked(v);
      LaidChain(s, h, p, slots);
      LaidAnyway(s, Now(v), h, p, slots);
    }
  }

  lemma FreedMeans(chains: Forest, chains': Forest, c: nat)
    requires FreedForest(chains, chains', c, true) && c in chains
    ensures chains' == chains - {c}
  {
  }

  lemma LaidAnyway(s: Snap, s': Snap, h: nat, p: nat, slots: seq<Slot>)
    requires Laid(s, h, p, slots) && s'.data == s.data && h in s'.chains && s'.chains[h] == s.chains[h] && Backed(s', SLOT * p)
    ensures Laid(s', h, p, slots)
  {
    hide Mul, Backed, Content;
  }

  lemma RemovedMeans(s: Snap, s1: Snap, s2: Snap, h: nat, c: nat)
    requires OnlyDir(s, s1, h) && s2.data == s1.data && s2.chains == (if c == 0 then s.chains else s.chains - {c})
    requires FreeCount(s2.fat) == FreeCount(s1.fat) + |ChainOf(s1.chains, c)| && s2.hint == s1.hint
    requires if c == 0 then s2.fat == s1.fat else Released(s1.fat, s2.fat, ChainOf(s1.chains, c), 0)
    ensures Removed(s, s2, h, c)
  {
    hide FreeCount;
  }

  /** Erases the slots of the entry and frees its clusters. */
  method EraseEntry(v: Volume, ghost dir: Vnode, fv: Vnode, ghost start: nat, ghost slots: seq<Slot>)
    requires Attached(v, dir) && fv.parentCluster == dir.cluster
    requires OnDir(v, fv.parentCluster, slots) && fv.diroff == SLOT * start && fv.dirsz > 0 && start + fv.dirsz <= |slots|
    requires fv.cluster == 0 || (fv.cluster in v.chains && fv.cluster != fv.parentCluster)
    modifies v, v.disk
    ensures (old(Exact(v)) ==> Exact(v)) && OnDir(v, fv.parentCluster, ErasedReach(slots, start, fv.dirsz))
    ensures Removed(old(Now(v)), Now(v), fv.parentCluster, fv.cluster)
    ensures Attached(v, dir)
  {
    hide DeviceHolds, Consistent, WellFormed, Mul, Laid, Exact, FreeCount, Removed, ErasedSlots, OthersKept;
    ghost var s := Now(v);
    LaidChain(s, fv.parentCluster, PerCluster(v.g), slots);
    var err := DeleteFdentryChain(v, fv.parentCluster, fv.diroff, fv.dirsz, slots);
    ghost var s1 := Now(v);
    FreeEntryChain(v, fv.parentCluster, fv.cluster, ErasedSlots(slots, start, fv.dirsz));
    RemovedMeans(s, s1, Now(v), fv.parentCluster, fv.cluster);
  }

  /** What `fat32_remove_common` answers, for the entry `j` that it found. */
  ghost predicate RemoveAnswer(s: Snap, p: nat, slots: seq<Slot>, name: seq<byte>, isDir: bool, cdir: Option<nat>, err: Errno, j: nat) {
    if IsDots(name) then err == EINVAL
    else if Absent(ListOf(slots), Key(name)) then err == ENOENT
    else
      && FoundAt(ListOf(slots), Key(name), j)
      && var main := ListOf(slots)[j].main;
         err == Verdict(main, isDir, cdir, EmptyDir(s, FirstCluster(main), p))
  }

  /** The part of `fat32_remove_common` behind a lookup that found the entry `e`. */
  method RemoveFound(v: Volume, dir: Vnode, fv: Vnode, isDir: bool, cdir: Option<nat>, now: Timespec,
                     ghost slots: seq<Slot>, ghost e: Dirent, ghost inner: seq<Slot>)
    returns (err: Errno, ghost slots': seq<Slot>)
    requires Open(v, dir, slots) && e.count > 0 && e.start + e.count <= |slots| && fv != dir
    requires fv.cluster == FirstCluster(e.main) && fv.diroff == SLOT * e.start && fv.dirsz == e.count
    requires fv.parentCluster == dir.cluster && fv.vtype == (if Bit(Attr(e.main), DIRECTORY) then VDIR else VREG)
    requires fv.cluster == 0 || (fv.cluster in v.chains && fv.cluster != dir.cluster)
    requires fv.cluster != 0 ==> OnDir(v, fv.cluster, inner)
    modifies v, v.disk, dir`mtime, dir`flags
    ensures OnDir(v, dir.cluster, slots') && Attached(v, dir) && (old(Exact(v)) ==> Exact(v))
    ensures err == Verdict(e.main, isDir, cdir, EmptyDir(old(Now(v)), FirstCluster(e.main), PerCluster(v.g)))
    ensures err != OK ==> Now(v) == old(Now(v)) && slots' == slots && dir.flags == old(dir.flags) && dir.mtime == old(dir.mtime)
    ensures err == OK ==> slots' == ErasedReach(slots, e.start, e.count)
    ensures err == OK ==> Removed(old(Now(v)), Now(v), dir.cluster, FirstCluster(e.main))
    ensures err == OK ==> dir.mtime == now && dir.flags == old(dir.flags) + {MtimeDirty, Modified}
  {
    hide DeviceHolds, Consistent, WellFormed, Mul, Laid, Exact, CacheSound, FreeCount, Removed, ErasedReach, OthersKept,
         Verdict, EmptyDir, OnDir, Attached, FirstCluster, Bit;
    slots' := slots;
    err := CheckRemovable(v, dir, fv, isDir, cdir, e.main, slots, inner);
    OpenMeans(v, dir, slots);
    if err != OK {
      return;
    }
    EraseEntry(v, dir, fv, e.start, slots);
    slots' := ErasedReach(slots, e.start, e.count);
    dir.mtime := now;
    dir.flags := dir.flags + {MtimeDirty, Modified};
  }

  /** The core of `fat32_remove_common`, between the permission checks and the unlocking.
      `slots'` are the slots of the directory afterwards. */
  method RemoveEntry(v: Volume, dir: Vnode, name: seq<byte>, isDir: bool, cdir: Option<nat>, now: Timespec, ghost slots: seq<Slot>)
    returns (err: Errno, ghost j: nat, ghost slots': seq<Slot>)
    requires Open(v, dir, slots) && dir.vtype == VDIR && DirOk(slots)
    requires IsDots(name) || FoundIsRooted(v.chains, dir.cluster, slots, name)
    modifies v, v.disk, dir.cache, dir`mtime, dir`flags
    ensures OnDir(v, dir.cluster, slots') && Attached(v, dir) && (old(Exact(v)) ==> Exact(v))
    ensures RemoveAnswer(old(Now(v)), PerCluster(v.g), slots, name, isDir, cdir, err, j)
    ensures err == ENOENT <==> !IsDots(name) && !Listed(ListOf(slots), Key(name))
    ensures err == OK ==> j < |ListOf(slots)| && Recased(Key(name), ListOf(slots)[j].name)
    ensures err != OK ==> Now(v) == old(Now(v)) && slots' == slots && dir.flags == old(dir.flags) && dir.mtime == old(dir.mtime)
    ensures err == OK ==>
              && FoundAt(ListOf(slots), Key(name), j) && RemovedAt(slots, slots', j)
              && Removed(old(Now(v)), Now(v), dir.cluster, FirstCluster(ListOf(slots)[j].main))
              && dir.mtime == now && dir.flags == old(dir.flags) + {MtimeDirty, Modified}
  {
    hide DeviceHolds, Consistent, WellFormed, Mul, Laid, Exact, DirOk, ListOf, Rooted, CacheSound, FreeCount, Removed,
         ErasedReach, Verdict, EmptyDir, FoundAt, Absent, OnDir, Attached, FoundIsRooted, RemovedAt, FirstCluster, Bit, Key, Listed,
         Recased;
    j, slots' := 0, slots;
    OpenMeans(v, dir, slots);
    if |name| > 0 && name[0] == DOT && (|name| == 1 || (|name| == 2 && name[1] == DOT)) {
      return EINVAL, 0, slots;
    }
    var fv := new Vnode();
    err, j := FindIn(v, dir, name, fv, slots);
    OpenMeans(v, dir, slots);
    if err != OK {
      return;
    }
    ghost var e := ListOf(slots)[j];
    FoundRooted(v.chains, dir.cluster, slots, name, j);
    OnDirIsValid(v, dir.cluster, slots);
    ghost var inner := RootedSlots(v, dir.cluster, e.main);
    EntryWithin(slots, j);
    err, slots' := RemoveFound(v, dir, fv, isDir, cdir, now, slots, e, inner);
    ReachIsRemoved(slots, j);
    NoMissing(e.main, isDir, cdir, EmptyDir(old(Now(v)), FirstCluster(e.main), PerCluster(v.g)));
  }

  lemma NoMissing(main: Slot, isDir: bool, cdir: Option<nat>, empty: bool)
    ensures Verdict(main, isDir, cdir, empty) != ENOENT
  {
  }

  lemma ReachIsRemoved(slots: seq<Slot>, j: nat)
    requires j < |ListOf(slots)| && ListOf(slots)[j].count > 0 && ListOf(slots)[j].start + ListOf(slots)[j].count <= |slots|
    ensures RemovedAt(slots, ErasedReach(slots, ListOf(slots)[j].start, ListOf(slots)[j].count), j)
  {
    hide ListOf, ErasedSlots;
  }

  lemma AnswerAbsent(es: seq<Dirent>, key: seq<byte>, err: Errno, j: nat)
    requires Answer(es, key, err, j) && err != OK
    ensures err == ENOENT && Absent(es, key)
  {
  }

  lemma AnswerFound(es: seq<Dirent>, key: seq<byte>, j: nat)
    requires Answer(es, key, OK, j)
    ensures j < |es| && FoundAt(es, key, j) && !Absent(es, key)
  {
  }

  lemma FilledMeans(fv: Vnode, main: Slot, start: nat, count: nat, dirCluster: nat)
    requires Filled(fv, main, start, count, dirCluster)
    ensures fv.cluster == FirstCluster(main) && fv.diroff == SLOT * start && fv.dirsz == count
    ensures fv.parentCluster == dirCluster && fv.vtype == (if Bit(Attr(main), DIRECTORY) then VDIR else VREG)
  {
  }
}
