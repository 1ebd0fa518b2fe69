/** Making a new file or directory, from the lookup to the new vnode: `fat32_mkdir`, and
    `fat32_create` for exclusive creation (fat32_vnode.c). */
module Making {
  import opened Bytes
  import opened Layout
  import opened Volumes
  import opened Chains
  import opened Clusters
  import opened Contents
  import opened Vnodes
  import opened Files
  import opened Slots
  import opened SlotBytes
  import opened Names
  import opened Placing
  import opened Integrity
  import opened Stale
  import opened DirectoryMap
  import opened DirReading
  import opened Lookups
  import opened DirGrowth
  import opened DirCreation
  import opened Removal

  /** Why a name that is already taken cannot be made again. */
  function Refusal(isDir: bool, main: Slot): Errno {
    if isDir then (if Bit(Attr(main), DIRECTORY) then EEXIST else ENOTDIR)
    else if Bit(Attr(main), DIRECTORY) then EISDIR else EEXIST
  }

  /** What making an entry answers and does to the slots of the directory.  A name is refused
      exactly when it is taken, up to case.  When it is not made for another reason, the directory has
      gained `count` cleared slots and then the `stale` ones. */
  ghost predicate MakeAnswer(slots: seq<Slot>, slots': seq<Slot>, name: seq<byte>, isDir: bool, cluster: nat,
                             err: Errno, main: Slot, j: nat, count: nat, stale: seq<Slot>)
  {
    if !Absent(ListOf(slots), name) then
      && FoundAt(ListOf(slots), name, j) && err == Refusal(isDir, ListOf(slots)[j].main)
      && slots' == slots && count == 0 && stale == []
    else
      && (err == OK || err == ENOSPC || err == EIO)
      && (err == OK ==> Created(slots, slots', name, main, cluster))
      && (err != OK ==> slots' == slots + Cleared(count) + stale) && (err == ENOSPC ==> stale == [])
  }

  /** `fat32_touch` with all times, and of the directory. */
  method TouchBoth(dir: Vnode, fv: Vnode, now: Timespec)
    requires fv != dir
    modifies fv`ctime, fv`mtime, fv`atime, fv`flags, dir`mtime, dir`flags
    ensures fv.flags == old(fv.flags) + {MtimeDirty, AtimeDirty, Modified} && fv.ctime == fv.mtime == fv.atime == now
    ensures dir.mtime == now && dir.flags == old(dir.flags) + {MtimeDirty, Modified}
  {
    fv.ctime, fv.mtime, fv.atime := now, now, now;
    fv.flags := fv.flags + {MtimeDirty, AtimeDirty, Modified};
    dir.mtime := now;
    dir.flags := dir.flags + {MtimeDirty, Modified};
  }

  /** The vnode of a new entry, and what the entry says of it.  Its attribute byte is 0, whatever the
      entry says. */
  ghost predicate NewVnode(g: Geometry, fv: Vnode, main: Slot, slots: seq<Slot>, name: seq<byte>, isDir: bool, mode: nat,
                           dirCluster: nat)
    reads fv`cluster, fv`diroff, fv`dirsz, fv`parentCluster, fv`vtype, fv`attr, fv`size, fv`flags, fv.cache
  {
    && Attr(main) == NewAttribute(isDir, mode) && fv.vtype == (if isDir then VDIR else VREG) && (!isDir ==> fv.cluster == 0)
    && fv.cluster == FirstCluster(main) && fv.diroff == SLOT * FreeRun(slots, 0, 0, SlotCount(name))
    && fv.dirsz == SlotCount(name) && fv.parentCluster == dirCluster
    && fv.attr == 0 && fv.size == FileSize(main) == 0
    && fv.flags == {MtimeDirty, AtimeDirty, Modified} + (if isDir && fv.cluster == g.rootCluster then {IsRoot} else {})
    && fv.cache.Length == CACHE_SIZE && forall i :: 0 <= i < CACHE_SIZE ==> fv.cache[i] == CacheEntry(0, 0)
  }

  /** Mode and times of the vnode of a new entry, and what the entry says of them. */
  ghost predicate Born(g: Geometry, fv: Vnode, main: Slot, isDir: bool, mode: nat, now: Timespec)
    reads fv`cluster, fv`mode, fv`atime, fv`mtime, fv`ctime
  {
    ModeGiven(g, fv, isDir, mode) && fv.atime == fv.mtime == fv.ctime == now && SaysNew(main, isDir, mode / 0x80 % 2 == 1, now)
  }

  /** The part of the operation behind a lookup that found nothing. */
  method MakeAbsent(v: Volume, dir: Vnode, fv: Vnode, name: seq<byte>, isDir: bool, mode: nat, now: Timespec, ghost slots: seq<Slot>)
    returns (err: Errno, ghost main: Slot, ghost slots': seq<Slot>, ghost count: nat, ghost stale: seq<Slot>)
    requires Open(v, dir, slots) && fv != dir && IsName(name) && SLOT * (|slots| + SlotCount(name)) < WORD
    requires fv.flags == {} && fv.size == 0 && fv.attr == 0 && fv.cache.Length == CACHE_SIZE
    requires forall i :: 0 <= i < CACHE_SIZE ==> fv.cache[i] == CacheEntry(0, 0)
    modifies v, v.disk, dir`mtime, dir`flags, fv
    ensures OnDir(v, dir.cluster, slots') && Attached(v, dir) && (old(Exact(v)) ==> Exact(v))
    ensures |v.data| == |old(v.data)| && OthersKept(old(Now(v)), Now(v), dir.cluster)
    ensures err == OK || err == ENOSPC || err == EIO
    ensures err == OK ==> Created(slots, slots', name, main, dir.cluster) && NewVnode(v.g, fv, main, slots, name, isDir, mode, dir.cluster)
    ensures err == OK ==> Born(v.g, fv, main, isDir, mode, now)
    ensures err == OK && isDir ==> NewDirectory(v, old(v.chains), fv.cluster, dir.cluster, now)
    ensures err == OK ==> |slots'| <= |slots| + SlotCount(name) + PerCluster(v.g)
    ensures err == OK ==> dir.mtime == now && dir.flags == old(dir.flags) + {MtimeDirty, Modified}
    ensures err != OK ==> slots' == slots + Cleared(count) + stale && LeftOver(old(Now(v)), PerCluster(v.g), count, stale)
    ensures ClustersAccounted(old(Now(v)), Now(v), dir.cluster, fv.cluster, err)
    ensures err == ENOSPC ==> stale == [] && (old(Exact(v)) && v.intact ==> FreeCount(v.fat) == 0)
    ensures err == EIO ==> !v.intact
    ensures err != OK ==> dir.flags == old(dir.flags) && dir.mtime == old(dir.mtime)
  {
    hide DeviceHolds, Consistent, WellFormed, Mul, Laid, Exact, CacheSound, FreeCount, OthersKept, Created, NewEntry, NewDirectory,
         FreeRun, IsShort, OnDir, Attached, LeftOver, SaysNew, ClustersAccounted;
    OpenMeans(v, dir, slots);
    fv.mode := mode;
    err, main, slots', count, stale := CreateFdentry(v, dir, fv, name, isDir, now, slots);
    if err == OK {
      EntryCluster(v, fv, main, name, dir.cluster, fv.diroff, isDir, mode, now, old(v.chains));
      TouchBoth(dir, fv, now);
    }
  }

  /** `fat32_mkdir` and exclusive `fat32_create`, between the permission checks and the unlocking.
      `slots'` are the slots of the directory afterwards. */
  method MakeEntry(v: Volume, dir: Vnode, name: seq<byte>, isDir: bool, mode: nat, now: Timespec, ghost slots: seq<Slot>)
    returns (err: Errno, fv: Vnode, ghost main: Slot, ghost slots': seq<Slot>, ghost j: nat, ghost count: nat, ghost stale: seq<Slot>)
    requires Open(v, dir, slots) && dir.vtype == VDIR && DirOk(slots)
    requires IsName(name) && SLOT * (|slots| + SlotCount(name)) < WORD
    modifies v, v.disk, dir.cache, dir`mtime, dir`flags
    ensures fresh(fv) && fresh(fv.cache)
    ensures OnDir(v, dir.cluster, slots') && Attached(v, dir) && (old(Exact(v)) ==> Exact(v))
    ensures |v.data| == |old(v.data)| && OthersKept(old(Now(v)), Now(v), dir.cluster)
    ensures MakeAnswer(slots, slots', name, isDir, dir.cluster, err, main, j, count, stale)
    ensures Listed(ListOf(slots), name) <==> err != OK && err != ENOSPC && err != EIO
    ensures Listed(ListOf(slots), name) ==> j < |ListOf(slots)| && Recased(name, ListOf(slots)[j].name)
    ensures LeftOver(old(Now(v)), PerCluster(v.g), count, stale)
    ensures err == OK ==> NewVnode(v.g, fv, main, slots, name, isDir, mode, dir.cluster) && Born(v.g, fv, main, isDir, mode, now)
    ensures err == OK && isDir ==> NewDirectory(v, old(v.chains), fv.cluster, dir.cluster, now)
    ensures err == OK ==> |slots'| <= |slots| + SlotCount(name) + PerCluster(v.g)
    ensures err == OK ==> dir.mtime == now && dir.flags == old(dir.flags) + {MtimeDirty, Modified}
    ensures ClustersAccounted(old(Now(v)), Now(v), dir.cluster, fv.cluster, err)
    ensures err == ENOSPC && old(Exact(v)) && v.intact ==> FreeCount(v.fat) == 0
    ensures err == EIO ==> !v.intact
    ensures err != OK && err != ENOSPC && err != EIO ==> Now(v) == old(Now(v))
    ensures err != OK ==> dir.flags == old(dir.flags) && dir.mtime == old(dir.mtime)
  {
    hide DeviceHolds, Consistent, WellFormed, Mul, Laid, Exact, DirOk, ListOf, CacheSound, FreeCount, OthersKept, FoundAt, Absent,
         Created, NewVnode, NewDirectory, IsShort, OnDir, Attached, LeftOver, Born, Listed, Recased, NothingLost;
    main, slots', j, count, stale := Zeros(32), slots, 0, 0, [];
    NothingLeft(Now(v), PerCluster(v.g));
    NothingNew(Now(v), Now(v), dir.cluster);
    fv := new Vnode();
    OthersKeptNow(Now(v), dir.cluster);
    err, j := FindIn(v, dir, name, fv, slots);
    KeyIsName(name);
    OpenMeans(v, dir, slots);
    if err == OK {
      OnDirIsValid(v, dir.cluster, slots);
      if isDir {
        err := if fv.vtype != VDIR then ENOTDIR else EEXIST;
      } else {
        err := if fv.vtype == VDIR then EISDIR else EEXIST;
      }
      return;
    }
    err, main, slots', count, stale := MakeAbsent(v, dir, fv, name, isDir, mode, now, slots);
    if err == OK {
      count, stale := 0, [];
    }
  }

  lemma KeyIsName(name: seq<byte>)
    requires IsName(name)
    ensures Key(name) == name
  {
    hide IsShort;
  }

  lemma NothingLeft(s: Snap, p: nat)
    ensures LeftOver(s, p, 0, [])
  {
  }

  lemma EntryCluster(v: Volume, fv: Vnode, main: Slot, name: seq<byte>, dirCluster: nat, offset: nat, isDir: bool,
                     mode: nat, now: Timespec, chains: Forest)
    requires NewEntry(fv, main, name, dirCluster, offset, isDir, mode, now)
    requires isDir ==> NewDirectory(v, chains, fv.cluster, dirCluster, now)
    ensures fv.cluster == FirstCluster(main) && fv.parentCluster == dirCluster
    ensures Attr(main) == NewAttribute(isDir, mode) && fv.vtype == (if isDir then VDIR else VREG) && (!isDir ==> fv.cluster == 0)
    ensures FileSize(main) == 0 && SaysNew(main, isDir, mode / 0x80 % 2 == 1, now)
  {
    hide DiskName, StampOf, MainSlot, OnDir, NewAttribute, FileSize, SaysNew;
  }

  /** Every call is a step of the directory.  After EIO it is well formed exactly if the stale slots do
      no harm, passes the integrity check exactly if an end marker comes before them or they pass on
      their own, and has the same listing, too, exactly if they leave no trace. */
  lemma MakeIsStep(slots: seq<Slot>, slots': seq<Slot>, name: seq<byte>, isDir: bool, cluster: nat,
                   err: Errno, main: Slot, j: nat, count: nat, stale: seq<Slot>)
    requires DirOk(slots) && MakeAnswer(slots, slots', name, isDir, cluster, err, main, j, count, stale)
    ensures err == OK ==>
              && DirOk(slots')
              && ((exists i: nat :: FoundAt(ListOf(slots'), name, i)) <==> RoundTrips(name))
              && (forall i: nat :: FoundAt(ListOf(slots'), name, i) ==> ListOf(slots')[i].main == main)
              && (Unique(ListOf(slots')) <==> Unique(ListOf(slots)) && (Visible(name) ==> Absent(ListOf(slots), Shown(name))))
    ensures err == EIO && Absent(ListOf(slots), name) ==>
              && (DirOk(slots') <==> Harmless(slots, count, stale))
              && (Check(slots', 0, false, 0, 0) <==> count > 0 || HasEnd(slots) || Check(stale, 0, false, 0, 0))
              && (DirOk(slots') && ListOf(slots') == ListOf(slots) <==> NoTrace(slots, count, stale))
    ensures err != OK && err != EIO ==> DirOk(slots') && ListOf(slots') == ListOf(slots)
  {
    hide DirOk, ListOf, Unique, Created, FoundAt, Absent, Shown, Visible, Harmless, NoTrace, HasEnd, Check;
    if Absent(ListOf(slots), name) {
      if err == OK {
        CreateEffect(slots, slots', name, main, cluster);
        CreateThenFind(slots, slots', name, main, cluster);
      } else {
        StaleExact(slots, count, stale);
        StaleCheck(slots, count, stale);
        GrowKeepsDir(slots, count, stale);
        NothingStale(slots, count);
      }
    }
  }

  /** A successful removal is a step of the directory as a map. */
  lemma RemoveIsStep(s: Snap, p: nat, slots: seq<Slot>, slots': seq<Slot>, name: seq<byte>, isDir: bool,
                     cdir: Option<nat>, err: Errno, j: nat)
    requires DirOk(slots) && Unique(ListOf(slots)) && RemoveAnswer(s, p, slots, name, isDir, cdir, err, j)
    requires if err == OK then FoundAt(ListOf(slots), Key(name), j) && RemovedAt(slots, slots', j) else slots' == slots
    ensures DirOk(slots') && Unique(ListOf(slots'))
    ensures err == OK ==> Absent(ListOf(slots'), Key(name)) && ListOf(slots') == ListOf(slots)[..j] + ListOf(slots)[j + 1..]
  {
    hide DirOk, ListOf, Unique, FoundAt, Absent, RemovedAt, RemoveAnswer;
    if err == OK {
      RemoveEffect(slots, slots', j);
      RemoveThenFind(slots, slots', Key(name), j);
    }
  }

  // ---- the life of a directory ----

  /** From its initialisation on, over every run of creations of any names, removals and failed
      creations over slots that do no harm, a directory passes `fat32_check_dir_integrity`. */
  lemma DirectoryPassesCheck(p: nat, cluster: nat, parent: nat, t: Stamp, states: seq<seq<Slot>>, ops: seq<Op>)
    requires p >= 2 && DirectoryMap.Run(states, ops) && states[0] == NewDir(p, cluster, parent, t)
    requires forall i :: 0 <= i < |ops| && ops[i].Grow? ==> Harmless(states[i], ops[i].count, ops[i].stale)
    ensures forall i :: 0 <= i < |states| ==> Check(states[i], 0, false, 0, 0)
  {
    hide DirOk, ListOf, Unique, Check, NewDir, DirectoryMap.Step, Harmless;
    NewDirOk(p, cluster, parent, t);
    RunKeepsDirectory(states, ops);
    forall i | 0 <= i < |states|
      ensures Check(states[i], 0, false, 0, 0)
    {
      PassesCheck(states[i]);
    }
  }

  /** `fat32_dirempty` answers 0 exactly when nothing but "." and ".." is listed. */
  lemma EmptyMeansDots(slots: seq<Slot>)
    requires DirOk(slots) && DotsPlain(ListOf(slots))
    ensures EmptyFrom(slots, 0) <==> forall i :: 0 <= i < |ListOf(slots)| ==> IsDots(ListOf(slots)[i].name)
  {
    hide EmptyFrom, ListOf, Entries, Flat, ItemOk, IsDots;
    var items: seq<Item>, tail: seq<Slot> :| IsDir(slots, items, tail);
    ListOfDir(slots, items, tail);
    assert slots[0..] == slots;
    EmptyExact(slots, 0, items, tail);
  }

  /** From its initialisation on, over every run that does not create "..", a directory counts as
      empty exactly when it lists nothing but "." and "..". */
  lemma EmptyOverRuns(p: nat, cluster: nat, parent: nat, t: Stamp, states: seq<seq<Slot>>, ops: seq<Op>, i: nat)
    requires p >= 2 && DirectoryMap.Run(states, ops) && states[0] == NewDir(p, cluster, parent, t) && i < |states|
    requires Clean(states, ops) && forall k :: 0 <= k < |ops| && ops[k].Create? ==> ops[k].name != [DOT, DOT]
    ensures EmptyFrom(states[i], 0) <==> forall k :: 0 <= k < |ListOf(states[i])| ==> IsDots(ListOf(states[i])[k].name)
  {
    hide DirOk, ListOf, EmptyFrom, NewDir, DirectoryMap.Step, DotsPlain, IsDots, NoTrace;
    NewDirDots(p, cluster, parent, t);
    CleanRun(states, ops);
    RunKeepsDots(states, ops);
    EmptyMeansDots(states[i]);
  }

  lemma NewDirDots(p: nat, cluster: nat, parent: nat, t: Stamp)
    requires p >= 2
    ensures DirOk(NewDir(p, cluster, parent, t)) && DotsPlain(ListOf(NewDir(p, cluster, parent, t)))
  {
    hide EmptyFrom, ListOf, DirOk, MainSlot;
    NewDirOk(p, cluster, parent, t);
    var slots := NewDir(p, cluster, parent, t);
    assert slots[0][0] == ShortName(slots[0])[0] && slots[1][0] == ShortName(slots[1])[0];
  }

  /** A directory that was just made can be removed. */
  lemma NewDirIsEmpty(p: nat, cluster: nat, parent: nat, t: Stamp)
    requires p >= 2
    ensures EmptyFrom(NewDir(p, cluster, parent, t), 0)
  {
    hide EmptyFrom, ListOf, DirOk, MainSlot;
    NewDirOk(p, cluster, parent, t);
    NewDirDots(p, cluster, parent, t);
    EmptyMeansDots(NewDir(p, cluster, parent, t));
  }
}
