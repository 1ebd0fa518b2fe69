/** Room for a new entry: `fat32_alloc_fdentry`, for a directory that has clusters. */
module DirGrowth {
  import opened Bytes
  import opened Layout
  import opened Volumes
  import opened Chains
  import opened Clusters
  import opened Contents
  import opened Vnodes
  import opened Files
  import opened ReadWrite
  import opened Slots
  import opened SlotBytes
  import opened Placing
  import opened DirReading
  import opened Lookups

  // ---- the scan ----

  /** How the scan of one cluster ends: enough deleted slots, the end marker, or neither. */
  datatype Room = Enough | Marker | More

  /** `run` deleted slots in front of slot `k`, the first of them at byte `start`. */
  predicate RunAt(k: nat, run: nat, start: nat, n: nat) {
    run <= k && run < n && (run > 0 ==> start == SLOT * (k - run))
  }

  /** The inner loop of `fat32_alloc_fdentry`. */
  method ScanRoom(buf: seq<byte>, currentOffset: nat, n: nat, run0: nat, start0: nat,
                  ghost slots: seq<Slot>, ghost base: nat)
    returns (room: Room, run: nat, start: nat)
    requires Window(buf, slots, base) && currentOffset == SLOT * base && RunAt(base, run0, start0, n)
    ensures room != More ==> start == SLOT * FreeRun(slots, base, run0, n)
    ensures room == Enough ==> start + SLOT * n <= SLOT * |slots|
    ensures room == More ==>
              && RunAt(base + |buf| / SLOT, run, start, n)
              && FreeRun(slots, base, run0, n) == FreeRun(slots, base + |buf| / SLOT, run, n)
  {
    run, start := run0, start0;
    var entryOffset := 0;
    ghost var j := 0;
    while entryOffset < |buf|
      invariant entryOffset == SLOT * j && j <= |buf| / SLOT
      invariant RunAt(base + j, run, start, n)
      invariant FreeRun(slots, base, run0, n) == FreeRun(slots, base + j, run, n)
      decreases |buf| / SLOT - j
    {
      var first := buf[entryOffset];
      assert slots[base + j] == BufferSlot(buf, j);
      assert slots[base + j][0] == first;
      if first == 0 {
        if run == 0 {
          start := currentOffset + entryOffset;
        }
        return Marker, run, start;
      }
      if first == DELETED {
        if run == 0 {
          start := currentOffset + entryOffset;
        }
        run := run + 1;
        if run == n {
          return Enough, run, start;
        }
      } else {
        run := 0;
      }
      entryOffset := entryOffset + SLOT;
      j := j + 1;
    }
    room := More;
  }

  /** The scanning loop over the clusters of the directory.  It ends with enough deleted slots, or
      at the end of the chain with the last cluster and the size of the directory. */
  method FindRoom(v: Volume, h: nat, n: nat, ghost slots: seq<Slot>)
    returns (enough: bool, start: nat, last: nat, size: nat)
    requires OnDir(v, h, slots) && n > 0
    modifies v, v.disk
    ensures OnDir(v, h, slots) && Now(v) == old(Now(v)) && (old(Exact(v)) ==> Exact(v))
    ensures start == SLOT * FreeRun(slots, 0, 0, n)
    ensures enough ==> start + SLOT * n <= SLOT * |slots|
    ensures !enough ==> size == SLOT * |slots| && At(v.chains, h, |v.chains[h]| - 1, last)
  {
    hide DeviceHolds, Consistent, WellFormed, Mul, Exact, Laid, FreeRun, Window;
    ghost var p, i := PerCluster(v.g), 0;
    LaidChain(Now(v), h, p, slots);
    ForestChain(v.fat, v.chains, h);
    MulSucc(0, p);
    var scanning, run := true, 0;
    start, last, size := 0, h, 0;
    var current := h;
    while true
      invariant OnDir(v, h, slots) && Now(v) == old(Now(v)) && (old(Exact(v)) ==> Exact(v))
      invariant At(v.chains, h, i, current) && size == SLOT * Mul(i, p) && Mul(i, p) <= |slots|
      invariant scanning ==> RunAt(Mul(i, p), run, start, n) && FreeRun(slots, 0, 0, n) == FreeRun(slots, Mul(i, p), run, n)
      invariant !scanning ==> start == SLOT * FreeRun(slots, 0, 0, n)
      decreases |v.chains[h]| - i
    {
      last := current;
      if scanning {
        var buf := ReadWindow(v, h, i, current, slots);
        var room;
        room, run, start := ScanRoom(buf, size, n, run, start, slots, Mul(i, p));
        if room == Enough {
          return true, start, last, size;
        }
        scanning := room == More;
      }
      size := size + v.g.bytesPerCluster;
      MulSucc(i, p);
      MulMonotone(i + 1, |v.chains[h]|, p);
      var err;
      err, current := NextOrEnd(v, h, i, current);
      if err != OK {
        if scanning {
          FreeRunEnds(slots, run, n);
          if run == 0 {
            start := size;
          }
        }
        return false, start, last, size;
      }
      i := i + 1;
    }
  }

  lemma FreeRunEnds(slots: seq<Slot>, run: nat, n: nat)
    requires run <= |slots|
    ensures FreeRun(slots, |slots|, run, n) == |slots| - run
  {
  }

  // ---- growing ----

  /** Chain `h` has grown by `ext`, the clusters that come next, cleared but for the last one if its
      allocation failed half-way. */
  ghost predicate GrownBy(s: Snap, s': Snap, h: nat, ext: seq<nat>, size: nat, err: Errno) {
    && Extends(s.fat, s.chains, s'.fat, s'.chains, h, ext) && DataKept(s.data, s'.data, ext)
    && FreeCount(s'.fat) == FreeCount(s.fat) - |ext| && Drawn(s, s', ext, if err == EIO then |ext| - 1 else |ext|)
    && (err != EIO ==> Zeroed(s'.data, ext, size) && s'.intact == s.intact)
    && (err == EIO ==> HalfCleared(s.data, s'.data, ext, size) && !s'.intact)
    && (err == OK || err == ENOSPC || err == EIO)
  }

  /** One turn of the allocating loop. */
  lemma GrownMore(s: Snap, s1: Snap, s2: Snap, h: nat, ext: seq<nat>, c: nat, size: nat, err: Errno)
    requires GrownBy(s, s1, h, ext, size, OK) && WellFormed(s1.fat, s1.chains) && WellFormed(s.fat, s.chains)
    requires h in s1.chains && |s1.chains[h]| > 0 && Last(s1.chains[h]) != 0
    requires Grew(s1.fat, s1.chains, s2.fat, s2.chains, Last(s1.chains[h]), c) && c < |s1.data|
    requires s2.data == if err == OK then s1.data[c := Zeros(size)] else s1.data
    requires Took(s1, s2, c, err)
    requires (err == OK && s2.intact == s1.intact) || (err == EIO && !s2.intact)
    ensures GrownBy(s, s2, h, ext + [c], size, err)
    ensures At(s2.chains, h, |s2.chains[h]| - 1, c)
  {
    hide WellFormed, FreeCount, Extends, Grew, DataKept, Zeroed, Zeros, Drawn, Took, HalfCleared;
    ExtendsMore(s.fat, s.chains, s1.fat, s1.chains, s2.fat, s2.chains, h, ext, c);
    ExtendsDraws(s, s1, s2, h, ext, c, err);
    KeptLength(s.data, s1.data, ext);
    HalfClearedMore(s.data, s1.data, ext, c, size);
    KeptMore(s.data, s1.data, s2.data, ext, c, size);
    GrewAt(s1.fat, s1.chains, s2.fat, s2.chains, h, c);
  }

  /** The allocating loop of `fat32_alloc_fdentry`. */
  method GrowDir(v: Volume, ghost h: nat, last0: nat, count: nat) returns (err: Errno, ghost ext: seq<nat>)
    requires v.Valid() && WellFormed(v.fat, v.chains) && h in v.chains && At(v.chains, h, |v.chains[h]| - 1, last0)
    modifies v, v.disk
    ensures v.Valid() && WellFormed(v.fat, v.chains) && (old(Exact(v)) ==> Exact(v))
    ensures GrownBy(old(Now(v)), Now(v), h, ext, v.g.bytesPerCluster, err)
    ensures |ext| <= count && (err == OK ==> |ext| == count) && (err == ENOSPC ==> |ext| < count)
    ensures err == ENOSPC && old(Exact(v)) && v.intact ==> FreeCount(v.fat) == 0
  {
    hide DeviceHolds, Consistent, WellFormed, FreeCount, Extends, Grew, DataKept, Zeroed, Drawn, Took, HalfCleared, IsChain;
    ghost var s := Now(v);
    var last, i := last0, 0;
    ext, err := [], OK;
    ExtendsNothing(v.fat, v.chains, h);
    DrawnNothing(s);
    KeptNothing(v.data, v.g.bytesPerCluster);
    while i < count
      invariant 0 <= i <= count && |ext| == i && err == OK
      invariant v.Valid() && WellFormed(v.fat, v.chains) && (old(Exact(v)) ==> Exact(v))
      invariant h in v.chains && At(v.chains, h, |v.chains[h]| - 1, last)
      invariant GrownBy(s, Now(v), h, ext, v.g.bytesPerCluster, OK)
    {
      ghost var s1 := Now(v);
      EndOfChain(v.fat, v.chains, h);
      var next;
      ghost var took;
      err, next, took := NextCluster(v, last, true, true);
      if err == ENOSPC {
        NoneFree(v, s1.fat);
        return;
      }
      GrownMore(s, s1, Now(v), h, ext, took, v.g.bytesPerCluster, err);
      ext := ext + [took];
      if err != OK {
        return;
      }
      last := next;
      i := i + 1;
    }
  }

  lemma EndOfChain(fat: seq<nat>, chains: Forest, h: nat)
    requires WellFormed(fat, chains) && h in chains && |chains[h]| > 0
    ensures Last(chains[h]) != 0 && ReadNext(fat, Last(chains[h])).0 == ENOSPC
  {
    hide WellFormed;
    ForestChain(fat, chains, h);
    OwnedIsUsed(fat, chains[h], |chains[h]| - 1);
    LinkInRange(fat, chains[h], |chains[h]| - 1);
  }

  /** A refusal with an exact count means that no cluster is free. */
  lemma NoneFree(v: Volume, fat: seq<nat>)
    requires v.Valid() && v.fat == fat
    ensures v.freeCount == 0 || v.freeCount == UNKNOWN || FreeCount(fat) == 0 ==> Exact(v) && v.intact ==> FreeCount(fat) == 0
  {
    hide DeviceHolds, Consistent, FreeCount;
    ClusterNumbersFit(v.g);
    FreeCountBound(fat);
  }

  /** Growing appends cleared slots and touches no other chain. */
  lemma GrownSlots(s: Snap, s': Snap, h: nat, ext: seq<nat>, p: nat, slots: seq<Slot>, err: Errno)
    requires WellFormed(s.fat, s.chains) && Laid(s, h, p, slots) && Backed(s', SLOT * p)
    requires GrownBy(s, s', h, ext, SLOT * p, err)
    ensures |s'.data| == |s.data| && OthersKept(s, s', h) && h in s'.chains
    ensures err != EIO ==> Laid(s', h, p, slots + Cleared(Mul(|ext|, p)))
    ensures err == EIO ==>
              && ext != [] && Last(ext) < |s.data| && InOrder(s, ext) && |ToSlots(s.data[Last(ext)])| == p
              && Laid(s', h, p, slots + Cleared(Mul(|ext| - 1, p)) + ToSlots(s.data[Last(ext)]))
  {
    hide Mul, WellFormed, DataKept, Zeroed, DirSlots, FreeCount, OthersKept, Backed, Drawn, HalfCleared, Appended, InOrder, ToSlots;
    GrowthKeepsOthers(s, s', h, ext, SLOT * p);
    KeptLength(s.data, s'.data, ext);
    if err != EIO {
      SlotsGrown(s, s', h, ext, p);
      LongerChain(|s.chains[h]|, |ext|, p);
    } else {
      HalfGrownSlots(s, s', h, ext, p, slots);
    }
  }

  /** The same when the last cluster was not cleared. */
  lemma HalfGrownSlots(s: Snap, s': Snap, h: nat, ext: seq<nat>, p: nat, slots: seq<Slot>)
    requires WellFormed(s.fat, s.chains) && Laid(s, h, p, slots) && Backed(s', SLOT * p)
    requires GrownBy(s, s', h, ext, SLOT * p, EIO)
    ensures ext != [] && Last(ext) < |s.data| && InOrder(s, ext) && |ToSlots(s.data[Last(ext)])| == p
    ensures Laid(s', h, p, slots + Cleared(Mul(|ext| - 1, p)) + ToSlots(s.data[Last(ext)]))
  {
    hide Mul, WellFormed, DataKept, Zeroed, DirSlots, FreeCount, Backed, Drawn, HalfCleared, Appended, InOrder, ToSlots;
    SlotsHalfGrown(s, s', h, ext, p);
    assert |s'.chains[h]| == |s.chains[h]| + |ext|;
    LongerChain(|s.chains[h]|, |ext|, p);
    MulSucc(|ext| - 1, p);
    DrawnInOrder(s, s', ext, |ext| - 1);
  }

  lemma DrawnInOrder(s: Snap, s': Snap, ext: seq<nat>, done: int)
    requires Drawn(s, s', ext, done)
    ensures InOrder(s, ext)
  {
    hide InOrder;
  }

  lemma KeptLength(data: seq<seq<byte>>, data': seq<seq<byte>>, ext: seq<nat>)
    requires DataKept(data, data', ext)
    ensures |data'| == |data|
  {
  }

  lemma LongerChain(a: nat, b: nat, p: nat)
    ensures Mul(a + b, p) == Mul(a, p) + Mul(b, p)
  {
  }

  // ---- the whole operation ----

  /** What a call that failed has left behind `count` cleared slots: nothing, or the slots that the
      cluster held whose allocation failed; it was the next free one. */
  ghost predicate LeftOver(s: Snap, p: nat, count: nat, stale: seq<Slot>) {
    stale == [] || exists ext ::
      ext != [] && InOrder(s, ext) && Last(ext) < |s.data| && count == Mul(|ext| - 1, p) && stale == ToSlots(s.data[Last(ext)])
  }

  /** What `fat32_alloc_fdentry` leaves behind; `ext` is what the directory has grown by.  It grows
      by no more clusters than the entry needs. */
  ghost predicate Allocated(s: Snap, s': Snap, h: nat, p: nat, slots: seq<Slot>, n: nat, err: Errno, offset: nat, ext: seq<nat>) {
    && |s'.data| == |s.data| && OthersKept(s, s', h) && GrownBy(s, s', h, ext, SLOT * p, err)
    && (err != EIO ==> Laid(s', h, p, slots + Cleared(Mul(|ext|, p))))
    && (err == EIO ==>
          && ext != [] && Last(ext) < |s.data| && InOrder(s, ext) && |ToSlots(s.data[Last(ext)])| == p
          && Laid(s', h, p, slots + Cleared(Mul(|ext| - 1, p)) + ToSlots(s.data[Last(ext)])))
    && (err == OK ==>
          var start := FreeRun(slots, 0, 0, n);
          && offset == SLOT * start && start + n <= |slots| + Mul(|ext|, p)
          && (ext != [] ==> |slots| + Mul(|ext| - 1, p) < start + n))
  }

  /** The number of clusters that `fat32_alloc_fdentry` adds. */
  lemma ClustersNeeded(g: Geometry, bytes: nat)
    requires Consistent(g) && 0 < bytes < WORD && bytes % SLOT == 0
    ensures var c := Needed(g, bytes); c > 0 && bytes <= SLOT * Mul(c, PerCluster(g)) && SLOT * Mul(c - 1, PerCluster(g)) < bytes
  {
    hide Mul, Needed;
    SizePositive(g);
    ManyClusters(g.bytesPerCluster);
    NeededExact(g, bytes);
    MulSucc(0, g.bytesPerCluster);
    var c := Needed(g, bytes);
    PerClusterIs(g, c);
    if c > 0 {
      PerClusterIs(g, c - 1);
    }
  }

  lemma ManyClusters(size: nat)
    requires size > 0
    ensures WORD - 1 <= Mul(WORD - 1, size)
  {
  }

  /** `fat32_alloc_fdentry` for a directory that has clusters. */
  method AllocFdentry(v: Volume, dir: Vnode, n: nat, ghost slots: seq<Slot>)
    returns (err: Errno, offset: nat, ghost ext: seq<nat>)
    requires OnDir(v, dir.cluster, slots) && Attached(v, dir) && n > 0 && SLOT * (|slots| + n) < WORD
    modifies v, v.disk
    ensures v.Valid() && WellFormed(v.fat, v.chains) && Attached(v, dir) && (old(Exact(v)) ==> Exact(v))
    ensures Allocated(old(Now(v)), Now(v), dir.cluster, PerCluster(v.g), slots, n, err, offset, ext)
    ensures err == ENOSPC && old(Exact(v)) && v.intact ==> FreeCount(v.fat) == 0
  {
    hide DeviceHolds, Consistent, WellFormed, FreeCount, Mul, Laid, FreeRun, GrownBy, Needed, CacheSound, OthersKept, Backed, Exact,
         InOrder;
    ghost var s, h, p := Now(v), dir.cluster, PerCluster(v.g);
    err, ext := OK, [];
    NothingGrown(s, h, p, slots, v.g.bytesPerCluster);
    var enough, last, size;
    enough, offset, last, size := FindRoom(v, dir.cluster, n, slots);
    if enough {
      return;
    }
    var neededEnd := offset + n * SLOT;
    if neededEnd > size {
      RunWithin(slots, n);
      ClustersNeeded(v.g, neededEnd - size);
      var count := Needed(v.g, neededEnd - size);
      LaidChain(s, h, p, slots);
      err, ext := GrowDir(v, h, last, count);
      NowBacked(v);
      GrownSlots(s, Now(v), h, ext, p, slots, err);
      StillAttached(s, Now(v), h, ext, v.g.bytesPerCluster, err, dir.cache[..]);
    }
  }

  lemma RunWithin(slots: seq<Slot>, n: nat)
    ensures FreeRun(slots, 0, 0, n) <= |slots|
  {
    hide FreeRun;
  }

  lemma NowBacked(v: Volume)
    requires v.Valid() && WellFormed(v.fat, v.chains) && v.g.bytesPerCluster == SLOT * PerCluster(v.g)
    ensures Backed(Now(v), SLOT * PerCluster(v.g))
  {
    hide DeviceHolds, WellFormed, Backed;
    SoundIsBacked(v);
  }

  lemma StillAttached(s: Snap, s': Snap, h: nat, ext: seq<nat>, size: nat, err: Errno, cache: seq<CacheEntry>)
    requires GrownBy(s, s', h, ext, size, err) && CacheSound(cache, ChainOf(s.chains, h))
    ensures h in s'.chains && CacheSound(cache, ChainOf(s'.chains, h))
  {
    hide FreeCount, DataKept, Zeroed, Drawn, HalfCleared, Appended;
    GrowthKeepsSound(cache, s.chains[h], ext);
  }

  lemma NothingGrown(s: Snap, h: nat, p: nat, slots: seq<Slot>, size: nat)
    requires Laid(s, h, p, slots) && WellFormed(s.fat, s.chains)
    ensures OthersKept(s, s, h) && GrownBy(s, s, h, [], size, OK) && Mul(0, p) == 0 && slots + Cleared(0) == slots
    ensures Laid(s, h, p, slots + Cleared(0))
  {
    hide WellFormed, DirSlots, FreeCount, Laid, Drawn, Appended;
    DrawnNothing(s);
    assert slots + Cleared(0) == slots;
    ExtendsNothing(s.fat, s.chains, h) by {
      LaidChain(s, h, p, slots);
    }
    KeptNothing(s.data, size);
  }
}
