/** The in-memory file (fat32fs.h) and its 16-slot cache of chain positions (fat32_cls.c). */
module Vnodes {
  import opened Bytes
  import opened Layout
  import opened Volumes
  import opened Chains
  import opened Clusters
  import opened Contents

  datatype Vtype = VNON | VREG | VDIR

  datatype Flag = Modified | IsRoot | AtimeDirty | MtimeDirty | SizeDirty | ClusterDirty | CtimeDirty | AttrDirty

  const DIRTY: set<Flag> := {AtimeDirty, MtimeDirty, SizeDirty, ClusterDirty, CtimeDirty, AttrDirty}

  datatype Timespec = Timespec(sec: int, nsec: nat)

  /** A remembered position: cluster number `index` of the chain is `cluster`; 0 is an unused slot. */
  datatype CacheEntry = CacheEntry(index: nat, cluster: nat)

  const CACHE_SIZE: nat := 16

  class Vnode {
    var cluster: nat
    var vtype: Vtype
    var mode: nat
    var size: nat
    var atime: Timespec
    var mtime: Timespec
    var ctime: Timespec
    var attr: byte
    var diroff: nat
    var dirsz: nat
    var parentCluster: nat
    var flags: set<Flag>
    const cache: array<CacheEntry>

    /** `fat32_vnode_new`. */
    constructor ()
      ensures fresh(cache) && cache.Length == CACHE_SIZE == 16
      ensures cluster == parentCluster == 0x0FFF_FFF7 && flags == {} && size == mode == diroff == dirsz == 0 && attr == 0
      ensures vtype == VNON && atime == mtime == ctime == Timespec(0, 0)
      ensures forall i :: 0 <= i < CACHE_SIZE ==> cache[i] == CacheEntry(0, 0)
    {
      cluster, parentCluster := BAD, BAD;
      vtype, mode, size, attr, diroff, dirsz, flags := VNON, 0, 0, 0, 0, 0, {};
      atime, mtime, ctime := Timespec(0, 0), Timespec(0, 0), Timespec(0, 0);
      cache := new CacheEntry[CACHE_SIZE](_ => CacheEntry(0, 0));
    }
  }

  // ---- the cache as a value ----

  /** Every used slot names the cluster that the chain has at that position. */
  predicate CacheSound(cache: seq<CacheEntry>, chain: seq<nat>) {
    forall i :: 0 <= i < |cache| && cache[i].cluster != 0 ==>
      cache[i].index < |chain| && chain[cache[i].index] == cache[i].cluster
  }

  /** The slot that gives way: the first unused one or one for the same index, else slot 0. */
  function Victim(cache: seq<CacheEntry>, index: nat, i: nat): (k: nat)
    requires i <= |cache|
    ensures |cache| > 0 ==> k < |cache|
    decreases |cache| - i
  {
    if i == |cache| then 0
    else if cache[i].cluster == 0 || cache[i].index == index then i
    else Victim(cache, index, i + 1)
  }

  /** The cache after the least recently used slot gave way to a new entry at the end. */
  function Inserted(cache: seq<CacheEntry>, index: nat, cluster: nat): (cache': seq<CacheEntry>)
    requires |cache| > 0
    ensures |cache'| == |cache|
  {
    var k := Victim(cache, index, 0);
    cache[..k] + cache[k + 1..] + [CacheEntry(index, cluster)]
  }

  /** Inserting a true position keeps the cache sound; entries move but none is invented. */
  lemma InsertKeepsSound(cache: seq<CacheEntry>, chain: seq<nat>, index: nat, cluster: nat)
    requires |cache| > 0 && CacheSound(cache, chain)
    requires cluster != 0 ==> index < |chain| && chain[index] == cluster
    ensures CacheSound(Inserted(cache, index, cluster), chain)
  {
    var k := Victim(cache, index, 0);
    var cache' := Inserted(cache, index, cluster);
    forall i | 0 <= i < |cache'| && cache'[i].cluster != 0
      ensures cache'[i].index < |chain| && chain[cache'[i].index] == cache'[i].cluster
    {
      if i < k {
        assert cache'[i] == cache[i];
      } else if i < |cache| - 1 {
        assert cache'[i] == cache[i + 1];
      }
    }
  }

  /** A chain that only grows keeps the cache sound. */
  lemma GrowthKeepsSound(cache: seq<CacheEntry>, chain: seq<nat>, ext: seq<nat>)
    requires CacheSound(cache, chain)
    ensures CacheSound(cache, chain + ext)
  {
  }

  /** The cache after dropping every position from `n` on. */
  function Trimmed(cache: seq<CacheEntry>, n: nat): (cache': seq<CacheEntry>)
    ensures |cache'| == |cache|
    ensures forall i :: 0 <= i < |cache| ==>
              cache'[i] == if cache[i].cluster != 0 && cache[i].index >= n then cache[i].(cluster := 0) else cache[i]
  {
    seq(|cache|, i requires 0 <= i < |cache| =>
      if cache[i].cluster != 0 && cache[i].index >= n then cache[i].(cluster := 0) else cache[i])
  }

  /** Cutting the chain keeps the cache sound once the positions behind the cut are dropped. */
  lemma CutKeepsSound(cache: seq<CacheEntry>, chain: seq<nat>, n: nat)
    requires CacheSound(cache, chain) && n <= |chain|
    ensures CacheSound(Trimmed(cache, n), chain[..n])
  {
  }

  /** Without dropping them, an entry behind the cut would be wrong. */
  lemma TrimIsNeeded(cache: seq<CacheEntry>, chain: seq<nat>, n: nat)
    requires CacheSound(cache, chain) && n <= |chain|
    ensures CacheSound(cache, chain[..n]) <==> Trimmed(cache, n) == cache
  {
    if Trimmed(cache, n) == cache {
      CutKeepsSound(cache, chain, n);
    }
    if CacheSound(cache, chain[..n]) {
      assert forall i :: 0 <= i < |cache| ==> Trimmed(cache, n)[i] == cache[i];
    }
  }

  lemma ShiftIsInsert(cache: seq<CacheEntry>, after: seq<CacheEntry>, k: nat, index: nat, cluster: nat)
    requires |after| == |cache| > 0 && k == Victim(cache, index, 0)
    requires forall j :: 0 <= j < k && j < |cache| - 1 ==> after[j] == cache[j]
    requires forall j :: k <= j < |cache| - 1 ==> after[j] == cache[j + 1]
    requires after[|cache| - 1] == CacheEntry(index, cluster)
    ensures after == Inserted(cache, index, cluster)
  {
  }

  // ---- the cache in place ----

  /** `fat32_vnode_update_cache`. */
  method UpdateCache(fv: Vnode, index: nat, cluster: nat)
    requires fv.cache.Length == CACHE_SIZE
    modifies fv.cache
    ensures fv.cache[..] == Inserted(old(fv.cache[..]), index, cluster)
  {
    hide Inserted;
    ghost var cache := fv.cache[..];
    var emptySlot := -1;
    var i := 0;
    while i < CACHE_SIZE
      invariant 0 <= i <= CACHE_SIZE && emptySlot == -1
      invariant Victim(cache, index, 0) == Victim(cache, index, i)
      invariant fv.cache[..] == cache
    {
      if fv.cache[i].cluster == 0 || fv.cache[i].index == index {
        emptySlot := i;
        break;
      }
      i := i + 1;
    }
    var lruSlot := if emptySlot != -1 then emptySlot else 0;
    assert lruSlot == Victim(cache, index, 0);
    if lruSlot < CACHE_SIZE - 1 {
      i := lruSlot;
      while i < CACHE_SIZE - 1
        invariant lruSlot <= i <= CACHE_SIZE - 1
        invariant forall j :: 0 <= j < lruSlot ==> fv.cache[j] == cache[j]
        invariant forall j :: lruSlot <= j < i ==> fv.cache[j] == cache[j + 1]
        invariant forall j :: i <= j < CACHE_SIZE ==> fv.cache[j] == cache[j]
      {
        fv.cache[i] := fv.cache[i + 1];
        i := i + 1;
      }
    }
    fv.cache[CACHE_SIZE - 1] := CacheEntry(index, cluster);
    ShiftIsInsert(cache, fv.cache[..], lruSlot, index, cluster);
  }

  /** The vnode's chain and cache fit the volume. */
  ghost predicate Attached(v: Volume, fv: Vnode)
    reads v`chains, fv`cluster, fv.cache
  {
    && fv.cache.Length == CACHE_SIZE
    && (fv.cluster == 0 || fv.cluster in v.chains)
    && CacheSound(fv.cache[..], ChainOf(v.chains, fv.cluster))
  }

  /** `fat32_vnode_seek_cluster`: the nearest cached position at or before the target is used, and
      the outcome is that of a plain seek from the first cluster. */
  method VnodeSeek(v: Volume, fv: Vnode, skip: nat, alloc: bool, clear: bool)
    returns (err: Errno, result: nat, ghost ext: seq<nat>)
    requires v.Valid() && WellFormed(v.fat, v.chains) && Attached(v, fv)
    requires alloc ==> fv.cluster in v.chains
    modifies v, v.disk, fv.cache
    ensures v.Valid() && WellFormed(v.fat, v.chains) && Attached(v, fv) && (v.intact ==> old(v.intact))
    ensures old(Exact(v)) ==> Exact(v)
    ensures !alloc ==> Now(v) == old(Now(v))
    ensures !alloc ==> err == SeekResult(v.fat, fv.cluster, skip).0
                       && (err == OK ==> result == SeekResult(v.fat, fv.cluster, skip).1)
    ensures alloc ==> SeekOutcome(old(Now(v)), Now(v), fv.cluster, skip, clear, v.g.bytesPerCluster, err, result, ext)
    ensures alloc && err == ENOSPC && old(Exact(v)) && v.intact ==> FreeCount(v.fat) == 0
    ensures fv.cache[..] == if err == OK then Inserted(old(fv.cache[..]), skip, result) else old(fv.cache[..])
  {
    hide DeviceHolds, Consistent, WellFormed, FreeCount, Extends, SeekResult, DataKept, Zeroed, IsChain, Inserted;
    result, ext := 0, [];
    ghost var h, chain := fv.cluster, ChainOf(v.chains, fv.cluster);
    if h in v.chains {
      ForestChain(v.fat, v.chains, h);
    }
    var bestIndex: nat, bestCluster: nat := 0, fv.cluster;
    var i := 0;
    while i < CACHE_SIZE
      invariant 0 <= i <= CACHE_SIZE && bestIndex <= skip
      invariant bestIndex == 0 ==> bestCluster == fv.cluster
      invariant bestIndex > 0 ==> bestIndex < |chain| && chain[bestIndex] == bestCluster
    {
      if fv.cache[i].cluster != 0 && fv.cache[i].index <= skip && fv.cache[i].index > bestIndex {
        assert fv.cache[..][i] == fv.cache[i];
        bestIndex := fv.cache[i].index;
        bestCluster := fv.cache[i].cluster;
      }
      i := i + 1;
    }
    var remaining := skip - bestIndex;
    ghost var cache := fv.cache[..];
    CachedSeek(v.fat, v.chains, h, bestIndex, bestCluster, skip);
    var found := bestCluster;
    if alloc {
      ExtendsNothing(v.fat, v.chains, h);
      KeptNothing(v.data, v.g.bytesPerCluster);
    }
    if remaining > 0 {
      err, found, ext := SeekCluster(v, bestCluster, remaining, alloc, clear, h, bestIndex);
      SeekKeepsSound(old(Now(v)), Now(v), h, ext, cache, alloc);
      if err != OK {
        return;
      }
    }
    SoundTarget(v.fat, v.chains, h, skip, found, alloc);
    InsertKeepsSound(fv.cache[..], ChainOf(v.chains, h), skip, found);
    UpdateCache(fv, skip, found);
    return OK, found, ext;
  }

  /** The cached and the plain seek, from the same state of two volumes: unless FSInfo cannot be read
      they have the same result and leave the same FAT, chains, cluster contents, count and hint. */
  method CachedSeekIsPlain(v: Volume, w: Volume, fv: Vnode, skip: nat, alloc: bool, clear: bool)
    returns (err: Errno, result: nat, plainErr: Errno, plainResult: nat)
    requires v != w && v.disk != w.disk && v.g == w.g && v.Valid() && w.Valid() && Now(v) == Now(w)
    requires WellFormed(v.fat, v.chains) && Attached(v, fv) && (alloc ==> fv.cluster in v.chains)
    modifies v, v.disk, w, w.disk, fv.cache
    ensures err != EIO && plainErr != EIO ==> err == plainErr && Now(v) == Now(w) && (err == OK ==> result == plainResult)
  {
    hide DeviceHolds, Consistent, WellFormed, SeekResult, SeekOutcome, IsChain, CacheSound;
    ghost var s, h := Now(v), fv.cluster;
    if alloc {
      ForestChain(v.fat, v.chains, h);
    }
    ghost var ext, plainExt;
    err, result, ext := VnodeSeek(v, fv, skip, alloc, clear);
    plainErr, plainResult, plainExt := SeekCluster(w, fv.cluster, skip, alloc, clear, h, 0);
    if alloc {
      SeekDetermined(s, Now(v), Now(w), h, skip, clear, v.g.bytesPerCluster, err, result, ext, plainErr, plainResult, plainExt);
    }
  }

  /** From any true position of the chain a plain seek arrives where a seek from the start does. */
  lemma CachedSeek(fat: seq<nat>, chains: Forest, h: nat, index: nat, cluster: nat, skip: nat)
    requires WellFormed(fat, chains) && (h == 0 || h in chains) && index <= skip
    requires index == 0 ==> cluster == h
    requires index > 0 ==> At(chains, h, index, cluster)
    ensures h in chains ==> At(chains, h, index, cluster)
    ensures SeekResult(fat, cluster, skip - index).0 == SeekResult(fat, h, skip).0
    ensures index == skip ==> SeekResult(fat, h, skip) == (OK, cluster)
    ensures SeekResult(fat, h, skip).0 == OK ==> SeekResult(fat, cluster, skip - index).1 == SeekResult(fat, h, skip).1
  {
    hide WellFormed;
    if h in chains {
      ForestChain(fat, chains, h);
      SeekOnChain(fat, chains, h, 0, skip);
      SeekOnChain(fat, chains, h, index, skip - index);
    }
  }

  lemma SeekKeepsSound(s: Snap, s': Snap, h: nat, ext: seq<nat>, cache: seq<CacheEntry>, alloc: bool)
    requires CacheSound(cache, ChainOf(s.chains, h))
    requires if alloc then Extends(s.fat, s.chains, s'.fat, s'.chains, h, ext) else s' == s
    ensures CacheSound(cache, ChainOf(s'.chains, h))
    ensures alloc ==> h in s'.chains
  {
    if alloc {
      GrowthKeepsSound(cache, s.chains[h], ext);
    }
  }

  lemma SoundTarget(fat: seq<nat>, chains: Forest, h: nat, skip: nat, found: nat, alloc: bool)
    requires WellFormed(fat, chains) && (h == 0 || h in chains)
    requires if alloc then At(chains, h, skip, found) else SeekResult(fat, h, skip) == (OK, found)
    ensures found != 0 ==> skip < |ChainOf(chains, h)| && ChainOf(chains, h)[skip] == found
  {
    hide WellFormed;
    if !alloc && h in chains {
      ForestChain(fat, chains, h);
      SeekOnChain(fat, chains, h, 0, skip);
    }
  }
}
