/** Changing the length of a file (fat32_file.c) and reading and writing its bytes
    (fat32_vnode.c). */
module Files {
  import opened Bytes
  import opened Layout
  import opened Volumes
  import opened Chains
  import opened Clusters
  import opened Contents
  import opened Vnodes

  // ---- how many clusters a size needs ----

  /** `n` clusters of `size` bytes are just enough for `bytes` bytes. */
  predicate IsCeil(n: nat, bytes: nat, size: nat) {
    bytes <= Mul(n, size) && (n > 0 ==> Mul(n - 1, size) < bytes)
  }

  /** The number that `fat32_truncate` computes, cut to 32 bits. */
  function Needed(g: Geometry, bytes: nat): nat
    requires g.bytesPerCluster > 0
  {
    if bytes == 0 then 0 else U32(Shr(bytes + g.bytesPerCluster - 1, g.clusterShift))
  }

  /** It is the right number exactly when the size fits in 2^32 - 1 clusters. */
  lemma NeededExact(g: Geometry, bytes: nat)
    requires Consistent(g)
    ensures IsCeil(Needed(g, bytes), bytes, g.bytesPerCluster) <==> bytes <= Mul(WORD - 1, g.bytesPerCluster)
  {
    hide Mul, Shr, And, U32;
    var size := g.bytesPerCluster;
    MulSucc(0, size);
    var n := NeededBeforeCut(g, bytes);
    U32Cut(n);
    if n < WORD {
      MulMonotone(n, WORD - 1, size);
    } else {
      MulMonotone(WORD - 1, n - 1, size);
      if IsCeil(U32(n), bytes, size) {
        MulMonotone(U32(n), n - 1, size);
      }
    }
  }

  lemma U32Cut(n: nat)
    ensures n < WORD ==> U32(n) == n
    ensures U32(n) < WORD
  {
  }

  lemma NeededBeforeCut(g: Geometry, bytes: nat) returns (n: nat)
    requires Consistent(g)
    ensures IsCeil(n, bytes, g.bytesPerCluster) && Needed(g, bytes) == U32(n)
  {
    hide Mul, Shr, And;
    if bytes == 0 {
      n := 0;
      MulSucc(0, g.bytesPerCluster);
      U32Cut(0);
    } else {
      var r;
      n, r := SplitOffset(g, bytes + g.bytesPerCluster - 1);
      MulSucc(0, g.bytesPerCluster);
      if n > 0 {
        MulSucc(n - 1, g.bytesPerCluster);
      }
    }
  }

  /** Beyond that bound a file can be cut short by extending it: one byte more than 2^32 - 1 clusters
      need none, and one byte more than 2^32 clusters need one. */
  lemma NeededWraps(g: Geometry)
    requires Consistent(g)
    ensures Needed(g, Mul(WORD - 1, g.bytesPerCluster) + 1) == 0
    ensures Needed(g, Mul(WORD, g.bytesPerCluster) + 1) == 1
  {
    hide Mul, Shr, And, Consistent;
    var size := g.bytesPerCluster;
    PositiveCluster(g);
    MulSucc(WORD - 1, size);
    MulSucc(WORD, size);
    CeilOf(g, Mul(WORD - 1, size) + 1, WORD);
    CeilOf(g, Mul(WORD, size) + 1, WORD + 1);
  }

  lemma CeilOf(g: Geometry, bytes: nat, n: nat)
    requires Consistent(g) && IsCeil(n, bytes, g.bytesPerCluster)
    ensures Needed(g, bytes) == U32(n)
  {
    hide Mul, Shr, And, U32, Consistent;
    var size := g.bytesPerCluster;
    var m := NeededBeforeCut(g, bytes);
    if m < n {
      MulMonotone(m, n - 1, size);
    } else if n < m {
      MulMonotone(n, m - 1, size);
    }
  }

  // ---- truncate ----

  /** A file never claims more bytes than its chain has room for. */
  ghost predicate Fits(v: Volume, fv: Vnode)
    reads v`chains, fv`cluster, fv`size, fv.cache
  {
    Attached(v, fv) && fv.size <= Mul(|ChainOf(v.chains, fv.cluster)|, v.g.bytesPerCluster)
  }

  /** The size that ends up in the 32 bits of a directory entry always fits the clusters. */
  lemma CutSizeFits(g: Geometry, bytes: nat)
    requires Consistent(g) && Needed(g, bytes) > 0
    ensures bytes % WORD <= Mul(Needed(g, bytes), g.bytesPerCluster)
  {
    hide Shr, And, Needed;
    var size := g.bytesPerCluster;
    var n := NeededBeforeCut(g, bytes);
    var q, r := n / WORD, n % WORD;
    assert r == Needed(g, bytes) && n == q * WORD + r;
    CutSplit(q, r, size, bytes);
  }

  lemma CutSplit(q: nat, r: nat, size: nat, bytes: nat)
    requires r > 0 && (q * WORD + r - 1) * size < bytes <= (q * WORD + r) * size
    ensures bytes % WORD <= r * size
  {
    var w := q * size;
    assert (q * WORD + r) * size == w * WORD + r * size;
    assert (q * WORD + r - 1) * size == w * WORD + (r - 1) * size;
    var k := bytes - w * WORD;
    assert 0 <= k <= r * size;
    CutMultiple(k, w);
  }

  lemma CutMultiple(k: nat, w: nat)
    ensures (k + w * WORD) % WORD == k % WORD <= k
  {
  }

  /** A file of `size` bytes after a truncation to `bytes`: it fits its clusters exactly if the size
      does not exceed 2^32 - 1 clusters, and its low 32 bits fit in any case. */
  lemma FitsNeeded(g: Geometry, bytes: nat, size: nat)
    requires Consistent(g) && (size == 0 || (size == bytes && Needed(g, bytes) > 0))
    ensures size <= Mul(Needed(g, bytes), g.bytesPerCluster) <==> size <= Mul(WORD - 1, g.bytesPerCluster)
    ensures size % WORD <= Mul(Needed(g, bytes), g.bytesPerCluster)
  {
    hide Mul, Needed, Consistent;
    PositiveCluster(g);
    if size > 0 {
      NeededExact(g, bytes);
      NeededBelow(g, bytes);
      MulMonotone(Needed(g, bytes), WORD - 1, g.bytesPerCluster);
      CutSizeFits(g, bytes);
    }
  }

  lemma NeededBelow(g: Geometry, bytes: nat)
    requires Consistent(g)
    ensures Needed(g, bytes) < WORD
  {
    hide Shr, U32, Consistent;
    PositiveCluster(g);
    U32Cut(Shr(bytes + g.bytesPerCluster - 1, g.clusterShift));
  }

  /** The first cluster of an empty file. */
  method AllocateFirst(v: Volume, fv: Vnode, clear: bool) returns (err: Errno, ghost took: nat)
    requires v.Valid() && WellFormed(v.fat, v.chains) && Attached(v, fv) && fv.cluster == 0
    modifies v, v.disk, fv`cluster
    ensures v.Valid() && WellFormed(v.fat, v.chains) && Attached(v, fv) && (v.intact ==> old(v.intact))
    ensures old(Exact(v)) ==> Exact(v)
    ensures OthersKept(old(Now(v)), Now(v), 0) && |v.data| == |old(v.data)|
    ensures err == OK || err == ENOSPC || err == EIO
    ensures err != ENOSPC ==> Took(old(Now(v)), Now(v), took, err) && v.fat == old(v.fat)[took := EOC]
    ensures err == OK ==> took == fv.cluster
    ensures err == OK ==> fv.cluster != 0 && fv.cluster !in old(v.chains) && v.chains == old(v.chains)[fv.cluster := [fv.cluster]]
    ensures err == OK ==> FreeCount(v.fat) + 1 == FreeCount(old(v.fat)) && v.intact == old(v.intact)
    ensures err != OK ==> fv.cluster == 0
    ensures err == ENOSPC ==> Now(v) == old(Now(v)) && (old(Exact(v)) && v.intact ==> FreeCount(v.fat) == 0)
    ensures err == EIO ==> !v.intact
    ensures !clear ==> v.data == old(v.data)
    ensures clear && err == OK ==> fv.cluster < |v.data| && v.data == old(v.data)[fv.cluster := Zeros(v.g.bytesPerCluster)]
  {
    hide DeviceHolds, Consistent, WellFormed, FreeCount, IsChain;
    ghost var s := Now(v);
    var c;
    ClusterNumbersFit(v.g);
    FreeCountBound(v.fat);
    ZeroIsNoChain(v.fat, v.chains);
    err, c, took := NextCluster(v, 0, true, clear);
    if err == OK || err == EIO {
      FreeIsUnowned(s.fat, s.chains, took);
      LinkCount(s.fat, 0, took);
      BirthKeepsOthers(s, Now(v), took);
    }
    if err == OK {
      fv.cluster := c;
      NothingCached(fv.cache[..], [c]);
    }
  }

  lemma ZeroIsNoChain(fat: seq<nat>, chains: Forest)
    requires WellFormed(fat, chains)
    ensures 0 !in chains
  {
    hide WellFormed;
    if 0 in chains {
      ForestChain(fat, chains, 0);
    }
  }

  lemma NothingCached(cache: seq<CacheEntry>, chain: seq<nat>)
    requires CacheSound(cache, [])
    ensures CacheSound(cache, chain)
  {
  }

  lemma BirthKeepsOthers(s: Snap, s': Snap, c: nat)
    requires !IsOwned(s.chains, c) && c !in s.chains && s'.chains == s.chains[c := [c]] && |s'.data| == |s.data|
    requires forall x: nat :: x < |s.data| && x != c ==> s'.data[x] == s.data[x]
    ensures OthersKept(s, s', 0)
  {
    forall k, x | k in s.chains && x in s.chains[k] && x < |s.data|
      ensures s'.data[x] == s.data[x]
    {
    }
  }

  /** The loop of `fat32_truncate` that drops cache entries behind the new end. */
  method TrimCache(fv: Vnode, n: nat)
    requires fv.cache.Length == CACHE_SIZE
    modifies fv.cache
    ensures fv.cache[..] == Trimmed(old(fv.cache[..]), n)
  {
    ghost var cache := fv.cache[..];
    var i := 0;
    while i < CACHE_SIZE
      invariant 0 <= i <= CACHE_SIZE
      invariant forall j :: 0 <= j < i ==> fv.cache[j] == Trimmed(cache, n)[j]
      invariant forall j :: i <= j < CACHE_SIZE ==> fv.cache[j] == cache[j]
    {
      if fv.cache[i].cluster != 0 && fv.cache[i].index >= n {
        fv.cache[i] := fv.cache[i].(cluster := 0);
      }
      i := i + 1;
    }
  }

  /** `bzero` of the whole cache. */
  method ClearCache(fv: Vnode)
    requires fv.cache.Length == CACHE_SIZE
    modifies fv.cache
    ensures forall i :: 0 <= i < CACHE_SIZE ==> fv.cache[i] == CacheEntry(0, 0)
  {
    forall i | 0 <= i < CACHE_SIZE {
      fv.cache[i] := CacheEntry(0, 0);
    }
  }

  /** One of two chains is an initial part of the other. */
  predicate OneExtendsOther(s: seq<nat>, t: seq<nat>) {
    s <= t || t <= s
  }

  /** A file with chain `old'` has gained the clusters `ext`, the next free ones, and nothing else has
      changed in the FAT.  After EIO the last of them may be on no chain: then it was to be the first
      of an empty file. */
  ghost predicate Gained(s: Snap, s': Snap, old': seq<nat>, new': seq<nat>, ext: seq<nat>, err: Errno) {
    && Appended(s.fat, s'.fat, old', ext) && Drawn(s, s', ext, if err == EIO then |ext| - 1 else |ext|)
    && (new' == old' + ext || (err == EIO && old' == new' == [] && |ext| == 1))
  }

  /** What the clusters hold has no part in that. */
  lemma GainedData(s: Snap, s1: Snap, s': Snap, chain: seq<nat>, chain': seq<nat>, ext: seq<nat>, err: Errno)
    requires Gained(s, s1, chain, chain', ext, err) && s' == s1.(data := s'.data)
    ensures Gained(s, s', chain, chain', ext, err)
  {
    hide Appended, InOrder;
  }

  /** A file with chain `old'` keeps its first `n` clusters; the others are free, and nothing else has
      changed in the FAT. */
  ghost predicate Released(fat: seq<nat>, fat': seq<nat>, old': seq<nat>, n: nat) {
    n < |old'| && ChainInRange(fat, old') && fat' == if n == 0 then FreeAll(fat, old') else CutAt(fat, old', n)
  }

  /** The last cluster of a chain, if it has one, is in use. */
  ghost predicate Ends(fat: seq<nat>, chain: seq<nat>) {
    chain != [] ==> In(fat, Last(chain)) && fat[Last(chain)] != FREE
  }

  lemma ChainEnds(fat: seq<nat>, chains: Forest, h: nat)
    requires WellFormed(fat, chains)
    ensures Ends(fat, ChainOf(chains, h))
  {
    hide WellFormed;
    if h in chains {
      ForestChain(fat, chains, h);
      OwnedIsUsed(fat, chains[h], |chains[h]| - 1);
    }
  }

  /** One more cluster behind a chain that was `chain` and has gained the clusters `ext`. */
  lemma GainedMore(s0: Snap, s: Snap, s': Snap, chain: seq<nat>, h: nat, ext: seq<nat>, c: nat, err: Errno)
    requires WellFormed(s.fat, s.chains) && h in s.chains && Gained(s0, s, chain, s.chains[h], ext, OK)
    requires Ends(s0.fat, chain) && (err == OK || err == EIO) && Took(s, s', c, err)
    requires Grew(s.fat, s.chains, s'.fat, s'.chains, Last(s.chains[h]), c)
    ensures Gained(s0, s', chain, ChainOf(s'.chains, h), ext + [c], err)
  {
    hide WellFormed, IsChain, Appended, Drawn, Distinct, Took;
    ForestChain(s.fat, s.chains, h);
    var last := Last(s.chains[h]);
    OwnedIsUsed(s.fat, s.chains[h], |s.chains[h]| - 1);
    FreeIsUnowned(s.fat, s.chains, c);
    assert last in s.chains[h] && c !in s.chains[h];
    if chain == [] {
      assert s.chains[h] == ext;
    } else {
      DistinctParts(chain, ext);
    }
    AppendedMore(s0.fat, s.fat, chain, ext, last, c);
    DrawnMore(s0, s, s', chain, ext, c, err);
    assert chain + (ext + [c]) == chain + ext + [c];
  }

  /** What `fat32_truncate` leaves behind.  `n` is the needed number of clusters, `old` and `new`
      are the chains before and after. */
  ghost predicate TruncateOutcome(s: Snap, s': Snap, old': seq<nat>, new': seq<nat>, n: nat, err: Errno) {
    && (err == OK || err == ENOSPC || err == EIO)
    && (err == OK ==> |new'| == n && OneExtendsOther(old', new'))
    && (err != OK ==> n > 0 && old' <= new' && |new'| <= n)
    && (if |new'| < |old'| then Released(s.fat, s'.fat, old', n) else exists ext :: Gained(s, s', old', new', ext, err))
    && (err != EIO ==> FreeCount(s'.fat) + |new'| == FreeCount(s.fat) + |old'|)
    && (err == EIO ==> !s'.intact)
    && (new' <= old' || err != OK || s'.intact == s.intact)
  }

  /** The clusters that chain `chain'` has behind `chain` are cleared, and no other has changed. */
  ghost predicate Swept(data: seq<seq<byte>>, data': seq<seq<byte>>, chain: seq<nat>, chain': seq<nat>, size: nat) {
    && |chain| <= |chain'| && |data'| == |data|
    && forall c: nat :: c < |data| ==> data'[c] == if c in chain'[|chain|..] then Zeros(size) else data[c]
  }

  lemma SeekSweeps(s: Snap, s1: Snap, s': Snap, h0: nat, h: nat, n: nat, size: nat, err: Errno, cluster: nat, ext: seq<nat>)
    requires n > 0 && SeekOutcome(s1, s', h, n - 1, true, size, err, cluster, ext) && err != EIO && 0 !in s.chains
    requires if h0 == 0
             then h !in s.chains && s1.chains == s.chains[h := [h]] && h < |s1.data| == |s.data| && s1.data == s.data[h := Zeros(size)]
             else h == h0 && s1 == s
    ensures Swept(s.data, s'.data, ChainOf(s.chains, h0), ChainOf(s'.chains, h), size)
  {
    hide FreeCount, Drawn, Appended;
    var chain, chain' := ChainOf(s.chains, h0), ChainOf(s'.chains, h);
    var t := chain'[|chain|..];
    if h0 == 0 {
      assert t == [h] + ext;
    } else {
      assert t == ext;
    }
  }

  ghost predicate SweptIfLonger(data: seq<seq<byte>>, data': seq<seq<byte>>, chain: seq<nat>, chain': seq<nat>, size: nat) {
    if |chain'| < |chain| then data' == data else Swept(data, data', chain, chain', size)
  }

  lemma SweptCut(data: seq<seq<byte>>, data': seq<seq<byte>>, chain: seq<nat>, mid: seq<nat>, n: nat, size: nat)
    requires Swept(data, data', chain, mid, size) && |mid| == if |chain| < n then n else |chain|
    ensures SweptIfLonger(data, data', chain, mid[..n], size)
  {
    assert n >= |chain| ==> mid[..n] == mid;
  }

  lemma NothingSwept(data: seq<seq<byte>>, chain: seq<nat>, size: nat)
    ensures SweptIfLonger(data, data, chain, [], size)
  {
  }

  lemma GrownLength(s: Snap, s': Snap, chain: seq<nat>, chain': seq<nat>, n: nat)
    requires Grown(s, s', chain, chain', n, OK)
    ensures |chain'| == if |chain| < n then n else |chain|
  {
    hide FreeCount, Gained;
  }

  /** The allocating half of `fat32_truncate`, and the opening of `fat32_write`: the first cluster
      if there is none, then a seek to cluster number `n - 1`. */
  method GrowTo(v: Volume, fv: Vnode, n: nat) returns (err: Errno, cluster: nat)
    requires v.Valid() && WellFormed(v.fat, v.chains) && Attached(v, fv) && n > 0
    modifies v, v.disk, fv`cluster, fv`flags, fv.cache
    ensures v.Valid() && WellFormed(v.fat, v.chains) && Attached(v, fv) && (v.intact ==> old(v.intact))
    ensures old(Exact(v)) ==> Exact(v)
    ensures |v.data| == |old(v.data)| && OthersKept(old(Now(v)), Now(v), old(fv.cluster))
    ensures fv.vtype != VDIR ==> v.data == old(v.data)
    ensures fv.vtype == VDIR && err == OK ==>
              Swept(old(v.data), v.data, old(ChainOf(v.chains, fv.cluster)), ChainOf(v.chains, fv.cluster), v.g.bytesPerCluster)
    ensures Grown(old(Now(v)), Now(v), old(ChainOf(v.chains, fv.cluster)), ChainOf(v.chains, fv.cluster), n, err)
    ensures err == OK ==> At(v.chains, fv.cluster, n - 1, cluster)
    ensures fv.cluster == old(fv.cluster) || (old(fv.cluster) == 0 && fv.cluster !in old(v.chains))
    ensures err == ENOSPC && old(Exact(v)) && v.intact ==> FreeCount(v.fat) == 0
    ensures fv.flags == old(fv.flags) + (if fv.cluster != old(fv.cluster) then {ClusterDirty, Modified} else {})
  {
    hide DeviceHolds, Consistent, WellFormed, FreeCount, IsChain, SeekOutcome, Grown, OthersKept, Took, Swept;
    ghost var s, chain := Now(v), ChainOf(v.chains, fv.cluster);
    ghost var h0, took := fv.cluster, 0;
    ZeroIsNoChain(v.fat, v.chains);
    var clear := fv.vtype == VDIR;
    cluster, err := 0, OK;
    OthersKeptNow(s, h0);
    if fv.cluster == 0 {
      err, took := AllocateFirst(v, fv, clear);
      if err != OK {
        ZeroIsNoChain(v.fat, v.chains);
        NotGrown(s, Now(v), n, took, err);
        return;
      }
      fv.flags := fv.flags + {ClusterDirty, Modified};
    }
    ghost var s1 := Now(v);
    ghost var ext;
    SoundIsBacked(v);
    err, cluster, ext := VnodeSeek(v, fv, n - 1, true, clear);
    SoundIsBacked(v);
    SeekGrows(s, s1, Now(v), h0, fv.cluster, n, clear, v.g.bytesPerCluster, err, cluster, ext);
    if clear && err == OK {
      SeekSweeps(s, s1, Now(v), h0, fv.cluster, n, v.g.bytesPerCluster, err, cluster, ext);
    }
  }

  /** The chain `new'` of a file that had chain `old'` and was to reach `n` clusters. */
  ghost predicate Grown(s: Snap, s': Snap, old': seq<nat>, new': seq<nat>, n: nat, err: Errno) {
    && (err == OK || err == ENOSPC || err == EIO)
    && old' <= new'
    && (err == OK ==> |new'| == (if |old'| < n then n else |old'|) && s'.intact == s.intact)
    && (err != OK ==> |old'| <= n && |new'| <= n)
    && (exists ext :: Gained(s, s', old', new', ext, err))
    && (err != EIO ==> FreeCount(s'.fat) + |new'| == FreeCount(s.fat) + |old'|)
    && (err == EIO ==> !s'.intact)
  }

  lemma OthersKeptNow(s: Snap, h: nat)
    ensures OthersKept(s, s, h)
  {
  }

  lemma NotGrown(s: Snap, s': Snap, n: nat, took: nat, err: Errno)
    requires err == ENOSPC || err == EIO
    requires (err == ENOSPC ==> s' == s) && (err == EIO ==> !s'.intact && Took(s, s', took, err) && s'.fat == s.fat[took := EOC])
    ensures Grown(s, s', [], [], n, err)
  {
    hide Appended, Drawn;
    if err == EIO {
      DrawnOne(s, s', took, err);
      AppendedOne(s.fat, took);
      assert Gained(s, s', [], [], [took], err);
    } else {
      DrawnNothing(s);
      AppendedNothing(s.fat, []);
      assert Gained(s, s', [], [], [], err);
    }
  }

  /** The clusters gained by a seek, and by a first cluster before it if the file had none. */
  lemma SeekGains(s: Snap, s1: Snap, s': Snap, h0: nat, h: nat, n: nat, clear: bool, size: nat,
                  err: Errno, cluster: nat, ext: seq<nat>)
    requires n > 0 && SeekOutcome(s1, s', h, n - 1, clear, size, err, cluster, ext) && 0 !in s.chains
    requires if h0 == 0
             then h !in s.chains && s1.chains == s.chains[h := [h]] && Took(s, s1, h, OK) && s1.fat == s.fat[h := EOC]
             else h == h0 && s1 == s
    ensures exists all :: Gained(s, s', ChainOf(s.chains, h0), ChainOf(s'.chains, h), all, err)
  {
    hide FreeCount, Zeroed, Appended, Drawn, Took, DataKept;
    var done := if err == EIO then |ext| - 1 else |ext|;
    if h0 == 0 {
      assert s1.chains[h] == [h];
      assert In(s.fat, h) && s.fat[h] == FREE by {
        TookFree(s, s1, h);
      }
      AppendedFirst(s.fat, s1.fat, s'.fat, h, ext);
      DrawnFirst(s, s1, s', h, ext, done);
      assert ChainOf(s'.chains, h) == [] + ([h] + ext);
      assert ChainOf(s.chains, h0) == [];
      assert Gained(s, s', ChainOf(s.chains, h0), ChainOf(s'.chains, h), [h] + ext, err);
    } else {
      assert ChainOf(s'.chains, h) == s.chains[h] + ext;
      assert Gained(s, s', ChainOf(s.chains, h0), ChainOf(s'.chains, h), ext, err);
    }
  }

  lemma TookFree(s: Snap, s': Snap, c: nat)
    requires Took(s, s', c, OK)
    ensures In(s.fat, c) && s.fat[c] == FREE
  {
  }

  /** `s1` is `s`, or `s` with a first cluster `h` for a file that had none (`h0` is 0). */
  lemma SeekGrows(s: Snap, s1: Snap, s': Snap, h0: nat, h: nat, n: nat, clear: bool, size: nat,
                  err: Errno, cluster: nat, ext: seq<nat>)
    requires n > 0 && WellFormed(s1.fat, s1.chains) && Backed(s1, size) && Backed(s', size)
    requires SeekOutcome(s1, s', h, n - 1, clear, size, err, cluster, ext)
    requires |s.data| == |s1.data| && OthersKept(s, s1, h0) && 0 !in s.chains && s1.intact == s.intact
    requires if h0 == 0
             then h !in s.chains && s1.chains == s.chains[h := [h]] && FreeCount(s1.fat) + 1 == FreeCount(s.fat)
                  && Took(s, s1, h, OK) && s1.fat == s.fat[h := EOC]
             else h == h0 && s1 == s
    ensures |s'.data| == |s.data| && OthersKept(s, s', h0)
    ensures Grown(s, s', ChainOf(s.chains, h0), ChainOf(s'.chains, h), n, err)
    ensures err == OK ==> At(s'.chains, h, n - 1, cluster)
    ensures !clear ==> s'.data == s1.data
  {
    hide WellFormed, FreeCount, Mul, Content, Zeroed, Backed, Appended, Drawn, Took, Gained;
    GrowthKeepsOthers(s1, s', h, ext, size);
    SeekGains(s, s1, s', h0, h, n, clear, size, err, cluster, ext);
    assert ChainOf(s'.chains, h) == s1.chains[h] + ext;
    if h0 == 0 {
      assert ChainOf(s.chains, h0) == [];
      forall k | k in s.chains && k != h0
        ensures k in s'.chains && s'.chains[k] == s.chains[k]
        ensures forall c :: c in s.chains[k] && c < |s.data| ==> s'.data[c] == s.data[c]
      {
        assert k in s1.chains && k != h;
      }
    }
  }

  /** The freeing half: clusters behind `cluster`, which is number `n - 1`, are given back and the
      cached positions behind it are dropped. */
  method CutBehind(v: Volume, fv: Vnode, cluster: nat, n: nat) returns (err: Errno)
    requires v.Valid() && WellFormed(v.fat, v.chains) && Attached(v, fv)
    requires n > 0 && At(v.chains, fv.cluster, n - 1, cluster)
    modifies v, v.disk, fv.cache
    ensures v.Valid() && WellFormed(v.fat, v.chains) && Attached(v, fv) && (v.intact ==> old(v.intact))
    ensures old(Exact(v)) ==> Exact(v)
    ensures err == OK && v.data == old(v.data)
    ensures v.chains == old(v.chains)[fv.cluster := old(v.chains)[fv.cluster][..n]]
    ensures FreeCount(v.fat) + n == FreeCount(old(v.fat)) + |old(v.chains)[fv.cluster]|
    ensures n == |old(v.chains)[fv.cluster]| ==> Now(v) == old(Now(v))
    ensures n < |old(v.chains)[fv.cluster]| ==> Released(old(v.fat), v.fat, old(v.chains)[fv.cluster], n)
  {
    hide DeviceHolds, Consistent, WellFormed, FreeCount, IsChain, FreeEffect, CutAt, Distinct, Trimmed;
    ghost var h, fat, chains := fv.cluster, v.fat, v.chains;
    ghost var s := chains[h];
    ForestChain(fat, chains, h);
    OwnedIsUsed(fat, s, n - 1);
    LinkInRange(fat, s, n - 1);
    ChainAsMap(chains, h, n);
    var next;
    ghost var took;
    err, next, took := NextCluster(v, cluster, false, false);
    if err != OK && err != ENOSPC {
      return;
    }
    if err == OK && next >= CLUSTER_MIN && next < EOC_MIN {
      CutEffect(fat, s, n);
      OwnedHere(chains, h, n - 1, cluster);
      err := FreeClusters(v, cluster, false);
      assert At(chains, h, n - 1, cluster) && n - 1 + 1 == n;
      CutKeepsSound(fv.cache[..], s, n);
      TrimCache(fv, n);
    } else {
      err := OK;
    }
  }

  lemma LinkInRange(fat: seq<nat>, s: seq<nat>, i: nat)
    requires IsChain(fat, s) && |fat| <= CLUSTER_MAX + 1 && i < |s|
    ensures i + 1 < |s| ==> ReadNext(fat, s[i]) == (OK, s[i + 1]) && CLUSTER_MIN <= s[i + 1] < EOC_MIN
    ensures i + 1 == |s| ==> ReadNext(fat, s[i]).0 == ENOSPC
  {
    OwnedIsUsed(fat, s, i);
    if i + 1 < |s| {
      assert fat[s[i]] == s[i + 1] && In(fat, s[i + 1]);
    }
  }

  lemma ChainAsMap(chains: Forest, h: nat, n: nat)
    requires h in chains && n <= |chains[h]|
    ensures n == |chains[h]| ==> chains[h := chains[h][..n]] == chains
  {
    assert chains[h][..|chains[h]|] == chains[h];
  }

  lemma OwnedHere(chains: Forest, h: nat, i: nat, c: nat)
    requires At(chains, h, i, c)
    ensures IsOwned(chains, c)
  {
    assert h in chains && c in chains[h];
  }

  lemma CutKeepsOthers(s: Snap, s1: Snap, s': Snap, h0: nat, h: nat, n: nat)
    requires |s.data| == |s1.data| && OthersKept(s, s1, h0) && s'.data == s1.data && h in s1.chains && n <= |s1.chains[h]|
    requires s'.chains == s1.chains[h := s1.chains[h][..n]] && (h == h0 || h !in s.chains)
    ensures OthersKept(s, s', h0)
  {
  }

  /** The special case of `fat32_truncate`: all clusters go. */
  method TruncateToNothing(v: Volume, fv: Vnode) returns (err: Errno)
    requires v.Valid() && WellFormed(v.fat, v.chains) && Attached(v, fv)
    modifies v, v.disk, fv`cluster, fv`size, fv`flags, fv.cache
    ensures v.Valid() && WellFormed(v.fat, v.chains) && Attached(v, fv) && (v.intact ==> old(v.intact))
    ensures old(Exact(v)) ==> Exact(v)
    ensures err == OK && fv.cluster == 0 && fv.size == 0 && v.data == old(v.data)
    ensures v.chains == old(v.chains) - {old(fv.cluster)}
    ensures FreeCount(v.fat) == FreeCount(old(v.fat)) + |old(ChainOf(v.chains, fv.cluster))|
    ensures old(fv.cluster) == 0 ==> Now(v) == old(Now(v))
    ensures old(fv.cluster) != 0 ==> Released(old(v.fat), v.fat, old(ChainOf(v.chains, fv.cluster)), 0)
    ensures fv.flags == old(fv.flags) + {SizeDirty, ClusterDirty, Modified}
  {
    hide DeviceHolds, Consistent, WellFormed, FreeCount, IsChain, FreeEffect, FreeAll;
    ghost var h, fat, chains := fv.cluster, v.fat, v.chains;
    ZeroIsNoChain(fat, chains);
    err := OK;
    if h != 0 {
      ForestChain(fat, chains, h);
    }
    if fv.cluster >= CLUSTER_MIN {
      FreeWholeChain(fat, chains, h);
      err := FreeClusters(v, fv.cluster, true);
      if err != OK {
        return;
      }
      fv.cluster := 0;
    }
    ZeroIsNoChain(v.fat, v.chains);
    ClearCache(fv);
    fv.size := 0;
    fv.flags := fv.flags + {SizeDirty, ClusterDirty, Modified};
  }

  lemma PositiveCluster(g: Geometry)
    requires Consistent(g)
    ensures g.bytesPerCluster > 0
  {
  }

  lemma NothingOutcome(s: Snap, s': Snap, h0: nat, err: Errno)
    requires err == OK && s'.data == s.data && s'.chains == s.chains - {h0} && 0 !in s.chains
    requires FreeCount(s'.fat) == FreeCount(s.fat) + |ChainOf(s.chains, h0)|
    requires if h0 == 0 then s' == s else Released(s.fat, s'.fat, ChainOf(s.chains, h0), 0)
    ensures OthersKept(s, s', h0) && ChainOf(s'.chains, 0) == []
    ensures TruncateOutcome(s, s', ChainOf(s.chains, h0), [], 0, err)
  {
    hide FreeCount, Appended, Drawn, FreeAll;
    if h0 == 0 {
      DrawnNothing(s);
      AppendedNothing(s.fat, []);
      assert Gained(s, s', [], [], [], err);
    }
  }

  lemma GrownOutcome(s: Snap, s1: Snap, s2: Snap, old': seq<nat>, mid: seq<nat>, new': seq<nat>, n: nat, err: Errno)
    requires n > 0 && Grown(s, s1, old', mid, n, err)
    requires err != OK ==> s2 == s1 && new' == mid
    requires err == OK ==> new' == mid[..n] && FreeCount(s2.fat) + n == FreeCount(s1.fat) + |mid|
    requires err == OK ==> if n == |mid| then s2 == s1 else Released(s1.fat, s2.fat, mid, n)
    ensures TruncateOutcome(s, s2, old', new', n, err)
  {
    hide FreeCount, Appended, Drawn, Released;
    var ext :| Gained(s, s1, old', mid, ext, err);
    if err == OK {
      assert if |old'| <= n then old' <= new' else new' <= old';
      if |old'| > n {
        SameFat(s, s1, old', ext);
        assert mid == old';
      } else {
        assert new' == mid;
      }
    }
    if |new'| >= |old'| {
      assert Gained(s, s2, old', new', ext, err);
    }
  }

  lemma SameFat(s: Snap, s': Snap, old': seq<nat>, ext: seq<nat>)
    requires Appended(s.fat, s'.fat, old', ext)
    ensures ext == [] ==> s'.fat == s.fat
  {
  }

  lemma GrownFits(s: Snap, s': Snap, old': seq<nat>, new': seq<nat>, n: nat, err: Errno, size: nat)
    requires Grown(s, s', old', new', n, err)
    ensures Mul(|old'|, size) <= Mul(|new'|, size)
  {
    hide FreeCount, Mul, Gained;
    MulMonotone(|old'|, |new'|, size);
  }

  lemma OutcomeLength(s: Snap, s': Snap, old': seq<nat>, new': seq<nat>, n: nat)
    requires TruncateOutcome(s, s', old', new', n, OK)
    ensures |new'| == n
  {
    hide FreeCount, Gained, Released;
  }

  /** The part of `fat32_truncate` that brings the chain to `n` clusters. */
  method Reshape(v: Volume, fv: Vnode, n: nat) returns (err: Errno)
    requires v.Valid() && WellFormed(v.fat, v.chains) && Attached(v, fv) && n > 0
    modifies v, v.disk, fv`cluster, fv`flags, fv.cache
    ensures v.Valid() && WellFormed(v.fat, v.chains) && Attached(v, fv) && (v.intact ==> old(v.intact))
    ensures old(Exact(v)) ==> Exact(v)
    ensures |v.data| == |old(v.data)| && OthersKept(old(Now(v)), Now(v), old(fv.cluster))
    ensures fv.vtype != VDIR ==> v.data == old(v.data)
    ensures fv.vtype == VDIR && err == OK ==>
              SweptIfLonger(old(v.data), v.data, old(ChainOf(v.chains, fv.cluster)), ChainOf(v.chains, fv.cluster), v.g.bytesPerCluster)
    ensures TruncateOutcome(old(Now(v)), Now(v), old(ChainOf(v.chains, fv.cluster)), ChainOf(v.chains, fv.cluster), n, err)
    ensures err == ENOSPC && old(Exact(v)) && v.intact ==> FreeCount(v.fat) == 0
    ensures err == OK ==> |ChainOf(v.chains, fv.cluster)| == n
    ensures err != OK && old(Fits(v, fv)) ==> Fits(v, fv)
    ensures fv.cluster == old(fv.cluster) || (old(fv.cluster) == 0 && fv.cluster !in old(v.chains))
    ensures fv.flags == old(fv.flags) + if fv.cluster != old(fv.cluster) then {ClusterDirty, Modified} else {}
  {
    hide DeviceHolds, Consistent, WellFormed, FreeCount, IsChain, OthersKept, TruncateOutcome, Grown, Mul, CacheSound, Swept,
         SweptIfLonger, Released;
    ghost var s, h0 := Now(v), fv.cluster;
    ZeroIsNoChain(v.fat, v.chains);
    var cluster;
    err, cluster := GrowTo(v, fv, n);
    ghost var s1, h := Now(v), fv.cluster;
    if err != OK {
      GrownOutcome(s, s1, s1, ChainOf(s.chains, h0), ChainOf(s1.chains, h), ChainOf(s1.chains, h), n, err);
      GrownFits(s, s1, ChainOf(s.chains, h0), ChainOf(s1.chains, h), n, err, v.g.bytesPerCluster);
      return;
    }
    GrownLength(s, s1, ChainOf(s.chains, h0), ChainOf(s1.chains, h), n);
    if fv.vtype == VDIR {
      SweptCut(s.data, s1.data, ChainOf(s.chains, h0), ChainOf(s1.chains, h), n, v.g.bytesPerCluster);
    }
    err := CutBehind(v, fv, cluster, n);
    CutKeepsOthers(s, s1, Now(v), h0, h, n);
    GrownOutcome(s, s1, Now(v), ChainOf(s.chains, h0), ChainOf(s1.chains, h), ChainOf(v.chains, h), n, err);
    OutcomeLength(s, Now(v), ChainOf(s.chains, h0), ChainOf(v.chains, h), n);
  }

  /** `fat32_truncate`. */
  method Truncate(v: Volume, fv: Vnode, bytes: nat) returns (err: Errno)
    requires v.Valid() && WellFormed(v.fat, v.chains) && Attached(v, fv)
    modifies v, v.disk, fv`cluster, fv`size, fv`flags, fv.cache
    ensures v.Valid() && WellFormed(v.fat, v.chains) && Attached(v, fv) && (v.intact ==> old(v.intact))
    ensures old(Exact(v)) ==> Exact(v)
    ensures |v.data| == |old(v.data)| && OthersKept(old(Now(v)), Now(v), old(fv.cluster))
    ensures fv.vtype != VDIR ==> v.data == old(v.data)
    ensures fv.vtype == VDIR && err == OK ==>
              SweptIfLonger(old(v.data), v.data, old(ChainOf(v.chains, fv.cluster)), ChainOf(v.chains, fv.cluster), v.g.bytesPerCluster)
    ensures TruncateOutcome(old(Now(v)), Now(v), old(ChainOf(v.chains, fv.cluster)), ChainOf(v.chains, fv.cluster),
                            Needed(v.g, bytes), err)
    ensures err == ENOSPC && old(Exact(v)) && v.intact ==> FreeCount(v.fat) == 0
    ensures fv.size == if err != OK then old(fv.size)
                       else if fv.vtype == VDIR || Needed(v.g, bytes) == 0 then 0 else bytes
    ensures err == OK ==> (Fits(v, fv) <==> fv.size <= Mul(WORD - 1, v.g.bytesPerCluster))
    ensures err == OK ==> fv.size % WORD <= Mul(|ChainOf(v.chains, fv.cluster)|, v.g.bytesPerCluster)
    ensures err != OK && old(Fits(v, fv)) ==> Fits(v, fv)
    ensures fv.cluster != old(fv.cluster) ==> ClusterDirty in fv.flags
    ensures fv.cluster == 0 || fv.cluster == old(fv.cluster) || (old(fv.cluster) == 0 && fv.cluster !in old(v.chains))
    ensures fv.flags == old(fv.flags)
              + (if err == OK then {SizeDirty, Modified} else {})
              + (if (err == OK && Needed(v.g, bytes) == 0) || fv.cluster != old(fv.cluster) then {ClusterDirty, Modified} else {})
  {
    hide DeviceHolds, Consistent, WellFormed, FreeCount, IsChain, Needed, OthersKept, TruncateOutcome, Grown, Mul, CacheSound,
         SweptIfLonger, Released;
    ghost var s, h0 := Now(v), fv.cluster;
    PositiveCluster(v.g);
    ZeroIsNoChain(v.fat, v.chains);
    var n := Needed(v.g, bytes);
    if n == 0 {
      err := TruncateToNothing(v, fv);
      NothingOutcome(s, Now(v), h0, err);
      NothingSwept(s.data, ChainOf(s.chains, h0), v.g.bytesPerCluster);
      FitsNeeded(v.g, bytes, fv.size);
      return;
    }
    err := Reshape(v, fv, n);
    if err != OK {
      return;
    }
    fv.size := if fv.vtype == VDIR then 0 else bytes;
    fv.flags := fv.flags + {SizeDirty, Modified};
    FitsNeeded(v.g, bytes, fv.size);
  }
}
