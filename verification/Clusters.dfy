/** The cluster operations of fat32_cls.c: allocate, follow, free and seek. */
module Clusters {
  import opened Bytes
  import opened Layout
  import opened Volumes
  import opened Chains

  /** As long as no FSInfo access has failed, the cached count and the FSInfo sector agree with
      the number of free entries. */
  ghost predicate Exact(v: Volume)
    reads v`fat, v`freeCount, v`infoFree, v`intact
  {
    v.intact ==> v.freeCount == FreeCount(v.fat) && v.infoFree == v.freeCount
  }

  /** The state that every operation re-establishes. */
  ghost predicate Sound(v: Volume)
    reads v, v.disk
  {
    v.Valid() && WellFormed(v.fat, v.chains) && Exact(v)
  }

  // ---- allocation ----

  /** Where the search starts for a given hint; `max` is the highest cluster number. */
  function ClampHint(max: int, hint: nat): nat {
    if hint < CLUSTER_MIN || hint > max then CLUSTER_MIN else hint
  }

  /** Steps from `start` forward to `c` in the ring of `n` clusters. */
  function Steps(start: nat, c: nat, n: nat): int {
    if start <= c then c - start else c + n - start
  }

  /** `c` is the first free cluster in wrap-around order from `start`. */
  ghost predicate IsFirstFree(fat: seq<nat>, start: nat, c: nat) {
    && In(fat, c) && fat[c] == FREE
    && forall x: nat :: x < |fat| && In(fat, x) && fat[x] == FREE
         ==> Steps(start, c, |fat| - 2) <= Steps(start, x, |fat| - 2)
  }

  /** The search loop of `fat32_allocate_cluster`. */
  method SearchFree(v: Volume, start: nat) returns (err: Errno, c: nat)
    requires v.Valid() && (v.g.clusterCount > 0 ==> InRange(v.g, start)) && start >= CLUSTER_MIN
    modifies v`fat, v.disk
    ensures v.Valid() && v.fat == old(v.fat) && v.disk[..] == old(v.disk[..])
    ensures err == OK || err == ENOSPC
    ensures err == OK ==> IsFirstFree(v.fat, start, c)
    ensures err == ENOSPC ==> forall x: nat :: x < |v.fat| && In(v.fat, x) ==> v.fat[x] != FREE
  {
    hide DeviceHolds, Consistent;
    var n, maxCluster := v.g.clusterCount, MaxCluster(v.g);
    var searched := 0;
    c := start;
    while searched < n
      invariant 0 <= searched <= n
      invariant n > 0 && searched < n ==> InRange(v.g, c) && Steps(start, c, n) == searched
      invariant v.Valid() && v.fat == old(v.fat) && v.disk[..] == old(v.disk[..])
      invariant forall x: nat :: x < |v.fat| && In(v.fat, x) && Steps(start, x, n) < searched ==> v.fat[x] != FREE
    {
      var e, value := v.RmwCluster(c, None);
      if value == FREE {
        break;
      }
      c := c + 1;
      searched := searched + 1;
      if c > maxCluster {
        c := CLUSTER_MIN;
      }
      if c == start && searched > 0 {
        return ENOSPC, c;
      }
    }
    if searched >= n {
      return ENOSPC, c;
    }
    err := OK;
  }

  /** The FAT after marking `c` and linking `parent` to it. */
  function Linked(fat: seq<nat>, parent: nat, c: nat): seq<nat>
    requires In(fat, c) && (parent == 0 || In(fat, parent))
  {
    if parent == 0 then fat[c := EOC] else fat[c := EOC][parent := c]
  }

  /** The hint after cluster `c` was handed out. */
  function NextHint(max: int, c: nat): nat {
    if c + 1 > max then CLUSTER_MIN else c + 1
  }

  /** The part of `fat32_allocate_cluster` that marks `c` and links the parent; a parent out of range
      is an error, and then `c` is free again. */
  method MarkAndLink(v: Volume, parent: nat, c: nat) returns (err: Errno)
    requires v.Valid() && InRange(v.g, c) && v.fat[c] == FREE
    modifies v`fat, v.disk
    ensures v.Valid() && (err == OK || err == EINVAL)
    ensures err == OK ==> (parent == 0 || In(old(v.fat), parent)) && v.fat == Linked(old(v.fat), parent, c)
    ensures err == EINVAL ==> parent != 0 && !In(v.fat, parent) && v.fat == old(v.fat)
  {
    hide DeviceHolds, Consistent;
    ClusterNumbersFit(v.g);
    var e, oldValue := v.RmwCluster(c, Some(EOC));
    if parent != 0 {
      e, oldValue := v.RmwCluster(parent, Some(c));
      if e != OK {
        var e2, o2 := v.RmwCluster(c, Some(FREE));
        assert v.fat == old(v.fat);
        return e;
      }
    }
    err := OK;
  }

  /** `fat32_allocate_cluster`.  `took` is the cluster that was marked and linked; on EIO that
      has happened although the call reports a failure. */
  method AllocateCluster(v: Volume, parent: nat, clear: bool) returns (err: Errno, result: nat, ghost took: nat)
    requires v.Valid()
    modifies v`fat, v`data, v`freeCount, v`nextFree, v`infoFree, v`infoNext, v`intact, v.disk
    ensures v.Valid()
    ensures err == OK || err == ENOSPC || err == EIO || err == EINVAL
    ensures err == ENOSPC <==>
              old(v.freeCount) == 0 || old(v.freeCount) == 0xFFFF_FFFF || FreeCount(old(v.fat)) == 0
    ensures err == OK || err == EIO ==>
              && IsFirstFree(old(v.fat), ClampHint(MaxCluster(v.g), old(v.nextFree)), took)
              && (parent == 0 || In(old(v.fat), parent))
              && v.fat == Linked(old(v.fat), parent, took)
    ensures err == OK ==> result == took && v.intact == old(v.intact) && v.freeCount == old(v.freeCount) - 1 == v.infoFree
    ensures err == OK ==> v.nextFree == v.infoNext == NextHint(MaxCluster(v.g), took)
    ensures err != OK ==> v.freeCount == old(v.freeCount) && v.nextFree == old(v.nextFree)
    ensures err != OK ==> v.infoFree == old(v.infoFree)
    ensures err == EIO ==> !v.intact
    ensures err == EINVAL ==> parent != 0 && !In(v.fat, parent)
    ensures err == ENOSPC || err == EINVAL ==> v.fat == old(v.fat) && v.intact == old(v.intact)
    ensures v.data == if err == OK && clear then old(v.data)[took := Zeros(v.g.bytesPerCluster)] else old(v.data)
  {
    hide DeviceHolds, Consistent, FreeCount;
    ClusterNumbersFit(v.g);
    result, took := 0, 0;
    FreeCountBound(v.fat);
    var freeCount := v.freeCount;
    if freeCount == 0 || freeCount == UNKNOWN {
      return ENOSPC, 0, 0;
    }
    var maxCluster, start := MaxCluster(v.g), v.nextFree;
    if start < CLUSTER_MIN || start > maxCluster {
      start := CLUSTER_MIN;
    }
    var c;
    err, c := SearchFree(v, start);
    if err != OK {
      return;
    }
    took := c;
    err := MarkAndLink(v, parent, c);
    if err != OK {
      return err, 0, 0;
    }
    var ok, buf := v.ReadInfo();
    if !ok {
      v.intact := false;
      return EIO, 0, took;
    }
    InfoFits(v);
    var next := c + 1;
    if next > maxCluster {
      next := CLUSTER_MIN;
    }
    v.WriteInfo(buf, freeCount - 1, Some(next));
    v.freeCount := freeCount - 1;
    v.nextFree := next;
    if clear {
      v.ClearCluster(c);
    }
    return OK, c, took;
  }

  lemma ClusterNumbersFit(g: Geometry)
    requires Consistent(g)
    ensures MaxCluster(g) <= CLUSTER_MAX
  {
  }

  lemma InfoFits(v: Volume)
    requires v.Valid()
    ensures SectorPos(v.g.fsinfoSector) + SECTOR <= v.disk.Length
  {
    Areas(v.g);
  }

  /** What an operation on chains can see of a volume, with the cached free count and the hint that
      allocation goes by. */
  datatype Snap = Snap(fat: seq<nat>, chains: Forest, data: seq<seq<byte>>, intact: bool, count: Word, hint: Word)

  ghost function Now(v: Volume): Snap
    reads v
  {
    Snap(v.fat, v.chains, v.data, v.intact, v.freeCount, v.nextFree)
  }

  // ---- following a chain ----

  /** What `fat32_next_cluster` answers without allocating. */
  function ReadNext(fat: seq<nat>, current: nat): (r: (Errno, nat)) {
    if !In(fat, current) then (EINVAL, 0)
    else
      var n := fat[current];
      if n >= EOC_MIN then (ENOSPC, n)
      else if n == BAD || n == FREE || !In(fat, n) then (EIO, 0)
      else (OK, n)
  }

  /** The step that allocation makes: a fresh chain, or one more cluster on an existing one. */
  ghost predicate Grew(fat: seq<nat>, chains: Forest, fat': seq<nat>, chains': Forest, parent: nat, c: nat) {
    && In(fat, c) && fat[c] == FREE && (parent == 0 || In(fat, parent))
    && fat' == Linked(fat, parent, c)
    && (parent == 0 ==> chains' == chains[c := [c]])
    && (parent != 0 ==>
          forall h :: h in chains && |chains[h]| > 0 && Last(chains[h]) == parent
            ==> chains' == chains[h := chains[h] + [c]])
  }

  /** One allocation: the first free cluster from the hint on is taken, and on success count and hint
      move on. */
  ghost predicate Took(s: Snap, s': Snap, c: nat, err: Errno) {
    && IsFirstFree(s.fat, ClampHint(|s.fat| - 1, s.hint), c) && s.count != 0 && s.count != UNKNOWN
    && s'.count == (if err == OK then s.count - 1 else s.count)
    && s'.hint == (if err == OK then NextHint(|s.fat| - 1, c) else s.hint)
  }

  /** `fat32_next_cluster`.  With `alloc` it hands out the cluster `took` when `current` is 0 or
      the end of a chain. */
  method NextCluster(v: Volume, current: nat, alloc: bool, clear: bool)
    returns (err: Errno, next: nat, ghost took: nat)
    requires v.Valid()
    modifies v, v.disk
    ensures v.intact ==> old(v.intact)
    ensures v.Valid()
    ensures current == 0 && !alloc ==> err == EINVAL && Now(v) == old(Now(v))
    ensures current != 0 && !(alloc && ReadNext(old(v.fat), current).0 == ENOSPC) ==>
              && (err, next) == ReadNext(old(v.fat), current)
              && Now(v) == old(Now(v))
    ensures alloc && (current == 0 || ReadNext(old(v.fat), current).0 == ENOSPC) ==>
              && (err == OK || err == ENOSPC || err == EIO)
              && (err == ENOSPC ==> Now(v) == old(Now(v)))
              && (err == ENOSPC <==> old(v.freeCount) == 0 || old(v.freeCount) == UNKNOWN || FreeCount(old(v.fat)) == 0)
              && (err == EIO ==> !v.intact)
              && (err == OK ==> next == took && v.intact == old(v.intact))
              && (err != ENOSPC ==> Took(old(Now(v)), Now(v), took, err))
              && (err != ENOSPC && WellFormed(old(v.fat), old(v.chains)) ==>
                    Grew(old(v.fat), old(v.chains), v.fat, v.chains, current, took))
              && (err != ENOSPC ==>
                    && took < |old(v.data)|
                    && v.data == if err == OK && clear then old(v.data)[took := Zeros(v.g.bytesPerCluster)] else old(v.data))
    ensures WellFormed(old(v.fat), old(v.chains)) ==> WellFormed(v.fat, v.chains)
    ensures old(Exact(v)) ==> Exact(v)
  {
    hide DeviceHolds, Consistent, WellFormed, FreeCount;
    next, took := 0, 0;
    if current == 0 {
      if !alloc {
        return EINVAL, 0, 0;
      }
    } else {
      if current < CLUSTER_MIN || current > MaxCluster(v.g) {
        return EINVAL, 0, 0;
      }
      err, next := v.RmwCluster(current, None);
      v.FatBounds();
      if next >= EOC_MIN {
        if !alloc {
          return ENOSPC, next, 0;
        }
      } else if next == BAD || next == FREE || next < CLUSTER_MIN || next > MaxCluster(v.g) {
        return EIO, 0, 0;
      } else {
        return OK, next, 0;
      }
    }
    ghost var fat, chains := v.fat, v.chains;
    err, next, took := AllocateCluster(v, current, clear);
    if err == OK || err == EIO {
      LinkCount(fat, current, took);
      if WellFormed(fat, chains) {
        v.chains := GrowForest(fat, chains, current, took);
      }
    }
  }

  lemma LinkCount(fat: seq<nat>, parent: nat, c: nat)
    requires In(fat, c) && fat[c] == FREE && (parent == 0 || (In(fat, parent) && fat[parent] >= EOC_MIN))
    ensures FreeCount(Linked(fat, parent, c)) == FreeCount(fat) - 1
  {
    TakeCount(fat, c, EOC);
    if parent != 0 {
      SameCount(fat[c := EOC], parent, c);
    }
  }

  ghost function GrowForest(fat: seq<nat>, chains: Forest, parent: nat, c: nat): (chains': Forest)
    requires WellFormed(fat, chains) && In(fat, c) && fat[c] == FREE
    requires parent == 0 || (In(fat, parent) && fat[parent] >= EOC_MIN)
    ensures WellFormed(Linked(fat, parent, c), chains')
    ensures Grew(fat, chains, Linked(fat, parent, c), chains', parent, c)
  {
    if parent == 0 then
      BirthKeepsForest(fat, chains, c);
      chains[c := [c]]
    else
      var h := OwnerOfTail(fat, chains, parent);
      LinkKeepsForest(fat, chains, h, c);
      chains[h := chains[h] + [c]]
  }

  ghost function OwnerOfTail(fat: seq<nat>, chains: Forest, c: nat): (h: nat)
    requires WellFormed(fat, chains) && In(fat, c) && fat[c] >= EOC_MIN
    ensures h in chains && |chains[h]| > 0 && Last(chains[h]) == c
    ensures forall k :: k in chains && |chains[k]| > 0 && Last(chains[k]) == c ==> k == h
  {
    TailOwnerExists(fat, chains, c);
    var h :| h in chains && |chains[h]| > 0 && Last(chains[h]) == c;
    assert forall k :: k in chains && |chains[k]| > 0 && Last(chains[k]) == c ==> c in chains[k];
    h
  }

  lemma TailOwnerExists(fat: seq<nat>, chains: Forest, c: nat)
    requires WellFormed(fat, chains) && In(fat, c) && fat[c] >= EOC_MIN
    ensures exists h :: h in chains && |chains[h]| > 0 && Last(chains[h]) == c
  {
    var h := TailOwner(fat, chains, c);
  }

  // ---- freeing ----

  /** What `fat32_free_clusters` does to the FAT, whatever the FAT holds: with `freeStart` it walks
      from `start`, otherwise it marks `start` as an end and walks from the old successor. */
  ghost function FreeEffect(fat: seq<nat>, start: nat, freeStart: bool): Walked
    requires In(fat, start)
  {
    if freeStart then Walk(fat, start)
    else if fat[start] >= EOC_MIN then Walked(fat[start := EOC], 0, true)
    else Walk(fat[start := EOC], fat[start])
  }

  /** Cluster `c` is number `i` of the chain that starts with `h`. */
  predicate At(chains: Forest, h: nat, i: int, c: nat) {
    h in chains && 0 <= i < |chains[h]| && chains[h][i] == c
  }

  /** The chains after freeing from a first cluster, or after cutting behind `start`. */
  ghost predicate FreedForest(chains: Forest, chains': Forest, start: nat, freeStart: bool) {
    && (freeStart && start in chains ==> chains' == chains - {start})
    && (!freeStart ==>
          forall h, i :: At(chains, h, i, start) ==> chains' == chains[h := chains[h][..i + 1]])
  }

  /** The calls for which the forest is kept: a whole chain from its first cluster, or a tail. */
  ghost predicate FreesOwned(chains: Forest, start: nat, freeStart: bool) {
    if freeStart then start in chains else IsOwned(chains, start)
  }

  /** The chains that `FreedForest` describes. */
  ghost function NewForest(fat: seq<nat>, chains: Forest, start: nat, freeStart: bool): Forest {
    if !WellFormed(fat, chains) || !FreesOwned(chains, start, freeStart) then chains
    else if freeStart then chains - {start}
    else
      CutPointExists(chains, start);
      var h, i :| At(chains, h, i, start);
      chains[h := chains[h][..i + 1]]
  }

  lemma CutPointExists(chains: Forest, start: nat)
    requires IsOwned(chains, start)
    ensures exists h, i :: At(chains, h, i, start)
  {
    var h :| h in chains && start in chains[h];
    var i :| 0 <= i < |chains[h]| && chains[h][i] == start;
    assert At(chains, h, i, start);
  }

  /** A cut behind a cluster of a chain frees the clusters after it and nothing else. */
  lemma CutEffect(fat: seq<nat>, s: seq<nat>, n: nat)
    requires |fat| <= CLUSTER_MAX + 1 && IsChain(fat, s) && Distinct(s) && 0 < n <= |s|
    ensures ChainInRange(fat, s)
    ensures FreeEffect(fat, s[n - 1], false) == Walked(CutAt(fat, s, n), |s| - n, true)
    ensures FreeCount(CutAt(fat, s, n)) == FreeCount(fat) + (|s| - n)
  {
    hide FreeCount, Walk, FreeAll;
    OwnedIsUsed(fat, s, n - 1);
    var fat1, t := fat[s[n - 1] := EOC], s[n..];
    SameCount(fat, s[n - 1], EOC);
    if n == |s| {
      assert t == [];
      FreeNothing(fat1);
    } else {
      CutTail(fat, s, n);
      WalkFreesChain(fat1, t);
      ChainUsed(fat1, t);
      FreeAllCount(fat1, t);
    }
  }

  lemma FreeNothing(fat: seq<nat>)
    ensures FreeAll(fat, []) == fat
  {
  }

  lemma CutTail(fat: seq<nat>, s: seq<nat>, n: nat)
    requires IsChain(fat, s) && Distinct(s) && 0 < n < |s|
    ensures In(fat, s[n - 1]) && fat[s[n - 1]] == s[n]
    ensures IsChain(fat[s[n - 1] := EOC], s[n..]) && Distinct(s[n..])
  {
    var t := s[n..];
    SuffixIsChain(fat, s, n);
    assert forall i :: 0 <= i < |t| ==> t[i] == s[n + i] && s[n + i] != s[n - 1];
    ChainElsewhere(fat, t, s[n - 1], EOC);
    assert fat[s[n - 1]] == s[(n - 1) + 1];
  }

  lemma ChainUsed(fat: seq<nat>, s: seq<nat>)
    requires IsChain(fat, s) && |fat| <= CLUSTER_MAX + 1
    ensures forall i :: 0 <= i < |s| ==> In(fat, s[i]) && fat[s[i]] != FREE
  {
    forall i | 0 <= i < |s|
      ensures In(fat, s[i]) && fat[s[i]] != FREE
    {
      OwnedIsUsed(fat, s, i);
    }
  }

  /** Freeing an owned chain or tail succeeds, keeps the forest, and gains what it counts. */
  lemma FreeOwned(fat: seq<nat>, chains: Forest, start: nat, freeStart: bool)
    requires WellFormed(fat, chains) && In(fat, start) && FreesOwned(chains, start, freeStart)
    ensures var w := FreeEffect(fat, start, freeStart);
      && w.ok && WellFormed(w.fat, NewForest(fat, chains, start, freeStart))
      && FreedForest(chains, NewForest(fat, chains, start, freeStart), start, freeStart)
      && FreeCount(w.fat) == FreeCount(fat) + w.count
  {
    hide FreeCount, Walk, CutAt, FreeAll, WellFormed, IsChain;
    if freeStart {
      FreeWholeChain(fat, chains, start);
    } else {
      CutPointExists(chains, start);
      var h, i :| At(chains, h, i, start) && NewForest(fat, chains, start, freeStart) == chains[h := chains[h][..i + 1]];
      ForestChain(fat, chains, h);
      CutEffect(fat, chains[h], i + 1);
      CutKeepsForest(fat, chains, h, i + 1);
      CutPointUnique(fat, chains, start);
    }
  }

  lemma ForestChain(fat: seq<nat>, chains: Forest, h: nat)
    requires WellFormed(fat, chains) && h in chains
    ensures |fat| <= CLUSTER_MAX + 1 && IsChain(fat, chains[h]) && Distinct(chains[h])
    ensures |chains[h]| > 0 && chains[h][0] == h && ChainInRange(fat, chains[h])
  {
  }

  lemma FreeWholeChain(fat: seq<nat>, chains: Forest, h: nat)
    requires WellFormed(fat, chains) && h in chains && In(fat, h)
    ensures ChainInRange(fat, chains[h])
    ensures FreeEffect(fat, h, true) == Walked(FreeAll(fat, chains[h]), |chains[h]|, true)
    ensures FreeCount(FreeAll(fat, chains[h])) == FreeCount(fat) + |chains[h]|
    ensures WellFormed(FreeAll(fat, chains[h]), chains - {h})
  {
    hide FreeCount, Walk, FreeAll, WellFormed, IsChain;
    ForestChain(fat, chains, h);
    ChainUsed(fat, chains[h]);
    WalkFreesChain(fat, chains[h]);
    FreeAllCount(fat, chains[h]);
    FreeKeepsForest(fat, chains, h);
  }

  lemma CutPointUnique(fat: seq<nat>, chains: Forest, start: nat)
    requires WellFormed(fat, chains)
    ensures forall h, i, h', i' :: At(chains, h, i, start) && At(chains, h', i', start) ==> h == h' && i == i'
  {
    forall h, i, h', i' | At(chains, h, i, start) && At(chains, h', i', start)
      ensures h == h' && i == i'
    {
      assert start in chains[h] && start in chains[h'];
      assert Distinct(chains[h]);
    }
  }

  ghost function Counted(w: Walked): Walked {
    w.(count := w.count + 1)
  }

  /** One turn of the loop, and why it comes to an end. */
  lemma WalkStep(fat: seq<nat>, c: nat)
    ensures c < CLUSTER_MIN || c >= EOC_MIN ==> Walk(fat, c) == Walked(fat, 0, true)
    ensures CLUSTER_MIN <= c < EOC_MIN && !In(fat, c) ==> Walk(fat, c) == Walked(fat, 0, false)
    ensures CLUSTER_MIN <= c < EOC_MIN && In(fat, c) ==>
              && Walk(fat, c) == Counted(Walk(fat[c := FREE], fat[c]))
              && (|UsedSet(fat[c := FREE])| < |UsedSet(fat)| || (|UsedSet(fat[c := FREE])| == |UsedSet(fat)| && fat[c] == FREE))
  {
    if In(fat, c) {
      UsedShrinks(fat, c);
      if fat[c] == FREE {
        assert fat[c := FREE] == fat;
      }
    }
  }

  lemma EffectBegins(fat: seq<nat>, start: nat, freeStart: bool)
    requires In(fat, start)
    ensures freeStart ==> FreeEffect(fat, start, freeStart) == Walk(fat, start)
    ensures !freeStart && fat[start] >= EOC_MIN ==> FreeEffect(fat, start, freeStart) == Walked(fat[start := EOC], 0, true)
    ensures !freeStart && fat[start] < EOC_MIN ==> FreeEffect(fat, start, freeStart) == Walk(fat[start := EOC], fat[start])
  {
  }

  lemma OwnedInRange(fat: seq<nat>, chains: Forest, start: nat, freeStart: bool)
    ensures WellFormed(fat, chains) && FreesOwned(chains, start, freeStart) ==> In(fat, start)
  {
    if WellFormed(fat, chains) && FreesOwned(chains, start, freeStart) {
      if freeStart {
        assert In(fat, chains[start][0]);
      } else {
        CutPointExists(chains, start);
        var h, i :| At(chains, h, i, start);
        assert In(fat, chains[h][i]);
      }
    }
  }

  lemma FreeKeepsExact(fat: seq<nat>, chains: Forest, start: nat, freeStart: bool)
    requires In(fat, start) && |fat| <= CLUSTER_MAX + 1
    ensures WellFormed(fat, chains) && FreesOwned(chains, start, freeStart) ==>
              var w := FreeEffect(fat, start, freeStart);
              && w.ok && WellFormed(w.fat, NewForest(fat, chains, start, freeStart))
              && FreedForest(chains, NewForest(fat, chains, start, freeStart), start, freeStart)
              && FreeCount(w.fat) == FreeCount(fat) + w.count
              && FreeCount(w.fat) <= CLUSTER_MAX + 1
  {
    hide FreeCount, Walk, WellFormed, FreedForest, FreeEffect, NewForest;
    if WellFormed(fat, chains) && FreesOwned(chains, start, freeStart) {
      FreeOwned(fat, chains, start, freeStart);
      FreeCountBound(FreeEffect(fat, start, freeStart).fat);
      FreeEffectSize(fat, start, freeStart);
    }
  }

  lemma FreeEffectSize(fat: seq<nat>, start: nat, freeStart: bool)
    requires In(fat, start)
    ensures |FreeEffect(fat, start, freeStart).fat| == |fat|
  {
  }

  /** The cached count after `freed` clusters were given back: an unknown count stays unknown. */
  function CountAfter(count: nat, freed: nat): nat {
    if freed == 0 || count == UNKNOWN then count else U32(count + freed)
  }

  /** The part of `fat32_free_clusters` that updates FSInfo and the cached count. */
  method NoteFreed(v: Volume, freed: nat)
    requires v.Valid()
    modifies v`freeCount, v`intact, v`infoFree, v`infoNext, v.disk
    ensures v.Valid() && v.infoNext == old(v.infoNext) && (v.intact ==> old(v.intact))
    ensures v.intact ==> v.freeCount == CountAfter(old(v.freeCount), freed)
    ensures v.intact ==> v.infoFree == if freed > 0 && old(v.freeCount) != 0xFFFF_FFFF then v.freeCount else old(v.infoFree)
    ensures freed == 0 ==> v.intact == old(v.intact)
    ensures v.infoFree == old(v.infoFree) || v.infoFree == v.freeCount
    ensures v.freeCount == old(v.freeCount) || v.freeCount == CountAfter(old(v.freeCount), freed)
  {
    hide DeviceHolds, Consistent;
    if freed > 0 {
      var ok, buf := v.ReadInfo();
      if !ok {
        v.intact := false;
      } else if v.freeCount != UNKNOWN {
        InfoFits(v);
        var newFreeCount := U32(v.freeCount + freed);
        v.WriteInfo(buf, newFreeCount, None);
        v.freeCount := newFreeCount;
      }
    }
  }

  /** The count stays exact when the clusters counted are those gained. */
  lemma NotedIsExact(fat: seq<nat>, fat': seq<nat>, count: nat, freed: nat)
    requires count == FreeCount(fat) && FreeCount(fat') == FreeCount(fat) + freed && FreeCount(fat') <= CLUSTER_MAX + 1
    ensures CountAfter(count, freed) == FreeCount(fat') && FreeCount(fat') != UNKNOWN
  {
    hide FreeCount;
  }

  /** `fat32_free_clusters`. */
  method FreeClusters(v: Volume, start: nat, freeStart: bool) returns (err: Errno)
    requires v.Valid()
    modifies v, v.disk
    ensures v.Valid() && v.data == old(v.data) && v.nextFree == old(v.nextFree) && v.infoNext == old(v.infoNext)
    ensures v.intact ==> old(v.intact)
    ensures !InRange(v.g, start) ==>
              && err == EINVAL && v.fat == old(v.fat) && v.chains == old(v.chains) && v.intact == old(v.intact)
              && v.freeCount == old(v.freeCount) && v.infoFree == old(v.infoFree)
    ensures InRange(v.g, start) ==>
              var w := FreeEffect(old(v.fat), start, freeStart);
              && v.fat == w.fat && err == (if w.ok then OK else EINVAL)
              && (v.intact ==>
                    && v.freeCount == (if w.ok then CountAfter(old(v.freeCount), w.count) else old(v.freeCount))
                    && v.infoFree == if w.ok && w.count > 0 && old(v.freeCount) != 0xFFFF_FFFF then v.freeCount else old(v.infoFree))
              && (v.freeCount == old(v.freeCount) || (w.ok && v.freeCount == CountAfter(old(v.freeCount), w.count)))
              && (v.infoFree == old(v.infoFree) || v.infoFree == v.freeCount)
    ensures WellFormed(old(v.fat), old(v.chains)) && FreesOwned(old(v.chains), start, freeStart) ==>
              err == OK && WellFormed(v.fat, v.chains) && FreedForest(old(v.chains), v.chains, start, freeStart)
    ensures old(Sound(v)) && FreesOwned(old(v.chains), start, freeStart) ==> Exact(v)
  {
    hide DeviceHolds, Consistent, WellFormed, FreeCount, Walk, NewForest, FreedForest, FreesOwned, FreeEffect, CountAfter;
    ClusterNumbersFit(v.g);
    ghost var fat, chains := v.fat, v.chains;
    v.FatBounds();
    OwnedInRange(fat, chains, start, freeStart);
    if start < CLUSTER_MIN || start > MaxCluster(v.g) {
      return EINVAL;
    }
    ghost var w := FreeEffect(fat, start, freeStart);
    EffectBegins(fat, start, freeStart);
    FreeKeepsExact(fat, chains, start, freeStart);
    NothingFreed(v.freeCount);
    var current, next := start, 0;
    if !freeStart {
      err, next := v.RmwCluster(start, Some(EOC));
      if next >= EOC_MIN {
        v.chains := NewForest(fat, chains, start, freeStart);
        return OK;
      }
      current := next;
    }
    var freed := 0;
    while current >= CLUSTER_MIN && current < EOC_MIN
      invariant v.Valid() && 0 <= current < ENTRY_LIMIT
      invariant Walk(v.fat, current).fat == w.fat && Walk(v.fat, current).ok == w.ok
      invariant freed + Walk(v.fat, current).count == w.count
      invariant v.data == old(v.data) && v.nextFree == old(v.nextFree) && v.intact == old(v.intact)
      invariant v.chains == chains && v.freeCount == old(v.freeCount) && v.infoFree == old(v.infoFree)
      invariant v.infoNext == old(v.infoNext)
      decreases |UsedSet(v.fat)|, if current >= CLUSTER_MIN && current < EOC_MIN then 1 else 0
    {
      WalkStep(v.fat, current);
      v.FatBounds();
      err, next := v.RmwCluster(current, Some(FREE));
      if err != OK {
        return err;
      }
      freed := freed + 1;
      current := next;
    }
    WalkStep(v.fat, current);
    NoteFreed(v, freed);
    NotedWhenOwned(fat, v.fat, chains, start, freeStart, old(v.freeCount), freed);
    v.chains := NewForest(fat, chains, start, freeStart);
    err := OK;
  }

  lemma NothingFreed(count: nat)
    ensures CountAfter(count, 0) == count
  {
  }

  lemma NotedWhenOwned(fat: seq<nat>, fat': seq<nat>, chains: Forest, start: nat, freeStart: bool, count: nat, freed: nat)
    requires In(fat, start) && |fat| <= CLUSTER_MAX + 1
    requires FreeEffect(fat, start, freeStart).fat == fat' && FreeEffect(fat, start, freeStart).count == freed
    ensures WellFormed(fat, chains) && FreesOwned(chains, start, freeStart) && count == FreeCount(fat) ==>
              CountAfter(count, freed) == FreeCount(fat') != UNKNOWN
  {
    hide FreeCount, WellFormed, FreesOwned, FreeEffect, CountAfter, NewForest, FreedForest;
    FreeKeepsExact(fat, chains, start, freeStart);
    if WellFormed(fat, chains) && FreesOwned(chains, start, freeStart) && count == FreeCount(fat) {
      NotedIsExact(fat, fat', count, freed);
    }
  }

  // ---- seeking ----

  /** Following `k` links from `start` without allocating. */
  function SeekResult(fat: seq<nat>, start: nat, k: nat): (r: (Errno, nat))
    decreases k
  {
    if k == 0 then (OK, start)
    else
      var (e, n) := ReadNext(fat, start);
      if e != OK then (e, 0) else SeekResult(fat, n, k - 1)
  }

  lemma {:induction false} SeekOnChain(fat: seq<nat>, chains: Forest, h: nat, i: nat, k: nat)
    requires WellFormed(fat, chains) && h in chains && i < |chains[h]|
    ensures i + k < |chains[h]| ==> SeekResult(fat, chains[h][i], k) == (OK, chains[h][i + k])
    ensures i + k >= |chains[h]| ==> SeekResult(fat, chains[h][i], k).0 == ENOSPC
    decreases k
  {
    hide WellFormed;
    ForestChain(fat, chains, h);
    OwnedIsUsed(fat, chains[h], i);
    if k > 0 && i < |chains[h]| - 1 {
      assert fat[chains[h][i]] == chains[h][i + 1];
      SeekOnChain(fat, chains, h, i + 1, k - 1);
    }
  }

  /** The clusters `ext`, which were free, are linked behind chain `s` and to each other; no other entry
      of the FAT has changed. */
  ghost predicate Appended(fat: seq<nat>, fat': seq<nat>, s: seq<nat>, ext: seq<nat>) {
    && |fat'| == |fat|
    && (forall i :: 0 <= i < |ext| ==> In(fat, ext[i]) && fat[ext[i]] == FREE)
    && (forall i {:trigger fat'[ext[i]]} :: 0 <= i < |ext| ==> fat'[ext[i]] == if i + 1 < |ext| then ext[i + 1] else EOC)
    && (s != [] && ext != [] ==> In(fat, Last(s)) && fat'[Last(s)] == ext[0])
    && (forall c: nat :: c < |fat| && c !in ext && (s == [] || ext == [] || c != Last(s)) ==> fat'[c] == fat[c])
  }

  /** Chain `h` has grown by the clusters `ext`, which were free before; no other entry of the FAT
      and no other chain has changed. */
  ghost predicate Extends(fat: seq<nat>, chains: Forest, fat': seq<nat>, chains': Forest, h: nat, ext: seq<nat>) {
    && h in chains && |chains[h]| > 0
    && chains' == chains[h := chains[h] + ext]
    && Appended(fat, fat', chains[h], ext)
  }

  /** Cluster contents outside `ext` are the same; with `zeroed`, those in `ext` are zero. */
  ghost predicate DataKept(data: seq<seq<byte>>, data': seq<seq<byte>>, ext: seq<nat>) {
    |data'| == |data| && forall c: nat :: c < |data| && c !in ext ==> data'[c] == data[c]
  }

  ghost predicate Zeroed(data: seq<seq<byte>>, ext: seq<nat>, size: nat) {
    forall c: nat :: c < |data| && c in ext ==> data[c] == Zeros(size)
  }

  /** All clusters of `ext` are zero but the last, which holds what it held before. */
  ghost predicate HalfCleared(data: seq<seq<byte>>, data': seq<seq<byte>>, ext: seq<nat>, size: nat) {
    && ext != [] && Last(ext) < |data| == |data'| && data'[Last(ext)] == data[Last(ext)]
    && Zeroed(data', ext[..|ext| - 1], size)
  }

  lemma HalfClearedMore(data: seq<seq<byte>>, data': seq<seq<byte>>, ext: seq<nat>, c: nat, size: nat)
    requires DataKept(data, data', ext) && Zeroed(data', ext, size) && c < |data| && c !in ext
    ensures HalfCleared(data, data', ext + [c], size)
  {
    assert (ext + [c])[..|ext|] == ext;
  }

  lemma AppendedNothing(fat: seq<nat>, s: seq<nat>)
    ensures Appended(fat, fat, s, [])
  {
  }

  lemma ExtendsNothing(fat: seq<nat>, chains: Forest, h: nat)
    requires WellFormed(fat, chains) && h in chains
    ensures Extends(fat, chains, fat, chains, h, [])
  {
    hide IsChain, Distinct, Appended;
    AppendedNothing(fat, chains[h]);
    assert chains[h] + [] == chains[h];
    assert chains[h := chains[h]] == chains;
  }

  /** One more cluster behind the last one of chain `s` with `ext` appended. */
  lemma AppendedMore(fat: seq<nat>, fat1: seq<nat>, s: seq<nat>, ext: seq<nat>, p: nat, c: nat)
    requires Appended(fat, fat1, s, ext) && In(fat1, c) && fat1[c] == FREE && In(fat1, p) && p != c
    requires c !in ext && (s != [] ==> c != Last(s)) && Distinct(ext) && (s != [] ==> Last(s) !in ext)
    requires if ext == [] then s != [] && p == Last(s) else p == Last(ext)
    ensures Appended(fat, Linked(fat1, p, c), s, ext + [c])
  {
    hide Distinct;
    var fat2, ext2 := Linked(fat1, p, c), ext + [c];
    forall i | 0 <= i < |ext2|
      ensures fat2[ext2[i]] == if i + 1 < |ext2| then ext2[i + 1] else EOC
    {
      LinkMore(fat, fat1, s, ext, p, c, i);
    }
    forall x: nat | x < |fat| && x !in ext2 && (s == [] || x != Last(s))
      ensures fat2[x] == fat[x]
    {
      assert ext2[|ext|] == c && (ext != [] ==> ext2[|ext| - 1] == p);
      assert forall y :: y in ext ==> y in ext2;
    }
  }

  lemma LinkMore(fat: seq<nat>, fat1: seq<nat>, s: seq<nat>, ext: seq<nat>, p: nat, c: nat, i: nat)
    requires Appended(fat, fat1, s, ext) && In(fat1, c) && In(fat1, p) && p != c && c !in ext && Distinct(ext)
    requires (ext != [] ==> p == Last(ext)) && i <= |ext|
    ensures In(fat, (ext + [c])[i])
    ensures Linked(fat1, p, c)[(ext + [c])[i]] == if i < |ext| then (ext + [c])[i + 1] else EOC
  {
    if i < |ext| {
      assert In(fat, ext[i]) && ext[i] in ext;
      if i < |ext| - 1 {
        assert ext[i] != ext[|ext| - 1];
        assert fat1[ext[i]] == ext[i + 1];
      }
    }
  }

  lemma DistinctParts(s: seq<nat>, ext: seq<nat>)
    requires Distinct(s + ext) && s != []
    ensures Distinct(ext) && Last(s) !in ext && (ext == [] ==> s + ext == s) && (ext != [] ==> Last(s + ext) == Last(ext))
    ensures forall x :: x in s || x in ext ==> x in s + ext
  {
    assert forall i :: 0 <= i < |ext| ==> (s + ext)[|s| + i] == ext[i];
    assert (s + ext)[|s| - 1] == Last(s);
  }

  lemma ExtendsMore(fat: seq<nat>, chains: Forest, fat1: seq<nat>, chains1: Forest, fat2: seq<nat>, chains2: Forest,
                    h: nat, ext: seq<nat>, c: nat)
    requires Extends(fat, chains, fat1, chains1, h, ext) && WellFormed(fat1, chains1)
    requires Last(chains1[h]) != 0 && Grew(fat1, chains1, fat2, chains2, Last(chains1[h]), c)
    ensures Extends(fat, chains, fat2, chains2, h, ext + [c])
    ensures FreeCount(fat2) == FreeCount(fat1) - 1
  {
    hide FreeCount, WellFormed, IsChain, Appended, Distinct;
    var p := Last(chains1[h]);
    ForestChain(fat1, chains1, h);
    OwnedIsUsed(fat1, chains1[h], |chains1[h]| - 1);
    LinkCount(fat1, p, c);
    FreeIsUnowned(fat1, chains1, c);
    ChainsMore(chains, chains1, h, ext, c);
    assert chains1[h] == chains[h] + ext;
    assert c !in chains1[h];
    DistinctParts(chains[h], ext);
    AppendedMore(fat, fat1, chains[h], ext, p, c);
  }

  // ---- which clusters ----

  /** `c` is the first free cluster from `start` on, apart from those in `taken`. */
  ghost predicate IsNextFree(fat: seq<nat>, taken: seq<nat>, start: nat, c: nat) {
    && In(fat, c) && fat[c] == FREE && c !in taken
    && forall x: nat :: x < |fat| && In(fat, x) && fat[x] == FREE && x !in taken
         ==> Steps(start, c, |fat| - 2) <= Steps(start, x, |fat| - 2)
  }

  /** There is only one. */
  lemma NextFreeOnce(fat: seq<nat>, taken: seq<nat>, hint: nat, c: nat, c': nat)
    requires IsNextFree(fat, taken, ClampHint(|fat| - 1, hint), c) && IsNextFree(fat, taken, ClampHint(|fat| - 1, hint), c')
    ensures c == c'
  {
  }

  /** The hint after the first `n` of the clusters `ext` were handed out. */
  function HintAfter(s: Snap, ext: seq<nat>, n: nat): nat
    requires n <= |ext|
  {
    if n == 0 then s.hint else NextHint(|s.fat| - 1, ext[n - 1])
  }

  /** The clusters `ext` come next: each is the first free one from where the hint then is. */
  ghost predicate InOrder(s: Snap, ext: seq<nat>) {
    forall i :: 0 <= i < |ext| ==> IsNextFree(s.fat, ext[..i], ClampHint(|s.fat| - 1, HintAfter(s, ext, i)), ext[i])
  }

  /** The clusters `ext` were handed out one after the other; the count and the hint have moved on with
      the first `done` of them, that is all unless FSInfo could not be read. */
  ghost predicate Drawn(s: Snap, s': Snap, ext: seq<nat>, done: int) {
    && 0 <= done <= |ext| <= done + 1 && InOrder(s, ext)
    && s'.count == s.count - done && s'.hint == HintAfter(s, ext, done)
    && (ext != [] ==> s.count != UNKNOWN)
  }

  /** How many clusters can be handed out: none as long as their number is not known. */
  ghost function Room(s: Snap): nat {
    if s.count == UNKNOWN then 0 else if s.count <= FreeCount(s.fat) then s.count else FreeCount(s.fat)
  }

  lemma DrawnNothing(s: Snap)
    ensures Drawn(s, s, [], 0)
  {
  }

  /** What is free once `ext` is appended. */
  lemma FreeApart(fat: seq<nat>, fat': seq<nat>, s: seq<nat>, ext: seq<nat>, x: nat)
    requires Appended(fat, fat', s, ext) && In(fat, x) && (s != [] && In(fat, Last(s)) ==> fat[Last(s)] != FREE)
    ensures fat'[x] == FREE <==> fat[x] == FREE && x !in ext
  {
    if x in ext {
      var i :| 0 <= i < |ext| && ext[i] == x;
      assert fat'[ext[i]] == if i + 1 < |ext| then ext[i + 1] else EOC;
      assert i + 1 < |ext| ==> In(fat, ext[i + 1]);
    }
  }

  /** One more cluster is handed out. */
  lemma DrawnMore(s: Snap, s1: Snap, s2: Snap, chain: seq<nat>, ext: seq<nat>, c: nat, err: Errno)
    requires Drawn(s, s1, ext, |ext|) && Took(s1, s2, c, err)
    requires Appended(s.fat, s1.fat, chain, ext) && (chain != [] && In(s.fat, Last(chain)) ==> s.fat[Last(chain)] != FREE)
    ensures Drawn(s, s2, ext + [c], if err == OK then |ext| + 1 else |ext|) && c !in ext
  {
    hide Appended, IsNextFree, IsFirstFree, NextHint, ClampHint;
    var ext2 := ext + [c];
    AppendedLength(s.fat, s1.fat, chain, ext);
    FirstIsNext(s.fat, s1.fat, chain, ext, ClampHint(|s.fat| - 1, s1.hint), c);
    forall i | 0 <= i < |ext2|
      ensures IsNextFree(s.fat, ext2[..i], ClampHint(|s.fat| - 1, HintAfter(s, ext2, i)), ext2[i])
    {
      if i < |ext| {
        assert ext2[..i] == ext[..i];
        assert IsNextFree(s.fat, ext[..i], ClampHint(|s.fat| - 1, HintAfter(s, ext, i)), ext[i]);
      } else {
        assert ext2[..i] == ext;
      }
    }
  }

  /** The first cluster that is free now is the next one that was free before. */
  lemma FirstIsNext(fat: seq<nat>, fat1: seq<nat>, chain: seq<nat>, ext: seq<nat>, start: nat, c: nat)
    requires Appended(fat, fat1, chain, ext) && (chain != [] && In(fat, Last(chain)) ==> fat[Last(chain)] != FREE)
    requires IsFirstFree(fat1, start, c)
    ensures IsNextFree(fat, ext, start, c) && c !in ext
  {
    hide Appended;
    AppendedLength(fat, fat1, chain, ext);
    forall x: nat | In(fat, x)
      ensures fat1[x] == FREE <==> fat[x] == FREE && x !in ext
    {
      FreeApart(fat, fat1, chain, ext, x);
    }
  }

  lemma AppendedFree(fat: seq<nat>, fat': seq<nat>, s: seq<nat>, ext: seq<nat>)
    requires Appended(fat, fat', s, ext)
    ensures forall i :: 0 <= i < |ext| ==> In(fat, ext[i]) && fat[ext[i]] == FREE
  {
  }

  lemma AppendedLength(fat: seq<nat>, fat': seq<nat>, s: seq<nat>, ext: seq<nat>)
    requires Appended(fat, fat', s, ext)
    ensures |fat'| == |fat|
  {
  }

  /** Clusters that are linked behind a first one that was handed out before them. */
  lemma AppendedFirst(fat: seq<nat>, fat1: seq<nat>, fat2: seq<nat>, c: nat, ext: seq<nat>)
    requires In(fat, c) && fat[c] == FREE && fat1 == fat[c := EOC] && Appended(fat1, fat2, [c], ext)
    ensures Appended(fat, fat2, [], [c] + ext)
  {
    var all := [c] + ext;
    assert c !in ext;
    assert c in all && forall x :: x in ext ==> x in all;
    forall i | 0 <= i < |all|
      ensures In(fat, all[i]) && fat[all[i]] == FREE && fat2[all[i]] == if i + 1 < |all| then all[i + 1] else EOC
    {
      if i > 0 {
        assert all[i] == ext[i - 1] && ext[i - 1] in ext;
        assert fat2[ext[i - 1]] == if i < |ext| then ext[i] else EOC;
      }
    }
  }

  lemma NextAfterFirst(fat: seq<nat>, c: nat, taken: seq<nat>, start: nat, x: nat)
    requires In(fat, c) && fat[c] == FREE && IsNextFree(fat[c := EOC], taken, start, x)
    ensures IsNextFree(fat, [c] + taken, start, x)
  {
    assert forall y :: y in [c] + taken <==> y == c || y in taken;
  }

  lemma FirstIsFree(fat: seq<nat>, start: nat, c: nat)
    requires IsFirstFree(fat, start, c)
    ensures In(fat, c) && fat[c] == FREE && IsNextFree(fat, [], start, c)
  {
  }

  lemma NextInOrder(s: Snap, s1: Snap, c: nat, ext: seq<nat>, i: nat)
    requires In(s.fat, c) && s.fat[c] == FREE && IsNextFree(s.fat, [], ClampHint(|s.fat| - 1, s.hint), c)
    requires s1.fat == s.fat[c := EOC] && s1.hint == NextHint(|s.fat| - 1, c) && InOrder(s1, ext) && i <= |ext|
    ensures IsNextFree(s.fat, ([c] + ext)[..i], ClampHint(|s.fat| - 1, HintAfter(s, [c] + ext, i)), ([c] + ext)[i])
  {
    hide ClampHint, NextHint, IsNextFree;
    var all := [c] + ext;
    if i > 0 {
      assert all[..i] == [c] + ext[..i - 1] && all[i] == ext[i - 1] && (i > 1 ==> all[i - 1] == ext[i - 2]);
      NextAfterFirst(s.fat, c, ext[..i - 1], ClampHint(|s.fat| - 1, HintAfter(s1, ext, i - 1)), ext[i - 1]);
    } else {
      assert all[..0] == [];
    }
  }

  lemma InOrderFirst(s: Snap, s1: Snap, c: nat, ext: seq<nat>)
    requires IsFirstFree(s.fat, ClampHint(|s.fat| - 1, s.hint), c) && In(s.fat, c)
    requires s1.fat == s.fat[c := EOC] && s1.hint == NextHint(|s.fat| - 1, c) && InOrder(s1, ext)
    ensures InOrder(s, [c] + ext)
  {
    hide ClampHint, NextHint, IsNextFree, IsFirstFree, HintAfter;
    var all := [c] + ext;
    FirstIsFree(s.fat, ClampHint(|s.fat| - 1, s.hint), c);
    forall i | 0 <= i < |all|
      ensures IsNextFree(s.fat, all[..i], ClampHint(|s.fat| - 1, HintAfter(s, all, i)), all[i])
    {
      NextInOrder(s, s1, c, ext, i);
    }
  }

  lemma DrawnFirst(s: Snap, s1: Snap, s2: Snap, c: nat, ext: seq<nat>, done: int)
    requires Took(s, s1, c, OK) && In(s.fat, c) && s1.fat == s.fat[c := EOC] && Drawn(s1, s2, ext, done)
    ensures Drawn(s, s2, [c] + ext, done + 1)
  {
    hide ClampHint, NextHint, IsFirstFree, InOrder;
    InOrderFirst(s, s1, c, ext);
    assert done > 0 ==> ([c] + ext)[done] == ext[done - 1];
  }

  /** A single cluster. */
  lemma DrawnOne(s: Snap, s': Snap, c: nat, err: Errno)
    requires Took(s, s', c, err)
    ensures Drawn(s, s', [c], if err == OK then 1 else 0)
  {
    hide ClampHint, NextHint, IsNextFree, IsFirstFree;
    FirstIsFree(s.fat, ClampHint(|s.fat| - 1, s.hint), c);
    assert [c][..0] == [];
  }

  lemma AppendedOne(fat: seq<nat>, c: nat)
    requires In(fat, c) && fat[c] == FREE
    ensures Appended(fat, fat[c := EOC], [], [c])
  {
  }

  /** The clusters handed out from one state are determined by how many they are. */
  lemma {:induction false} DrawnOnce(s: Snap, s1: Snap, s2: Snap, ext1: seq<nat>, ext2: seq<nat>, done1: int, done2: int, n: nat)
    requires Drawn(s, s1, ext1, done1) && Drawn(s, s2, ext2, done2) && n <= |ext1| && n <= |ext2|
    ensures ext1[..n] == ext2[..n]
    decreases n
  {
    hide IsNextFree, ClampHint, NextHint;
    if n > 0 {
      DrawnOnce(s, s1, s2, ext1, ext2, done1, done2, n - 1);
      assert n > 1 ==> ext1[n - 2] == ext1[..n - 1][n - 2] == ext2[..n - 1][n - 2] == ext2[n - 2];
      NextFreeOnce(s.fat, ext1[..n - 1], HintAfter(s, ext1, n - 1), ext1[n - 1], ext2[n - 1]);
      assert ext1[..n] == ext1[..n - 1] + [ext1[n - 1]] && ext2[..n] == ext2[..n - 1] + [ext2[n - 1]];
    }
  }

  /** The FAT after appending is determined, too. */
  lemma AppendedOnce(fat: seq<nat>, fat1: seq<nat>, fat2: seq<nat>, s: seq<nat>, ext: seq<nat>)
    requires Appended(fat, fat1, s, ext) && Appended(fat, fat2, s, ext)
    ensures fat1 == fat2
  {
    forall c: nat | c < |fat|
      ensures fat1[c] == fat2[c]
    {
      if c in ext {
        var i :| 0 <= i < |ext| && ext[i] == c;
        assert fat1[ext[i]] == fat2[ext[i]];
      }
    }
  }

  /** One more cluster for a chain is one more handed out. */
  lemma ExtendsDraws(s: Snap, s1: Snap, s2: Snap, h: nat, ext: seq<nat>, c: nat, err: Errno)
    requires WellFormed(s.fat, s.chains) && Extends(s.fat, s.chains, s1.fat, s1.chains, h, ext)
    requires Drawn(s, s1, ext, |ext|) && Took(s1, s2, c, err)
    ensures Drawn(s, s2, ext + [c], if err == OK then |ext| + 1 else |ext|) && c !in ext
  {
    hide WellFormed, IsChain, Drawn, Took, Appended;
    ForestChain(s.fat, s.chains, h);
    OwnedIsUsed(s.fat, s.chains[h], |s.chains[h]| - 1);
    DrawnMore(s, s1, s2, s.chains[h], ext, c, err);
  }

  lemma ChainsMore(chains: Forest, chains1: Forest, h: nat, ext: seq<nat>, c: nat)
    requires h in chains && chains1 == chains[h := chains[h] + ext]
    ensures chains1[h := chains1[h] + [c]] == chains[h := chains[h] + (ext + [c])]
  {
    assert chains[h] + (ext + [c]) == chains1[h] + [c];
  }

  lemma KeptNothing(data: seq<seq<byte>>, size: nat)
    ensures DataKept(data, data, []) && Zeroed(data, [], size)
  {
  }

  lemma KeptMore(data: seq<seq<byte>>, data1: seq<seq<byte>>, data2: seq<seq<byte>>, ext: seq<nat>, c: nat, size: nat)
    requires DataKept(data, data1, ext) && c < |data|
    requires data2 == data1 || data2 == data1[c := Zeros(size)]
    ensures DataKept(data, data2, ext + [c])
    ensures Zeroed(data1, ext, size) && data2 == data1[c := Zeros(size)] ==> Zeroed(data2, ext + [c], size)
  {
    assert c in ext + [c] && forall x :: x in ext ==> x in ext + [c];
  }

  lemma GrewAt(fat1: seq<nat>, chains1: Forest, fat2: seq<nat>, chains2: Forest, h: nat, c: nat)
    requires h in chains1 && |chains1[h]| > 0 && Last(chains1[h]) != 0
    requires Grew(fat1, chains1, fat2, chains2, Last(chains1[h]), c)
    ensures At(chains2, h, |chains1[h]|, c) && |chains2[h]| == |chains1[h]| + 1
  {
  }

  /** The outcome of seeking, with allocation, to cluster number `target` of chain `h`: the chain
      grows just far enough, or as far as there is room, by the clusters that come next. */
  ghost predicate SeekOutcome(s: Snap, s': Snap, h: nat, target: nat, clear: bool, size: nat,
                              err: Errno, result: nat, ext: seq<nat>)
  {
    && Extends(s.fat, s.chains, s'.fat, s'.chains, h, ext)
    && DataKept(s.data, s'.data, ext)
    && FreeCount(s'.fat) == FreeCount(s.fat) - |ext|
    && Drawn(s, s', ext, if err == EIO then |ext| - 1 else |ext|)
    && (!clear ==> s'.data == s.data)
    && (clear && err != EIO ==> Zeroed(s'.data, ext, size))
    && (err == OK || err == ENOSPC || err == EIO)
    && (err == OK ==> At(s'.chains, h, target, result) && s'.intact == s.intact)
    && (err == OK ==> |ext| == if target < |s.chains[h]| then 0 else target + 1 - |s.chains[h]|)
    && (err != OK ==> |s.chains[h]| <= target && |s'.chains[h]| <= target + 1)
    && (err == ENOSPC ==> |s'.chains[h]| <= target && s'.intact == s.intact && |ext| == Room(s))
    && (err == EIO ==> !s'.intact)
  }

  /** As long as FSInfo can be read the outcome of a seek is determined by the state it starts from:
      it succeeds exactly if there is room, and the result, the clusters handed out, the whole FAT,
      the chains, the cluster contents, the count and the hint are always the same.  When it cannot
      be read, the seek has gone as far, cluster by cluster, as it could. */
  lemma SeekDetermined(s: Snap, s1: Snap, s2: Snap, h: nat, target: nat, clear: bool, size: nat,
                       err1: Errno, result1: nat, ext1: seq<nat>, err2: Errno, result2: nat, ext2: seq<nat>)
    requires SeekOutcome(s, s1, h, target, clear, size, err1, result1, ext1)
    requires SeekOutcome(s, s2, h, target, clear, size, err2, result2, ext2)
    ensures ext1 <= ext2 || ext2 <= ext1
    ensures err1 != EIO ==> (err1 == OK <==> target < |s.chains[h]| + Room(s))
    ensures err1 != EIO && err2 != EIO ==> err1 == err2 && ext1 == ext2 && s1 == s2 && (err1 == OK ==> result1 == result2)
  {
    hide FreeCount, Appended, Drawn, DataKept, Zeroed;
    var done1, done2 := if err1 == EIO then |ext1| - 1 else |ext1|, if err2 == EIO then |ext2| - 1 else |ext2|;
    var n := if |ext1| < |ext2| then |ext1| else |ext2|;
    DrawnOnce(s, s1, s2, ext1, ext2, done1, done2, n);
    if err1 != EIO {
      SeekRoom(s, s1, h, target, clear, size, err1, result1, ext1);
    }
    if err1 != EIO && err2 != EIO {
      SeekRoom(s, s2, h, target, clear, size, err2, result2, ext2);
      assert ext1 == ext1[..n] && ext2 == ext2[..n];
      AppendedOnce(s.fat, s1.fat, s2.fat, s.chains[h], ext1);
      SameData(s.data, s1.data, s2.data, ext1, clear, size);
      DrawnCounts(s, s1, s2, ext1);
    }
  }

  lemma SeekRoom(s: Snap, s': Snap, h: nat, target: nat, clear: bool, size: nat, err: Errno, result: nat, ext: seq<nat>)
    requires SeekOutcome(s, s', h, target, clear, size, err, result, ext) && err != EIO
    ensures h in s.chains && (err == OK <==> target < |s.chains[h]| + Room(s))
  {
    hide FreeCount, Appended, DataKept, Zeroed, IsNextFree;
  }

  lemma SameData(data: seq<seq<byte>>, data1: seq<seq<byte>>, data2: seq<seq<byte>>, ext: seq<nat>, clear: bool, size: nat)
    requires DataKept(data, data1, ext) && DataKept(data, data2, ext)
    requires if clear then Zeroed(data1, ext, size) && Zeroed(data2, ext, size) else data1 == data2
    ensures data1 == data2
  {
    if clear {
      forall c: nat | c < |data|
        ensures data1[c] == data2[c]
      {
      }
    }
  }

  lemma DrawnCounts(s: Snap, s1: Snap, s2: Snap, ext: seq<nat>)
    requires Drawn(s, s1, ext, |ext|) && Drawn(s, s2, ext, |ext|)
    ensures s1.count == s2.count && s1.hint == s2.hint
  {
    hide IsNextFree;
  }

  /** A refusal means that all the room there was is used up. */
  lemma RoomUsed(s: Snap, s': Snap, ext: seq<nat>)
    requires Drawn(s, s', ext, |ext|) && FreeCount(s'.fat) == FreeCount(s.fat) - |ext|
    requires s'.count == 0 || s'.count == UNKNOWN || FreeCount(s'.fat) == 0
    ensures |ext| == Room(s)
  {
    hide FreeCount, IsNextFree;
  }

  /** A seek that has come to cluster number `k` of chain `h`. */
  ghost predicate Seeking(s: Snap, s1: Snap, h: nat, k: nat, clear: bool, size: nat, current: nat, ext: seq<nat>) {
    && Extends(s.fat, s.chains, s1.fat, s1.chains, h, ext) && DataKept(s.data, s1.data, ext) && s1.intact == s.intact
    && FreeCount(s1.fat) == FreeCount(s.fat) - |ext| && Drawn(s, s1, ext, |ext|)
    && (!clear ==> s1.data == s.data) && (clear ==> Zeroed(s1.data, ext, size))
    && At(s1.chains, h, k, current) && |ext| == if k < |s.chains[h]| then 0 else k + 1 - |s.chains[h]|
  }

  lemma SeekStarts(s: Snap, h: nat, k: nat, clear: bool, size: nat, current: nat)
    requires WellFormed(s.fat, s.chains) && At(s.chains, h, k, current)
    ensures Seeking(s, s, h, k, clear, size, current, [])
  {
    hide WellFormed, FreeCount, Extends, Drawn;
    ExtendsNothing(s.fat, s.chains, h);
    DrawnNothing(s);
    KeptNothing(s.data, size);
  }

  /** What `fat32_next_cluster` does at the end of a chain. */
  ghost predicate Handed(s1: Snap, s2: Snap, current: nat, clear: bool, size: nat, err: Errno, next: nat, took: nat) {
    && (err == OK || err == ENOSPC || err == EIO)
    && (err == ENOSPC ==> s2 == s1 && (s1.count == 0 || s1.count == UNKNOWN || FreeCount(s1.fat) == 0))
    && (err == EIO ==> !s2.intact) && (err == OK ==> next == took && s2.intact == s1.intact)
    && (err != ENOSPC ==>
          && Took(s1, s2, took, err) && Grew(s1.fat, s1.chains, s2.fat, s2.chains, current, took)
          && took < |s1.data| && s2.data == if err == OK && clear then s1.data[took := Zeros(size)] else s1.data)
  }

  /** One more step of a seek: along a link, or by a cluster that is handed out. */
  lemma SeekSteps(s: Snap, s1: Snap, s2: Snap, h: nat, k: nat, clear: bool, size: nat, current: nat, ext: seq<nat>,
                  err: Errno, next: nat, took: nat, target: nat) returns (ext': seq<nat>)
    requires WellFormed(s.fat, s.chains) && WellFormed(s1.fat, s1.chains)
    requires Seeking(s, s1, h, k, clear, size, current, ext) && k < target
    requires if ReadNext(s1.fat, current).0 == ENOSPC then Handed(s1, s2, current, clear, size, err, next, took)
             else s2 == s1 && (err, next) == ReadNext(s1.fat, current)
    ensures err == OK ==> Seeking(s, s2, h, k + 1, clear, size, next, ext')
    ensures err != OK ==> SeekOutcome(s, s2, h, target, clear, size, err, 0, ext')
    ensures ext' == if ReadNext(s1.fat, current).0 == ENOSPC && err != ENOSPC then ext + [took] else ext
  {
    hide WellFormed, FreeCount, Extends, Drawn, DataKept, Zeroed, IsChain, Took, Grew, Distinct;
    ChainLengths(s, s1, h, ext);
    ForestChain(s1.fat, s1.chains, h);
    SeekOnChain(s1.fat, s1.chains, h, k, 1);
    OwnedIsUsed(s1.fat, s1.chains[h], k);
    ext' := ext;
    if ReadNext(s1.fat, current).0 == ENOSPC {
      if err == ENOSPC {
        RoomUsed(s, s2, ext);
      } else {
        StepGrows(s, s1, s2, h, k, clear, size, current, ext, err, next, took);
        ext' := ext + [took];
        ChainLengths(s, s2, h, ext');
      }
    }
  }

  lemma ChainLengths(s: Snap, s1: Snap, h: nat, ext: seq<nat>)
    requires Extends(s.fat, s.chains, s1.fat, s1.chains, h, ext)
    ensures h in s.chains && h in s1.chains && |s1.chains[h]| == |s.chains[h]| + |ext| && |s.chains[h]| > 0
  {
    hide Appended;
  }

  lemma StepGrows(s: Snap, s1: Snap, s2: Snap, h: nat, k: nat, clear: bool, size: nat, current: nat, ext: seq<nat>,
                  err: Errno, next: nat, took: nat)
    requires WellFormed(s.fat, s.chains) && WellFormed(s1.fat, s1.chains) && Seeking(s, s1, h, k, clear, size, current, ext)
    requires h in s1.chains && k + 1 == |s1.chains[h]| && current != 0 && err != ENOSPC
    requires Handed(s1, s2, current, clear, size, err, next, took)
    ensures Extends(s.fat, s.chains, s2.fat, s2.chains, h, ext + [took]) && DataKept(s.data, s2.data, ext + [took])
    ensures FreeCount(s2.fat) == FreeCount(s.fat) - |ext| - 1
    ensures Drawn(s, s2, ext + [took], if err == OK then |ext| + 1 else |ext|)
    ensures !clear ==> s2.data == s.data
    ensures clear && err == OK ==> Zeroed(s2.data, ext + [took], size)
    ensures At(s2.chains, h, k + 1, took) && |s2.chains[h]| == k + 2
  {
    hide WellFormed, FreeCount, Extends, Drawn, DataKept, Zeroed, IsChain, Took, Grew;
    ExtendsMore(s.fat, s.chains, s1.fat, s1.chains, s2.fat, s2.chains, h, ext, took);
    ExtendsDraws(s, s1, s2, h, ext, took, err);
    DataLength(s.data, s1.data, ext);
    KeptMore(s.data, s1.data, s2.data, ext, took, size);
    GrewAt(s1.fat, s1.chains, s2.fat, s2.chains, h, took);
  }

  lemma DataLength(data: seq<seq<byte>>, data': seq<seq<byte>>, ext: seq<nat>)
    requires DataKept(data, data', ext)
    ensures |data'| == |data|
  {
  }

  /** A seek that has arrived. */
  lemma SeekArrives(s: Snap, s': Snap, h: nat, target: nat, clear: bool, size: nat, current: nat, ext: seq<nat>)
    requires Seeking(s, s', h, target, clear, size, current, ext)
    ensures SeekOutcome(s, s', h, target, clear, size, OK, current, ext)
  {
    hide FreeCount, Extends, Drawn, DataKept, Zeroed;
  }

  /** `fat32_seek_cluster`.  With `alloc`, `start` is cluster number `at` of chain `h`, and `ext` is
      what the chain has grown by. */
  method SeekCluster(v: Volume, start: nat, skip: nat, alloc: bool, clear: bool, ghost h: nat, ghost at: nat)
    returns (err: Errno, result: nat, ghost ext: seq<nat>)
    requires v.Valid()
    requires alloc ==> WellFormed(v.fat, v.chains) && At(v.chains, h, at, start)
    modifies v, v.disk
    ensures v.Valid() && (v.intact ==> old(v.intact))
    ensures WellFormed(old(v.fat), old(v.chains)) ==> WellFormed(v.fat, v.chains)
    ensures old(Exact(v)) ==> Exact(v)
    ensures !alloc ==> Now(v) == old(Now(v))
    ensures !alloc ==> err == SeekResult(v.fat, start, skip).0 && (err == OK ==> result == SeekResult(v.fat, start, skip).1)
    ensures alloc ==> SeekOutcome(old(Now(v)), Now(v), h, at + skip, clear, v.g.bytesPerCluster, err, result, ext)
    ensures alloc && err == ENOSPC && old(Exact(v)) && v.intact ==> FreeCount(v.fat) == 0
  {
    hide DeviceHolds, Consistent, WellFormed, FreeCount, Grew, Took, IsChain, Seeking, SeekOutcome;
    ext, result := [], 0;
    ghost var s, size := Now(v), v.g.bytesPerCluster;
    if alloc {
      SeekStarts(s, h, at, clear, size, start);
      SeekArrives(s, s, h, at, clear, size, start, []);
    }
    if skip == 0 {
      return OK, start, [];
    }
    var current := start;
    var i := 0;
    while i < skip
      invariant 0 <= i <= skip && v.Valid() && v.intact == s.intact
      invariant WellFormed(s.fat, s.chains) ==> WellFormed(v.fat, v.chains)
      invariant old(Exact(v)) ==> Exact(v)
      invariant !alloc ==> Now(v) == s
      invariant !alloc ==> SeekResult(s.fat, start, skip) == SeekResult(s.fat, current, skip - i)
      invariant alloc ==> Seeking(s, Now(v), h, at + i, clear, size, current, ext)
    {
      ghost var s1 := Now(v);
      if alloc {
        SeekingAt(s, s1, h, at + i, clear, size, current, ext);
      }
      var next;
      ghost var took;
      err, next, took := NextCluster(v, current, alloc, clear);
      if alloc {
        ext := SeekSteps(s, s1, Now(v), h, at + i, clear, size, current, ext, err, next, took, at + skip);
      }
      if err != OK {
        FreeCountBound(s1.fat);
        ClusterNumbersFit(v.g);
        return;
      }
      current := next;
      i := i + 1;
    }
    result := current;
    err := OK;
    if alloc {
      SeekArrives(s, Now(v), h, at + skip, clear, size, current, ext);
    }
  }

  /** The cluster that a seek has come to is one of a chain. */
  lemma SeekingAt(s: Snap, s1: Snap, h: nat, k: nat, clear: bool, size: nat, current: nat, ext: seq<nat>)
    requires Seeking(s, s1, h, k, clear, size, current, ext) && WellFormed(s1.fat, s1.chains)
    ensures current != 0
  {
    hide WellFormed, FreeCount, Extends, Drawn, DataKept, Zeroed, IsChain;
    ForestChain(s1.fat, s1.chains, h);
    assert In(s1.fat, s1.chains[h][k]);
  }
}
