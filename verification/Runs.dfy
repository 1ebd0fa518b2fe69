/** Every run of cluster operations: whatever the order of allocations, cuts and frees, and whether
    or not FSInfo could be read, the forest stays well formed and no cluster is lost. */
module Runs {
  import opened Layout
  import opened Volumes
  import opened Chains
  import opened Clusters

  /** One operation on the FAT: `fat32_next_cluster` handing out cluster `c` behind `parent` (0 for
      a new chain), or `fat32_free_clusters`. */
  datatype ClusterOp = Extend(parent: nat, c: nat) | Release(start: nat, freeStart: bool)

  datatype FatState = FatState(fat: seq<nat>, chains: Forest)

  /** What the contracts of `Clusters.NextCluster` and `Clusters.FreeClusters` say of one call. */
  ghost predicate Step(s: FatState, op: ClusterOp, s': FatState) {
    match op
    case Extend(parent, c) =>
      && (parent == 0 || ReadNext(s.fat, parent).0 == ENOSPC)
      && Grew(s.fat, s.chains, s'.fat, s'.chains, parent, c)
    case Release(start, freeStart) =>
      && FreesOwned(s.chains, start, freeStart) && In(s.fat, start)
      && s'.fat == FreeEffect(s.fat, start, freeStart).fat
      && FreedForest(s.chains, s'.chains, start, freeStart)
  }

  /** The free clusters gained or lost. */
  ghost function Gain(s: FatState, op: ClusterOp): int
    requires op.Release? ==> In(s.fat, op.start)
  {
    match op
    case Extend(parent, c) => -1
    case Release(start, freeStart) => FreeEffect(s.fat, start, freeStart).count
  }

  lemma ExtendKeeps(s: FatState, parent: nat, c: nat, s': FatState)
    requires WellFormed(s.fat, s.chains) && Step(s, Extend(parent, c), s')
    ensures WellFormed(s'.fat, s'.chains) && FreeCount(s'.fat) == FreeCount(s.fat) - 1
  {
    hide WellFormed, FreeCount, IsChain;
    if parent == 0 {
      BirthKeepsForest(s.fat, s.chains, c);
      LinkCount(s.fat, 0, c);
    } else {
      EndMark(s.fat, parent);
      var h := TailOwner(s.fat, s.chains, parent);
      LinkKeepsForest(s.fat, s.chains, h, c);
      LinkCount(s.fat, parent, c);
    }
  }

  lemma EndMark(fat: seq<nat>, c: nat)
    requires ReadNext(fat, c).0 == ENOSPC
    ensures In(fat, c) && fat[c] >= EOC_MIN
  {
  }

  lemma ReleaseKeeps(s: FatState, start: nat, freeStart: bool, s': FatState)
    requires WellFormed(s.fat, s.chains) && Step(s, Release(start, freeStart), s')
    ensures WellFormed(s'.fat, s'.chains)
    ensures FreeCount(s'.fat) == FreeCount(s.fat) + FreeEffect(s.fat, start, freeStart).count
  {
    hide WellFormed, FreeCount, FreeEffect, NewForest;
    FreeOwned(s.fat, s.chains, start, freeStart);
    FreedOnce(s.chains, NewForest(s.fat, s.chains, start, freeStart), s'.chains, start, freeStart);
  }

  lemma FreedOnce(chains: Forest, a: Forest, b: Forest, start: nat, freeStart: bool)
    requires FreesOwned(chains, start, freeStart)
    requires FreedForest(chains, a, start, freeStart) && FreedForest(chains, b, start, freeStart)
    ensures a == b
  {
    if !freeStart {
      CutPointExists(chains, start);
      var h, i :| At(chains, h, i, start);
    }
  }

  ghost predicate Run(states: seq<FatState>, ops: seq<ClusterOp>) {
    && |states| == |ops| + 1
    && forall i :: 0 <= i < |ops| ==> Step(states[i], ops[i], states[i + 1])
  }

  /** The free clusters gained over a run. */
  ghost function TotalGain(states: seq<FatState>, ops: seq<ClusterOp>): int
    requires Run(states, ops)
    decreases |ops|
  {
    if ops == [] then 0
    else
      var n := |ops| - 1;
      assert Step(states[n], ops[n], states[n + 1]);
      RunPrefix(states, ops);
      TotalGain(states[..n + 1], ops[..n]) + Gain(states[n], ops[n])
  }

  lemma RunPrefix(states: seq<FatState>, ops: seq<ClusterOp>)
    requires Run(states, ops) && ops != []
    ensures Run(states[..|ops|], ops[..|ops| - 1])
  {
    var n := |ops| - 1;
    forall i | 0 <= i < n
      ensures Step(states[..n + 1][i], ops[..n][i], states[..n + 1][i + 1])
    {
      assert Step(states[i], ops[i], states[i + 1]);
    }
  }

  /** Over every run each chain stays in range, free of cycles and closed, no two chains share a
      cluster, every cluster is free, bad or on a chain, and the number of free clusters changes
      by exactly what was handed out and given back. */
  lemma {:induction false} RunKeepsForest(states: seq<FatState>, ops: seq<ClusterOp>)
    requires Run(states, ops) && WellFormed(states[0].fat, states[0].chains)
    ensures WellFormed(states[|ops|].fat, states[|ops|].chains)
    ensures FreeCount(states[|ops|].fat) == FreeCount(states[0].fat) + TotalGain(states, ops)
    decreases |ops|
  {
    hide WellFormed, FreeCount, Step;
    if ops != [] {
      var n := |ops| - 1;
      RunPrefix(states, ops);
      RunKeepsForest(states[..n + 1], ops[..n]);
      assert Step(states[n], ops[n], states[n + 1]);
      match ops[n]
      case Extend(parent, c) => ExtendKeeps(states[n], parent, c, states[n + 1]);
      case Release(start, freeStart) => ReleaseKeeps(states[n], start, freeStart, states[n + 1]);
    }
  }
}
