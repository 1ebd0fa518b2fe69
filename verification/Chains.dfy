/** Cluster chains as a value: the forest that the FAT encodes, and what allocating, linking,
    cutting and freeing do to it. */
module Chains {
  import opened Layout

  type Forest = map<nat, seq<nat>>

  /** `c` names an entry of the FAT (entries 0 and 1 are reserved). */
  predicate In(fat: seq<nat>, c: int) {
    CLUSTER_MIN <= c < |fat|
  }

  predicate Distinct(s: seq<nat>) {
    forall i, j :: 0 <= i < j < |s| ==> s[i] != s[j]
  }

  /** `s` is a chain of the FAT: every cluster links to the next, the last one is marked. */
  predicate IsChain(fat: seq<nat>, s: seq<nat>) {
    && |s| > 0
    && (forall i :: 0 <= i < |s| ==> In(fat, s[i]))
    && (forall i :: 0 <= i < |s| - 1 ==> fat[s[i]] == s[i + 1])
    && fat[s[|s| - 1]] >= EOC_MIN
  }

  predicate IsOwned(chains: Forest, c: nat) {
    exists h :: h in chains && c in chains[h]
  }

  /** Every chain is in range, linked, free of cycles and closed by an end mark; no cluster is on
      two chains; and every cluster is free, bad or on a chain. */
  ghost predicate WellFormed(fat: seq<nat>, chains: Forest) {
    |fat| <= CLUSTER_MAX + 1 && AllChains(fat, chains) && Disjoint(chains) && Covers(fat, chains)
  }

  predicate AllChains(fat: seq<nat>, chains: Forest) {
    forall h :: h in chains ==> |chains[h]| > 0 && chains[h][0] == h && IsChain(fat, chains[h]) && Distinct(chains[h])
  }

  predicate Disjoint(chains: Forest) {
    forall h, h', c :: h in chains && h' in chains && c in chains[h] && c in chains[h'] ==> h == h'
  }

  predicate Covers(fat: seq<nat>, chains: Forest) {
    forall c: nat :: c < |fat| && In(fat, c) && fat[c] != FREE && fat[c] != BAD ==> IsOwned(chains, c)
  }

  function Last(s: seq<nat>): nat
    requires |s| > 0
  {
    s[|s| - 1]
  }

  /** Entries on a chain are neither free nor bad. */
  lemma OwnedIsUsed(fat: seq<nat>, s: seq<nat>, i: nat)
    requires IsChain(fat, s) && |fat| <= CLUSTER_MAX + 1 && i < |s|
    ensures fat[s[i]] != FREE && fat[s[i]] != BAD
    ensures fat[s[i]] >= EOC_MIN <==> i == |s| - 1
  {
    if i < |s| - 1 {
      assert fat[s[i]] == s[i + 1] && In(fat, s[i + 1]);
    }
  }

  lemma FreeIsUnowned(fat: seq<nat>, chains: Forest, c: nat)
    requires WellFormed(fat, chains) && In(fat, c) && fat[c] == FREE
    ensures !IsOwned(chains, c) && c !in chains
  {
    assert c in chains ==> chains[c][0] in chains[c];
    if h :| h in chains && c in chains[h] {
      var i :| 0 <= i < |chains[h]| && chains[h][i] == c;
      OwnedIsUsed(fat, chains[h], i);
    }
  }

  lemma SuffixIsChain(fat: seq<nat>, s: seq<nat>, i: nat)
    requires IsChain(fat, s) && i < |s|
    ensures IsChain(fat, s[i..])
  {
    var t := s[i..];
    assert forall j :: 0 <= j < |t| ==> t[j] == s[i + j];
    forall j | 0 <= j < |t| - 1
      ensures fat[t[j]] == t[j + 1]
    {
      assert fat[s[i + j]] == s[i + j + 1];
    }
  }

  /** The FAT determines the chain of a first cluster. */
  lemma {:induction false} ChainUnique(fat: seq<nat>, s: seq<nat>, t: seq<nat>)
    requires |fat| <= CLUSTER_MAX + 1 && IsChain(fat, s) && IsChain(fat, t) && s[0] == t[0]
    ensures s == t
  {
    OwnedIsUsed(fat, s, 0);
    OwnedIsUsed(fat, t, 0);
    if |s| > 1 {
      OwnedIsUsed(fat, t, 0);
      SuffixIsChain(fat, s, 1);
      SuffixIsChain(fat, t, 1);
      assert fat[s[0]] == s[1] && fat[t[0]] == t[1];
      ChainUnique(fat, s[1..], t[1..]);
      assert s == [s[0]] + s[1..] && t == [t[0]] + t[1..];
    }
  }

  /** A linked sequence of clusters that reaches an end mark cannot contain a cycle. */
  lemma {:induction false} ChainsAreAcyclic(fat: seq<nat>, s: seq<nat>)
    requires |fat| <= CLUSTER_MAX + 1 && IsChain(fat, s)
    ensures Distinct(s)
  {
    forall i, j | 0 <= i < j < |s|
      ensures s[i] != s[j]
    {
      if s[i] == s[j] {
        SuffixIsChain(fat, s, i);
        SuffixIsChain(fat, s, j);
        ChainUnique(fat, s[i..], s[j..]);
        assert false;
      }
    }
  }

  /** The chain that owns the entry of a tail is found at its end. */
  lemma TailOwner(fat: seq<nat>, chains: Forest, c: nat) returns (h: nat)
    requires WellFormed(fat, chains) && In(fat, c) && fat[c] >= EOC_MIN
    ensures h in chains && |chains[h]| > 0 && Last(chains[h]) == c
  {
    assert IsOwned(chains, c);
    h :| h in chains && c in chains[h];
    var i :| 0 <= i < |chains[h]| && chains[h][i] == c;
    OwnedIsUsed(fat, chains[h], i);
  }

  // ---- growing ----

  /** A link outside a chain does not matter to it. */
  lemma ChainElsewhere(fat: seq<nat>, s: seq<nat>, c: nat, v: nat)
    requires In(fat, c) && IsChain(fat, s) && c !in s
    ensures IsChain(fat[c := v], s)
  {
    forall i | 0 <= i < |s|
      ensures fat[c := v][s[i]] == fat[s[i]]
    {
      assert In(fat, s[i]) && s[i] in s;
    }
  }

  /** Marking a free cluster as a chain of its own keeps the forest. */
  lemma BirthKeepsForest(fat: seq<nat>, chains: Forest, c: nat)
    requires WellFormed(fat, chains) && In(fat, c) && fat[c] == FREE
    ensures WellFormed(fat[c := EOC], chains[c := [c]])
  {
    hide IsChain;
    FreeIsUnowned(fat, chains, c);
    var fat', chains' := fat[c := EOC], chains[c := [c]];
    forall h | h in chains'
      ensures |chains'[h]| > 0 && chains'[h][0] == h && IsChain(fat', chains'[h]) && Distinct(chains'[h])
    {
      if h == c {
        SingletonChain(fat, c);
      } else {
        assert c !in chains[h];
        ChainElsewhere(fat, chains[h], c, EOC);
      }
    }
    forall x: nat | x < |fat'| && In(fat', x) && fat'[x] != FREE && fat'[x] != BAD
      ensures IsOwned(chains', x)
    {
      StillOwned(fat, chains, chains', x, c);
    }
    assert Disjoint(chains') by {
      DisjointGrown(chains, c, [], c);
    }
  }

  lemma SingletonChain(fat: seq<nat>, c: nat)
    requires In(fat, c)
    ensures IsChain(fat[c := EOC], [c])
  {
  }

  lemma StillOwned(fat: seq<nat>, chains: Forest, chains': Forest, x: nat, c: nat)
    requires x == c || IsOwned(chains, x)
    requires exists h :: h in chains' && c in chains'[h]
    requires forall h :: h in chains ==> h in chains' && forall y :: y in chains[h] ==> y in chains'[h]
    ensures IsOwned(chains', x)
  {
    if x != c {
      var h :| h in chains && x in chains[h];
      assert h in chains' && x in chains'[h];
    }
  }

  /** Adding an unowned cluster to one chain, or as a new chain, keeps the chains disjoint. */
  lemma DisjointGrown(chains: Forest, h: nat, s: seq<nat>, c: nat)
    requires Disjoint(chains) && !IsOwned(chains, c)
    requires if h in chains then chains[h] == s else s == []
    ensures Disjoint(chains[h := s + [c]])
  {
    var chains' := chains[h := s + [c]];
    forall k, k', x | k in chains' && k' in chains' && x in chains'[k] && x in chains'[k']
      ensures k == k'
    {
      if x == c {
        assert k in chains && k != h ==> c !in chains[k];
        assert k' in chains && k' != h ==> c !in chains[k'];
      } else {
        assert k in chains && k' in chains && x in chains[k] && x in chains[k'];
      }
    }
  }

  /** Appending a free cluster to a chain keeps the forest. */
  lemma LinkKeepsForest(fat: seq<nat>, chains: Forest, h: nat, c: nat)
    requires WellFormed(fat, chains) && h in chains && In(fat, c) && fat[c] == FREE
    requires In(fat, Last(chains[h]))
    ensures WellFormed(fat[c := EOC][Last(chains[h]) := c], chains[h := chains[h] + [c]])
  {
    hide IsChain, Distinct;
    FreeIsUnowned(fat, chains, c);
    var s := chains[h];
    var p := Last(s);
    assert p in s;
    OwnedIsUsed(fat, s, |s| - 1);
    var fat', chains' := fat[c := EOC][p := c], chains[h := s + [c]];
    forall k | k in chains'
      ensures |chains'[k]| > 0 && chains'[k][0] == k && IsChain(fat', chains'[k]) && Distinct(chains'[k])
    {
      assert c !in chains[k];
      if k == h {
        LinkedChain(fat, s, c);
      } else {
        assert p !in chains[k];
        ChainElsewhere(fat, chains[k], c, EOC);
        ChainElsewhere(fat[c := EOC], chains[k], p, c);
      }
    }
    assert c in chains'[h];
    forall x: nat | x < |fat'| && In(fat', x) && fat'[x] != FREE && fat'[x] != BAD
      ensures IsOwned(chains', x)
    {
      assert x == p ==> IsOwned(chains, x);
      StillOwned(fat, chains, chains', x, c);
    }
    DisjointGrown(chains, h, s, c);
  }

  lemma LinkedChain(fat: seq<nat>, s: seq<nat>, c: nat)
    requires IsChain(fat, s) && Distinct(s) && In(fat, c) && c !in s
    ensures IsChain(fat[c := EOC][Last(s) := c], s + [c]) && Distinct(s + [c])
  {
    var fat', t := fat[c := EOC][Last(s) := c], s + [c];
    assert forall i :: 0 <= i < |s| ==> t[i] == s[i] && In(fat, s[i]) && s[i] in s;
    forall i | 0 <= i < |t| - 1
      ensures fat'[t[i]] == t[i + 1]
    {
      if i < |s| - 1 {
        assert s[i] != s[|s| - 1] && s[i] != c && fat[s[i]] == s[i + 1];
      }
    }
  }

  // ---- freeing ----

  /** The FAT with every cluster of `s` marked free. */
  function FreeAll(fat: seq<nat>, s: seq<nat>): (fat': seq<nat>)
    requires forall i :: 0 <= i < |s| ==> In(fat, s[i])
    ensures |fat'| == |fat|
    ensures forall c: nat :: c < |fat| ==> fat'[c] == if c in s then FREE else fat[c]
    decreases |s|
  {
    if s == [] then fat
    else
      assert s == [s[0]] + s[1..] && In(fat, s[0]);
      assert forall i :: 0 <= i < |s| - 1 ==> s[1..][i] == s[i + 1] && In(fat, s[i + 1]);
      FreeAll(fat[s[0] := FREE], s[1..])
  }

  /** Freeing a whole chain keeps the rest of the forest. */
  lemma FreeKeepsForest(fat: seq<nat>, chains: Forest, h: nat)
    requires WellFormed(fat, chains) && h in chains && ChainInRange(fat, chains[h])
    ensures WellFormed(FreeAll(fat, chains[h]), chains - {h})
  {
    hide IsChain, Distinct, FreeAll;
    var fat', chains' := FreeAll(fat, chains[h]), chains - {h};
    forall k | k in chains'
      ensures IsChain(fat', chains'[k])
    {
      SameEntriesSameChain(fat, fat', chains, h, k);
    }
    forall x: nat | x < |fat'| && In(fat', x) && fat'[x] != FREE && fat'[x] != BAD
      ensures IsOwned(chains', x)
    {
      var k :| k in chains && x in chains[k];
      assert k in chains' && x in chains'[k];
    }
  }

  predicate ChainInRange(fat: seq<nat>, s: seq<nat>) {
    forall i :: 0 <= i < |s| ==> In(fat, s[i])
  }

  lemma SameEntriesSameChain(fat: seq<nat>, fat': seq<nat>, chains: Forest, h: nat, k: nat)
    requires Disjoint(chains) && h in chains && k in chains && h != k
    requires |fat'| == |fat| && forall c: nat :: c < |fat| && c !in chains[h] ==> fat'[c] == fat[c]
    requires IsChain(fat, chains[k])
    ensures IsChain(fat', chains[k])
  {
    forall i | 0 <= i < |chains[k]|
      ensures In(fat, chains[k][i]) && fat'[chains[k][i]] == fat[chains[k][i]]
    {
      assert chains[k][i] in chains[k];
    }
  }

  /** What cutting a chain after its first `n` clusters does to the FAT. */
  function CutAt(fat: seq<nat>, s: seq<nat>, n: nat): (fat': seq<nat>)
    requires 0 < n <= |s| && ChainInRange(fat, s)
    ensures |fat'| == |fat|
    ensures forall c: nat :: c < |fat| ==>
              fat'[c] == if c in s[n..] then FREE else if c == s[n - 1] then EOC else fat[c]
  {
    assert In(fat, s[n - 1]) && forall i :: n <= i < |s| ==> s[n..][i - n] == s[i];
    FreeAll(fat[s[n - 1] := EOC], s[n..])
  }

  /** Cutting a chain keeps the forest and shortens that chain only. */
  lemma CutKeepsForest(fat: seq<nat>, chains: Forest, h: nat, n: nat)
    requires WellFormed(fat, chains) && h in chains && 0 < n <= |chains[h]| && ChainInRange(fat, chains[h])
    ensures WellFormed(CutAt(fat, chains[h], n), chains[h := chains[h][..n]])
  {
    hide IsChain, Distinct, CutAt;
    var s := chains[h];
    var fat', chains' := CutAt(fat, s, n), chains[h := s[..n]];
    assert forall c :: c in s[n..] ==> c in s;
    assert forall c :: c in s[..n] ==> c in s;
    assert s[n - 1] in s && s[..n][0] == s[0];
    forall k | k in chains'
      ensures |chains'[k]| > 0 && chains'[k][0] == k && IsChain(fat', chains'[k]) && Distinct(chains'[k])
    {
      if k == h {
        CutChain(fat, s, n);
      } else {
        SameEntriesSameChain(fat, fat', chains, h, k);
      }
    }
    forall x: nat | x < |fat'| && In(fat', x) && fat'[x] != FREE && fat'[x] != BAD
      ensures IsOwned(chains', x)
    {
      CutStillOwned(fat, fat', chains, h, n, x);
    }
    forall k, k', x | k in chains' && k' in chains' && x in chains'[k] && x in chains'[k']
      ensures k == k'
    {
      assert x in chains[k] && x in chains[k'];
    }
  }

  lemma CutStillOwned(fat: seq<nat>, fat': seq<nat>, chains: Forest, h: nat, n: nat, x: nat)
    requires h in chains && 0 < n <= |chains[h]|
    requires x in chains[h] || IsOwned(chains, x)
    requires x !in chains[h][n..]
    ensures IsOwned(chains[h := chains[h][..n]], x)
  {
    var s, chains' := chains[h], chains[h := chains[h][..n]];
    if x in s {
      assert forall i :: n <= i < |s| ==> s[i] == s[n..][i - n] && s[i] in s[n..];
      var i :| 0 <= i < |s| && s[i] == x;
      assert x == s[..n][i] && x in chains'[h];
    } else {
      var k :| k in chains && x in chains[k];
      assert k in chains' && x in chains'[k];
    }
  }

  lemma CutChain(fat: seq<nat>, s: seq<nat>, n: nat)
    requires IsChain(fat, s) && Distinct(s) && 0 < n <= |s| && ChainInRange(fat, s)
    ensures IsChain(CutAt(fat, s, n), s[..n]) && Distinct(s[..n])
  {
    hide CutAt;
    var fat', t := CutAt(fat, s, n), s[..n];
    assert forall i :: 0 <= i < n ==> t[i] == s[i];
    forall i | 0 <= i < n
      ensures fat'[t[i]] == if i == n - 1 then EOC else t[i + 1]
    {
      assert forall j :: 0 <= j < |s| - n ==> s[n..][j] == s[n + j] != s[i];
      assert i < n - 1 ==> fat[s[i]] == s[i + 1];
    }
  }

  // ---- counting free clusters ----

  ghost function FreeSet(fat: seq<nat>): set<nat> {
    set c: nat | c < |fat| && In(fat, c) && fat[c] == FREE
  }

  /** The number of free clusters. */
  ghost function FreeCount(fat: seq<nat>): nat {
    |FreeSet(fat)|
  }

  lemma FreeCountBound(fat: seq<nat>)
    ensures FreeCount(fat) <= |fat|
    ensures FreeCount(fat) == 0 <==> forall c: nat :: In(fat, c) ==> fat[c] != FREE
  {
    SetBound(FreeSet(fat), |fat|);
    if FreeCount(fat) == 0 {
      forall c: nat | In(fat, c)
        ensures fat[c] != FREE
      {
        assert c !in FreeSet(fat);
      }
    }
  }

  lemma {:induction false} SetBound(s: set<nat>, n: nat)
    requires forall c :: c in s ==> c < n
    ensures |s| <= n
    decreases n
  {
    if n > 0 {
      SetBound(s - {n - 1}, n - 1);
    } else {
      assert s == {};
    }
  }

  lemma TakeCount(fat: seq<nat>, c: nat, v: nat)
    requires In(fat, c) && fat[c] == FREE && v != FREE
    ensures FreeCount(fat[c := v]) == FreeCount(fat) - 1
  {
    assert FreeSet(fat[c := v]) == FreeSet(fat) - {c};
  }

  lemma PutCount(fat: seq<nat>, c: nat)
    requires In(fat, c) && fat[c] != FREE
    ensures FreeCount(fat[c := FREE]) == FreeCount(fat) + 1
  {
    assert FreeSet(fat[c := FREE]) == FreeSet(fat) + {c};
  }

  lemma SameCount(fat: seq<nat>, c: nat, v: nat)
    requires In(fat, c) && (fat[c] == FREE <==> v == FREE)
    ensures FreeCount(fat[c := v]) == FreeCount(fat)
  {
    assert FreeSet(fat[c := v]) == FreeSet(fat);
  }

  /** Freeing a chain gains exactly its length. */
  lemma {:induction false} FreeAllCount(fat: seq<nat>, s: seq<nat>)
    requires Distinct(s) && forall i :: 0 <= i < |s| ==> In(fat, s[i]) && fat[s[i]] != FREE
    ensures FreeCount(FreeAll(fat, s)) == FreeCount(fat) + |s|
    decreases |s|
  {
    if s != [] {
      PutCount(fat, s[0]);
      assert forall i :: 0 <= i < |s| - 1 ==> s[1..][i] == s[i + 1] && s[i + 1] != s[0];
      FreeAllCount(fat[s[0] := FREE], s[1..]);
    }
  }

  // ---- the walk of fat32_free_clusters, on any FAT ----

  datatype Walked = Walked(fat: seq<nat>, count: nat, ok: bool)

  ghost function UsedSet(fat: seq<nat>): set<nat> {
    set c: nat | c < |fat| && In(fat, c) && fat[c] != FREE
  }

  /** The loop of `fat32_free_clusters` from `c`: free the cluster, follow its old link, stop
      outside the cluster values, fail on a value beyond the volume.  It ends on every FAT: each
      step uses up a non-free entry, and a free entry ends the walk. */
  ghost function Walk(fat: seq<nat>, c: nat): (w: Walked)
    ensures |w.fat| == |fat|
    ensures forall x: nat :: x < |fat| ==> w.fat[x] == fat[x] || w.fat[x] == FREE
    decreases |UsedSet(fat)|, if CLUSTER_MIN <= c < EOC_MIN then 1 else 0
  {
    if c < CLUSTER_MIN || c >= EOC_MIN then Walked(fat, 0, true)
    else if !In(fat, c) then Walked(fat, 0, false)
    else
      UsedShrinks(fat, c);
      var w := Walk(fat[c := FREE], fat[c]);
      w.(count := w.count + 1)
  }

  lemma UsedShrinks(fat: seq<nat>, c: nat)
    requires In(fat, c)
    ensures |UsedSet(fat[c := FREE])| <= |UsedSet(fat)|
    ensures fat[c] != FREE ==> |UsedSet(fat[c := FREE])| < |UsedSet(fat)|
  {
    assert UsedSet(fat[c := FREE]) == UsedSet(fat) - {c};
  }

  /** On a chain the walk frees exactly the chain. */
  lemma {:induction false} WalkFreesChain(fat: seq<nat>, s: seq<nat>)
    requires |fat| <= CLUSTER_MAX + 1 && IsChain(fat, s) && Distinct(s)
    ensures Walk(fat, s[0]) == Walked(FreeAll(fat, s), |s|, true)
    decreases |s|
  {
    OwnedIsUsed(fat, s, 0);
    var fat1 := fat[s[0] := FREE];
    if |s| == 1 {
      assert s[1..] == [];
    } else {
      assert forall i :: 1 <= i < |s| ==> s[i] != s[0];
      assert IsChain(fat1, s[1..]);
      WalkFreesChain(fat1, s[1..]);
    }
  }

  /** The walk from `c` comes to a free cluster. */
  ghost predicate MeetsFree(fat: seq<nat>, c: nat)
    decreases |UsedSet(fat)|, if CLUSTER_MIN <= c < EOC_MIN then 1 else 0
  {
    CLUSTER_MIN <= c < EOC_MIN && In(fat, c)
    && (fat[c] == FREE || (UsedShrinks(fat, c); MeetsFree(fat[c := FREE], fat[c])))
  }

  /** On any FAT the walk counts the clusters it newly frees, and one more exactly if it comes to a
      free cluster. */
  lemma {:induction false} WalkCount(fat: seq<nat>, c: nat)
    ensures var w := Walk(fat, c);
      FreeCount(fat) + w.count == FreeCount(w.fat) + if MeetsFree(fat, c) then 1 else 0
    decreases |UsedSet(fat)|, if CLUSTER_MIN <= c < EOC_MIN then 1 else 0
  {
    hide FreeCount;
    if CLUSTER_MIN <= c < EOC_MIN && In(fat, c) {
      UsedShrinks(fat, c);
      if fat[c] == FREE {
        SameCount(fat, c, FREE);
        assert Walk(fat[c := FREE], FREE) == Walked(fat[c := FREE], 0, true);
      } else {
        PutCount(fat, c);
        WalkCount(fat[c := FREE], fat[c]);
      }
    }
  }

  /** Clusters that link one to the next, from `c` to one that is free or that came up before. */
  predicate Returns(fat: seq<nat>, c: nat, trail: seq<nat>) {
    && |trail| > 0 && trail[0] == c
    && (forall i :: 0 <= i < |trail| ==> In(fat, trail[i]) && trail[i] < EOC_MIN)
    && (forall i :: 0 <= i < |trail| - 1 ==> fat[trail[i]] == trail[i + 1])
    && (fat[Last(trail)] == FREE || Last(trail) in trail[..|trail| - 1])
  }

  /** The walk counts one too many exactly on a FAT that, from `c` on, leads to a free entry or in a
      circle. */
  lemma MeetsFreeExact(fat: seq<nat>, c: nat)
    ensures MeetsFree(fat, c) <==> exists trail :: Returns(fat, c, trail)
  {
    hide MeetsFree;
    if MeetsFree(fat, c) {
      var trail := TrailOf(fat, c);
    }
    if trail :| Returns(fat, c, trail) {
      TrailMeets(fat, c, trail);
    }
  }

  lemma {:induction false} TrailOf(fat: seq<nat>, c: nat) returns (trail: seq<nat>)
    requires MeetsFree(fat, c)
    ensures Returns(fat, c, trail)
    decreases |UsedSet(fat)|, if CLUSTER_MIN <= c < EOC_MIN then 1 else 0
  {
    if fat[c] == FREE {
      trail := [c];
    } else {
      UsedShrinks(fat, c);
      var rest := TrailOf(fat[c := FREE], fat[c]);
      if c in rest {
        var k := FirstAt(rest, c);
        trail := [c] + rest[..k + 1];
        assert trail[..|trail| - 1][0] == c && Last(trail) == c;
      } else {
        trail := [c] + rest;
        if Last(rest) in rest[..|rest| - 1] {
          var k :| 0 <= k < |rest| - 1 && rest[k] == Last(rest);
          assert trail[..|trail| - 1][k + 1] == Last(trail);
        }
      }
      assert forall i :: 1 <= i < |trail| ==> trail[i] == rest[i - 1];
      forall i | 0 <= i < |trail| - 1
        ensures fat[trail[i]] == trail[i + 1]
      {
        if i > 0 {
          assert trail[i] != c;
          assert fat[c := FREE][rest[i - 1]] == rest[i];
        }
      }
    }
  }

  lemma FirstAt(s: seq<nat>, c: nat) returns (k: nat)
    requires c in s
    ensures k < |s| && s[k] == c && forall i :: 0 <= i < k ==> s[i] != c
  {
    k := 0;
    while s[k] != c
      invariant k < |s| && (forall i :: 0 <= i < k ==> s[i] != c)
      invariant c in s[k..]
      decreases |s| - k
    {
      assert s[k..] == [s[k]] + s[k + 1..];
      k := k + 1;
    }
  }

  lemma {:induction false} TrailMeets(fat: seq<nat>, c: nat, trail: seq<nat>)
    requires Returns(fat, c, trail)
    ensures MeetsFree(fat, c)
    decreases |trail|
  {
    if |trail| > 1 && fat[c] != FREE {
      UsedShrinks(fat, c);
      var fat1, rest := fat[c := FREE], trail[1..];
      var k := |rest| - 1;
      if c in rest {
        k := FirstAt(rest, c);
      } else {
        var i :| fat[Last(trail)] != FREE ==> 0 <= i < |trail| - 1 && trail[i] == Last(trail);
        assert fat[Last(trail)] != FREE ==> rest[..k][i - 1] == Last(rest);
      }
      var short := rest[..k + 1];
      assert forall i :: 0 <= i <= k ==> short[i] == trail[i + 1];
      assert Last(short) == rest[k] && short[..|short| - 1] == rest[..k];
      assert Returns(fat1, fat[c], short);
      TrailMeets(fat1, fat[c], short);
    }
  }
}
