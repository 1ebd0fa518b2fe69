/** The bytes of a cluster chain read as one flat sequence. */
module Contents {
  import opened Bytes
  import opened Layout
  import opened Chains
  import opened Volumes
  import opened Clusters

  /** Every cluster of the chain has a buffer of `size` bytes. */
  predicate Holds(data: seq<seq<byte>>, chain: seq<nat>, size: nat) {
    forall i :: 0 <= i < |chain| ==> chain[i] < |data| && |data[chain[i]]| == size
  }

  /** The contents of the clusters of `chain`, one after the other. */
  function Content(data: seq<seq<byte>>, chain: seq<nat>): seq<byte>
    requires forall i :: 0 <= i < |chain| ==> chain[i] < |data|
    decreases |chain|
  {
    if chain == [] then [] else Content(data, chain[..|chain| - 1]) + data[chain[|chain| - 1]]
  }

  lemma {:induction false} ContentLength(data: seq<seq<byte>>, chain: seq<nat>, size: nat)
    requires Holds(data, chain, size)
    ensures |Content(data, chain)| == Mul(|chain|, size)
    decreases |chain|
  {
    hide Mul;
    if chain == [] {
      MulSucc(0, size);
    } else {
      ContentLength(data, chain[..|chain| - 1], size);
      MulSucc(|chain| - 1, size);
    }
  }

  lemma {:induction false} ContentConcat(data: seq<seq<byte>>, s: seq<nat>, t: seq<nat>)
    requires forall i :: 0 <= i < |s| ==> s[i] < |data|
    requires forall i :: 0 <= i < |t| ==> t[i] < |data|
    ensures Content(data, s + t) == Content(data, s) + Content(data, t)
    decreases |t|
  {
    if t == [] {
      assert s + t == s;
    } else {
      var t' := t[..|t| - 1];
      assert (s + t)[..|s + t| - 1] == s + t';
      ContentConcat(data, s, t');
    }
  }

  lemma {:induction false} ContentFrame(data: seq<seq<byte>>, data': seq<seq<byte>>, chain: seq<nat>)
    requires |data'| == |data| && forall i :: 0 <= i < |chain| ==> chain[i] < |data|
    requires forall i :: 0 <= i < |chain| ==> data'[chain[i]] == data[chain[i]]
    ensures Content(data', chain) == Content(data, chain)
    decreases |chain|
  {
    if chain != [] {
      ContentFrame(data, data', chain[..|chain| - 1]);
    }
  }

  lemma ContentSplit(data: seq<seq<byte>>, chain: seq<nat>, i: nat, size: nat)
    requires Holds(data, chain, size) && i < |chain|
    ensures Content(data, chain)
         == Content(data, chain[..i]) + data[chain[i]] + Content(data, chain[i + 1..])
    ensures |Content(data, chain[..i])| == Mul(i, size)
    ensures Mul(i, size) + size <= |Content(data, chain)| == Mul(|chain|, size)
  {
    hide Mul, Content;
    ContentLength(data, chain, size);
    ContentLength(data, chain[..i], size);
    assert chain == chain[..i] + ([chain[i]] + chain[i + 1..]);
    ContentConcat(data, chain[..i], [chain[i]] + chain[i + 1..]);
    ContentConcat(data, [chain[i]], chain[i + 1..]);
    ContentSingle(data, chain[i]);
  }

  lemma ContentSingle(data: seq<seq<byte>>, c: nat)
    requires c < |data|
    ensures Content(data, [c]) == data[c]
  {
    assert [c][..0] == [];
  }

  /** The bytes of cluster number `i` lie at `i * size` in the content. */
  lemma ContentSlice(data: seq<seq<byte>>, chain: seq<nat>, i: nat, size: nat)
    requires Holds(data, chain, size) && i < |chain|
    ensures Mul(i, size) + size <= |Content(data, chain)|
    ensures Content(data, chain)[Mul(i, size)..Mul(i, size) + size] == data[chain[i]]
  {
    hide Mul, Content;
    ContentSplit(data, chain, i, size);
  }

  /** Writing `w` at offset `off` of cluster number `i` writes it at `i * size + off` of the
      content, provided the chain does not visit that cluster twice. */
  lemma ContentSplice(data: seq<seq<byte>>, chain: seq<nat>, i: nat, size: nat, off: nat, w: seq<byte>)
    requires Holds(data, chain, size) && Distinct(chain) && i < |chain| && off + |w| <= size
    ensures Mul(i, size) + off + |w| <= |Content(data, chain)|
    ensures Holds(data[chain[i] := Splice(data[chain[i]], off, w)], chain, size)
    ensures Content(data[chain[i] := Splice(data[chain[i]], off, w)], chain)
         == Splice(Content(data, chain), Mul(i, size) + off, w)
  {
    hide Mul, Content, Splice;
    var data' := data[chain[i] := Splice(data[chain[i]], off, w)];
    ContentSplit(data, chain, i, size);
    ContentSplit(data', chain, i, size);
    ContentFrame(data, data', chain[..i]);
    ContentFrame(data, data', chain[i + 1..]);
    SpliceMiddle(Content(data, chain[..i]), data[chain[i]], Content(data, chain[i + 1..]), off, w);
  }

  lemma SpliceMiddle(a: seq<byte>, b: seq<byte>, c: seq<byte>, off: nat, w: seq<byte>)
    requires off + |w| <= |b|
    ensures Splice(a + b + c, |a| + off, w) == a + Splice(b, off, w) + c
  {
    assert (a + b + c)[..|a| + off] == a + b[..off];
    assert (a + b + c)[|a| + off + |w|..] == b[off + |w|..] + c;
  }

  lemma {:induction false} ContentZeros(data: seq<seq<byte>>, chain: seq<nat>, size: nat)
    requires Holds(data, chain, size) && forall i :: 0 <= i < |chain| ==> data[chain[i]] == Zeros(size)
    ensures Content(data, chain) == Zeros(Mul(|chain|, size))
    decreases |chain|
  {
    hide Mul;
    if chain == [] {
      MulSucc(0, size);
    } else {
      ContentZeros(data, chain[..|chain| - 1], size);
      MulSucc(|chain| - 1, size);
      assert Zeros(Mul(|chain| - 1, size)) + Zeros(size) == Zeros(Mul(|chain|, size));
    }
  }

  // ---- chains of a volume ----

  /** The chain of a file with first cluster `h`; an empty file has none. */
  function ChainOf(chains: Forest, h: nat): seq<nat> {
    if h in chains then chains[h] else []
  }

  /** The bytes of chain `h` of a snapshot. */
  ghost function ChainBytes(s: Snap, h: nat): seq<byte>
    requires forall i :: 0 <= i < |ChainOf(s.chains, h)| ==> ChainOf(s.chains, h)[i] < |s.data|
  {
    Content(s.data, ChainOf(s.chains, h))
  }

  /** Cluster buffers are all `size` bytes and every chain is backed by buffers. */
  ghost predicate Backed(s: Snap, size: nat) {
    |s.data| == |s.fat| && forall h :: h in s.chains ==> Holds(s.data, s.chains[h], size)
  }

  lemma SoundIsBacked(v: Volume)
    requires v.Valid() && WellFormed(v.fat, v.chains)
    ensures Backed(Now(v), v.g.bytesPerCluster)
  {
    hide DeviceHolds, Consistent, IsChain;
    v.FatBounds();
    forall h | h in v.chains
      ensures Holds(v.data, v.chains[h], v.g.bytesPerCluster)
    {
      ForestChain(v.fat, v.chains, h);
      forall i | 0 <= i < |v.chains[h]|
        ensures InRange(v.g, v.chains[h][i])
      {
        assert In(v.fat, v.chains[h][i]);
      }
    }
  }

  /** Every other chain has the same clusters with the same bytes. */
  ghost predicate OthersKept(s: Snap, s': Snap, h: nat)
    requires |s.data| == |s'.data|
  {
    forall k :: k in s.chains && k != h ==>
      && k in s'.chains && s'.chains[k] == s.chains[k]
      && forall c :: c in s.chains[k] && c < |s.data| ==> s'.data[c] == s.data[c]
  }

  lemma OthersKeptTrans(s: Snap, s1: Snap, s2: Snap, h: nat)
    requires |s.data| == |s1.data| == |s2.data| && OthersKept(s, s1, h) && OthersKept(s1, s2, h)
    ensures OthersKept(s, s2, h)
  {
  }

  /** What `OthersKept` means for the bytes of another file. */
  lemma OtherBytesKept(s: Snap, s': Snap, h: nat, k: nat, size: nat)
    requires |s.data| == |s'.data| && OthersKept(s, s', h) && Backed(s, size) && Backed(s', size)
    requires k in s.chains && k != h
    ensures k in s'.chains && ChainBytes(s', k) == ChainBytes(s, k)
  {
    ContentFrame(s.data, s'.data, s.chains[k]);
  }

  /** Growing chain `h` by free clusters touches no other chain, and appends to its bytes. */
  lemma GrowthKeepsOthers(s: Snap, s': Snap, h: nat, ext: seq<nat>, size: nat)
    requires WellFormed(s.fat, s.chains) && Backed(s, size) && Backed(s', size)
    requires Extends(s.fat, s.chains, s'.fat, s'.chains, h, ext) && DataKept(s.data, s'.data, ext)
    ensures OthersKept(s, s', h)
    ensures |ChainBytes(s', h)| == |ChainBytes(s, h)| + Mul(|ext|, size)
    ensures ChainBytes(s', h)[..|ChainBytes(s, h)|] == ChainBytes(s, h)
    ensures Zeroed(s'.data, ext, size) ==> ChainBytes(s', h) == ChainBytes(s, h) + Zeros(Mul(|ext|, size))
  {
    hide WellFormed, Mul, Content, Zeros, IsChain, Appended;
    AppendedFree(s.fat, s'.fat, s.chains[h], ext);
    forall k, c | k in s.chains && c in s.chains[k] && c < |s.data|
      ensures s'.data[c] == s.data[c]
    {
      OwnedNotIn(s.fat, s.chains, k, c, ext);
    }
    var chain := s.chains[h];
    assert s'.chains[h] == chain + ext;
    assert forall i :: 0 <= i < |ext| ==> ext[i] == s'.chains[h][|chain| + i];
    assert Holds(s'.data, s'.chains[h], size);
    assert Holds(s'.data, ext, size);
    ContentFrame(s.data, s'.data, chain);
    assert forall i :: 0 <= i < |chain| ==> chain[i] < |s'.data|;
    ContentConcat(s'.data, chain, ext);
    ContentLength(s'.data, ext, size);
    if Zeroed(s'.data, ext, size) {
      ContentZeros(s'.data, ext, size);
    }
  }

  lemma OwnedNotIn(fat: seq<nat>, chains: Forest, k: nat, c: nat, ext: seq<nat>)
    requires WellFormed(fat, chains) && k in chains && c in chains[k]
    requires forall i :: 0 <= i < |ext| ==> In(fat, ext[i]) && fat[ext[i]] == FREE
    ensures c !in ext
  {
    hide WellFormed;
    ForestChain(fat, chains, k);
    var i :| 0 <= i < |chains[k]| && chains[k][i] == c;
    OwnedIsUsed(fat, chains[k], i);
  }

  /** Quotient and remainder, as shifting and masking compute them. */
  lemma SplitOffset(g: Geometry, off: nat) returns (q: nat, r: nat)
    requires Consistent(g)
    ensures off == Mul(q, g.bytesPerCluster) + r && r < g.bytesPerCluster
    ensures Shr(off, g.clusterShift) == q && And(off, g.clusterMask) == r
  {
    hide Shr, And, Pow2;
    q, r := DivMod(off, g.bytesPerCluster);
    ShrAnd(off, q, r, g.clusterShift);
  }

  lemma DivMod(x: nat, size: nat) returns (q: nat, r: nat)
    requires size > 0
    ensures x == Mul(q, size) + r && r < size
  {
    q, r := x / size, x % size;
  }
}
