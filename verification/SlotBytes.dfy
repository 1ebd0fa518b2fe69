/** Directory slots on cluster chains: where slot `k` of a directory lies, and what reading,
    writing and growing do to the slots. */
module SlotBytes {
  import opened Bytes
  import opened Layout
  import opened Volumes
  import opened Chains
  import opened Clusters
  import opened Contents
  import opened Slots

  /** Slots per cluster. */
  function PerCluster(g: Geometry): nat {
    16 * g.sectorsPerCluster
  }

  lemma PerClusterIs(g: Geometry, i: nat)
    requires Consistent(g)
    ensures g.bytesPerCluster == SLOT * PerCluster(g) && PerCluster(g) >= 16
    ensures Mul(i, g.bytesPerCluster) == SLOT * Mul(i, PerCluster(g))
  {
    MulThrough(i, PerCluster(g));
  }

  lemma MulThrough(i: nat, p: nat)
    ensures Mul(i, SLOT * p) == SLOT * Mul(i, p)
  {
  }

  /** The slots of the directory with chain `h`. */
  ghost function DirSlots(s: Snap, h: nat): (slots: seq<Slot>)
    requires forall i :: 0 <= i < |ChainOf(s.chains, h)| ==> ChainOf(s.chains, h)[i] < |s.data|
  {
    ToSlots(ChainBytes(s, h))
  }

  /** The slot in a cluster buffer. */
  function BufferSlot(buf: seq<byte>, j: nat): Slot
    requires SLOT * j + SLOT <= |buf|
  {
    buf[SLOT * j..SLOT * j + SLOT]
  }

  lemma SlotTotal(s: Snap, h: nat, p: nat)
    requires Backed(s, SLOT * p)
    ensures |DirSlots(s, h)| == Mul(|ChainOf(s.chains, h)|, p)
    ensures |ChainBytes(s, h)| == SLOT * |DirSlots(s, h)|
  {
    hide Mul, Content;
    ContentLength(s.data, ChainOf(s.chains, h), SLOT * p);
    MulThrough(|ChainOf(s.chains, h)|, p);
  }

  /** Slot `j` of cluster number `i` is slot `i * p + j` of the directory. */
  lemma SlotInCluster(s: Snap, h: nat, i: nat, p: nat, j: nat)
    requires Backed(s, SLOT * p) && h in s.chains && i < |s.chains[h]| && j < p
    ensures Mul(i, p) + j < |DirSlots(s, h)|
    ensures s.chains[h][i] < |s.data| && |s.data[s.chains[h][i]]| == SLOT * p
    ensures DirSlots(s, h)[Mul(i, p) + j] == BufferSlot(s.data[s.chains[h][i]], j)
  {
    hide Mul, Content;
    var chain, content := s.chains[h], ChainBytes(s, h);
    ContentSlice(s.data, chain, i, SLOT * p);
    MulThrough(i, p);
    SlotTotal(s, h, p);
    var at := Mul(i, p);
    SliceOfSlice(content, SLOT * at, SLOT * p, SLOT * j, SLOT);
    assert DirSlots(s, h)[at + j] == content[SLOT * (at + j)..SLOT * (at + j) + SLOT];
  }

  /** Cleared clusters append cleared slots. */
  lemma SlotsGrown(s: Snap, s': Snap, h: nat, ext: seq<nat>, p: nat)
    requires WellFormed(s.fat, s.chains) && Backed(s, SLOT * p) && Backed(s', SLOT * p)
    requires Extends(s.fat, s.chains, s'.fat, s'.chains, h, ext) && DataKept(s.data, s'.data, ext)
    requires Zeroed(s'.data, ext, SLOT * p)
    ensures DirSlots(s', h) == DirSlots(s, h) + Cleared(Mul(|ext|, p))
  {
    hide Mul, Content, WellFormed, Extends, DataKept, Zeroed, Zeros;
    GrowthKeepsOthers(s, s', h, ext, SLOT * p);
    MulThrough(|ext|, p);
    SlotTotal(s, h, p);
    AppendZeros(ChainBytes(s, h), |DirSlots(s, h)|, Mul(|ext|, p));
  }

  lemma AppendZeros(content: seq<byte>, m: nat, n: nat)
    requires |content| == SLOT * m
    ensures ToSlots(content + Zeros(SLOT * n)) == ToSlots(content) + Cleared(n)
  {
    var c' := content + Zeros(SLOT * n);
    forall i | 0 <= i < m + n
      ensures ToSlots(c')[i] == (ToSlots(content) + Cleared(n))[i]
    {
      if i < m {
        assert c'[SLOT * i..SLOT * i + SLOT] == content[SLOT * i..SLOT * i + SLOT];
      } else {
        assert c'[SLOT * i..SLOT * i + SLOT] == Zeros(SLOT);
      }
    }
  }

  lemma {:induction false} JoinedSlots(a: seq<byte>, b: seq<byte>, m: nat)
    requires |a| == SLOT * m
    ensures ToSlots(a + b) == ToSlots(a) + ToSlots(b)
  {
    var c := a + b;
    assert |c| / SLOT == m + |b| / SLOT;
    forall i | 0 <= i < m + |b| / SLOT
      ensures ToSlots(c)[i] == (ToSlots(a) + ToSlots(b))[i]
    {
      if i < m {
        assert c[SLOT * i..SLOT * i + SLOT] == a[SLOT * i..SLOT * i + SLOT];
      } else {
        assert c[SLOT * i..SLOT * i + SLOT] == b[SLOT * (i - m)..SLOT * (i - m) + SLOT];
      }
    }
  }

  /** When the last cluster was not cleared it appends the slots that it held before. */
  lemma SlotsHalfGrown(s: Snap, s': Snap, h: nat, ext: seq<nat>, p: nat)
    requires WellFormed(s.fat, s.chains) && Backed(s, SLOT * p) && Backed(s', SLOT * p)
    requires Extends(s.fat, s.chains, s'.fat, s'.chains, h, ext) && DataKept(s.data, s'.data, ext)
    requires HalfCleared(s.data, s'.data, ext, SLOT * p)
    ensures ext != [] && Last(ext) < |s.data|
    ensures DirSlots(s', h) == DirSlots(s, h) + Cleared(Mul(|ext| - 1, p)) + ToSlots(s.data[Last(ext)])
    ensures |ToSlots(s.data[Last(ext)])| == p
  {
    hide Mul, Content, WellFormed, DataKept, Zeros, Appended, HalfCleared;
    HalfMeans(s.data, s'.data, ext, SLOT * p);
    var first, last, chain := ext[..|ext| - 1], Last(ext), s.chains[h];
    assert ext == first + [last];
    GrowthKeepsOthers(s, s', h, ext, SLOT * p);
    assert s'.chains[h] == chain + ext == (chain + first) + [last];
    HalfHolds(s', h, chain, first, last, SLOT * p);
    ContentConcat(s'.data, chain + first, [last]);
    ContentConcat(s'.data, chain, first);
    ContentSingle(s'.data, last);
    KeptContent(s, s', h, ext);
    ContentZeros(s'.data, first, SLOT * p);
    MulThrough(|first|, p);
    SlotTotal(s, h, p);
    var a := ChainBytes(s, h);
    AppendZeros(a, |DirSlots(s, h)|, Mul(|first|, p));
    JoinedSlots(a + Zeros(SLOT * Mul(|first|, p)), s.data[last], |DirSlots(s, h)| + Mul(|first|, p));
  }

  lemma HalfMeans(data: seq<seq<byte>>, data': seq<seq<byte>>, ext: seq<nat>, size: nat)
    requires HalfCleared(data, data', ext, size)
    ensures ext != [] && Last(ext) < |data| == |data'| && data'[Last(ext)] == data[Last(ext)] && Zeroed(data', ext[..|ext| - 1], size)
  {
  }

  lemma HalfHolds(s': Snap, h: nat, chain: seq<nat>, first: seq<nat>, last: nat, size: nat)
    requires Backed(s', size) && h in s'.chains && s'.chains[h] == (chain + first) + [last] && Zeroed(s'.data, first, size)
    ensures last < |s'.data| && |s'.data[last]| == size
    ensures forall i :: 0 <= i < |chain| ==> chain[i] < |s'.data|
    ensures forall i :: 0 <= i < |chain + first| ==> (chain + first)[i] < |s'.data|
    ensures forall i :: 0 <= i < |first| ==> first[i] < |s'.data| && s'.data[first[i]] == Zeros(size)
    ensures Holds(s'.data, first, size)
  {
    hide Zeros;
    var c := s'.chains[h];
    assert Holds(s'.data, c, size);
    assert c[|chain| + |first|] == last;
    assert forall i :: 0 <= i < |chain + first| ==> c[i] == (chain + first)[i];
    assert forall i :: 0 <= i < |chain| ==> c[i] == chain[i];
    assert forall i :: 0 <= i < |first| ==> c[|chain| + i] == first[i] && first[i] in first;
  }

  /** What a chain held before it grew. */
  lemma KeptContent(s: Snap, s': Snap, h: nat, ext: seq<nat>)
    requires WellFormed(s.fat, s.chains) && |s.data| == |s.fat|
    requires Extends(s.fat, s.chains, s'.fat, s'.chains, h, ext) && DataKept(s.data, s'.data, ext)
    ensures |s'.data| == |s.data| && forall i :: 0 <= i < |s.chains[h]| ==> s.chains[h][i] < |s.data|
    ensures Content(s'.data, s.chains[h]) == Content(s.data, s.chains[h])
  {
    hide WellFormed, Content, IsChain, Appended;
    var chain := s.chains[h];
    AppendedFree(s.fat, s'.fat, chain, ext);
    ForestChain(s.fat, s.chains, h);
    forall i | 0 <= i < |chain|
      ensures chain[i] < |s.data| && s'.data[chain[i]] == s.data[chain[i]]
    {
      assert In(s.fat, chain[i]);
      OwnedNotIn(s.fat, s.chains, h, chain[i], ext);
    }
    ContentFrame(s.data, s'.data, chain);
  }

  /** Slots of other directories, and bytes of files, stay as they are. */
  lemma OtherSlotsKept(s: Snap, s': Snap, h: nat, k: nat, size: nat)
    requires |s.data| == |s'.data| && OthersKept(s, s', h) && Backed(s, size) && Backed(s', size)
    requires k in s.chains && k != h
    ensures k in s'.chains && DirSlots(s', k) == DirSlots(s, k)
  {
    hide Content;
    OtherBytesKept(s, s', h, k, size);
  }
}
