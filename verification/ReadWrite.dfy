/** `fat32_read` and `fat32_write` (fat32_vnode.c) against the flat sequence of bytes of a file. */
module ReadWrite {
  import opened Bytes
  import opened Layout
  import opened Volumes
  import opened Chains
  import opened Clusters
  import opened Contents
  import opened Vnodes
  import opened Files

  /** The bytes of the file. */
  ghost function FileBytes(v: Volume, fv: Vnode): (b: seq<byte>)
    requires v.Valid() && WellFormed(v.fat, v.chains) && Fits(v, fv)
    reads v, v.disk, fv`cluster, fv`size, fv.cache
    ensures |b| == fv.size
  {
    RoomForSize(v, fv);
    ChainBytes(Now(v), fv.cluster)[..fv.size]
  }

  lemma RoomForSize(v: Volume, fv: Vnode)
    requires v.Valid() && WellFormed(v.fat, v.chains) && Fits(v, fv)
    ensures Holds(v.data, ChainOf(v.chains, fv.cluster), v.g.bytesPerCluster)
    ensures fv.size <= |ChainBytes(Now(v), fv.cluster)|
            == Mul(|ChainOf(v.chains, fv.cluster)|, v.g.bytesPerCluster)
  {
    hide DeviceHolds, Consistent, WellFormed, Mul;
    SoundIsBacked(v);
    ContentLength(v.data, ChainOf(v.chains, fv.cluster), v.g.bytesPerCluster);
  }

  /** They are those of the chain, as far as the size says. */
  lemma BytesAre(v: Volume, fv: Vnode)
    requires v.Valid() && WellFormed(v.fat, v.chains) && Fits(v, fv)
    ensures Backed(Now(v), v.g.bytesPerCluster) && fv.size <= |ChainBytes(Now(v), fv.cluster)|
    ensures FileBytes(v, fv) == ChainBytes(Now(v), fv.cluster)[..fv.size]
  {
    hide DeviceHolds, Consistent, WellFormed, Mul, Content;
    RoomForSize(v, fv);
    SoundIsBacked(v);
  }

  function Min(a: nat, b: nat): (m: nat)
    ensures m <= a && m <= b && (m == a || m == b)
  {
    if a < b then a else b
  }

  // ---- reading ----

  /** `fat32_read` of `count` bytes at `offset`. */
  method Read(v: Volume, fv: Vnode, offset: int, count: nat, now: Timespec) returns (err: Errno, out: seq<byte>)
    requires v.Valid() && WellFormed(v.fat, v.chains) && Fits(v, fv)
    modifies v, v.disk, fv`atime, fv`flags, fv.cache
    ensures v.Valid() && WellFormed(v.fat, v.chains) && Fits(v, fv) && Now(v) == old(Now(v))
    ensures fv.vtype != VREG ==> err == EISDIR && out == [] && fv.flags == old(fv.flags) && fv.atime == old(fv.atime)
    ensures fv.vtype == VREG ==> fv.flags == old(fv.flags) + {AtimeDirty, Modified} && fv.atime == now
    ensures fv.vtype == VREG && offset < 0 ==> err == EINVAL && out == []
    ensures fv.vtype == VREG && offset >= 0 ==>
              err == OK && out == if offset >= fv.size then [] else FileBytes(v, fv)[offset..Min(offset + count, fv.size)]
    ensures old(Exact(v)) ==> Exact(v)
  {
    hide DeviceHolds, Consistent, WellFormed, Mul, Content, Shr, And, SeekResult, IsChain, U32, Holds, CacheSound, Exact, FileBytes;
    out := [];
    if fv.vtype != VREG {
      return EISDIR, [];
    }
    fv.atime := now;
    fv.flags := fv.flags + {AtimeDirty, Modified};
    if offset < 0 {
      return EINVAL, [];
    }
    if offset >= fv.size {
      return OK, [];
    }
    var remaining := count;
    if offset + remaining > fv.size {
      remaining := fv.size - offset;
    }
    if remaining == 0 {
      SliceOfFile(v, fv, offset, 0);
      return OK, [];
    }
    StartOfRead(v, fv, offset);
    var skip: nat := U32(Shr(offset, v.g.clusterShift));
    var offsetInCluster := And(offset, v.g.clusterMask);
    var current;
    ghost var ext;
    err, current, ext := VnodeSeek(v, fv, skip, false, false);
    out := ReadLoop(v, fv, skip, offsetInCluster, current, remaining, offset);
    SliceOfFile(v, fv, offset, remaining);
  }

  lemma SliceOfFile(v: Volume, fv: Vnode, offset: nat, n: nat)
    requires v.Valid() && WellFormed(v.fat, v.chains) && Fits(v, fv) && offset + n <= fv.size
    ensures fv.size <= |ChainBytes(Now(v), fv.cluster)|
    ensures FileBytes(v, fv)[offset..offset + n] == ChainBytes(Now(v), fv.cluster)[offset..offset + n]
  {
    hide DeviceHolds, Consistent, WellFormed, Mul, Content;
    RoomForSize(v, fv);
  }

  /** `fat32_next_cluster` inside a chain, without allocation. */
  method FollowLink(v: Volume, ghost h: nat, ghost i: nat, current: nat) returns (next: nat)
    requires v.Valid() && WellFormed(v.fat, v.chains) && At(v.chains, h, i, current) && i + 1 < |v.chains[h]|
    modifies v, v.disk
    ensures v.Valid() && Now(v) == old(Now(v)) && (old(Exact(v)) ==> Exact(v))
    ensures At(v.chains, h, i + 1, next)
  {
    hide DeviceHolds, Consistent, WellFormed, IsChain, FreeCount, Grew;
    ForestChain(v.fat, v.chains, h);
    LinkInRange(v.fat, v.chains[h], i);
    ghost var took;
    var err;
    err, next, took := NextCluster(v, current, false, false);
  }

  /** The read loop of `fat32_read`: one cluster at a time, then the last position is cached. */
  method ReadLoop(v: Volume, fv: Vnode, skip0: nat, offsetInCluster0: nat, current0: nat, total: nat, ghost offset: nat)
    returns (out: seq<byte>)
    requires v.Valid() && WellFormed(v.fat, v.chains) && Attached(v, fv) && fv.cluster in v.chains
    requires skip0 < |v.chains[fv.cluster]| && v.chains[fv.cluster][skip0] == current0
    requires offsetInCluster0 < v.g.bytesPerCluster && Mul(skip0, v.g.bytesPerCluster) + offsetInCluster0 == offset
    requires Holds(v.data, v.chains[fv.cluster], v.g.bytesPerCluster)
    requires offset + total <= Mul(|v.chains[fv.cluster]|, v.g.bytesPerCluster) && total > 0
    modifies v, v.disk, fv.cache
    ensures v.Valid() && Now(v) == old(Now(v)) && Attached(v, fv)
    ensures old(Exact(v)) ==> Exact(v)
    ensures offset + total <= |ChainBytes(Now(v), fv.cluster)|
    ensures out == ChainBytes(Now(v), fv.cluster)[offset..offset + total]
  {
    hide DeviceHolds, Consistent, WellFormed, Mul, Content, IsChain, CacheSound, Distinct, Exact, Inserted, ReadSoFar;
    ghost var h, chain, size := fv.cluster, v.chains[fv.cluster], v.g.bytesPerCluster;
    ghost var content, cache := Content(v.data, chain), fv.cache[..];
    ContentLength(v.data, chain, size);
    ForestChain(v.fat, v.chains, h);
    var skip: nat, offsetInCluster: nat, current: nat, remaining: nat := skip0, offsetInCluster0, current0, total;
    out := [];
    ReadStarts(content, offset);
    while remaining > 0
      invariant 0 <= remaining <= total
      invariant v.Valid() && Now(v) == old(Now(v)) && fv.cache[..] == cache
      invariant old(Exact(v)) ==> Exact(v)
      invariant skip < |chain| && chain[skip] == current
      invariant remaining > 0 ==> offsetInCluster < size && Mul(skip, size) + offsetInCluster == offset + (total - remaining)
      invariant |out| == total - remaining && ReadSoFar(content, offset, out)
    {
      ghost var done := total - remaining;
      ChainEntryInRange(v, h, skip);
      var buf := v.ReadCluster(current);
      var n := Min(v.g.bytesPerCluster - offsetInCluster, remaining);
      ReadStep(v.data, chain, skip, size, offsetInCluster, n, content, offset, out);
      out := out + buf[offsetInCluster..offsetInCluster + n];
      remaining := remaining - n;
      if remaining > 0 {
        MulSucc(skip, size);
        InsideChain(skip + 1, 0, |chain|, size, offset + done + n);
        skip := skip + 1;
        offsetInCluster := 0;
        current := FollowLink(v, h, skip - 1, current);
      }
    }
    InsertKeepsSound(fv.cache[..], chain, skip, current);
    UpdateCache(fv, skip, current);
    ReadEnds(content, offset, out);
  }

  /** The cluster index and the offset in the cluster that `fat32_read` starts from. */
  lemma StartOfRead(v: Volume, fv: Vnode, offset: nat)
    requires v.Valid() && WellFormed(v.fat, v.chains) && Fits(v, fv) && offset < fv.size
    ensures fv.cluster in v.chains && Holds(v.data, v.chains[fv.cluster], v.g.bytesPerCluster)
    ensures var q, r := U32(Shr(offset, v.g.clusterShift)), And(offset, v.g.clusterMask);
      && q < |v.chains[fv.cluster]| && r < v.g.bytesPerCluster && Mul(q, v.g.bytesPerCluster) + r == offset
      && SeekResult(v.fat, fv.cluster, q) == (OK, v.chains[fv.cluster][q])
  {
    hide DeviceHolds, WellFormed, Mul, Shr, And, SeekResult, IsChain, U32;
    RoomForSize(v, fv);
    var q, r := SplitOffset(v.g, offset);
    InsideChain(q, r, |ChainOf(v.chains, fv.cluster)|, v.g.bytesPerCluster, offset);
    CastExact(v, fv, q);
    ForestChain(v.fat, v.chains, fv.cluster);
    SeekOnChain(v.fat, v.chains, fv.cluster, 0, q);
  }

  lemma SizePositive(g: Geometry)
    requires Consistent(g)
    ensures g.bytesPerCluster > 0
  {
  }

  /** An offset below the capacity lies in one of the clusters. */
  lemma InsideChain(q: nat, r: nat, n: nat, size: nat, off: nat)
    requires off == Mul(q, size) + r && off < Mul(n, size)
    ensures q < n
  {
    hide Mul;
    if q >= n {
      MulMonotone(n, q, size);
    }
  }

  /** Inside a chain the cast of the cluster index to 32 bits loses nothing. */
  lemma CastExact(v: Volume, fv: Vnode, q: nat)
    requires v.Valid() && WellFormed(v.fat, v.chains) && q < |ChainOf(v.chains, fv.cluster)|
    ensures U32(q) == q && fv.cluster in v.chains
  {
    hide DeviceHolds, Consistent, WellFormed;
    ClusterNumbersFit(v.g);
    ChainBound(v.fat, v.chains, fv.cluster);
  }

  lemma ChainBound(fat: seq<nat>, chains: Forest, h: nat)
    requires WellFormed(fat, chains) && h in chains
    ensures |chains[h]| <= |fat|
  {
    hide WellFormed, IsChain, Distinct;
    ForestChain(fat, chains, h);
    DistinctSize(chains[h]);
    forall c | c in Elements(chains[h])
      ensures c < |fat|
    {
      var i :| 0 <= i < |chains[h]| && chains[h][i] == c;
      assert In(fat, chains[h][i]);
    }
    SetBound(Elements(chains[h]), |fat|);
  }

  ghost function Elements(s: seq<nat>): set<nat> {
    set c | c in s
  }

  lemma {:induction false} DistinctSize(s: seq<nat>)
    requires Distinct(s)
    ensures |Elements(s)| == |s|
  {
    if s == [] {
      assert Elements(s) == {};
    } else {
      var t := s[..|s| - 1];
      DistinctSize(t);
      assert s == t + [Last(s)];
      assert Last(s) !in t;
      assert Elements(s) == Elements(t) + {Last(s)};
    }
  }

  lemma ChainEntryInRange(v: Volume, h: nat, i: nat)
    requires v.Valid() && WellFormed(v.fat, v.chains) && h in v.chains && i < |v.chains[h]|
    ensures InRange(v.g, v.chains[h][i])
  {
    hide DeviceHolds, Consistent, WellFormed;
    ForestChain(v.fat, v.chains, h);
    assert In(v.fat, v.chains[h][i]);
  }

  /** `out` is what the content holds from `offset` on. */
  predicate ReadSoFar(content: seq<byte>, offset: nat, out: seq<byte>) {
    offset + |out| <= |content| && out == content[offset..offset + |out|]
  }

  /** Copying `n` bytes out of one cluster continues the flat read. */
  lemma ReadStep(data: seq<seq<byte>>, chain: seq<nat>, i: nat, size: nat, o: nat, n: nat,
                 content: seq<byte>, offset: nat, out: seq<byte>)
    requires Holds(data, chain, size) && i < |chain| && o + n <= size
    requires content == Content(data, chain) && ReadSoFar(content, offset, out)
    requires Mul(i, size) + o == offset + |out|
    ensures ReadSoFar(content, offset, out + data[chain[i]][o..o + n])
  {
    hide Mul, Content;
    ContentSlice(data, chain, i, size);
    var p := Mul(i, size);
    SliceOfSlice(content, p, size, o, n);
    SliceAppend(content, offset, p + o, p + o + n);
  }

  lemma ReadEnds(content: seq<byte>, offset: nat, out: seq<byte>)
    requires ReadSoFar(content, offset, out)
    ensures offset + |out| <= |content| && out == content[offset..offset + |out|]
  {
  }

  lemma ReadStarts(content: seq<byte>, offset: nat)
    requires offset <= |content|
    ensures ReadSoFar(content, offset, [])
  {
  }

  // ---- writing ----

  /** `content'` is `content`, possibly longer, with `w` written at `off`.  Bytes between the old
      end and `off` are not determined: the driver does not clear them. */
  ghost predicate Written(content: seq<byte>, content': seq<byte>, off: nat, w: seq<byte>) {
    && |content| <= |content'| && (w != [] ==> off + |w| <= |content'|)
    && (forall p :: off <= p < off + |w| ==> content'[p] == w[p - off])
    && (forall p :: 0 <= p < |content| && !(off <= p < off + |w|) ==> content'[p] == content[p])
  }

  lemma WrittenNothing(content: seq<byte>, content': seq<byte>, off: nat)
    requires content <= content'
    ensures Written(content, content', off, [])
  {
  }

  lemma WrittenMore(content: seq<byte>, content1: seq<byte>, off: nat, w: seq<byte>, chunk: seq<byte>)
    requires Written(content, content1, off, w) && off + |w| + |chunk| <= |content1|
    ensures Written(content, Splice(content1, off + |w|, chunk), off, w + chunk)
  {
    hide Splice;
    var at := off + |w|;
    var content2 := Splice(content1, at, chunk);
    forall p | off <= p < at + |chunk|
      ensures content2[p] == (w + chunk)[p - off]
    {
      if p >= at {
        assert content2[at..at + |chunk|][p - at] == content2[p];
      }
    }
  }

  lemma WrittenGrown(content: seq<byte>, content1: seq<byte>, content2: seq<byte>, off: nat, w: seq<byte>)
    requires Written(content, content1, off, w) && content1 <= content2
    ensures Written(content, content2, off, w)
  {
  }

  /** `bytes` with `w` written at `off`, which is not behind the end. */
  function Overwrite(bytes: seq<byte>, off: nat, w: seq<byte>): (r: seq<byte>)
    requires off <= |bytes|
  {
    bytes[..off] + w + if off + |w| < |bytes| then bytes[off + |w|..] else []
  }

  /** What `Written` means for a write inside the file or right behind it: the old bytes of the
      file with the new ones in place. */
  lemma WrittenInside(content: seq<byte>, content': seq<byte>, off: nat, w: seq<byte>, size: nat)
    requires Written(content, content', off, w) && off <= size <= |content|
    ensures NewSize(size, off, |w|) <= |content'|
    ensures content'[..NewSize(size, off, |w|)] == Overwrite(content[..size], off, w)
  {
    var r := Overwrite(content[..size], off, w);
    assert |r| == NewSize(size, off, |w|);
    forall p | 0 <= p < |r|
      ensures content'[p] == r[p]
    {
    }
  }

  /** Nothing has happened, or chain `h`, which ended with cluster number `i`, has got the next free cluster. */
  ghost predicate OneMore(s: Snap, s': Snap, h: nat, i: nat, err: Errno, ext: seq<nat>) {
    if ext == [] then s' == s && err != EIO
    else
      && |ext| == 1 && (err == OK || err == EIO) && Took(s, s', ext[0], err)
      && h in s.chains && |s.chains[h]| == i + 1 && Grew(s.fat, s.chains, s'.fat, s'.chains, Last(s.chains[h]), ext[0])
  }

  /** `fat32_next_cluster` with allocation, on cluster number `i` of chain `h`. */
  method FollowOrGrow(v: Volume, ghost h: nat, ghost i: nat, current: nat) returns (err: Errno, next: nat, ghost ext: seq<nat>)
    requires v.Valid() && WellFormed(v.fat, v.chains) && At(v.chains, h, i, current)
    modifies v, v.disk
    ensures v.Valid() && WellFormed(v.fat, v.chains) && (v.intact ==> old(v.intact))
    ensures old(Exact(v)) ==> Exact(v)
    ensures SeekOutcome(old(Now(v)), Now(v), h, i + 1, false, v.g.bytesPerCluster, err, next, ext)
    ensures OneMore(old(Now(v)), Now(v), h, i, err, ext)
    ensures err == ENOSPC && old(Exact(v)) && v.intact ==> FreeCount(v.fat) == 0
  {
    hide DeviceHolds, Consistent, WellFormed, IsChain, FreeCount, Took, Grew, Seeking, SeekOutcome;
    ghost var s, size := Now(v), v.g.bytesPerCluster;
    FreeCountBound(v.fat);
    ClusterNumbersFit(v.g);
    SeekStarts(s, h, i, false, size, current);
    SeekingAt(s, s, h, i, false, size, current, []);
    ghost var took;
    err, next, took := NextCluster(v, current, true, false);
    ext := SeekSteps(s, s, Now(v), h, i, false, size, current, [], err, next, took, i + 1);
    EndOfChain(s, h, i, current);
    assert [] + [took] == [took];
    if err == OK {
      SeekArrives(s, Now(v), h, i + 1, false, size, next, ext);
    } else {
      ResultFree(s, Now(v), h, i + 1, false, size, err, 0, next, ext);
    }
  }

  /** A chain ends where following it answers ENOSPC. */
  lemma EndOfChain(s: Snap, h: nat, i: nat, current: nat)
    requires WellFormed(s.fat, s.chains) && At(s.chains, h, i, current)
    ensures ReadNext(s.fat, current).0 == if i + 1 == |s.chains[h]| then ENOSPC else OK
    ensures current != 0 && (i + 1 == |s.chains[h]| ==> current == Last(s.chains[h]))
  {
    hide WellFormed;
    ForestChain(s.fat, s.chains, h);
    OwnedIsUsed(s.fat, s.chains[h], i);
    LinkInRange(s.fat, s.chains[h], i);
  }

  /** After an error the result does not matter. */
  lemma ResultFree(s: Snap, s': Snap, h: nat, target: nat, clear: bool, size: nat, err: Errno, result: nat, other: nat, ext: seq<nat>)
    requires SeekOutcome(s, s', h, target, clear, size, err, result, ext) && err != OK
    ensures SeekOutcome(s, s', h, target, clear, size, err, other, ext)
  {
    hide FreeCount, Extends, Drawn, DataKept, Zeroed;
  }

  /** Where a file stands after a write moved its position to `end`. */
  function NewSize(size: nat, off: nat, done: nat): nat {
    if done > 0 && off + done > size then off + done else size
  }

  /** The state of a write: `done` bytes of `data` are in place, other files are as before. */
  ghost predicate Progress(s0: Snap, s: Snap, h: nat, size: nat, off: nat, data: seq<byte>, done: nat) {
    && Backed(s0, size) && Backed(s, size) && |s.data| == |s0.data| && h in s.chains
    && OthersKept(s0, s, h) && done <= |data|
    && Written(ChainBytes(s0, h), ChainBytes(s, h), off, data[..done])
  }

  lemma ProgressStarts(s: Snap, h: nat, size: nat, off: nat, data: seq<byte>)
    requires Backed(s, size) && h in s.chains
    ensures Progress(s, s, h, size, off, data, 0)
  {
    hide Content;
    assert data[..0] == [];
    WrittenNothing(ChainBytes(s, h), ChainBytes(s, h), off);
  }

  /** One cluster buffer with `n` more bytes goes back to its cluster. */
  lemma ProgressWrites(s0: Snap, s: Snap, s': Snap, h: nat, size: nat, off: nat, data: seq<byte>, done: nat,
                       i: nat, o: nat, n: nat)
    requires Progress(s0, s, h, size, off, data, done) && WellFormed(s.fat, s.chains)
    requires i < |s.chains[h]| && o + n <= size && done + n <= |data| && Mul(i, size) + o == off + done
    requires s.chains[h][i] < |s.data| && |s.data[s.chains[h][i]]| == size
    requires s' == s.(data := s.data[s.chains[h][i] := Splice(s.data[s.chains[h][i]], o, data[done..done + n])])
    ensures Progress(s0, s', h, size, off, data, done + n)
    ensures off + done + n <= Mul(|s'.chains[h]|, size)
  {
    hide WellFormed, Mul, Content, Splice, Written, IsChain;
    ForestChain(s.fat, s.chains, h);
    ContentSplice(s.data, s.chains[h], i, size, o, data[done..done + n]);
    ContentLength(s.data, s.chains[h], size);
    assert data[..done] + data[done..done + n] == data[..done + n];
    WrittenMore(ChainBytes(s0, h), ChainBytes(s, h), off, data[..done], data[done..done + n]);
    WriteKeepsOthers(s, s', h, i);
    OthersKeptTrans(s0, s, s', h);
  }

  lemma WriteKeepsOthers(s: Snap, s': Snap, h: nat, i: nat)
    requires WellFormed(s.fat, s.chains) && h in s.chains && i < |s.chains[h]|
    requires s'.chains == s.chains && |s'.data| == |s.data|
    requires forall c: nat :: c < |s.data| && c != s.chains[h][i] ==> s'.data[c] == s.data[c]
    ensures OthersKept(s, s', h)
  {
    hide IsChain, Distinct;
    var c := s.chains[h][i];
    assert c in s.chains[h];
    forall k | k in s.chains && k != h
      ensures c !in s.chains[k]
    {
    }
  }

  /** The chain grew, or the next cluster was found. */
  lemma ProgressGrows(s0: Snap, s: Snap, s': Snap, h: nat, size: nat, off: nat, data: seq<byte>, done: nat,
                      target: nat, err: Errno, result: nat, ext: seq<nat>)
    requires Progress(s0, s, h, size, off, data, done) && WellFormed(s.fat, s.chains) && Backed(s', size)
    requires SeekOutcome(s, s', h, target, false, size, err, result, ext)
    ensures Progress(s0, s', h, size, off, data, done)
    ensures |s'.chains[h]| >= |s.chains[h]|
  {
    hide WellFormed, Mul, Content, Written, FreeCount, Zeroed, Appended, Drawn;
    GrowthKeepsOthers(s, s', h, ext, size);
    OthersKeptTrans(s0, s, s', h);
    WrittenGrown(ChainBytes(s0, h), ChainBytes(s, h), ChainBytes(s', h), off, data[..done]);
  }

  /** What a write reports: all of `data`, or a part of it with the reason. */
  ghost predicate WriteOutcome(s0: Snap, s: Snap, h: nat, size: nat, off: nat, data: seq<byte>, done: nat, err: Errno) {
    && Progress(s0, s, h, size, off, data, done)
    && (err == OK || err == ENOSPC || err == EIO)
    && (err == OK ==> done == |data|)
    && (err == EIO ==> !s.intact)
    && (err != OK ==> done < |data|)
  }

  /** The write loop of `fat32_write`.  The bytes go to position `pos` of the chain; the size follows
      the offset `off`. */
  method WriteLoop(v: Volume, fv: Vnode, skip0: nat, offsetInCluster0: nat, current0: nat, off: nat, data: seq<byte>,
                   ghost pos: nat, ghost base: Snap, ghost chain: seq<nat>, ghost got0: seq<nat>)
    returns (err: Errno, done: nat, ghost got: seq<nat>)
    requires v.Valid() && WellFormed(v.fat, v.chains) && Attached(v, fv) && data != []
    requires Ends(base.fat, chain) && Gained(base, Now(v), chain, ChainOf(v.chains, fv.cluster), got0, OK)
    requires At(v.chains, fv.cluster, skip0, current0)
    requires offsetInCluster0 < v.g.bytesPerCluster && Mul(skip0, v.g.bytesPerCluster) + offsetInCluster0 == pos
    modifies v, v.disk, fv`size, fv`flags, fv.cache
    ensures v.Valid() && WellFormed(v.fat, v.chains) && Attached(v, fv) && (v.intact ==> old(v.intact))
    ensures old(Exact(v)) ==> Exact(v)
    ensures WriteOutcome(old(Now(v)), Now(v), fv.cluster, v.g.bytesPerCluster, pos, data, done, err)
    ensures fv.cluster in v.chains && |old(v.chains)[fv.cluster]| <= |v.chains[fv.cluster]|
    ensures done > 0 ==> pos + done <= Mul(|v.chains[fv.cluster]|, v.g.bytesPerCluster)
    ensures Gained(base, Now(v), chain, ChainOf(v.chains, fv.cluster), got, err)
    ensures JustEnough(|old(v.chains)[fv.cluster]|, |v.chains[fv.cluster]|, v.g.bytesPerCluster, pos + |data|)
    ensures err == ENOSPC && old(Exact(v)) && v.intact ==> FreeCount(v.fat) == 0
    ensures fv.size == NewSize(old(fv.size), off, done)
    ensures fv.flags == old(fv.flags) + (if fv.size != old(fv.size) then {SizeDirty} else {})
  {
    hide DeviceHolds, Consistent, WellFormed, Mul, IsChain, SeekOutcome, CacheSound, Progress, Exact, FreeCount, Inserted, Attached,
         Gained, Ends, JustEnough;
    ghost var s0, h, size, flags := Now(v), fv.cluster, v.g.bytesPerCluster, fv.flags;
    got := got0;
    var skip: nat, offsetInCluster: nat, current: nat, remaining: nat := skip0, offsetInCluster0, current0, |data|;
    err, done := OK, 0;
    SoundIsBacked(v);
    ProgressStarts(s0, h, size, pos, data);
    EnoughNow(|v.chains[h]|, size, pos + |data|);
    while remaining > 0
      invariant remaining + done == |data| && err == OK
      invariant v.Valid() && WellFormed(v.fat, v.chains) && Attached(v, fv) && (v.intact ==> old(v.intact))
      invariant old(Exact(v)) ==> Exact(v)
      invariant Progress(s0, Now(v), h, size, pos, data, done) && At(v.chains, h, skip, current)
      invariant h in v.chains && |s0.chains[h]| <= |v.chains[h]|
      invariant done > 0 ==> pos + done <= Mul(|v.chains[h]|, size)
      invariant Gained(base, Now(v), chain, ChainOf(v.chains, h), got, OK)
      invariant JustEnough(|s0.chains[h]|, |v.chains[h]|, size, pos + |data|)
      invariant remaining > 0 ==> offsetInCluster < size && Mul(skip, size) + offsetInCluster == pos + done
      invariant fv.cluster == h && fv.size == NewSize(old(fv.size), off, done)
      invariant fv.flags == flags + (if fv.size != old(fv.size) then {SizeDirty} else {})
    {
      var n := Min(v.g.bytesPerCluster - offsetInCluster, remaining);
      WriteChunk(v, h, skip, current, offsetInCluster, data, done, n, s0, pos, base, chain, got);
      done := done + n;
      NoteSize(fv, off + done);
      remaining := remaining - n;
      offsetInCluster := 0;
      if remaining > 0 {
        MulSucc(skip, size);
        ghost var before := |v.chains[h]|;
        err, current, got := NextForWrite(v, fv, skip, current, data, done, s0, pos, base, chain, got);
        EnoughMore(|s0.chains[h]|, before, |v.chains[h]|, skip, size, pos + |data|);
        if err != OK {
          return;
        }
        skip := skip + 1;
      }
    }
    RememberPosition(v, fv, skip, current);
  }

  /** A chain has gained no cluster that does not lie before `end`. */
  predicate JustEnough(before: nat, after: nat, size: nat, end: nat) {
    after > before ==> Mul(after - 1, size) < end
  }

  /** The chain of a file has gained the clusters that come next, as many as it takes to reach `end` or as there
      was room for, linked one to the other; nothing else in the FAT has changed. */
  ghost predicate Extended(s: Snap, s': Snap, h: nat, h': nat, size: nat, end: nat, err: Errno) {
    && (exists ext :: Gained(s, s', ChainOf(s.chains, h), ChainOf(s'.chains, h'), ext, err))
    && JustEnough(|ChainOf(s.chains, h)|, |ChainOf(s'.chains, h')|, size, end)
  }

  lemma EnoughMore(before: nat, now: nat, next: nat, i: nat, size: nat, end: nat)
    requires JustEnough(before, now, size, end) && Mul(i + 1, size) < end && (next == now || next == i + 2)
    ensures JustEnough(before, next, size, end)
  {
    hide Mul;
  }

  lemma EnoughNow(n: nat, size: nat, end: nat)
    ensures JustEnough(n, n, size, end)
  {
  }

  /** `fat32_vnode_update_cache` with a true position. */
  method RememberPosition(v: Volume, fv: Vnode, index: nat, cluster: nat)
    requires Attached(v, fv) && At(v.chains, fv.cluster, index, cluster)
    modifies fv.cache
    ensures Attached(v, fv)
  {
    InsertKeepsSound(fv.cache[..], v.chains[fv.cluster], index, cluster);
    UpdateCache(fv, index, cluster);
  }

  /** The file grows with every chunk that reaches beyond its end, so that a write that stops
      half-way leaves the right size. */
  method NoteSize(fv: Vnode, end: nat)
    modifies fv`size, fv`flags
    ensures fv.size == if end > old(fv.size) then end else old(fv.size)
    ensures fv.flags == old(fv.flags) + (if end > old(fv.size) then {SizeDirty} else {})
  {
    if end > fv.size {
      fv.size := end;
      fv.flags := fv.flags + {SizeDirty};
    }
  }

  /** The part of the loop body that fills one cluster buffer and puts it back. */
  method WriteChunk(v: Volume, ghost h: nat, ghost i: nat, current: nat, o: nat, data: seq<byte>, done: nat, n: nat,
                    ghost s0: Snap, ghost off: nat, ghost base: Snap, ghost chain: seq<nat>, ghost got: seq<nat>)
    requires v.Valid() && WellFormed(v.fat, v.chains) && At(v.chains, h, i, current)
    requires Gained(base, Now(v), chain, ChainOf(v.chains, h), got, OK)
    requires Progress(s0, Now(v), h, v.g.bytesPerCluster, off, data, done)
    requires o + n <= v.g.bytesPerCluster && done + n <= |data| && Mul(i, v.g.bytesPerCluster) + o == off + done
    modifies v`data, v.disk
    ensures v.Valid() && WellFormed(v.fat, v.chains)
    ensures Progress(s0, Now(v), h, v.g.bytesPerCluster, off, data, done + n)
    ensures off + done + n <= Mul(|v.chains[h]|, v.g.bytesPerCluster)
    ensures Gained(base, Now(v), chain, ChainOf(v.chains, h), got, OK)
  {
    hide DeviceHolds, Consistent, WellFormed, Mul, IsChain, Progress, Splice, Gained;
    ghost var s := Now(v);
    ChainEntryInRange(v, h, i);
    var buf := v.ReadCluster(current);
    v.WriteCluster(current, Splice(buf, o, data[done..done + n]));
    ProgressWrites(s0, s, Now(v), h, v.g.bytesPerCluster, off, data, done, i, o, n);
    GainedData(base, s, Now(v), chain, ChainOf(v.chains, h), got, OK);
  }

  lemma OneGained(base: Snap, s: Snap, s': Snap, chain: seq<nat>, h: nat, i: nat, got: seq<nat>, err: Errno, ext: seq<nat>)
    returns (got': seq<nat>)
    requires WellFormed(s.fat, s.chains) && h in s.chains && Gained(base, s, chain, ChainOf(s.chains, h), got, OK)
    requires Ends(base.fat, chain) && OneMore(s, s', h, i, err, ext)
    ensures Gained(base, s', chain, ChainOf(s'.chains, h), got', err)
  {
    hide WellFormed, Appended, Drawn, Took, Grew;
    got' := got;
    if ext != [] {
      GainedMore(base, s, s', chain, h, got, ext[0], err);
      got' := got + [ext[0]];
    }
  }

  /** The part of the loop body that moves on, allocating at the end of the chain. */
  method NextForWrite(v: Volume, fv: Vnode, ghost i: nat, current: nat, ghost data: seq<byte>, ghost done: nat,
                      ghost s0: Snap, ghost off: nat, ghost base: Snap, ghost chain: seq<nat>, ghost got: seq<nat>)
    returns (err: Errno, next: nat, ghost got': seq<nat>)
    requires v.Valid() && WellFormed(v.fat, v.chains) && Attached(v, fv) && At(v.chains, fv.cluster, i, current)
    requires Progress(s0, Now(v), fv.cluster, v.g.bytesPerCluster, off, data, done)
    requires Ends(base.fat, chain) && Gained(base, Now(v), chain, ChainOf(v.chains, fv.cluster), got, OK)
    modifies v, v.disk
    ensures v.Valid() && WellFormed(v.fat, v.chains) && Attached(v, fv) && (v.intact ==> old(v.intact))
    ensures old(Exact(v)) ==> Exact(v)
    ensures Progress(s0, Now(v), fv.cluster, v.g.bytesPerCluster, off, data, done)
    ensures fv.cluster in v.chains && |old(v.chains)[fv.cluster]| <= |v.chains[fv.cluster]|
    ensures Mul(|old(v.chains)[fv.cluster]|, v.g.bytesPerCluster) <= Mul(|v.chains[fv.cluster]|, v.g.bytesPerCluster)
    ensures Gained(base, Now(v), chain, ChainOf(v.chains, fv.cluster), got', err)
    ensures |v.chains[fv.cluster]| == |old(v.chains)[fv.cluster]| || |v.chains[fv.cluster]| == i + 2
    ensures err == OK ==> At(v.chains, fv.cluster, i + 1, next) && v.intact == old(v.intact)
    ensures err == OK || err == ENOSPC || err == EIO
    ensures err == EIO ==> !v.intact
    ensures err == ENOSPC && old(Exact(v)) && v.intact ==> FreeCount(v.fat) == 0
  {
    hide DeviceHolds, Consistent, WellFormed, Mul, IsChain, Progress, CacheSound, FreeCount, DataKept;
    ghost var s := Now(v);
    ghost var ext;
    err, next, ext := FollowOrGrow(v, fv.cluster, i, current);
    SoundIsBacked(v);
    ProgressGrows(s0, s, Now(v), fv.cluster, v.g.bytesPerCluster, off, data, done, i + 1, err, next, ext);
    got' := OneGained(base, s, Now(v), chain, fv.cluster, i, got, err, ext);
    MulMonotone(|s.chains[fv.cluster]|, |v.chains[fv.cluster]|, v.g.bytesPerCluster);
    SeekKeepsSound(s, Now(v), fv.cluster, ext, fv.cache[..], true);
  }

  /** The offsets for which `fat32_write` seeks to the right cluster: beyond them the cast of the
      cluster index to 32 bits cuts it. */
  predicate Addressable(g: Geometry, off: nat) {
    off < Mul(WORD, g.bytesPerCluster)
  }

  /** The index and offset in the cluster that `fat32_write` computes. */
  function SeekIndex(g: Geometry, off: nat): nat {
    U32(Shr(off, g.clusterShift))
  }

  /** The position in the chain that the bytes go to. */
  function Landing(g: Geometry, off: nat): nat {
    Mul(SeekIndex(g, off), g.bytesPerCluster) + And(off, g.clusterMask)
  }

  /** It is the offset exactly for the addressable ones. */
  lemma AddressableExact(g: Geometry, off: nat)
    requires Consistent(g)
    ensures And(off, g.clusterMask) < g.bytesPerCluster
    ensures Addressable(g, off) <==> Landing(g, off) == off
  {
    hide Mul, Shr, And, U32;
    var size := g.bytesPerCluster;
    var q, r := SplitOffset(g, off);
    U32Cut(q);
    if q < WORD {
      MulMonotone(q + 1, WORD, size);
      MulSucc(q, size);
    } else {
      MulMonotone(WORD, q, size);
      MulMonotone(U32(q) + 1, WORD, size);
      MulSucc(U32(q), size);
    }
  }

  lemma BackedChain(s: Snap, h: nat, size: nat)
    requires Backed(s, size)
    ensures Holds(s.data, ChainOf(s.chains, h), size)
    ensures |ChainBytes(s, h)| == Mul(|ChainOf(s.chains, h)|, size)
  {
    hide Mul;
    ContentLength(s.data, ChainOf(s.chains, h), size);
  }

  lemma NothingDone(s: Snap, h: nat, size: nat, data: seq<byte>, off: nat)
    requires Backed(s, size)
    ensures Written(ChainBytes(s, h), ChainBytes(s, h), off, data[..0])
  {
    hide Content;
    BackedChain(s, h, size);
    assert data[..0] == [];
    WrittenNothing(ChainBytes(s, h), ChainBytes(s, h), off);
  }

  /** Offsets inside the file or right behind it are addressable. */
  lemma AppendAddressable(v: Volume, fv: Vnode, off: nat)
    requires v.Valid() && WellFormed(v.fat, v.chains) && Fits(v, fv)
    ensures off <= fv.size ==> Addressable(v.g, off)
  {
    hide DeviceHolds, WellFormed, Mul, CacheSound, Addressable;
    BeyondChains(v, fv.cluster, off);
  }

  /** Growing the chain of a regular file appends to its content. */
  lemma GrownContent(s0: Snap, s1: Snap, h0: nat, h: nat, size: nat, n: nat, err: Errno, off: nat, data: seq<byte>)
    requires Backed(s0, size) && Backed(s1, size) && s1.data == s0.data
    requires Grown(s0, s1, ChainOf(s0.chains, h0), ChainOf(s1.chains, h), n, err)
    ensures Holds(s0.data, ChainOf(s0.chains, h0), size) && Holds(s1.data, ChainOf(s1.chains, h), size)
    ensures ChainBytes(s0, h0) <= ChainBytes(s1, h)
    ensures Written(ChainBytes(s0, h0), ChainBytes(s1, h), off, data[..0])
    ensures err == OK || err == ENOSPC || err == EIO
    ensures err == EIO ==> !s1.intact
    ensures |ChainOf(s0.chains, h0)| <= |ChainOf(s1.chains, h)|
    ensures Mul(|ChainOf(s0.chains, h0)|, size) <= Mul(|ChainOf(s1.chains, h)|, size)
  {
    hide Mul, Content, FreeCount, Gained;
    var a, b := ChainOf(s0.chains, h0), ChainOf(s1.chains, h);
    BackedChain(s0, h0, size);
    BackedChain(s1, h, size);
    var t := b[|a|..];
    assert b == a + t;
    assert forall i :: 0 <= i < |t| ==> t[i] == b[|a| + i];
    ContentConcat(s0.data, a, t);
    MulMonotone(|a|, |b|, size);
    assert data[..0] == [];
    WrittenNothing(ChainBytes(s0, h0), ChainBytes(s1, h), off);
  }

  lemma WriteTotal(s0: Snap, s1: Snap, s2: Snap, h0: nat, h: nat, size: nat, off: nat, data: seq<byte>, done: nat, err: Errno)
    requires Backed(s0, size) && Backed(s1, size) && |s1.data| == |s0.data|
    requires OthersKept(s0, s1, h0) && (h == h0 || h !in s0.chains) && ChainBytes(s0, h0) <= ChainBytes(s1, h)
    requires WriteOutcome(s1, s2, h, size, off, data, done, err)
    ensures Backed(s2, size) && |s2.data| == |s0.data| && OthersKept(s0, s2, h0) && done <= |data|
    ensures Written(ChainBytes(s0, h0), ChainBytes(s2, h), off, data[..done])
    ensures (err == OK || err == ENOSPC || err == EIO) && (err == OK <==> done == |data|) && (err == EIO ==> !s2.intact)
  {
    hide Content, Mul;
    forall k | k in s0.chains && k != h0
      ensures k in s2.chains && s2.chains[k] == s0.chains[k]
      ensures forall c :: c in s0.chains[k] && c < |s0.data| ==> s2.data[c] == s0.data[c]
    {
      assert k in s1.chains && k != h;
    }
  }

  /** Whether a write at `off` that moved `done` bytes leaves a file that fits its chain. */
  predicate StaysInside(g: Geometry, off: nat, done: nat) {
    done == 0 || Addressable(g, off)
  }

  /** The bytes of a file after `w` was written at `off`: those of `w` there, and elsewhere the old ones;
      nothing is said of a gap between the old end and `off`. */
  predicate WrittenAt(bytes: seq<byte>, bytes': seq<byte>, off: nat, w: seq<byte>) {
    && |bytes'| == NewSize(|bytes|, off, |w|)
    && (forall p :: off <= p < off + |w| ==> bytes'[p] == w[p - off])
    && (forall p :: 0 <= p < |bytes| && !(off <= p < off + |w|) ==> bytes'[p] == bytes[p])
  }

  lemma WrittenFile(content: seq<byte>, content': seq<byte>, pos: nat, w: seq<byte>, size: nat, off: nat)
    requires Written(content, content', pos, w) && (w == [] || pos == off)
    requires size <= |content| && NewSize(size, off, |w|) <= |content'|
    ensures WrittenAt(content[..size], content'[..NewSize(size, off, |w|)], off, w)
  {
  }

  /** What a write that moved `done` bytes has made of the file. */
  lemma FileHas(v: Volume, fv: Vnode, s: Snap, h: nat, size: nat, off: nat, w: seq<byte>)
    requires v.Valid() && WellFormed(v.fat, v.chains) && Backed(s, v.g.bytesPerCluster) && size <= |ChainBytes(s, h)|
    requires Backed(Now(v), v.g.bytesPerCluster)
    requires Written(ChainBytes(s, h), ChainBytes(Now(v), fv.cluster), Landing(v.g, off), w)
    requires fv.size == NewSize(size, off, |w|) && (Fits(v, fv) ==> StaysInside(v.g, off, |w|))
    ensures Fits(v, fv) ==> WrittenAt(ChainBytes(s, h)[..size], FileBytes(v, fv), off, w)
  {
    hide DeviceHolds, Consistent, WellFormed, Mul, Content, Written, Landing, Addressable, WrittenAt;
    if Fits(v, fv) {
      BytesAre(v, fv);
      AddressableExact(v.g, off);
      WrittenFile(ChainBytes(s, h), ChainBytes(Now(v), fv.cluster), Landing(v.g, off), w, size, off);
    }
  }

  /** `fat32_write`.  `done` is how far the position moved.  Beyond 2^32 clusters the bytes go to the
      wrong place, and the size says more than the chain has. */
  method Write(v: Volume, fv: Vnode, offset: nat, data: seq<byte>, append: bool, now: Timespec)
    returns (err: Errno, done: nat)
    requires v.Valid() && WellFormed(v.fat, v.chains) && Fits(v, fv)
    modifies v, v.disk, fv`cluster, fv`size, fv`mtime, fv`flags, fv.cache
    ensures v.Valid() && WellFormed(v.fat, v.chains) && Attached(v, fv) && (v.intact ==> old(v.intact))
    ensures old(Exact(v)) ==> Exact(v)
    ensures Fits(v, fv) <==> append || StaysInside(v.g, offset, done)
    ensures fv.vtype != VREG ==> err == EISDIR && done == 0
    ensures fv.vtype != VREG || data == [] ==> Now(v) == old(Now(v)) && fv.size == old(fv.size) && fv.cluster == old(fv.cluster)
    ensures fv.vtype != VREG ==> fv.flags == old(fv.flags)
    ensures fv.mtime == if fv.vtype == VREG then now else old(fv.mtime)
    ensures done <= |data|
    ensures fv.vtype == VREG ==>
              && (err == OK || err == ENOSPC || err == EIO)
              && (err == OK <==> done == |data|) && (err == EIO ==> !v.intact)
              && fv.size == NewSize(old(fv.size), if append then old(fv.size) else offset, done)
    ensures append || offset <= old(fv.size) ==>
              && Fits(v, fv)
              && FileBytes(v, fv) == Overwrite(old(FileBytes(v, fv)), if append then old(fv.size) else offset, data[..done])
    ensures Fits(v, fv) ==>
              WrittenAt(old(FileBytes(v, fv)), FileBytes(v, fv), if append then old(fv.size) else offset, data[..done])
    ensures Holds(old(v.data), old(ChainOf(v.chains, fv.cluster)), v.g.bytesPerCluster)
    ensures Holds(v.data, ChainOf(v.chains, fv.cluster), v.g.bytesPerCluster)
    ensures Written(old(ChainBytes(Now(v), fv.cluster)), ChainBytes(Now(v), fv.cluster),
                    Landing(v.g, if append then old(fv.size) else offset), data[..done])
    ensures |v.data| == |old(v.data)| && OthersKept(old(Now(v)), Now(v), old(fv.cluster))
    ensures fv.cluster == old(fv.cluster) || (old(fv.cluster) == 0 && fv.cluster !in old(v.chains))
    ensures |old(ChainOf(v.chains, fv.cluster))| <= |ChainOf(v.chains, fv.cluster)|
    ensures Extended(old(Now(v)), Now(v), old(fv.cluster), fv.cluster, v.g.bytesPerCluster,
                     Landing(v.g, if append then old(fv.size) else offset) + |data|, err)
    ensures err == ENOSPC && old(Exact(v)) && v.intact ==> FreeCount(v.fat) == 0
    ensures fv.vtype == VREG ==>
              fv.flags == old(fv.flags) + {MtimeDirty, Modified}
              + (if fv.cluster != old(fv.cluster) then {ClusterDirty} else {})
              + (if fv.size != old(fv.size) then {SizeDirty} else {})
  {
    hide DeviceHolds, Consistent, WellFormed, Mul, IsChain, Content, Shr, And, U32, Grown, OthersKept, Progress, Written,
         FreeCount, CacheSound, Exact, Holds, Overwrite, Landing, Addressable, WrittenAt, FileBytes,
         Extended;
    err, done := OK, 0;
    ghost var s0, h0, size0 := Now(v), fv.cluster, fv.size;
    BytesAre(v, fv);
    OverwriteNothing(FileBytes(v, fv), if append then fv.size else offset, data);
    SoundIsBacked(v);
    BackedChain(s0, h0, v.g.bytesPerCluster);
    NothingDone(s0, h0, v.g.bytesPerCluster, data, Landing(v.g, if append then fv.size else offset));
    OthersKeptNow(s0, h0);
    FileHas(v, fv, s0, h0, size0, if append then size0 else offset, data[..0]);
    NothingExtended(s0, h0, v.g.bytesPerCluster, Landing(v.g, if append then size0 else offset) + |data|);
    if fv.vtype != VREG {
      return EISDIR, 0;
    }
    fv.mtime := now;
    fv.flags := fv.flags + {MtimeDirty, Modified};
    if |data| == 0 {
      return OK, 0;
    }
    var off := if append then fv.size else offset;
    AppendAddressable(v, fv, off);
    err, done := WriteAt(v, fv, off, data);
    SoundIsBacked(v);
    FileHas(v, fv, s0, h0, size0, off, data[..done]);
  }

  /** The part of `fat32_write` behind the checks: reach the first cluster, then the loop. */
  method WriteAt(v: Volume, fv: Vnode, off: nat, data: seq<byte>) returns (err: Errno, done: nat)
    requires v.Valid() && WellFormed(v.fat, v.chains) && Fits(v, fv) && fv.vtype == VREG && data != []
    modifies v, v.disk, fv`cluster, fv`size, fv`flags, fv.cache
    ensures v.Valid() && WellFormed(v.fat, v.chains) && Attached(v, fv) && (v.intact ==> old(v.intact))
    ensures old(Exact(v)) ==> Exact(v)
    ensures Fits(v, fv) <==> StaysInside(v.g, off, done)
    ensures (err == OK || err == ENOSPC || err == EIO) && done <= |data|
    ensures (err == OK <==> done == |data|) && (err == EIO ==> !v.intact)
    ensures fv.size == NewSize(old(fv.size), off, done)
    ensures Holds(old(v.data), old(ChainOf(v.chains, fv.cluster)), v.g.bytesPerCluster)
    ensures Holds(v.data, ChainOf(v.chains, fv.cluster), v.g.bytesPerCluster)
    ensures Written(old(ChainBytes(Now(v), fv.cluster)), ChainBytes(Now(v), fv.cluster), Landing(v.g, off), data[..done])
    ensures off <= old(fv.size) ==>
              Fits(v, fv) && FileBytes(v, fv) == Overwrite(old(FileBytes(v, fv)), off, data[..done])
    ensures |v.data| == |old(v.data)| && OthersKept(old(Now(v)), Now(v), old(fv.cluster))
    ensures fv.cluster == old(fv.cluster) || (old(fv.cluster) == 0 && fv.cluster !in old(v.chains))
    ensures |old(ChainOf(v.chains, fv.cluster))| <= |ChainOf(v.chains, fv.cluster)|
    ensures err == ENOSPC && old(Exact(v)) && v.intact ==> FreeCount(v.fat) == 0
    ensures Extended(old(Now(v)), Now(v), old(fv.cluster), fv.cluster, v.g.bytesPerCluster, Landing(v.g, off) + |data|, err)
    ensures Modified in old(fv.flags) ==>
              fv.flags == old(fv.flags) + (if fv.cluster != old(fv.cluster) then {ClusterDirty} else {})
                                        + (if fv.size != old(fv.size) then {SizeDirty} else {})
  {
    hide DeviceHolds, Consistent, WellFormed, Mul, IsChain, Content, Shr, And, U32, Grown, OthersKept, Progress, Written,
         FreeCount, CacheSound, Exact, Holds, Overwrite, Addressable, Gained, Ends, Extended, JustEnough;
    err, done := OK, 0;
    ghost var s0, h0, size0 := Now(v), fv.cluster, fv.size;
    ghost var pos := Landing(v.g, off);
    RoomForSize(v, fv);
    SoundIsBacked(v);
    BackedChain(s0, h0, v.g.bytesPerCluster);
    AppendAddressable(v, fv, off);
    AddressableExact(v.g, off);
    assert off <= size0 ==> pos == off;
    var skip: nat := U32(Shr(off, v.g.clusterShift));
    var current;
    err, current := GrowTo(v, fv, skip + 1);
    ghost var s1, h := Now(v), fv.cluster;
    SoundIsBacked(v);
    BackedChain(s1, h, v.g.bytesPerCluster);
    GrownContent(s0, s1, h0, h, v.g.bytesPerCluster, skip + 1, err, pos, data);
    ghost var chain := ChainOf(s0.chains, h0);
    ghost var got := GrownGains(s0, s1, chain, ChainOf(s1.chains, h), skip + 1, err);
    EnoughGrown(s0, s1, chain, ChainOf(s1.chains, h), skip, err, v.g.bytesPerCluster, pos + |data|);
    if err != OK {
      FileWritten(s0, h0, s1, h, v.g.bytesPerCluster, pos, data[..0], size0);
      IsExtended(s0, s1, h0, h, v.g.bytesPerCluster, pos + |data|, err, got);
      return;
    }
    ChainEnds(s0.fat, s0.chains, h0);
    err, done, got := WriteLoop(v, fv, skip, And(off, v.g.clusterMask), current, off, data, pos, s0, chain, got);
    SoundIsBacked(v);
    BackedChain(Now(v), h, v.g.bytesPerCluster);
    MulMonotone(|ChainOf(s1.chains, h)|, |ChainOf(v.chains, h)|, v.g.bytesPerCluster);
    WriteTotal(s0, s1, Now(v), h0, h, v.g.bytesPerCluster, pos, data, done, err);
    IsExtended(s0, Now(v), h0, h, v.g.bytesPerCluster, pos + |data|, err, got);
    FileWritten(s0, h0, Now(v), h, v.g.bytesPerCluster, pos, data[..done], size0);
    BeyondChains(v, h, off);
  }

  lemma NothingExtended(s: Snap, h: nat, size: nat, end: nat)
    ensures Extended(s, s, h, h, size, end, OK) && Extended(s, s, h, h, size, end, EISDIR)
  {
    hide Appended, Drawn, Mul;
    var chain := ChainOf(s.chains, h);
    AppendedNothing(s.fat, chain);
    DrawnNothing(s);
    assert chain + [] == chain;
    assert Gained(s, s, chain, chain, [], OK) && Gained(s, s, chain, chain, [], EISDIR);
  }

  lemma IsExtended(s: Snap, s': Snap, h: nat, h': nat, size: nat, end: nat, err: Errno, ext: seq<nat>)
    requires Gained(s, s', ChainOf(s.chains, h), ChainOf(s'.chains, h'), ext, err)
    requires JustEnough(|ChainOf(s.chains, h)|, |ChainOf(s'.chains, h')|, size, end)
    ensures Extended(s, s', h, h', size, end, err)
  {
    hide Gained, Mul;
  }

  lemma GrownGains(s: Snap, s': Snap, chain: seq<nat>, chain': seq<nat>, n: nat, err: Errno) returns (ext: seq<nat>)
    requires Grown(s, s', chain, chain', n, err)
    ensures Gained(s, s', chain, chain', ext, err)
  {
    hide Gained, FreeCount;
    ext :| Gained(s, s', chain, chain', ext, err);
  }

  lemma EnoughGrown(s: Snap, s': Snap, chain: seq<nat>, chain': seq<nat>, skip: nat, err: Errno, size: nat, end: nat)
    requires Grown(s, s', chain, chain', skip + 1, err) && Mul(skip, size) < end
    ensures JustEnough(|chain|, |chain'|, size, end)
    ensures forall n: nat :: |chain'| <= n && JustEnough(|chain'|, n, size, end) ==> JustEnough(|chain|, n, size, end)
  {
    hide Gained, FreeCount, Mul;
    if |chain'| > |chain| {
      MulMonotone(|chain'| - 1, skip, size);
    }
  }

  /** No chain reaches an offset that is not addressable. */
  lemma BeyondChains(v: Volume, h: nat, off: nat)
    requires v.Valid() && WellFormed(v.fat, v.chains)
    ensures !Addressable(v.g, off) ==> off > Mul(|ChainOf(v.chains, h)|, v.g.bytesPerCluster)
  {
    hide DeviceHolds, WellFormed, Mul;
    var n := |ChainOf(v.chains, h)|;
    if h in v.chains {
      ChainBound(v.fat, v.chains, h);
    }
    MulMonotone(n + 1, WORD, v.g.bytesPerCluster);
    MulSucc(n, v.g.bytesPerCluster);
    SizePositive(v.g);
  }

  lemma OverwriteNothing(bytes: seq<byte>, off: nat, data: seq<byte>)
    ensures off <= |bytes| ==> Overwrite(bytes, off, data[..0]) == bytes
  {
  }

  lemma FileWritten(s0: Snap, h0: nat, s: Snap, h: nat, bpc: nat, off: nat, w: seq<byte>, size: nat)
    requires Backed(s0, bpc) && Backed(s, bpc)
    requires Written(ChainBytes(s0, h0), ChainBytes(s, h), off, w) && size <= |ChainBytes(s0, h0)|
    ensures off <= size ==>
              && NewSize(size, off, |w|) <= |ChainBytes(s, h)|
              && ChainBytes(s, h)[..NewSize(size, off, |w|)] == Overwrite(ChainBytes(s0, h0)[..size], off, w)
  {
    hide Content;
    if off <= size {
      WrittenInside(ChainBytes(s0, h0), ChainBytes(s, h), off, w, size);
    }
  }
}
