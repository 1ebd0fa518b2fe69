/** Changing the slots of a directory in place: `fat32_read_fdentry`, `fat32_write_fdentry`,
    `fat32_write_lfn_fdentry`, `fat32_delete_fdentry_chain` and `fat32_alloc_fdentry`. */
module DirWriting {
  import opened Bytes
  import opened Layout
  import opened Volumes
  import opened Chains
  import opened Clusters
  import opened Contents
  import opened Files
  import opened ReadWrite
  import opened Slots
  import opened SlotBytes
  import opened Names
  import opened Placing
  import opened DirReading
  import opened Lookups

  // ---- one cluster buffer ----

  /** `slots'` has the slots of `buf` from number `base` on and is `slots` everywhere else. */
  ghost predicate Rewritten(slots: seq<Slot>, slots': seq<Slot>, base: nat, buf: seq<byte>) {
    && |slots'| == |slots| && Window(buf, slots', base)
    && forall k :: 0 <= k < |slots| && !(base <= k < base + |buf| / SLOT) ==> slots'[k] == slots[k]
  }

  /** Only the contents of one cluster of chain `h` differ. */
  ghost predicate OneClusterSet(s: Snap, s': Snap, h: nat, i: nat, buf: seq<byte>) {
    && h in s.chains && i < |s.chains[h]| && s.chains[h][i] < |s.data|
    && s' == s.(data := s.data[s.chains[h][i] := buf])
  }

  /** Putting back a cluster buffer changes the slots in it, and no other directory or file. */
  lemma LaidRewritten(s: Snap, s': Snap, h: nat, i: nat, p: nat, buf: seq<byte>, slots: seq<Slot>, slots': seq<Slot>)
    requires p > 0 && Laid(s, h, p, slots) && WellFormed(s.fat, s.chains) && OneClusterSet(s, s', h, i, buf)
    requires |buf| == SLOT * p && Rewritten(slots, slots', Mul(i, p), buf)
    ensures Laid(s', h, p, slots')
    ensures OthersKept(s, s', h)
  {
    hide Mul, WellFormed, DirSlots, Rewritten, Window, IsChain;
    ForestChain(s.fat, s.chains, h);
    StillBacked(s, s', h, i, p, buf);
    SlotTotal(s', h, p);
    assert |slots'| == |slots| by {
      SameLength(slots, slots', Mul(i, p), buf);
    }
    forall k | 0 <= k < |slots'|
      ensures DirSlots(s', h)[k] == slots'[k]
    {
      SlotAfter(s, s', h, i, p, buf, slots, slots', k);
    }
    OnlyMine(s, s', h, i, buf);
  }

  lemma SameLength(slots: seq<Slot>, slots': seq<Slot>, base: nat, buf: seq<byte>)
    requires Rewritten(slots, slots', base, buf)
    ensures |slots'| == |slots|
  {
  }

  lemma StillBacked(s: Snap, s': Snap, h: nat, i: nat, p: nat, buf: seq<byte>)
    requires Backed(s, SLOT * p) && OneClusterSet(s, s', h, i, buf) && |buf| == SLOT * p
    ensures Backed(s', SLOT * p)
  {
  }

  lemma OnlyMine(s: Snap, s': Snap, h: nat, i: nat, buf: seq<byte>)
    requires WellFormed(s.fat, s.chains) && OneClusterSet(s, s', h, i, buf)
    ensures OthersKept(s, s', h)
  {
    hide IsChain, Distinct;
    var c := s.chains[h][i];
    forall k | k in s.chains && k != h
      ensures c !in s.chains[k]
    {
    }
  }

  lemma SlotAfter(s: Snap, s': Snap, h: nat, i: nat, p: nat, buf: seq<byte>, slots: seq<Slot>, slots': seq<Slot>, k: nat)
    requires p > 0 && Laid(s, h, p, slots) && Backed(s', SLOT * p) && h in s.chains && Distinct(s.chains[h])
    requires OneClusterSet(s, s', h, i, buf)
    requires |buf| == SLOT * p && Rewritten(slots, slots', Mul(i, p), buf) && k < |slots|
    requires |DirSlots(s', h)| == |slots|
    ensures DirSlots(s', h)[k] == slots'[k]
  {
    hide Mul, DirSlots, Backed;
    var a, b := DivMod(k, p);
    PlaceInside(a, b, |s.chains[h]|, p);
    SlotInCluster(s, h, a, p, b);
    SlotInCluster(s', h, a, p, b);
    if a != i {
      PlaceOutside(a, b, i, p);
    } else {
      assert slots'[Mul(i, p) + b] == BufferSlot(buf, b);
    }
  }

  lemma PlaceInside(a: nat, b: nat, n: nat, p: nat)
    requires Mul(a, p) + b < Mul(n, p)
    ensures a < n
  {
    hide Mul;
    if n <= a {
      MulMonotone(n, a, p);
    }
  }

  lemma PlaceOutside(a: nat, b: nat, i: nat, p: nat)
    requires a != i && b < p
    ensures !(Mul(i, p) <= Mul(a, p) + b < Mul(i, p) + p)
  {
    hide Mul;
    MulSucc(i, p);
    MulSucc(a, p);
    if a < i {
      MulMonotone(a + 1, i, p);
    } else {
      MulMonotone(i + 1, a, p);
    }
  }

  /** Writes back the buffer of cluster number `i` of directory `h`. */
  method StoreWindow(v: Volume, ghost h: nat, ghost i: nat, current: nat, buf: seq<byte>,
                     ghost slots: seq<Slot>, ghost slots': seq<Slot>)
    requires v.Valid() && WellFormed(v.fat, v.chains) && At(v.chains, h, i, current)
    requires v.g.bytesPerCluster == SLOT * PerCluster(v.g) && Laid(Now(v), h, PerCluster(v.g), slots)
    requires |buf| == SLOT * PerCluster(v.g) && Rewritten(slots, slots', Mul(i, PerCluster(v.g)), buf)
    modifies v`data, v.disk
    ensures v.Valid() && |v.data| == |old(v.data)| && OthersKept(old(Now(v)), Now(v), h)
    ensures Laid(Now(v), h, PerCluster(v.g), slots')
  {
    hide DeviceHolds, WellFormed, Mul, Laid, Rewritten;
    ghost var s := Now(v);
    ChainEntryInRange(v, h, i);
    PerClusterIs(v.g, 0);
    v.WriteCluster(current, buf);
    LaidRewritten(s, Now(v), h, i, PerCluster(v.g), buf, slots, slots');
  }

  // ---- one slot ----

  /** The FAT and the chains are the same, and so are the contents of all other chains. */
  ghost predicate OnlyDir(s: Snap, s': Snap, h: nat) {
    |s'.data| == |s.data| && s' == s.(data := s'.data) && OthersKept(s, s', h)
  }

  /** Finds the cluster of slot `offset / SLOT`. */
  method SeekSlot(v: Volume, dirCluster: nat, offset: nat, ghost slots: seq<Slot>)
    returns (err: Errno, current: nat, ghost i: nat, ghost j: nat)
    requires OnDir(v, dirCluster, slots) && offset % SLOT == 0
    modifies v, v.disk
    ensures OnDir(v, dirCluster, slots) && Now(v) == old(Now(v)) && (old(Exact(v)) ==> Exact(v))
    ensures And(offset, v.g.clusterMask) == SLOT * j && j < PerCluster(v.g)
    ensures offset == SLOT * (Mul(i, PerCluster(v.g)) + j)
    ensures if offset / SLOT < |slots| then err == OK && At(v.chains, dirCluster, i, current) else err == ENOSPC
  {
    hide DeviceHolds, Consistent, WellFormed, Mul, Shr, And, Laid, SeekResult;
    i, j := SlotOffset(v.g, offset);
    LaidChain(Now(v), dirCluster, PerCluster(v.g), slots);
    ForestChain(v.fat, v.chains, dirCluster);
    SeekOnChain(v.fat, v.chains, dirCluster, 0, i);
    SlotOrBeyond(Now(v), dirCluster, PerCluster(v.g), slots, i, j);
    ghost var ext;
    err, current, ext := SeekCluster(v, dirCluster, Shr(offset, v.g.clusterShift), false, false, dirCluster, 0);
  }

  lemma SlotOrBeyond(s: Snap, h: nat, p: nat, slots: seq<Slot>, i: nat, j: nat)
    requires Laid(s, h, p, slots) && j < p
    ensures Mul(i, p) + j < |slots| <==> i < |s.chains[h]|
  {
    hide Mul, DirSlots, Backed;
    BeyondLast(s, h, p, slots, i);
    if i < |s.chains[h]| {
      MulSucc(i, p);
      MulMonotone(i + 1, |s.chains[h]|, p);
    }
  }

  /** `fat32_write_fdentry`. */
  method WriteFdentry(v: Volume, dirCluster: nat, offset: nat, data: Slot, ghost slots: seq<Slot>) returns (err: Errno)
    requires OnDir(v, dirCluster, slots) && offset % SLOT == 0
    modifies v, v.disk
    ensures OnlyDir(old(Now(v)), Now(v), dirCluster) && (old(Exact(v)) ==> Exact(v))
    ensures err == if offset / SLOT < |slots| then OK else ENOSPC
    ensures OnDir(v, dirCluster, if offset / SLOT < |slots| then slots[offset / SLOT := data] else slots)
  {
    hide DeviceHolds, Consistent, WellFormed, Mul, And, Laid, Exact, Rewritten, OthersKept, Window;
    var current;
    ghost var i, j;
    err, current, i, j := SeekSlot(v, dirCluster, offset, slots);
    OthersKeptNow(Now(v), dirCluster);
    if err != OK {
      return;
    }
    ghost var h := dirCluster;
    var buf := ReadWindow(v, h, i, current, slots);
    var offsetInCluster := And(offset, v.g.clusterMask);
    SpliceRewrites(slots, Mul(i, PerCluster(v.g)), buf, j, data);
    ghost var s := Now(v);
    StoreWindow(v, h, i, current, Splice(buf, offsetInCluster, data), slots, slots[offset / SLOT := data]);
  }

  /** Replacing one slot in the buffer replaces that slot. */
  lemma SpliceRewrites(slots: seq<Slot>, base: nat, buf: seq<byte>, j: nat, data: Slot)
    requires Window(buf, slots, base) && j < |buf| / SLOT
    ensures SLOT * j + SLOT <= |buf| && base + j < |slots|
    ensures Rewritten(slots, slots[base + j := data], base, Splice(buf, SLOT * j, data))
  {
    hide Splice;
    var buf', slots' := Splice(buf, SLOT * j, data), slots[base + j := data];
    forall k | 0 <= k < |buf| / SLOT
      ensures slots'[base + k] == BufferSlot(buf', k)
    {
      assert slots[base + k] == BufferSlot(buf, k);
      if k == j {
        assert buf'[SLOT * j..SLOT * j + |data|] == data;
      } else {
        SpliceElsewhere(buf, SLOT * j, data, SLOT * k, SLOT * k + SLOT);
      }
    }
  }

  /** `fat32_read_fdentry`. */
  method ReadFdentry(v: Volume, dirCluster: nat, offset: nat, ghost slots: seq<Slot>) returns (err: Errno, data: Slot)
    requires OnDir(v, dirCluster, slots) && offset % SLOT == 0
    modifies v, v.disk
    ensures OnDir(v, dirCluster, slots) && Now(v) == old(Now(v)) && (old(Exact(v)) ==> Exact(v))
    ensures err == if offset / SLOT < |slots| then OK else ENOSPC
    ensures err == OK ==> data == slots[offset / SLOT]
  {
    hide DeviceHolds, Consistent, WellFormed, Mul, And, Laid, Exact;
    var current;
    ghost var i, j;
    data := Zeros(32);
    err, current, i, j := SeekSlot(v, dirCluster, offset, slots);
    if err != OK {
      return;
    }
    var buf := ReadWindow(v, dirCluster, i, current, slots);
    var offsetInCluster := And(offset, v.g.clusterMask);
    data := buf[offsetInCluster..offsetInCluster + SLOT];
    assert slots[Mul(i, PerCluster(v.g)) + j] == BufferSlot(buf, j);
  }

  // ---- deleting an entry ----

  /** The slots with those from `start` on marked as deleted, `n` of them. */
  function ErasedSlots(slots: seq<Slot>, start: nat, n: nat): (r: seq<Slot>)
    requires start + n <= |slots|
    ensures Erased(slots, r, start, n)
  {
    seq(|slots|, k requires 0 <= k < |slots| => if start <= k < start + n then Deleted(slots[k]) else slots[k])
  }

  lemma ErasedMore(slots: seq<Slot>, start: nat, n: nat, d: seq<Slot>, base: nat, buf: seq<byte>, j: nat)
    requires start + n < |slots| && j < |buf| / SLOT && base + j == start + n
    requires Rewritten(d, ErasedSlots(slots, start, n), base, buf)
    ensures Rewritten(d, ErasedSlots(slots, start, n + 1), base, buf[SLOT * j := DELETED])
  {
    var buf', e, e' := buf[SLOT * j := DELETED], ErasedSlots(slots, start, n), ErasedSlots(slots, start, n + 1);
    forall k | 0 <= k < |buf| / SLOT
      ensures e'[base + k] == BufferSlot(buf', k)
    {
      assert e[base + k] == BufferSlot(buf, k);
      if k == j {
        assert BufferSlot(buf', k) == BufferSlot(buf, k)[0 := DELETED];
      } else {
        assert BufferSlot(buf', k) == BufferSlot(buf, k);
      }
    }
  }

  lemma ErasedNone(slots: seq<Slot>, start: nat)
    requires start <= |slots|
    ensures ErasedSlots(slots, start, 0) == slots
  {
  }

  lemma RewrittenSame(slots: seq<Slot>, base: nat, buf: seq<byte>)
    requires Window(buf, slots, base)
    ensures Rewritten(slots, slots, base, buf)
  {
  }

  /** As many of `count` slots from `start` on as exist are marked as deleted. */
  function ErasedReach(slots: seq<Slot>, start: nat, count: nat): seq<Slot> {
    if start >= |slots| then slots
    else if start + count <= |slots| then ErasedSlots(slots, start, count)
    else ErasedSlots(slots, start, |slots| - start)
  }

  /** Puts back the buffer of cluster `i` and goes on to the next cluster of the directory. */
  method NextWindow(v: Volume, ghost h: nat, ghost i: nat, current: nat, buf: seq<byte>,
                    ghost d: seq<Slot>, ghost d': seq<Slot>)
    returns (err: Errno, next: nat, buf': seq<byte>)
    requires OnDir(v, h, d) && At(v.chains, h, i, current)
    requires |buf| == SLOT * PerCluster(v.g) && Rewritten(d, d', Mul(i, PerCluster(v.g)), buf)
    modifies v, v.disk
    ensures OnDir(v, h, d') && OnlyDir(old(Now(v)), Now(v), h) && (old(Exact(v)) ==> Exact(v))
    ensures i + 1 < |v.chains[h]| ==>
              && err == OK && At(v.chains, h, i + 1, next) && |buf'| == SLOT * PerCluster(v.g)
              && Rewritten(d', d', Mul(i + 1, PerCluster(v.g)), buf')
    ensures i + 1 == |v.chains[h]| ==> err == ENOSPC && Mul(i, PerCluster(v.g)) + PerCluster(v.g) == |d'|
  {
    hide DeviceHolds, Consistent, WellFormed, Mul, Laid, Exact, Rewritten, OthersKept, Window;
    StoreWindow(v, h, i, current, buf, d, d');
    err, next := NextOrEnd(v, h, i, current);
    LaidChain(Now(v), h, PerCluster(v.g), d');
    MulSucc(i, PerCluster(v.g));
    buf' := buf;
    if err == OK {
      buf' := ReadWindow(v, h, i + 1, next, d');
      RewrittenSame(d', Mul(i + 1, PerCluster(v.g)), buf');
    }
  }

  /** `fat32_delete_fdentry_chain`: marks the slots that exist; running past the end is an error. */
  method DeleteFdentryChain(v: Volume, dirCluster: nat, offset: nat, count: nat, ghost slots: seq<Slot>)
    returns (err: Errno)
    requires OnDir(v, dirCluster, slots) && offset % SLOT == 0
    modifies v, v.disk
    ensures OnlyDir(old(Now(v)), Now(v), dirCluster) && (old(Exact(v)) ==> Exact(v))
    ensures err == if offset / SLOT < |slots| && offset / SLOT + count <= |slots| then OK else ENOSPC
    ensures OnDir(v, dirCluster, ErasedReach(slots, offset / SLOT, count))
  {
    hide DeviceHolds, Consistent, WellFormed, Mul, And, Laid, Exact, Rewritten, OthersKept, Window, ErasedSlots;
    var current;
    ghost var i, j0;
    err, current, i, j0 := SeekSlot(v, dirCluster, offset, slots);
    ghost var s0 := Now(v);
    OthersKeptNow(s0, dirCluster);
    if err != OK {
      return;
    }
    ghost var h, p, start, d := dirCluster, PerCluster(v.g), offset / SLOT, slots;
    var buf: seq<byte> := ReadWindow(v, h, i, current, slots);
    ErasedNone(slots, start);
    RewrittenSame(slots, Mul(i, p), buf);
    ghost var j := j0;
    var clusterOffset := And(offset, v.g.clusterMask);
    var n: nat := 0;
    while n < count
      invariant n <= count && start + n == Mul(i, p) + j && j <= p && start + n <= |slots|
      invariant clusterOffset == SLOT * j && |d| == |slots|
      invariant OnDir(v, h, d) && OnlyDir(s0, Now(v), h) && (old(Exact(v)) ==> Exact(v))
      invariant At(v.chains, h, i, current) && |buf| == SLOT * p
      invariant Rewritten(d, ErasedSlots(slots, start, n), Mul(i, p), buf)
    {
      if clusterOffset >= |buf| {
        ghost var s1 := Now(v);
        err, current, buf := NextWindow(v, h, i, current, buf, d, ErasedSlots(slots, start, n));
        OthersKeptTrans(s0, s1, Now(v), h);
        MulSucc(i, p);
        d := ErasedSlots(slots, start, n);
        if err != OK {
          return;
        }
        i, j := i + 1, 0;
        clusterOffset := 0;
      }
      SlotOrBeyond(Now(v), h, p, d, i, j);
      ErasedMore(slots, start, n, d, Mul(i, p), buf, j);
      buf := buf[clusterOffset := DELETED];
      clusterOffset := clusterOffset + SLOT;
      n, j := n + 1, j + 1;
    }
    ghost var s1 := Now(v);
    StoreWindow(v, h, i, current, buf, d, ErasedSlots(slots, start, n));
    OthersKeptTrans(s0, s1, Now(v), h);
    err := OK;
  }

  // ---- writing an entry ----

  /** From byte `at` on lie `n` characters of LFN slot number `i`, from character `j0` on. */
  predicate CharsAt(buf: seq<byte>, at: nat, n: nat, j0: nat, name: seq<byte>, i: nat)
    requires 0 < i && j0 + n <= 13
  {
    at + 2 * n <= |buf|
    && forall j :: 0 <= j < n ==>
         buf[at + 2 * j] == NameChar(name, i, j0 + j) % 0x100 && buf[at + 2 * j + 1] == NameChar(name, i, j0 + j) / 0x100
  }

  /** The buffers differ only between `lo` and `hi`. */
  predicate SameOutside(buf: seq<byte>, buf': seq<byte>, lo: nat, hi: nat) {
    |buf'| == |buf| && forall b :: 0 <= b < |buf| && !(lo <= b < hi) ==> buf'[b] == buf[b]
  }

  lemma CharsKept(buf: seq<byte>, buf': seq<byte>, lo: nat, hi: nat, at: nat, n: nat, j0: nat, name: seq<byte>, i: nat)
    requires 0 < i && j0 + n <= 13 && CharsAt(buf, at, n, j0, name, i) && SameOutside(buf, buf', lo, hi)
    requires at + 2 * n <= lo || hi <= at
    ensures CharsAt(buf', at, n, j0, name, i)
  {
    hide NameChar;
  }

  /** Stores `n` characters of LFN slot number `i`, from character `j0` on, at byte `at`. */
  method FillChars(buf: array<byte>, at: nat, n: nat, j0: nat, name: seq<byte>, i: nat)
    requires 0 < i && (i - 1) * 13 < |name| && j0 + n <= 13 && at + 2 * n <= buf.Length
    modifies buf
    ensures CharsAt(buf[..], at, n, j0, name, i) && SameOutside(old(buf[..]), buf[..], at, at + 2 * n)
  {
    var startIdx := (i - 1) * 13;
    var charsLeft := |name| - startIdx;
    var chunkLen := if charsLeft > 13 then 13 else charsLeft;
    var j := 0;
    while j < n
      invariant 0 <= j <= n
      invariant forall k :: 0 <= k < j ==>
                  buf[at + 2 * k] == NameChar(name, i, j0 + k) % 0x100 && buf[at + 2 * k + 1] == NameChar(name, i, j0 + k) / 0x100
      invariant forall b :: 0 <= b < buf.Length && !(at <= b < at + 2 * j) ==> buf[b] == old(buf[b])
    {
      if j0 + j < chunkLen {
        buf[at + 2 * j] := name[startIdx + (j0 + j)];
        buf[at + 2 * j + 1] := 0;
      } else if j0 + j == chunkLen {
        buf[at + 2 * j] := 0;
        buf[at + 2 * j + 1] := 0;
      } else {
        buf[at + 2 * j] := 0xFF;
        buf[at + 2 * j + 1] := 0xFF;
      }
      j := j + 1;
    }
  }

  /** The bytes of an LFN slot that hold no characters. */
  predicate FixedBytes(buf: seq<byte>, first: nat, checksum: byte) {
    |buf| == 32 && buf[0] == first && buf[11] == LFN_ATTR && buf[12] == 0 && buf[13] == checksum && buf[26] == 0 && buf[27] == 0
  }

  /** One LFN slot as `fat32_write_lfn_fdentry` fills it. */
  method BuildLfn(name: seq<byte>, i: nat, numLfn: nat, checksum: byte) returns (lfn: Slot)
    requires 0 < i < 32 && (i - 1) * 13 < |name| && numLfn == LfnCount(name)
    ensures lfn == LfnSlot(name, i, checksum)
  {
    hide CharsAt, LfnSlot;
    var buf := new byte[32](_ => 0);
    buf[11] := LFN_ATTR;
    buf[13] := checksum;
    buf[0] := i;
    if i == numLfn {
      buf[0] := i + LFN_LAST;
    }
    ghost var b0, first := buf[..], i + if i == numLfn then LFN_LAST else 0;
    assert FixedBytes(b0, first, checksum);
    FillChars(buf, 1, 5, 0, name, i);
    ghost var b1 := buf[..];
    FillChars(buf, 14, 6, 5, name, i);
    ghost var b2 := buf[..];
    CharsKept(b1, b2, 14, 26, 1, 5, 0, name, i);
    FillChars(buf, 28, 2, 11, name, i);
    lfn := buf[..];
    CharsKept(b2, lfn, 28, 32, 1, 5, 0, name, i);
    CharsKept(b2, lfn, 28, 32, 14, 6, 5, name, i);
    assert FixedBytes(lfn, first, checksum);
    SlotFromBytes(lfn, name, i, checksum);
  }

  lemma SlotFromBytes(lfn: Slot, name: seq<byte>, i: nat, checksum: byte)
    requires 0 < i < 32 && FixedBytes(lfn, i + (if i == LfnCount(name) then LFN_LAST else 0), checksum)
    requires CharsAt(lfn, 1, 5, 0, name, i) && CharsAt(lfn, 14, 6, 5, name, i) && CharsAt(lfn, 28, 2, 11, name, i)
    ensures lfn == LfnSlot(name, i, checksum)
  {
    hide NameChar;
    forall b | 0 <= b < 32
      ensures lfn[b] == LfnByte(name, i, checksum, b)
    {
      if 1 <= b < 11 {
        assert b == 1 + 2 * ((b - 1) / 2) || b == 1 + 2 * ((b - 1) / 2) + 1;
      } else if 14 <= b < 26 {
        assert b == 14 + 2 * ((b - 14) / 2) || b == 14 + 2 * ((b - 14) / 2) + 1;
      } else if 28 <= b {
        assert b == 28 + 2 * ((b - 28) / 2) || b == 28 + 2 * ((b - 28) / 2) + 1;
      }
    }
  }

  /** The slots with `g` at `start`, as far as they reach. */
  function Overlay(slots: seq<Slot>, start: nat, g: seq<Slot>): (r: seq<Slot>)
    ensures |r| == |slots|
    ensures forall k :: 0 <= k < |slots| ==> r[k] == if start <= k < start + |g| then g[k - start] else slots[k]
  {
    seq(|slots|, k requires 0 <= k < |slots| => if start <= k < start + |g| then g[k - start] else slots[k])
  }

  lemma OverlayMore(slots: seq<Slot>, start: nat, g: seq<Slot>, q: nat)
    requires q < |g|
    ensures start + q < |slots| ==> Overlay(slots, start, g[..q])[start + q := g[q]] == Overlay(slots, start, g[..q + 1])
    ensures start + q >= |slots| ==> Overlay(slots, start, g[..q]) == Overlay(slots, start, g)
  {
    hide Overlay;
    if start + q < |slots| {
      assert forall k {:trigger g[..q][k]} :: 0 <= k < q ==> g[..q][k] == g[..q + 1][k];
    }
  }

  lemma OverlayEnds(slots: seq<Slot>, start: nat, g: seq<Slot>)
    ensures Overlay(slots, start, g[..0]) == slots && Overlay(slots, start, g[..|g|]) == Overlay(slots, start, g)
  {
    assert g[..|g|] == g;
  }

  /** `fat32_write_lfn_fdentry`: the LFN slots, highest number first, then the 8.3 slot. */
  method WriteLfnFdentry(v: Volume, dirCluster: nat, startOffset: nat, main: Slot, name: seq<byte>, ghost slots: seq<Slot>)
    returns (err: Errno)
    requires OnDir(v, dirCluster, slots) && startOffset % SLOT == 0 && IsName(name)
    modifies v, v.disk
    ensures OnlyDir(old(Now(v)), Now(v), dirCluster) && (old(Exact(v)) ==> Exact(v))
    ensures LfnCount(name) < 32
    ensures var g := LfnGroup(name, Checksum(ShortName(main), 11)) + [main];
      && OnDir(v, dirCluster, Overlay(slots, startOffset / SLOT, g))
      && err == if startOffset / SLOT + |g| <= |slots| then OK else ENOSPC
  {
    hide WellFormed, Mul, Laid, Exact, OthersKept, LfnSlot, Checksum, DeviceHolds, Overlay;
    var numLfn := (|name| + 12) / 13;
    var checksum := ComputeChecksum(ShortName(main));
    ghost var g, start, s0 := LfnGroup(name, checksum) + [main], startOffset / SLOT, Now(v);
    ghost var d := slots;
    OverlayEnds(slots, start, g);
    OthersKeptNow(s0, dirCluster);
    var i: nat := numLfn;
    while i > 0
      invariant i <= numLfn && OnDir(v, dirCluster, d) && d == Overlay(slots, start, g[..numLfn - i])
      invariant OnlyDir(s0, Now(v), dirCluster) && (old(Exact(v)) ==> Exact(v)) && |d| == |slots|
      invariant i < numLfn ==> start + (numLfn - i) <= |slots|
    {
      var lfn := BuildLfn(name, i, numLfn, checksum);
      ghost var q, s1 := numLfn - i, Now(v);
      assert g[q] == lfn;
      OverlayMore(slots, start, g, q);
      err := WriteFdentry(v, dirCluster, startOffset + (numLfn - i) * SLOT, lfn, d);
      OthersKeptTrans(s0, s1, Now(v), dirCluster);
      if err != OK {
        return;
      }
      d := Overlay(slots, start, g[..q + 1]);
      i := i - 1;
    }
    ghost var s1 := Now(v);
    OverlayMore(slots, start, g, numLfn);
    assert g[numLfn] == main;
    err := WriteFdentry(v, dirCluster, startOffset + numLfn * SLOT, main, d);
    OthersKeptTrans(s0, s1, Now(v), dirCluster);
  }
}
