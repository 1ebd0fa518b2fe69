/** The reading operations of fat32_dir.c in place: `fat32_get_dirent`, `fat32_find_dirent`. */
module DirReading {
  import opened Bytes
  import opened Layout
  import opened Volumes
  import opened Chains
  import opened Clusters
  import opened Contents
  import opened Vnodes
  import opened Files
  import opened ReadWrite
  import opened Slots
  import opened SlotBytes
  import opened Calendar

  // ---- the name buffer ----

  /** `fat32_set_dname`. */
  method SetDnameInPlace(pos: nat, c: nat, dname: array<byte>, size: nat) returns (size': nat)
    requires dname.Length == NAME_BUFFER && size <= NAME_BUFFER
    modifies dname
    ensures size' <= size
    ensures NameState(dname[..], size') == SetDname(NameState(old(dname[..]), size), pos, c)
  {
    size' := size;
    if pos >= size {
      return;
    }
    if c == LFN_FILL {
      return;
    }
    var b: byte := if c >= 128 then QUESTION else c;
    dname[pos] := b;
    if b == 0 {
      size' := pos;
    }
  }

  /** The part of `fat32_get_dirent` that reads one LFN slot. */
  method ReadLfnInPlace(s: Slot, dname: array<byte>, size: nat, ghost st: Reading, ghost k: nat) returns (size': nat)
    requires dname.Length == NAME_BUFFER && size <= NAME_BUFFER && st.name == NameState(dname[..], size)
    modifies dname
    ensures size' <= NAME_BUFFER && NameState(dname[..], size') == ReadLfn(st, s, k).name
  {
    hide LfnChar, SetDname;
    size' := size;
    if IsLast(s) {
      var full := Sequence(s) * 13;
      if full < NAME_BUFFER {
        dname[full] := 0;
        size' := full;
      }
    }
    ghost var n0 := OpenGroup(st, s, k).name;
    var pos := U32((Sequence(s) - 1) * 13);
    var j := 0;
    while j < 13
      invariant 0 <= j <= 13 && size' <= NAME_BUFFER
      invariant NameState(dname[..], size') == SetChars(n0, pos, s, j)
    {
      SetCharsStep(n0, pos, s, j);
      size' := SetDnameInPlace(pos + j, LfnChar(s, j), dname, size');
      j := j + 1;
    }
  }

  lemma SetCharsStep(st: NameState, pos: nat, s: Slot, n: nat)
    requires st.size <= NAME_BUFFER && n < 13
    ensures SetChars(st, pos, s, n + 1) == SetDname(SetChars(st, pos, s, n), pos + n, LfnChar(s, n))
  {
  }

  /** Copies the bytes of `s[lo..hi]` up to the first space to `namePos` of the buffer. */
  method CopyUntilSpace(s: Slot, lo: nat, hi: nat, dname: array<byte>, namePos0: nat) returns (namePos: nat)
    requires lo <= hi <= 11 && dname.Length == NAME_BUFFER && namePos0 + (hi - lo) < NAME_BUFFER
    modifies dname
    ensures namePos == namePos0 + |BeforeSpace(s[lo..hi])|
    ensures namePos0 + |BeforeSpace(s[lo..hi])| <= NAME_BUFFER
    ensures dname[..] == Splice(old(dname[..]), namePos0, BeforeSpace(s[lo..hi]))
  {
    hide BeforeSpace;
    ghost var buf := dname[..];
    namePos := namePos0;
    var i := lo;
    while i < hi && s[i] != SPACE
      invariant lo <= i <= hi && namePos == namePos0 + (i - lo)
      invariant forall j :: lo <= j < i ==> s[j] != SPACE && dname[namePos0 + (j - lo)] == s[j]
      invariant forall j :: 0 <= j < NAME_BUFFER && !(namePos0 <= j < namePos) ==> dname[j] == buf[j]
    {
      dname[namePos] := s[i];
      i, namePos := i + 1, namePos + 1;
    }
    BeforeSpaceIs(s[lo..hi], i - lo);
    CopiedIs(buf, dname[..], namePos0, s[lo..hi][..i - lo]);
  }

  lemma CopiedIs(buf: seq<byte>, after: seq<byte>, pos: nat, t: seq<byte>)
    requires |after| == |buf| && pos + |t| <= |buf|
    requires forall j :: 0 <= j < |t| ==> after[pos + j] == t[j]
    requires forall j :: 0 <= j < |buf| && !(pos <= j < pos + |t|) ==> after[j] == buf[j]
    ensures after == Splice(buf, pos, t)
  {
    hide Splice;
    var r := Splice(buf, pos, t);
    forall i | 0 <= i < |buf|
      ensures after[i] == r[i]
    {
      if pos <= i < pos + |t| {
        assert r[i] == r[pos..pos + |t|][i - pos] == after[pos + (i - pos)];
      }
    }
  }

  /** The part of `fat32_get_dirent` that extracts an 8.3 name when no long name was read. */
  method FinishNameInPlace(s: Slot, dname: array<byte>, size: nat) returns (size': nat)
    requires dname.Length == NAME_BUFFER && size <= NAME_BUFFER
    modifies dname
    ensures size' <= NAME_BUFFER && NameState(dname[..], size') == FinishName(NameState(old(dname[..]), size), s)
  {
    hide BeforeSpace, Splice;
    size' := size;
    if dname[0] == 0 {
      ghost var buf := dname[..];
      TextEnds(s);
      ghost var base, ext := BeforeSpace(s[..8]), BeforeSpace(s[8..11]);
      assert s[0..8] == s[..8];
      var namePos := CopyUntilSpace(s, 0, 8, dname, 0);
      if s[8] != SPACE {
        ghost var buf1 := dname[..];
        dname[namePos] := DOT;
        namePos := namePos + 1;
        PutByte(buf, buf1, dname[..], base, DOT);
        namePos := CopyUntilSpace(s, 8, 11, dname, namePos);
        SpliceAppend(buf, 0, base + [DOT], ext);
        assert base + [DOT] + ext == base + ([DOT] + ext);
      } else {
        assert base + [] == base;
      }
      ghost var t, buf2 := ShortText(ShortName(s)), dname[..];
      assert buf2 == Splice(buf, 0, t) && |t| == namePos;
      dname[namePos] := 0;
      PutByte(buf, buf2, dname[..], t, 0);
      size' := namePos;
    }
  }

  lemma PutByte(buf: seq<byte>, before: seq<byte>, after: seq<byte>, t: seq<byte>, c: byte)
    requires |t| < |buf| && before == Splice(buf, 0, t) && after == before[|t| := c]
    ensures after == Splice(buf, 0, t + [c])
  {
  }

  lemma TextEnds(s: Slot)
    ensures ShortName(s)[..8] == s[..8] && ShortName(s)[8] == s[8] && ShortName(s)[8..11] == s[8..11]
  {
  }

  lemma {:induction false} BeforeSpaceIs(s: seq<byte>, n: nat)
    requires n <= |s| && (forall j :: 0 <= j < n ==> s[j] != SPACE) && (n == |s| || s[n] == SPACE)
    ensures BeforeSpace(s) == s[..n]
    decreases n
  {
    if n > 0 {
      BeforeSpaceIs(s[1..], n - 1);
      assert s[..n] == [s[0]] + s[1..][..n - 1];
    }
  }

  // ---- one cluster ----

  datatype Stop = AtEnd | AtEntry | Exhausted

  /** The inner loop of `fat32_get_dirent`: the slots of one cluster buffer.  Slot `j` of the buffer
      is slot `base + j` of the directory. */
  method ScanCluster(buf: seq<byte>, clusterOffset0: nat, currentOffset0: nat, dname: array<byte>, size0: nat,
                     hasLfn0: bool, start0: nat, ghost slots: seq<Slot>, ghost base: nat, ghost p: nat)
    returns (stop: Stop, currentOffset: nat, clusterOffset: nat, size: nat, hasLfn: bool, start: nat)
    requires dname.Length == NAME_BUFFER && size0 <= NAME_BUFFER
    requires |buf| == SLOT * p && base + p <= |slots| && forall j :: 0 <= j < p ==> slots[base + j] == BufferSlot(buf, j)
    requires exists j :: 0 <= j <= p && clusterOffset0 == SLOT * j && currentOffset0 == SLOT * (base + j)
    modifies dname
    ensures size <= NAME_BUFFER && start % SLOT == (if start == start0 then start0 % SLOT else 0)
    ensures currentOffset0 / SLOT <= currentOffset / SLOT <= base + p && currentOffset % SLOT == 0
    ensures start % SLOT == 0 || start == start0
    ensures var st0, st := Reading(NameState(old(dname[..]), size0), hasLfn0, start0 / SLOT),
                           Reading(NameState(dname[..], size), hasLfn, start / SLOT);
      match stop
      case AtEnd => Scan(slots, currentOffset0 / SLOT, st0) == End
      case AtEntry =>
        && currentOffset / SLOT < base + p && clusterOffset + SLOT <= |buf| && clusterOffset == currentOffset - SLOT * base
        && Scan(slots, currentOffset0 / SLOT, st0) == Entry(st.name, st.start, currentOffset / SLOT)
      case Exhausted =>
        currentOffset == SLOT * (base + p) && Scan(slots, currentOffset0 / SLOT, st0) == Scan(slots, base + p, st)
  {
    hide ReadLfn, FinishName, Scan, IsLast;
    currentOffset, clusterOffset, size, hasLfn, start := currentOffset0, clusterOffset0, size0, hasLfn0, start0;
    ghost var j: nat :| j <= p && clusterOffset0 == SLOT * j && currentOffset0 == SLOT * (base + j);
    ghost var k0 := base + j;
    ghost var st0 := Reading(NameState(dname[..], size0), hasLfn0, start0 / SLOT);
    ghost var st := st0;
    while clusterOffset < |buf|
      invariant k0 - base <= j <= p && clusterOffset == SLOT * j && currentOffset == SLOT * (base + j) && size <= NAME_BUFFER
      invariant st == Reading(NameState(dname[..], size), hasLfn, start / SLOT)
      invariant start % SLOT == 0 || start == start0
      invariant Scan(slots, k0, st0) == Scan(slots, base + j, st)
      decreases p - j
    {
      var s: Slot := buf[clusterOffset..clusterOffset + SLOT];
      assert slots[base + j] == BufferSlot(buf, j) == s;
      ScanUnfold(slots, base + j, st);
      if s[0] == 0 {
        return AtEnd, currentOffset, clusterOffset, size, hasLfn, start;
      }
      if s[0] == DELETED {
      } else if Attr(s) == LFN_ATTR {
        ghost var st1 := ReadLfn(st, s, base + j);
        LfnPlace(st, s, base + j);
        if IsLast(s) {
          start := currentOffset;
        }
        size := ReadLfnInPlace(s, dname, size, st, base + j);
        hasLfn := true;
        st := st1;
      } else if Bit(Attr(s), VOLUME_ID) {
        size := NAME_BUFFER;
        dname[0] := 0;
        hasLfn := false;
        start := 0;
        st := Reset(st);
      } else {
        if !hasLfn {
          start := currentOffset;
        }
        size := FinishNameInPlace(s, dname, size);
        return AtEntry, currentOffset, clusterOffset, size, hasLfn, start;
      }
      currentOffset := currentOffset + SLOT;
      clusterOffset := clusterOffset + SLOT;
      j := j + 1;
    }
    stop := Exhausted;
  }

  lemma ScanUnfold(slots: seq<Slot>, k: nat, st: Reading)
    requires k < |slots| && st.name.size <= NAME_BUFFER
    ensures slots[k][0] == 0 ==> Scan(slots, k, st) == End
    ensures slots[k][0] == DELETED ==> Scan(slots, k, st) == Scan(slots, k + 1, st)
    ensures slots[k][0] != 0 && slots[k][0] != DELETED ==>
              if Attr(slots[k]) == LFN_ATTR then Scan(slots, k, st) == Scan(slots, k + 1, ReadLfn(st, slots[k], k))
              else if Bit(Attr(slots[k]), VOLUME_ID) then Scan(slots, k, st) == Scan(slots, k + 1, Reset(st))
              else Scan(slots, k, st) == Entry(FinishName(st.name, slots[k]), if st.hasLfn then st.start else k, k)
  {
    hide ReadLfn, FinishName;
  }

  lemma LfnPlace(st: Reading, s: Slot, k: nat)
    requires st.name.size <= NAME_BUFFER
    ensures var r := ReadLfn(st, s, k); r.hasLfn && r.start == if IsLast(s) then k else st.start
  {
    hide SetChars;
  }

  // ---- the whole directory ----

  /** A directory that has clusters, of fewer than 2^32 bytes, so that offsets fit in 32 bits. */
  ghost predicate DirReady(v: Volume, dir: Vnode)
    reads v, v.disk, dir`cluster, dir.cache
  {
    && v.Valid() && WellFormed(v.fat, v.chains) && Attached(v, dir) && dir.cluster in v.chains
    && SLOT * Mul(|v.chains[dir.cluster]|, PerCluster(v.g)) < WORD
  }

  /** The slots of a directory. */
  ghost function SlotsOf(v: Volume, dir: Vnode): seq<Slot>
    requires DirReady(v, dir)
    reads v, v.disk, dir`cluster, dir.cache
  {
    SoundIsBacked(v);
    DirSlots(Now(v), dir.cluster)
  }

  /** `slots` are the slots of the directory with chain `h`, `p` of them in each cluster. */
  ghost predicate Laid(s: Snap, h: nat, p: nat, slots: seq<Slot>) {
    && h in s.chains && Backed(s, SLOT * p) && |slots| == Mul(|s.chains[h]|, p) && slots == DirSlots(s, h)
  }

  lemma LaidOnce(s: Snap, h: nat, p: nat, slots: seq<Slot>, slots': seq<Slot>)
    requires Laid(s, h, p, slots) && Laid(s, h, p, slots')
    ensures slots == slots'
  {
    hide DirSlots, Mul, Backed;
  }

  lemma LaidChain(s: Snap, h: nat, p: nat, slots: seq<Slot>)
    requires Laid(s, h, p, slots)
    ensures h in s.chains && |slots| == Mul(|s.chains[h]|, p)
  {
    hide Mul, DirSlots, Backed;
  }

  /** The slots of a chain that is backed. */
  lemma DirSlotsNow(s: Snap, c: nat, p: nat) returns (slots: seq<Slot>)
    requires Backed(s, SLOT * p) && c in s.chains
    ensures Laid(s, c, p, slots)
  {
    hide Mul;
    SlotTotal(s, c, p);
    slots := DirSlots(s, c);
  }

  /** What holds of the volume while the slots of directory `h` are worked on. */
  ghost predicate OnDir(v: Volume, h: nat, slots: seq<Slot>)
    reads v, v.disk
  {
    && v.Valid() && WellFormed(v.fat, v.chains)
    && v.g.bytesPerCluster == SLOT * PerCluster(v.g) && PerCluster(v.g) >= 16 && Laid(Now(v), h, PerCluster(v.g), slots)
  }

  lemma SlotsOfSize(v: Volume, dir: Vnode)
    requires DirReady(v, dir)
    ensures v.g.bytesPerCluster == SLOT * PerCluster(v.g) && PerCluster(v.g) >= 16
    ensures Laid(Now(v), dir.cluster, PerCluster(v.g), SlotsOf(v, dir))
  {
    hide DeviceHolds, WellFormed, Mul, Content, Attached;
    SoundIsBacked(v);
    PerClusterIs(v.g, 0);
    SlotTotal(Now(v), dir.cluster, PerCluster(v.g));
  }

  /** `fat32_next_cluster` on a chain: the next cluster, or an error at the end. */
  method NextOrEnd(v: Volume, ghost h: nat, ghost i: nat, current: nat) returns (err: Errno, next: nat)
    requires v.Valid() && WellFormed(v.fat, v.chains) && At(v.chains, h, i, current)
    modifies v, v.disk
    ensures v.Valid() && Now(v) == old(Now(v)) && (old(Exact(v)) ==> Exact(v))
    ensures i + 1 < |v.chains[h]| ==> err == OK && At(v.chains, h, i + 1, next)
    ensures i + 1 == |v.chains[h]| ==> err == ENOSPC
  {
    hide DeviceHolds, Consistent, WellFormed, IsChain, FreeCount, Grew;
    ForestChain(v.fat, v.chains, h);
    LinkInRange(v.fat, v.chains[h], i);
    ghost var took;
    err, next, took := NextCluster(v, current, false, false);
  }

  /** What an in-memory file takes over from its directory entry. */
  ghost predicate Filled(fv: Vnode, main: Slot, start: nat, count: nat, dirCluster: nat)
    reads fv`cluster, fv`attr, fv`diroff, fv`dirsz, fv`parentCluster, fv`size, fv`vtype, fv`mode, fv`atime, fv`mtime, fv`ctime
  {
    && fv.cluster == FirstCluster(main) && fv.attr == Attr(main) && fv.size == FileSize(main)
    && fv.diroff == SLOT * start && fv.dirsz == count && fv.parentCluster == dirCluster
    && fv.vtype == (if Bit(Attr(main), DIRECTORY) then VDIR else VREG)
    && fv.mode == ModeOf(Attr(main))
    && fv.atime == TimeOf(FatToUnix(Packed(Rle16(main, 18), 0, 0)))
    && fv.mtime == TimeOf(FatToUnix(Packed(Rle16(main, 24), Rle16(main, 22), 0)))
    && fv.ctime == TimeOf(FatToUnix(Packed(Rle16(main, 16), Rle16(main, 14), main[13])))
  }

  function TimeOf(t: (int, nat)): Timespec {
    Timespec(t.0, t.1)
  }

  const S_IFDIR: nat := 0x4000
  const S_IFREG: nat := 0x8000
  const S_IWUSR: nat := 0x80

  function ModeOf(attr: byte): nat {
    if Bit(attr, DIRECTORY) then S_IFDIR + 0x1ED
    else if Bit(attr, READ_ONLY) then S_IFREG + 0x124
    else S_IFREG + 0x1A4
  }

  /** A mode by its bits: the type in the upper four, everyone may read, the owner may write if `writable`
      and nobody else, and everyone may enter a directory and execute nothing else. */
  predicate ModeSays(mode: nat, isDir: bool, writable: bool) {
    && mode / 0x1000 == (if isDir then 4 else 8) && mode / 0x200 % 8 == 0
    && mode / 0x100 % 2 == 1 && mode / 0x20 % 2 == 1 && mode / 4 % 2 == 1
    && mode / 0x80 % 2 == (if writable then 1 else 0) && mode / 0x10 % 2 == 0 && mode / 2 % 2 == 0
    && mode / 0x40 % 2 == (if isDir then 1 else 0) && mode / 8 % 2 == (if isDir then 1 else 0) && mode % 2 == (if isDir then 1 else 0)
  }

  /** The type and the permissions follow two bits of the attribute byte: bit 4 makes a directory, and bit 0
      takes write permission from everything else. */
  lemma ModeMeans(attr: byte)
    ensures ModeSays(ModeOf(attr), attr / 16 % 2 == 1, attr / 16 % 2 == 1 || attr % 2 == 0)
  {
  }

  /** The date of the last access in a slot is that of `t`. */
  predicate AccessIs(main: Slot, t: Timespec) {
    Rle16(main, 18) == UnixToFat(t.sec, t.nsec).date
  }

  /** The time and date of the last write in a slot are those of `t`. */
  predicate WriteIs(main: Slot, t: Timespec) {
    Rle16(main, 22) == UnixToFat(t.sec, t.nsec).time && Rle16(main, 24) == UnixToFat(t.sec, t.nsec).date
  }

  /** The 10 ms units, the time and the date of the creation in a slot are those of `t`. */
  predicate CreationIs(main: Slot, t: Timespec) {
    && main[13] == UnixToFat(t.sec, t.nsec).tenths
    && Rle16(main, 14) == UnixToFat(t.sec, t.nsec).time && Rle16(main, 16) == UnixToFat(t.sec, t.nsec).date
  }

  /** A time that a directory entry can hold. */
  predicate Holdable(t: Timespec) {
    EPOCH <= t.sec < CALENDAR_END && t.nsec < 1000000000
  }

  /** `t` cut to its day, to two seconds, to 10 ms. */
  predicate CutToDay(cut: Timespec, t: Timespec) {
    cut.sec == t.sec - t.sec % 86400 && cut.nsec == 0
  }

  predicate CutToTwoSeconds(cut: Timespec, t: Timespec) {
    cut.sec == t.sec - t.sec % 2 && cut.nsec == 0
  }

  predicate CutToTenMs(cut: Timespec, t: Timespec) {
    cut.sec == t.sec && cut.nsec == t.nsec - t.nsec % 10000000
  }

  /** A time stored in a slot comes back when a vnode is filled from it: the access to the day, the write
      to two seconds, the creation to 10 ms. */
  lemma TimesComeBack(fv: Vnode, main: Slot, start: nat, count: nat, dirCluster: nat, t: Timespec)
    requires Filled(fv, main, start, count, dirCluster) && Holdable(t)
    ensures AccessIs(main, t) ==> CutToDay(fv.atime, t)
    ensures WriteIs(main, t) ==> CutToTwoSeconds(fv.mtime, t)
    ensures CreationIs(main, t) ==> CutToTenMs(fv.ctime, t)
  {
    hide UnixToFat, FatToUnix, FirstCluster, FileSize, ModeOf, Bit, Rle16;
    WhatIsLeft(t.sec, t.nsec);
  }

  /** The part of `fat32_get_dirent` that fills in the caller's vnode. */
  method FillVnode(fv: Vnode, main: Slot, start: nat, count: nat, dirCluster: nat)
    modifies fv
    ensures Filled(fv, main, start, count, dirCluster) && fv.flags == old(fv.flags)
  {
    hide FatToUnix, Rle16, Rle32, FirstCluster, FileSize, Bit, ModeOf;
    fv.cluster := FirstCluster(main);
    fv.attr := Attr(main);
    fv.diroff := SLOT * start;
    fv.dirsz := count;
    fv.parentCluster := dirCluster;
    fv.size := FileSize(main);
    fv.vtype := if Bit(Attr(main), DIRECTORY) then VDIR else VREG;
    fv.mode := ModeOf(Attr(main));
    var sec, nsec := ComputeFatToUnix(Packed(Rle16(main, 18), 0, 0));
    fv.atime := Timespec(sec, nsec);
    sec, nsec := ComputeFatToUnix(Packed(Rle16(main, 24), Rle16(main, 22), 0));
    fv.mtime := Timespec(sec, nsec);
    sec, nsec := ComputeFatToUnix(Packed(Rle16(main, 16), Rle16(main, 14), main[13]));
    fv.ctime := Timespec(sec, nsec);
  }

  /** What `fat32_get_dirent` reports from slot `k` on when the name buffer goes from `before` to
      `after`: the entry that the scan finds, or that there is none. */
  ghost predicate Reported(slots: seq<Slot>, k: nat, before: seq<byte>, after: seq<byte>, err: Errno, next: nat,
                           size: nat, start: nat, count: nat, main: Slot)
  {
    && |before| == |after| == NAME_BUFFER
    && match Scan(slots, k, Begin(before))
       case End => err == ENOENT
       case Entry(st, s, at) =>
         && err == OK && next == SLOT * (at + 1) && after == st.buf && size == st.size && size <= NAME_BUFFER
         && start == s && count == (if at < s then 0 else at - s + 1) && at < |slots| && main == slots[at]
  }

  /** `fat32_get_dirent` from `offset`, without filling a vnode: the entry found, its place and its
      8.3 slot. */
  method GetDirent(v: Volume, dir: Vnode, offset: nat, dname: array<byte>)
    returns (err: Errno, next: nat, size: nat, start: nat, count: nat, main: Slot)
    requires dir.vtype == VDIR ==> DirReady(v, dir)
    requires dname.Length == NAME_BUFFER && dname != v.disk && offset % SLOT == 0 && offset < WORD
    modifies v, v.disk, dir.cache, dname
    ensures dir.vtype != VDIR ==> err == ENOTDIR && dname[..] == old(dname[..])
    ensures Now(v) == old(Now(v)) && (old(Exact(v)) ==> Exact(v))
    ensures dir.vtype == VDIR ==> DirReady(v, dir) && SlotsOf(v, dir) == old(SlotsOf(v, dir))
    ensures dir.vtype == VDIR ==>
              Reported(SlotsOf(v, dir), offset / SLOT, old(dname[..]), dname[..], err, next, size, start, count, main)
  {
    hide DeviceHolds, Consistent, WellFormed, Mul, Shr, And, SeekResult, Exact, Scan, Attached, Laid, Reported, SlotsOf;
    err, next, size, start, count, main := ENOTDIR, 0, 0, 0, 0, Zeros(32);
    if dir.vtype != VDIR {
      return;
    }
    ghost var slots := SlotsOf(v, dir);
    SlotsOfSize(v, dir);
    ghost var i, j := StartOfScan(v, dir, offset);
    var skip: nat := Shr(offset, v.g.clusterShift);
    var clusterOffset := And(offset, v.g.clusterMask);
    var current;
    ghost var ext;
    err, current, ext := VnodeSeek(v, dir, skip, false, false);
    SlotsOfSize(v, dir);
    LaidOnce(Now(v), dir.cluster, PerCluster(v.g), slots, SlotsOf(v, dir));
    if err != OK {
      ReportEnd(slots, offset / SLOT, dname[..], 0, 0, 0, 0, main);
      return ENOENT, 0, 0, 0, 0, main;
    }
    err, next, size, start, count, main := ScanFrom(v, dir.cluster, i, j, current, clusterOffset, offset, dname, slots);
    SlotsOfSize(v, dir);
    LaidOnce(Now(v), dir.cluster, PerCluster(v.g), slots, SlotsOf(v, dir));
  }

  lemma ReportEnd(slots: seq<Slot>, k: nat, buf: NameBuffer, next: nat, size: nat, start: nat, count: nat, main: Slot)
    requires k >= |slots|
    ensures Reported(slots, k, buf, buf, ENOENT, next, size, start, count, main)
  {
  }

  /** The outer loop of `fat32_get_dirent`: one cluster after the other. */
  method ScanFrom(v: Volume, ghost h: nat, ghost i0: nat, ghost j0: nat, current0: nat, clusterOffset0: nat, offset: nat,
                  dname: array<byte>, ghost slots: seq<Slot>)
    returns (err: Errno, next: nat, size: nat, start: nat, count: nat, main: Slot)
    requires v.Valid() && WellFormed(v.fat, v.chains) && At(v.chains, h, i0, current0) && j0 <= PerCluster(v.g)
    requires v.g.bytesPerCluster == SLOT * PerCluster(v.g) && Laid(Now(v), h, PerCluster(v.g), slots)
    requires clusterOffset0 == SLOT * j0 && offset == SLOT * (Mul(i0, PerCluster(v.g)) + j0)
    requires dname.Length == NAME_BUFFER && dname != v.disk
    modifies v, v.disk, dname
    ensures v.Valid() && Now(v) == old(Now(v)) && (old(Exact(v)) ==> Exact(v))
    ensures Reported(slots, offset / SLOT, old(dname[..]), dname[..], err, next, size, start, count, main)
  {
    hide DeviceHolds, Consistent, WellFormed, Mul, Exact, Scan, Laid;
    ghost var p, k0, st0 := PerCluster(v.g), offset / SLOT, Begin(dname[..]);
    ghost var i, j := i0, j0;
    var current, clusterOffset, currentOffset, hasLfn := current0, clusterOffset0, offset, false;
    size, start, main := NAME_BUFFER, 0, Zeros(32);
    while true
      invariant v.Valid() && Now(v) == old(Now(v)) && (old(Exact(v)) ==> Exact(v))
      invariant At(v.chains, h, i, current) && j <= p
      invariant clusterOffset == SLOT * j && currentOffset == SLOT * (Mul(i, p) + j) && size <= NAME_BUFFER && start % SLOT == 0
      invariant Scan(slots, k0, st0) == Scan(slots, Mul(i, p) + j, Reading(NameState(dname[..], size), hasLfn, start / SLOT))
      decreases |v.chains[h]| - i
    {
      ChainEntryInRange(v, h, i);
      var buf := v.ReadCluster(current);
      ClusterSlots(Now(v), h, i, p, slots);
      var stop;
      stop, currentOffset, clusterOffset, size, hasLfn, start :=
        ScanCluster(buf, clusterOffset, currentOffset, dname, size, hasLfn, start, slots, Mul(i, p), p);
      if stop == AtEnd {
        return ENOENT, 0, 0, 0, 0, main;
      }
      if stop == AtEntry {
        main := buf[clusterOffset..clusterOffset + SLOT];
        EntrySlot(slots, buf, Mul(i, p), p, currentOffset, clusterOffset);
        count := if currentOffset < start then 0 else (currentOffset - start) / SLOT + 1;
        return OK, currentOffset + SLOT, size, start / SLOT, count, main;
      }
      err, current := NextOrEnd(v, h, i, current);
      MulSucc(i, p);
      if err != OK {
        BeyondLast(Now(v), h, p, slots, i + 1);
        ScanBeyond(slots, Mul(i, p) + p, Reading(NameState(dname[..], size), hasLfn, start / SLOT));
        return ENOENT, 0, 0, 0, 0, main;
      }
      i, j := i + 1, 0;
      clusterOffset := 0;
    }
  }

  lemma EntrySlot(slots: seq<Slot>, buf: seq<byte>, base: nat, p: nat, currentOffset: nat, clusterOffset: nat)
    requires |buf| == SLOT * p && base + p <= |slots| && forall j :: 0 <= j < p ==> slots[base + j] == BufferSlot(buf, j)
    requires currentOffset % SLOT == 0 && clusterOffset + SLOT <= |buf| && clusterOffset == currentOffset - SLOT * base
    ensures currentOffset / SLOT < |slots| && slots[currentOffset / SLOT] == buf[clusterOffset..clusterOffset + SLOT]
  {
    var j := clusterOffset / SLOT;
    assert currentOffset / SLOT == base + j && clusterOffset == SLOT * j;
    assert slots[base + j] == BufferSlot(buf, j);
  }

  lemma ScanBeyond(slots: seq<Slot>, k: nat, st: Reading)
    requires k >= |slots| && st.name.size <= NAME_BUFFER
    ensures Scan(slots, k, st) == End
  {
  }

  /** The first cluster and slot that `fat32_get_dirent` looks at. */
  lemma StartOfScan(v: Volume, dir: Vnode, offset: nat) returns (i: nat, j: nat)
    requires DirReady(v, dir) && offset % SLOT == 0
    ensures Shr(offset, v.g.clusterShift) == i && And(offset, v.g.clusterMask) == SLOT * j && j < PerCluster(v.g)
    ensures offset == SLOT * (Mul(i, PerCluster(v.g)) + j)
    ensures if i < |v.chains[dir.cluster]|
            then SeekResult(v.fat, dir.cluster, i) == (OK, v.chains[dir.cluster][i])
            else SeekResult(v.fat, dir.cluster, i).0 != OK && offset / SLOT >= |SlotsOf(v, dir)|
  {
    hide DeviceHolds, WellFormed, Mul, Shr, And, SeekResult, IsChain, Attached, SlotsOf, Consistent, Laid;
    i, j := SlotOffset(v.g, offset);
    ForestChain(v.fat, v.chains, dir.cluster);
    SeekOnChain(v.fat, v.chains, dir.cluster, 0, i);
    SlotsOfSize(v, dir);
    BeyondLast(Now(v), dir.cluster, PerCluster(v.g), SlotsOf(v, dir), i);
  }

  lemma BeyondLast(s: Snap, h: nat, p: nat, slots: seq<Slot>, i: nat)
    requires Laid(s, h, p, slots)
    ensures i >= |s.chains[h]| ==> Mul(i, p) >= |slots|
  {
    hide Mul, DirSlots, Backed;
    if i >= |s.chains[h]| {
      MulMonotone(|s.chains[h]|, i, p);
    }
  }

  /** A byte offset of a slot as cluster index and slot in the cluster. */
  lemma SlotOffset(g: Geometry, offset: nat) returns (i: nat, j: nat)
    requires Consistent(g) && offset % SLOT == 0
    ensures Shr(offset, g.clusterShift) == i && And(offset, g.clusterMask) == SLOT * j && j < PerCluster(g)
    ensures offset == SLOT * (Mul(i, PerCluster(g)) + j)
  {
    hide Mul, Shr, And, Consistent;
    var r;
    i, r := SplitOffset(g, offset);
    PerClusterIs(g, i);
    j := r / SLOT;
  }

  /** All slots of one cluster. */
  lemma ClusterSlots(s: Snap, h: nat, i: nat, p: nat, slots: seq<Slot>)
    requires Laid(s, h, p, slots) && i < |s.chains[h]|
    ensures s.chains[h][i] < |s.data| && |s.data[s.chains[h][i]]| == SLOT * p
    ensures Mul(i, p) + p <= |slots|
    ensures forall j :: 0 <= j < p ==> slots[Mul(i, p) + j] == BufferSlot(s.data[s.chains[h][i]], j)
  {
    hide Mul, Content, DirSlots;
    MulSucc(i, p);
    MulMonotone(i + 1, |s.chains[h]|, p);
    forall j | 0 <= j < p
      ensures slots[Mul(i, p) + j] == BufferSlot(s.data[s.chains[h][i]], j)
    {
      SlotInCluster(s, h, i, p, j);
    }
  }
}
