/** Writing the metadata of a file back to its directory entry: `fat32_update_fdentry`
    (fat32_dir.c) and `fat32_setattr` (fat32_vnode.c). */
module Writeback {
  import opened Bytes
  import opened Layout
  import opened Volumes
  import opened Chains
  import opened Clusters
  import opened Contents
  import opened Vnodes
  import opened Files
  import opened ReadWrite
  import opened Slots
  import opened SlotBytes
  import opened Names
  import opened Placing
  import opened Calendar
  import opened DirReading
  import opened Lookups
  import opened DirWriting
  import opened DirGrowth
  import opened DirCreation
  import opened Making

  /** What an in-memory file knows of its entry. */
  datatype Meta = Meta(size: nat, cluster: nat, attr: byte, atime: Timespec, mtime: Timespec, ctime: Timespec, flags: set<Flag>)

  ghost function MetaOf(fv: Vnode): Meta
    reads fv`size, fv`cluster, fv`attr, fv`atime, fv`mtime, fv`ctime, fv`flags
  {
    Meta(fv.size, fv.cluster, fv.attr, fv.atime, fv.mtime, fv.ctime, fv.flags)
  }

  // ---- the new 8.3 slot ----

  function DateOf(t: Timespec): nat { UnixToFat(t.sec, t.nsec).date }

  function ClockOf(t: Timespec): nat { UnixToFat(t.sec, t.nsec).time }

  function TenthsOf(t: Timespec): byte { UnixToFat(t.sec, t.nsec).tenths % 256 }

  /** Two or four bytes of a slot, if `on`. */
  function Put(s: Slot, on: bool, at: nat, w: seq<byte>): (r: Slot)
    requires at + |w| <= 32
    ensures forall b :: 0 <= b < 32 ==> r[b] == if on && at <= b < at + |w| then w[b - at] else s[b]
  {
    if on then Splice(s, at, w) else s
  }

  /** The time fields that are flagged as dirty. */
  function UpdatedTimes(s: Slot, m: Meta): Slot {
    var s1 := Put(s, AtimeDirty in m.flags, 18, Wle16(DateOf(m.atime)));
    var s2 := Put(s1, MtimeDirty in m.flags, 22, Wle16(ClockOf(m.mtime)) + Wle16(DateOf(m.mtime)));
    Put(s2, CtimeDirty in m.flags, 13, [TenthsOf(m.ctime)] + Wle16(ClockOf(m.ctime)) + Wle16(DateOf(m.ctime)))
  }

  /** The other fields that are flagged as dirty. */
  function UpdatedRest(s: Slot, m: Meta): Slot {
    var s4 := Put(s, AttrDirty in m.flags, 11, [m.attr]);
    var s5 := Put(s4, SizeDirty in m.flags, 28, Wle32(m.size));
    var s6 := Put(s5, ClusterDirty in m.flags, 20, Wle16(m.cluster / 0x1_0000));
    Put(s6, ClusterDirty in m.flags, 26, Wle16(m.cluster % 0x1_0000))
  }

  /** The slot as `fat32_update_fdentry` changes it: each field that is flagged as dirty. */
  function UpdatedSlot(s: Slot, m: Meta): Slot {
    UpdatedRest(UpdatedTimes(s, m), m)
  }

  /** Field by field: what is dirty is taken from memory, everything else stays, and the name is
      never touched. */
  lemma UpdatedMeans(s: Slot, m: Meta)
    ensures var u := UpdatedSlot(s, m);
      && ShortName(u) == ShortName(s) && u[12] == s[12]
      && Attr(u) == (if AttrDirty in m.flags then m.attr else Attr(s))
      && FileSize(u) == (if SizeDirty in m.flags then m.size % WORD else FileSize(s))
      && FirstCluster(u) == (if ClusterDirty in m.flags then m.cluster % WORD else FirstCluster(s))
      && Rle16(u, 18) == (if AtimeDirty in m.flags then DateOf(m.atime) % 0x1_0000 else Rle16(s, 18))
      && Rle16(u, 22) == (if MtimeDirty in m.flags then ClockOf(m.mtime) % 0x1_0000 else Rle16(s, 22))
      && Rle16(u, 24) == (if MtimeDirty in m.flags then DateOf(m.mtime) % 0x1_0000 else Rle16(s, 24))
      && Rle16(u, 14) == (if CtimeDirty in m.flags then ClockOf(m.ctime) % 0x1_0000 else Rle16(s, 14))
      && Rle16(u, 16) == (if CtimeDirty in m.flags then DateOf(m.ctime) % 0x1_0000 else Rle16(s, 16))
      && u[13] == (if CtimeDirty in m.flags then TenthsOf(m.ctime) else s[13])
  {
    hide DateOf, ClockOf, TenthsOf, Put, Wle16, Wle32;
    var u := UpdatedSlot(s, m);
    assert forall b :: 0 <= b < 11 ==> u[b] == s[b];
    assert ShortName(u) == ShortName(s);
    SizeBytes(u, s, m);
    ClusterBytesOf(u, s, m);
  }

  /** The three fields that say what the file is. */
  lemma UpdatedFields(s: Slot, m: Meta)
    ensures Attr(UpdatedSlot(s, m)) == (if AttrDirty in m.flags then m.attr else Attr(s))
    ensures FileSize(UpdatedSlot(s, m)) == (if SizeDirty in m.flags then m.size % WORD else FileSize(s))
    ensures FirstCluster(UpdatedSlot(s, m)) == (if ClusterDirty in m.flags then m.cluster % WORD else FirstCluster(s))
    ensures ShortName(UpdatedSlot(s, m)) == ShortName(s)
  {
    hide UpdatedSlot, FileSize, FirstCluster, ShortName, DateOf, ClockOf, TenthsOf, Rle16;
    UpdatedMeans(s, m);
  }

  lemma SizeBytes(u: Slot, s: Slot, m: Meta)
    requires u == UpdatedSlot(s, m)
    ensures FileSize(u) == if SizeDirty in m.flags then m.size % WORD else FileSize(s)
  {
    hide DateOf, ClockOf, TenthsOf, Put, Wle16, Wle32;
    var w := Wle32(m.size);
    assert Rle32(w, 0) == m.size % WORD;
  }

  lemma ClusterBytesOf(u: Slot, s: Slot, m: Meta)
    requires u == UpdatedSlot(s, m)
    ensures FirstCluster(u) == if ClusterDirty in m.flags then m.cluster % WORD else FirstCluster(s)
  {
    hide DateOf, ClockOf, TenthsOf, Put, Wle16, Wle32;
    HighLow(m.cluster);
    assert Rle16(Wle16(m.cluster / 0x1_0000), 0) == m.cluster / 0x1_0000 % 0x1_0000;
    assert Rle16(Wle16(m.cluster % 0x1_0000), 0) == m.cluster % 0x1_0000;
  }

  lemma HighLow(c: nat)
    ensures c % 0x1_0000 % 0x1_0000 == c % 0x1_0000
    ensures c % 0x1_0000 + 0x1_0000 * (c / 0x1_0000 % 0x1_0000) == c % WORD
  {
  }

  // ---- coherence ----

  /** Each of size, first cluster and attributes is flagged as dirty or equals its field on disk. */
  ghost predicate Coherent(m: Meta, main: Slot) {
    && (SizeDirty in m.flags || m.size == FileSize(main))
    && (ClusterDirty in m.flags || m.cluster == FirstCluster(main))
    && (AttrDirty in m.flags || m.attr == Attr(main))
  }

  /** An operation that flags what it changes. */
  ghost predicate Flagged(m: Meta, m': Meta) {
    && (m'.size != m.size ==> SizeDirty in m'.flags)
    && (m'.cluster != m.cluster ==> ClusterDirty in m'.flags)
    && (m'.attr != m.attr ==> AttrDirty in m'.flags)
    && (forall f :: f in m.flags ==> f in m'.flags)
  }

  /** Flagged changes keep a file coherent with its entry. */
  lemma FlaggedIsCoherent(m: Meta, m': Meta, main: Slot)
    requires Coherent(m, main) && Flagged(m, m')
    ensures Coherent(m', main)
  {
    hide FileSize, FirstCluster;
  }

  /** A lookup makes a coherent vnode. */
  lemma LookupIsCoherent(fv: Vnode, main: Slot, start: nat, count: nat, dirCluster: nat)
    requires Filled(fv, main, start, count, dirCluster)
    ensures Coherent(MetaOf(fv), main)
  {
    hide TimeOf, FatToUnix, ModeOf, FileSize, FirstCluster;
  }

  lemma FieldsBelowWord(main: Slot)
    ensures FileSize(main) < WORD && FirstCluster(main) < WORD
  {
  }

  /** After the sync nothing is dirty, and the entry has what the file has exactly if the size fits
      in its 32 bits: in memory it is not bounded, and the sync cuts it and clears the flag. */
  lemma SyncIsCoherent(s: Slot, m: Meta)
    requires Coherent(m, s) && m.cluster < WORD
    ensures FileSize(UpdatedSlot(s, m)) == m.size % WORD
    ensures Coherent(m.(flags := m.flags - DIRTY), UpdatedSlot(s, m)) <==> m.size < WORD
  {
    hide UpdatedSlot, FileSize, FirstCluster, ShortName;
    UpdatedFields(s, m);
    FieldsBelowWord(s);
    assert SizeDirty in DIRTY && ClusterDirty in DIRTY && AttrDirty in DIRTY;
  }

  /** A new file keeps the attribute byte 0, whatever its entry says; it is coherent exactly when
      it is a regular file with write permission. */
  lemma CreatedCoherent(g: Geometry, fv: Vnode, main: Slot, slots: seq<Slot>, name: seq<byte>, isDir: bool, mode: nat, dirCluster: nat)
    requires NewVnode(g, fv, main, slots, name, isDir, mode, dirCluster)
    ensures Coherent(MetaOf(fv), main) <==> !isDir && mode / S_IWUSR % 2 == 1
  {
    hide FileSize, FirstCluster, FreeRun, SlotCount;
  }

  /** One step of the life of a file: an operation on it, or the sync of its metadata. */
  datatype Event = Edit | Sync

  ghost predicate Step(m: Meta, main: Slot, m': Meta, main': Slot, e: Event) {
    match e
    case Edit => Flagged(m, m') && main' == main
    case Sync => main' == UpdatedSlot(main, m) && m' == m.(flags := m.flags - DIRTY)
  }

  /** Over every run of operations and syncs the file and its entry are coherent all the way exactly
      if no sync meets a file of 4 gigabytes or more; the entry keeps its name. */
  lemma {:induction false} RunIsCoherent(ms: seq<Meta>, mains: seq<Slot>, events: seq<Event>)
    requires |ms| == |mains| == |events| + 1 && forall i :: 0 <= i < |ms| ==> ms[i].cluster < WORD
    requires forall i :: 0 <= i < |events| ==> Step(ms[i], mains[i], ms[i + 1], mains[i + 1], events[i])
    requires Coherent(ms[0], mains[0])
    ensures (forall i :: 0 <= i < |ms| ==> Coherent(ms[i], mains[i]))
       <==> forall i :: 0 <= i < |events| && events[i] == Sync ==> ms[i].size < WORD
    ensures ShortName(mains[|events|]) == ShortName(mains[0])
    decreases |events|
  {
    hide UpdatedSlot, FileSize, FirstCluster, ShortName, Coherent;
    if events != [] {
      var n := |events| - 1;
      var ms0, mains0, events0 := ms[..n + 1], mains[..n + 1], events[..n];
      assert forall i :: 0 <= i <= n ==> ms0[i] == ms[i] && mains0[i] == mains[i];
      RunIsCoherent(ms0, mains0, events0);
      assert Step(ms[n], mains[n], ms[n + 1], mains[n + 1], events[n]);
      if events[n] == Sync {
        UpdatedFields(mains[n], ms[n]);
      }
      if Coherent(ms[n], mains[n]) {
        if events[n] == Sync {
          SyncIsCoherent(mains[n], ms[n]);
        } else {
          FlaggedIsCoherent(ms[n], ms[n + 1], mains[n]);
        }
      }
    }
  }

  // ---- in place ----

  /** The times of the slot, in `fat32_update_fdentry`. */
  method UpdateTimes(fv: Vnode, s: Slot) returns (u: Slot)
    modifies fv`flags
    ensures u == UpdatedTimes(s, old(MetaOf(fv)))
    ensures fv.flags == old(fv.flags) - {AtimeDirty, MtimeDirty, CtimeDirty}
  {
    hide UnixToFat, Put, Wle16;
    u := s;
    var p;
    PutNot(s, 18, Wle16(DateOf(fv.atime)));
    if AtimeDirty in fv.flags {
      p := ComputeUnixToFat(fv.atime.sec, fv.atime.nsec);
      u := Put(u, true, 18, Wle16(p.date));
      fv.flags := fv.flags - {AtimeDirty};
    }
    PutNot(u, 22, Wle16(ClockOf(fv.mtime)) + Wle16(DateOf(fv.mtime)));
    if MtimeDirty in fv.flags {
      p := ComputeUnixToFat(fv.mtime.sec, fv.mtime.nsec);
      u := Put(u, true, 22, Wle16(p.time) + Wle16(p.date));
      fv.flags := fv.flags - {MtimeDirty};
    }
    PutNot(u, 13, [TenthsOf(fv.ctime)] + Wle16(ClockOf(fv.ctime)) + Wle16(DateOf(fv.ctime)));
    if CtimeDirty in fv.flags {
      p := ComputeUnixToFat(fv.ctime.sec, fv.ctime.nsec);
      u := Put(u, true, 13, [p.tenths % 256] + Wle16(p.time) + Wle16(p.date));
      fv.flags := fv.flags - {CtimeDirty};
    }
  }

  /** The attributes, size and first cluster of the slot, in `fat32_update_fdentry`. */
  method UpdateRest(fv: Vnode, s: Slot) returns (u: Slot)
    modifies fv`flags
    ensures u == UpdatedRest(s, old(MetaOf(fv)))
    ensures fv.flags == old(fv.flags) - {AttrDirty, SizeDirty, ClusterDirty}
  {
    hide Put, Wle16, Wle32;
    u := s;
    PutNot(u, 11, [fv.attr]);
    if AttrDirty in fv.flags {
      u := Put(u, true, 11, [fv.attr]);
      fv.flags := fv.flags - {AttrDirty};
    }
    PutNot(u, 28, Wle32(fv.size));
    if SizeDirty in fv.flags {
      u := Put(u, true, 28, Wle32(fv.size));
      fv.flags := fv.flags - {SizeDirty};
    }
    PutNot(u, 20, Wle16(fv.cluster / 0x1_0000));
    PutNot(u, 26, Wle16(fv.cluster % 0x1_0000));
    if ClusterDirty in fv.flags {
      u := Put(u, true, 20, Wle16(fv.cluster / 0x1_0000));
      u := Put(u, true, 26, Wle16(fv.cluster % 0x1_0000));
      fv.flags := fv.flags - {ClusterDirty};
    }
  }

  lemma RestIgnoresTimes(s: Slot, m: Meta, flags: set<Flag>)
    requires flags == m.flags - {AtimeDirty, MtimeDirty, CtimeDirty}
    ensures UpdatedRest(s, m.(flags := flags)) == UpdatedRest(s, m)
  {
    hide Put, Wle16, Wle32;
  }

  lemma PutNot(s: Slot, at: nat, w: seq<byte>)
    requires at + |w| <= 32
    ensures Put(s, false, at, w) == s
  {
  }

  /** The directory that holds the entry: the parent, and for parent 0 the root. */
  function ParentOf(g: Geometry, parentCluster: nat): nat {
    if parentCluster == 0 then g.rootCluster else parentCluster
  }

  /** There is an entry to write to. */
  predicate Writable(flags: set<Flag>, parentCluster: nat) {
    flags * DIRTY != {} && IsRoot !in flags && parentCluster != BAD
  }

  /** `fat32_update_fdentry`.  The 8.3 slot is the last of the entry's slots. */
  method UpdateFdentry(v: Volume, fv: Vnode, ghost slots: seq<Slot>) returns (err: Errno)
    requires Writable(fv.flags, fv.parentCluster) ==>
               OnDir(v, ParentOf(v.g, fv.parentCluster), slots) && fv.diroff % SLOT == 0 && fv.dirsz > 0
    modifies v, v.disk, fv`flags
    ensures old(v.Valid()) ==> v.Valid()
    ensures !Writable(old(fv.flags), fv.parentCluster) ==>
              && Now(v) == old(Now(v)) && fv.flags == old(fv.flags) - DIRTY && (old(Exact(v)) ==> Exact(v))
              && err == if old(fv.flags) * DIRTY != {} && IsRoot !in old(fv.flags) then EINVAL else OK
    ensures Writable(old(fv.flags), fv.parentCluster) ==>
              var h, k := ParentOf(v.g, fv.parentCluster), fv.diroff / SLOT + fv.dirsz - 1;
              && OnlyDir(old(Now(v)), Now(v), h) && (old(Exact(v)) ==> Exact(v))
              && (k < |slots| ==> err == OK && fv.flags == old(fv.flags) - DIRTY
                                  && OnDir(v, h, slots[k := UpdatedSlot(slots[k], old(MetaOf(fv)))]))
              && (k >= |slots| ==> err == ENOSPC && fv.flags == old(fv.flags) && OnDir(v, h, slots))
  {
    hide DeviceHolds, Consistent, WellFormed, Mul, And, Laid, Exact, Rewritten, OthersKept, Window, UpdatedTimes, UpdatedRest;
    if fv.flags * DIRTY == {} {
      NothingDirty(fv.flags);
      return OK;
    }
    if IsRoot in fv.flags {
      fv.flags := fv.flags - DIRTY;
      return OK;
    }
    var parentCluster := fv.parentCluster;
    if parentCluster == BAD {
      fv.flags := fv.flags - DIRTY;
      return EINVAL;
    }
    if parentCluster == 0 {
      parentCluster := v.g.rootCluster;
    }
    var targetOffset := fv.diroff + (fv.dirsz - 1) * SLOT;
    var current;
    ghost var i, j;
    OthersKeptNow(Now(v), parentCluster);
    err, current, i, j := SeekSlot(v, parentCluster, targetOffset, slots);
    if err != OK {
      return;
    }
    var buf := ReadWindow(v, parentCluster, i, current, slots);
    var offsetInCluster := And(targetOffset, v.g.clusterMask);
    var s: Slot := buf[offsetInCluster..offsetInCluster + SLOT];
    assert slots[Mul(i, PerCluster(v.g)) + j] == BufferSlot(buf, j) == s by {
      WindowSlot(buf, slots, Mul(i, PerCluster(v.g)), j);
    }
    ghost var was := Now(v);
    ghost var m := MetaOf(fv);
    var u := UpdateTimes(fv, s);
    RestIgnoresTimes(u, m, fv.flags);
    u := UpdateRest(fv, u);
    assert fv.flags == m.flags - DIRTY;
    SpliceRewrites(slots, Mul(i, PerCluster(v.g)), buf, j, u);
    StoreWindow(v, parentCluster, i, current, Splice(buf, offsetInCluster, u), slots, slots[targetOffset / SLOT := u]);
  }

  lemma NothingDirty(flags: set<Flag>)
    requires flags * DIRTY == {}
    ensures flags - DIRTY == flags
  {
    forall f | f in flags
      ensures f !in DIRTY
    {
      assert f in DIRTY ==> f in flags * DIRTY;
    }
  }

  lemma WindowSlot(buf: seq<byte>, slots: seq<Slot>, base: nat, j: nat)
    requires Window(buf, slots, base) && j < |buf| / SLOT
    ensures base + j < |slots| && slots[base + j] == BufferSlot(buf, j)
  {
  }

  /** What is known of a file after its mode was set. */
  function ModeSet(m: Meta, mode: nat): Meta {
    if Bit(m.attr, READ_ONLY) <==> mode / S_IWUSR % 2 == 0 then m
    else m.(attr := if Bit(m.attr, READ_ONLY) then m.attr - 1 else m.attr + 1, flags := m.flags + {AttrDirty})
  }

  /** The part of `fat32_setattr` that changes the mode. */
  method SetMode(fv: Vnode, mode: nat)
    modifies fv`mode, fv`attr, fv`flags
    ensures fv.mode == mode && MetaOf(fv) == ModeSet(old(MetaOf(fv)), mode) && Flagged(old(MetaOf(fv)), MetaOf(fv))
    ensures Bit(fv.attr, READ_ONLY) <==> mode / S_IWUSR % 2 == 0
    ensures fv.attr / 2 == old(fv.attr) / 2
    ensures fv.attr == old(fv.attr) ==> fv.flags == old(fv.flags)
    ensures fv.flags <= old(fv.flags) + {AttrDirty}
  {
    fv.mode := mode;
    if mode / S_IWUSR % 2 == 1 {
      if Bit(fv.attr, READ_ONLY) {
        fv.attr := fv.attr - 1;
        fv.flags := fv.flags + {AttrDirty};
      }
    } else if !Bit(fv.attr, READ_ONLY) {
      fv.attr := fv.attr + 1;
      fv.flags := fv.flags + {AttrDirty};
    }
  }

  /** What `fat32_setattr` is asked to change. */
  datatype Vattr = Vattr(size: Option<nat>, mode: Option<nat>, atime: Option<Timespec>, mtime: Option<Timespec>, ctime: Option<Timespec>)

  /** What `fat32_setattr` leaves of mode, attributes and times: what was asked for, and everything else as it was.
      Of the attributes only the lowest bit follows the mode.  Exactly what was asked for is flagged, the
      attributes if they have changed; the flags for size and clusters are another matter. */
  ghost predicate Applied(a: Vattr, m: Meta, mode: nat, m': Meta, mode': nat) {
    && mode' == (if a.mode.Some? then a.mode.value else mode)
    && m'.attr / 2 == m.attr / 2 && m'.attr % 2 == (if a.mode.Some? then 1 - a.mode.value / 0x80 % 2 else m.attr % 2)
    && m'.atime == (if a.atime.Some? then a.atime.value else m.atime)
    && m'.mtime == (if a.mtime.Some? then a.mtime.value else m.mtime)
    && m'.ctime == (if a.ctime.Some? then a.ctime.value else m.ctime)
    && (AtimeDirty in m'.flags <==> AtimeDirty in m.flags || a.atime.Some?)
    && (MtimeDirty in m'.flags <==> MtimeDirty in m.flags || a.mtime.Some?)
    && (CtimeDirty in m'.flags <==> CtimeDirty in m.flags || a.ctime.Some?)
    && (AttrDirty in m'.flags <==> AttrDirty in m.flags || m'.attr != m.attr)
    && (IsRoot in m'.flags <==> IsRoot in m.flags)
  }

  /** What it leaves of the size: what was asked for, up to 2^32 - 1 clusters; beyond, the size can become 0. */
  ghost predicate Resized(g: Geometry, size: Option<nat>, m: Meta, m': Meta) {
    && (size.None? ==> m'.size == m.size && m'.cluster == m.cluster)
    && (size.Some? ==> m'.size == size.value || (m'.size == 0 && size.value > Mul(WORD - 1, g.bytesPerCluster)))
    && (SizeDirty in m'.flags <==> SizeDirty in m.flags || size.Some?)
    && (ClusterDirty in m.flags || m'.cluster != m.cluster ==> ClusterDirty in m'.flags)
    && (Modified in m'.flags <==> Modified in m.flags || size.Some?)
  }

  /** A change that stopped at the size: the file may have gained clusters, and nothing else. */
  ghost predicate NotApplied(m: Meta, mode: nat, m': Meta, mode': nat) {
    && mode' == mode && m' == m.(cluster := m'.cluster, flags := m'.flags)
    && m'.flags == m.flags + if m'.cluster != m.cluster then {ClusterDirty, Modified} else {}
  }

  /** One file is the start of the other. */
  predicate SameStart(b: seq<byte>, b': seq<byte>) {
    b <= b' || b' <= b
  }

  /** Cutting or extending a chain leaves the bytes that both sizes reach. */
  lemma BytesStay(s: Snap, s': Snap, h: nat, h': nat, n: nat, n': nat, size: nat)
    requires Backed(s, size) && Backed(s', size) && s'.data == s.data
    requires OneExtendsOther(ChainOf(s.chains, h), ChainOf(s'.chains, h'))
    requires n <= |ChainBytes(s, h)| && n' <= |ChainBytes(s', h')|
    ensures SameStart(ChainBytes(s, h)[..n], ChainBytes(s', h')[..n'])
  {
    hide Content;
    var a, b := ChainOf(s.chains, h), ChainOf(s'.chains, h');
    BackedChain(s, h, size);
    BackedChain(s', h', size);
    if a <= b {
      LongerBytes(s.data, a, b, size);
    } else {
      LongerBytes(s.data, b, a, size);
    }
  }

  lemma LongerBytes(data: seq<seq<byte>>, a: seq<nat>, b: seq<nat>, size: nat)
    requires a <= b && Holds(data, a, size) && Holds(data, b, size)
    ensures Content(data, a) <= Content(data, b)
  {
    hide Content;
    var t := b[|a|..];
    assert b == a + t;
    assert forall i :: 0 <= i < |t| ==> t[i] == b[|a| + i];
    ContentConcat(data, a, t);
  }

  /** The file's bytes after its size was set, while no cluster has changed. */
  lemma SizedBytes(v: Volume, fv: Vnode, s: Snap, h: nat, size: nat)
    requires v.Valid() && WellFormed(v.fat, v.chains) && Fits(v, fv) && Backed(s, v.g.bytesPerCluster) && v.data == s.data
    requires OneExtendsOther(ChainOf(s.chains, h), ChainOf(v.chains, fv.cluster)) && size <= |ChainBytes(s, h)|
    ensures SameStart(ChainBytes(s, h)[..size], FileBytes(v, fv))
  {
    hide DeviceHolds, Consistent, WellFormed, Mul, Content;
    RoomForSize(v, fv);
    SoundIsBacked(v);
    BytesStay(s, Now(v), h, fv.cluster, size, fv.size, v.g.bytesPerCluster);
  }

  /** Only sizes beyond 2^32 - 1 clusters can need none. */
  lemma NeededNone(g: Geometry, bytes: nat)
    requires Consistent(g) && Needed(g, bytes) == 0
    ensures bytes == 0 || bytes > Mul(WORD - 1, g.bytesPerCluster)
  {
    hide Consistent, Mul, Needed;
    NeededExact(g, bytes);
    MulSucc(0, g.bytesPerCluster);
  }

  /** The part of `fat32_setattr` that changes the times. */
  method SetTimes(fv: Vnode, a: Vattr)
    modifies fv`atime, fv`mtime, fv`ctime, fv`flags
    ensures Flagged(old(MetaOf(fv)), MetaOf(fv))
    ensures fv.atime == (if a.atime.Some? then a.atime.value else old(fv.atime))
    ensures fv.mtime == (if a.mtime.Some? then a.mtime.value else old(fv.mtime))
    ensures fv.ctime == (if a.ctime.Some? then a.ctime.value else old(fv.ctime))
    ensures fv.flags == old(fv.flags) + (if a.atime.Some? then {AtimeDirty} else {})
              + (if a.mtime.Some? then {MtimeDirty} else {}) + (if a.ctime.Some? then {CtimeDirty} else {})
  {
    if a.atime.Some? {
      fv.atime := a.atime.value;
      fv.flags := fv.flags + {AtimeDirty};
    }
    if a.mtime.Some? {
      fv.mtime := a.mtime.value;
      fv.flags := fv.flags + {MtimeDirty};
    }
    if a.ctime.Some? {
      fv.ctime := a.ctime.value;
      fv.flags := fv.flags + {CtimeDirty};
    }
  }

  /** A file with its entry: the chain of the file is not that of the directory, and the entry's
      8.3 slot is `main`. */
  ghost predicate HasEntry(v: Volume, fv: Vnode, slots: seq<Slot>, main: Slot)
    reads v, v.disk, fv`cluster, fv`flags, fv`parentCluster, fv`diroff, fv`dirsz, fv.cache
  {
    && Attached(v, fv) && OnDir(v, ParentOf(v.g, fv.parentCluster), slots) && fv.cluster != ParentOf(v.g, fv.parentCluster)
    && IsRoot !in fv.flags && fv.parentCluster != BAD && fv.diroff % SLOT == 0 && fv.dirsz > 0
    && fv.diroff / SLOT + fv.dirsz <= |slots| && slots[fv.diroff / SLOT + fv.dirsz - 1] == main
  }

  /** A change to the file's own chain leaves the slots of its directory alone. */
  lemma EntryKept(v: Volume, s: Snap, h: nat, parent: nat, slots: seq<Slot>)
    requires v.Valid() && WellFormed(v.fat, v.chains) && v.g.bytesPerCluster == SLOT * PerCluster(v.g) && PerCluster(v.g) >= 16
    requires Laid(s, parent, PerCluster(v.g), slots) && h != parent
    requires |v.data| == |s.data| && OthersKept(s, Now(v), h)
    ensures OnDir(v, parent, slots)
  {
    hide DeviceHolds, Consistent, WellFormed, Laid, Backed, OthersKept;
    NowBacked(v);
    LaidKept(s, Now(v), h, parent, PerCluster(v.g), slots);
  }

  /** The chains other than `h` and the directory `parent` are as before. */
  ghost predicate KeptBut(s: Snap, s': Snap, h: nat, parent: nat) {
    |s'.data| == |s.data|
    && forall k :: k in s.chains && k != h ==>
         && k in s'.chains && s'.chains[k] == s.chains[k]
         && (k != parent ==> forall c :: c in s.chains[k] && c < |s.data| ==> s'.data[c] == s.data[c])
  }

  lemma KeptBoth(s: Snap, s1: Snap, s2: Snap, h: nat, parent: nat)
    requires |s1.data| == |s.data| && OthersKept(s, s1, h) && OnlyDir(s1, s2, parent)
    ensures KeptBut(s, s2, h, parent)
  {
  }

  lemma KeptOne(s: Snap, s1: Snap, h: nat, parent: nat)
    requires |s1.data| == |s.data| && OthersKept(s, s1, h)
    ensures KeptBut(s, s1, h, parent)
  {
  }

  /** The first cluster `h'` of a file that had `h`: none, the same, or a fresh one. */
  ghost predicate HeadMoved(chains: Forest, h: nat, h': nat) {
    h' == 0 || h' == h || (h == 0 && h' !in chains)
  }

  /** What a write that moved the position from `off` by `done` leaves in memory: the size reaches at least as far
      as it wrote, the time of the last write is `now`, even if nothing was to be written, and exactly what
      has changed is flagged. */
  ghost predicate WriteNoted(m: Meta, m': Meta, vtype: Vtype, off: nat, done: nat, now: Timespec) {
    && m'.attr == m.attr && m'.atime == m.atime && m'.ctime == m.ctime
    && if vtype != VREG then m' == m
       else
         && m'.size == (if done > 0 && off + done > m.size then off + done else m.size) && m'.mtime == now
         && m'.flags == m.flags + {MtimeDirty, Modified} + (if m'.cluster != m.cluster then {ClusterDirty} else {})
                      + (if m'.size != m.size then {SizeDirty} else {})
  }

  lemma WriteNotes(m: Meta, m': Meta, vtype: Vtype, off: nat, done: nat, now: Timespec)
    requires m' == m.(size := m'.size, cluster := m'.cluster, mtime := m'.mtime, flags := m'.flags)
    requires vtype != VREG ==> m' == m
    requires vtype == VREG ==>
               && m'.size == NewSize(m.size, off, done) && m'.mtime == now
               && m'.flags == m.flags + {MtimeDirty, Modified} + (if m'.cluster != m.cluster then {ClusterDirty} else {})
                            + (if m'.size != m.size then {SizeDirty} else {})
    ensures WriteNoted(m, m', vtype, off, done, now) && Flagged(m, m') && (IsRoot in m'.flags ==> IsRoot in m.flags)
  {
  }

  /** `fat32_write` on a file with an entry: it flags what it changes and leaves the entry alone. */
  method WriteFile(v: Volume, fv: Vnode, offset: nat, data: seq<byte>, append: bool, now: Timespec,
                   ghost slots: seq<Slot>, ghost main: Slot)
    returns (err: Errno, done: nat)
    requires HasEntry(v, fv, slots, main) && Fits(v, fv)
    modifies v, v.disk, fv`cluster, fv`size, fv`mtime, fv`flags, fv.cache
    ensures Flagged(old(MetaOf(fv)), MetaOf(fv))
    ensures HasEntry(v, fv, slots, main) && (old(Exact(v)) ==> Exact(v))
    ensures done <= |data| && (err == OK || err == EISDIR || err == ENOSPC || err == EIO)
    ensures (err == EISDIR <==> fv.vtype != VREG) && (err != EISDIR ==> (err == OK <==> done == |data|))
    ensures Fits(v, fv) ==>
              WrittenAt(old(FileBytes(v, fv)), FileBytes(v, fv), if append then old(fv.size) else offset, data[..done])
    ensures WriteNoted(old(MetaOf(fv)), MetaOf(fv), fv.vtype, if append then old(fv.size) else offset, done, now)
    ensures Extended(old(Now(v)), Now(v), old(fv.cluster), fv.cluster, v.g.bytesPerCluster,
                     Landing(v.g, if append then old(fv.size) else offset) + |data|, err)
    ensures (err == ENOSPC && old(Exact(v)) && v.intact ==> FreeCount(v.fat) == 0) && (err == EIO ==> !v.intact)
    ensures Fits(v, fv) <==> append || StaysInside(v.g, offset, done)
    ensures append || offset <= old(fv.size) ==>
              && Fits(v, fv)
              && FileBytes(v, fv) == Overwrite(old(FileBytes(v, fv)), if append then old(fv.size) else offset, data[..done])
    ensures |v.data| == |old(v.data)| && OthersKept(old(Now(v)), Now(v), old(fv.cluster))
    ensures HeadMoved(old(v.chains), old(fv.cluster), fv.cluster)
    ensures old(fv.cluster) in old(v.chains) ==> fv.cluster == old(fv.cluster) && fv.cluster in v.chains
    ensures |ChainOf(old(v.chains), old(fv.cluster))| <= |ChainOf(v.chains, fv.cluster)|
  {
    hide DeviceHolds, Consistent, WellFormed, Mul, Laid, Exact, OthersKept, FileBytes, Written, Overwrite, FreeCount, Holds, Addressable,
         CacheSound, Landing, WrittenAt, WriteNoted, Flagged, Extended;
    ghost var s, parent, h, m := Now(v), ParentOf(v.g, fv.parentCluster), fv.cluster, MetaOf(fv);
    LaidChain(s, parent, PerCluster(v.g), slots);
    ZeroIsNoChain(v.fat, v.chains);
    err, done := Write(v, fv, offset, data, append, now);
    EntryKept(v, s, h, parent, slots);
    WriteNotes(m, MetaOf(fv), fv.vtype, if append then m.size else offset, done, now);
  }

  /** After a change of attributes the file fits its chain, unless it was extended beyond 2^32 - 1
      clusters. */
  ghost predicate RoomAfter(v: Volume, fv: Vnode, err: Errno)
    reads v`chains, fv`cluster, fv`size, fv.cache
  {
    if err == OK then Fits(v, fv) <==> fv.size <= Mul(WORD - 1, v.g.bytesPerCluster) else Fits(v, fv)
  }

  /** The low 32 bits of the size fit the chain. */
  ghost predicate LowSizeFits(v: Volume, fv: Vnode)
    reads v`chains, fv`cluster, fv`size
  {
    fv.size % WORD <= Mul(|ChainOf(v.chains, fv.cluster)|, v.g.bytesPerCluster)
  }

  /** What fits has room for its low 32 bits too, and no chain has 2^32 clusters. */
  lemma FitsIsRoom(v: Volume, fv: Vnode)
    requires v.Valid() && WellFormed(v.fat, v.chains) && Fits(v, fv)
    ensures RoomAfter(v, fv, OK) && LowSizeFits(v, fv)
  {
    hide DeviceHolds, Consistent, WellFormed, Mul;
    var n := |ChainOf(v.chains, fv.cluster)|;
    if fv.cluster in v.chains {
      ChainBound(v.fat, v.chains, fv.cluster);
    }
    ClusterNumbersFit(v.g);
    MulMonotone(n, WORD - 1, v.g.bytesPerCluster);
    ModBelow(fv.size);
  }

  lemma ModBelow(n: nat)
    ensures n % WORD <= n
  {
  }

  /** What `fat32_truncate` says of size and flags. */
  lemma SizeNoted(g: Geometry, bytes: nat, m: Meta, m': Meta, err: Errno)
    requires Consistent(g) && m' == m.(size := m'.size, cluster := m'.cluster, flags := m'.flags)
    requires m'.size == if err != OK then m.size else if Needed(g, bytes) == 0 then 0 else bytes
    requires m'.flags == m.flags + (if err == OK then {SizeDirty, Modified} else {})
      + (if (err == OK && Needed(g, bytes) == 0) || m'.cluster != m.cluster then {ClusterDirty, Modified} else {})
    ensures Flagged(m, m') && (err == OK ==> Resized(g, Some(bytes), m, m')) && (err != OK ==> NotApplied(m, 0, m', 0))
    ensures forall f :: f in m'.flags ==> f in m.flags || f in {SizeDirty, ClusterDirty, Modified}
    ensures IsRoot in m'.flags ==> IsRoot in m.flags
  {
    hide Mul, Needed;
    if Needed(g, bytes) == 0 {
      NeededNone(g, bytes);
    }
  }

  /** What has become of FAT, count and hint when the size was set to `bytes`. */
  ghost predicate Resulted(g: Geometry, s: Snap, s': Snap, h: nat, h': nat, bytes: nat, err: Errno)
    requires g.bytesPerCluster > 0
  {
    TruncateOutcome(s, s', ChainOf(s.chains, h), ChainOf(s'.chains, h'), Needed(g, bytes), err)
  }

  /** What the clusters hold has no part in that. */
  lemma ResultedData(g: Geometry, s: Snap, s1: Snap, s': Snap, h: nat, h': nat, bytes: nat, err: Errno)
    requires g.bytesPerCluster > 0 && Resulted(g, s, s1, h, h', bytes, err) && s' == s1.(data := s'.data)
    ensures Resulted(g, s, s', h, h', bytes, err)
  {
    hide Needed, TruncateOutcome;
    OutcomeData(s, s1, s', ChainOf(s.chains, h), ChainOf(s1.chains, h'), Needed(g, bytes), err);
  }

  lemma OutcomeData(s: Snap, s1: Snap, s': Snap, chain: seq<nat>, chain': seq<nat>, n: nat, err: Errno)
    requires TruncateOutcome(s, s1, chain, chain', n, err) && s' == s1.(data := s'.data)
    ensures TruncateOutcome(s, s', chain, chain', n, err)
  {
    hide FreeCount, Gained, Released;
    if |chain'| >= |chain| {
      var ext :| Gained(s, s1, chain, chain', ext, err);
      GainedData(s, s1, s', chain, chain', ext, err);
    }
  }

  /** The part of `fat32_setattr` that changes the size. */
  method SetSize(v: Volume, fv: Vnode, bytes: nat, ghost slots: seq<Slot>) returns (err: Errno)
    requires Attached(v, fv) && OnDir(v, ParentOf(v.g, fv.parentCluster), slots) && fv.cluster != ParentOf(v.g, fv.parentCluster)
    modifies v, v.disk, fv`cluster, fv`size, fv`flags, fv.cache
    ensures v.Valid() && WellFormed(v.fat, v.chains) && Attached(v, fv) && (old(Exact(v)) ==> Exact(v))
    ensures OnDir(v, ParentOf(v.g, fv.parentCluster), slots) && Flagged(old(MetaOf(fv)), MetaOf(fv))
    ensures fv.cluster != ParentOf(v.g, fv.parentCluster) && (IsRoot in fv.flags ==> IsRoot in old(fv.flags))
    ensures |v.data| == |old(v.data)| && OthersKept(old(Now(v)), Now(v), old(fv.cluster))
    ensures HeadMoved(old(v.chains), old(fv.cluster), fv.cluster)
    ensures err != OK && old(fv.cluster) in old(v.chains) ==> fv.cluster == old(fv.cluster) && fv.cluster in v.chains
    ensures fv.vtype == VDIR ==> err == EISDIR && MetaOf(fv) == old(MetaOf(fv))
    ensures fv.vtype != VDIR ==> err == OK || err == ENOSPC || err == EIO
    ensures fv.vtype != VDIR && err == OK ==> fv.size == if Needed(v.g, bytes) == 0 then 0 else bytes
    ensures if fv.vtype == VDIR then Now(v) == old(Now(v)) else Resulted(v.g, old(Now(v)), Now(v), old(fv.cluster), fv.cluster, bytes, err)
    ensures err == OK ==> Resized(v.g, Some(bytes), old(MetaOf(fv)), MetaOf(fv))
    ensures err != OK ==> NotApplied(old(MetaOf(fv)), 0, MetaOf(fv), 0)
    ensures forall f :: f in fv.flags ==> f in old(fv.flags) || f in {SizeDirty, ClusterDirty, Modified}
    ensures (err == ENOSPC && old(Exact(v)) && v.intact ==> FreeCount(v.fat) == 0) && (err == EIO ==> !v.intact)
    ensures old(Fits(v, fv)) && Fits(v, fv) ==> SameStart(old(FileBytes(v, fv)), FileBytes(v, fv))
    ensures old(Fits(v, fv)) ==> RoomAfter(v, fv, err) && LowSizeFits(v, fv)
    ensures err != OK ==> |ChainOf(old(v.chains), old(fv.cluster))| <= |ChainOf(v.chains, fv.cluster)|
  {
    hide DeviceHolds, Consistent, WellFormed, Mul, Laid, Exact, OthersKept, TruncateOutcome, FreeCount, CacheSound, Needed, Backed,
         FileBytes, Flagged, Resized;
    ghost var s, parent, h, m, fits := Now(v), ParentOf(v.g, fv.parentCluster), fv.cluster, MetaOf(fv), Fits(v, fv);
    OthersKeptNow(s, h);
    if fits {
      BytesAre(v, fv);
    }
    if fv.vtype == VDIR {
      SizeAlone(v.g, m);
      if Fits(v, fv) {
        OnDirHolds(v, parent, slots);
        FitsIsRoom(v, fv);
      }
      return EISDIR;
    }
    LaidChain(s, parent, PerCluster(v.g), slots);
    ZeroIsNoChain(v.fat, v.chains);
    NoEmptyChain(v.fat, v.chains, h);
    err := Truncate(v, fv, bytes);
    ZeroIsNoChain(v.fat, v.chains);
    TruncateErrors(v.g, s, Now(v), h, fv.cluster, Needed(v.g, bytes), err);
    EntryKept(v, s, h, parent, slots);
    SizeNoted(v.g, bytes, m, MetaOf(fv), err);
    if fits && Fits(v, fv) {
      SizedBytes(v, fv, s, h, m.size);
    }
    if err != OK && Fits(v, fv) {
      FitsIsRoom(v, fv);
    }
  }

  /** The parts of `fat32_setattr` that change the mode and the times. */
  method SetModeAndTimes(fv: Vnode, a: Vattr)
    modifies fv`mode, fv`attr, fv`atime, fv`mtime, fv`ctime, fv`flags
    ensures Flagged(old(MetaOf(fv)), MetaOf(fv)) && Applied(a, old(MetaOf(fv)), old(fv.mode), MetaOf(fv), fv.mode)
    ensures fv.flags <= old(fv.flags) + {AttrDirty, AtimeDirty, MtimeDirty, CtimeDirty}
    ensures a.mode.Some? ==> (Bit(fv.attr, READ_ONLY) <==> a.mode.value / S_IWUSR % 2 == 0)
    ensures fv.attr / 2 == old(fv.attr) / 2 && (IsRoot in fv.flags ==> IsRoot in old(fv.flags))
  {
    if a.mode.Some? {
      SetMode(fv, a.mode.value);
    }
    SetTimes(fv, a);
  }

  /** The bytes of a file do not change when its directory does. */
  lemma BytesBeside(v: Volume, fv: Vnode, s: Snap, d: nat)
    requires v.Valid() && WellFormed(v.fat, v.chains) && Fits(v, fv) && fv.cluster != d && OnlyDir(s, Now(v), d)
    requires Backed(s, v.g.bytesPerCluster)
    ensures fv.size <= |ChainBytes(s, fv.cluster)| && FileBytes(v, fv) == ChainBytes(s, fv.cluster)[..fv.size]
  {
    hide WellFormed, Mul;
    BytesAre(v, fv);
    if fv.cluster in v.chains {
      OtherBytesKept(s, Now(v), d, fv.cluster, v.g.bytesPerCluster);
    }
  }

  lemma DataAlone(s: Snap, s': Snap, h: nat)
    requires OnlyDir(s, s', h)
    ensures s' == s.(data := s'.data)
  {
  }

  /** `fat32_sync_metadata` for a file with an entry. */
  method SyncMetadata(v: Volume, fv: Vnode, ghost slots: seq<Slot>, ghost main: Slot) returns (err: Errno)
    requires HasEntry(v, fv, slots, main)
    modifies v, v.disk, fv`flags
    ensures v.Valid() && WellFormed(v.fat, v.chains) && Attached(v, fv) && (old(Exact(v)) ==> Exact(v))
    ensures err == OK && MetaOf(fv) == old(MetaOf(fv)).(flags := old(fv.flags) - DIRTY)
    ensures OnDir(v, ParentOf(v.g, fv.parentCluster),
                  slots[fv.diroff / SLOT + fv.dirsz - 1 := UpdatedSlot(main, old(MetaOf(fv)))])
    ensures OnlyDir(old(Now(v)), Now(v), ParentOf(v.g, fv.parentCluster)) && Now(v) == old(Now(v)).(data := v.data)
    ensures Fits(v, fv) ==> old(Fits(v, fv)) && FileBytes(v, fv) == old(FileBytes(v, fv))
  {
    hide DeviceHolds, Consistent, WellFormed, Mul, Laid, Exact, OthersKept, CacheSound, UpdatedSlot, FileBytes;
    ghost var s, parent := Now(v), ParentOf(v.g, fv.parentCluster);
    SlotsSame(slots, fv.diroff / SLOT + fv.dirsz - 1, main, MetaOf(fv));
    OthersKeptNow(s, parent);
    SoundIsBacked(v);
    if Fits(v, fv) {
      BytesAre(v, fv);
    }
    err := UpdateFdentry(v, fv, slots);
    DataAlone(s, Now(v), parent);
    if Fits(v, fv) {
      BytesBeside(v, fv, s, parent);
    }
  }

  /** Setting the size first does not get in the way of the rest. */
  lemma AppliedAfter(g: Geometry, a: Vattr, m: Meta, m1: Meta, mode: nat, m2: Meta, mode2: nat)
    requires m1 == m.(size := m1.size, cluster := m1.cluster, flags := m1.flags) && Resized(g, a.size, m, m1) && Flagged(m, m1)
    requires forall f :: f in m1.flags ==> f in m.flags || f in {SizeDirty, ClusterDirty, Modified}
    requires m2 == m1.(attr := m2.attr, atime := m2.atime, mtime := m2.mtime, ctime := m2.ctime, flags := m2.flags)
    requires Applied(a, m1, mode, m2, mode2) && Flagged(m1, m2)
    requires m2.flags <= m1.flags + {AttrDirty, AtimeDirty, MtimeDirty, CtimeDirty}
    ensures Applied(a, m, mode, m2, mode2) && Resized(g, a.size, m, m2) && Flagged(m, m2)
  {
    hide Mul;
  }

  /** The changes of `fat32_setattr`: size, then mode, then times. */
  method EditAttributes(v: Volume, fv: Vnode, a: Vattr, ghost slots: seq<Slot>) returns (err: Errno)
    requires Attached(v, fv) && OnDir(v, ParentOf(v.g, fv.parentCluster), slots) && fv.cluster != ParentOf(v.g, fv.parentCluster)
    modifies v, v.disk, fv`cluster, fv`size, fv`mode, fv`attr, fv`atime, fv`mtime, fv`ctime, fv`flags, fv.cache
    ensures v.Valid() && WellFormed(v.fat, v.chains) && Attached(v, fv) && (old(Exact(v)) ==> Exact(v))
    ensures OnDir(v, ParentOf(v.g, fv.parentCluster), slots) && Flagged(old(MetaOf(fv)), MetaOf(fv))
    ensures fv.cluster != ParentOf(v.g, fv.parentCluster) && (IsRoot in fv.flags ==> IsRoot in old(fv.flags))
    ensures |v.data| == |old(v.data)| && OthersKept(old(Now(v)), Now(v), old(fv.cluster))
    ensures HeadMoved(old(v.chains), old(fv.cluster), fv.cluster)
    ensures err != OK && old(fv.cluster) in old(v.chains) ==> fv.cluster == old(fv.cluster) && fv.cluster in v.chains
    ensures err == EISDIR <==> a.size.Some? && fv.vtype == VDIR
    ensures err == OK || err == EISDIR || err == ENOSPC || err == EIO
    ensures err == OK && a.mode.Some? ==> (Bit(fv.attr, READ_ONLY) <==> a.mode.value / S_IWUSR % 2 == 0)
    ensures fv.attr / 2 == old(fv.attr) / 2
    ensures a.size.None? || fv.vtype == VDIR ==> fv.cluster == old(fv.cluster) && fv.size == old(fv.size) && Now(v) == old(Now(v))
    ensures a.size.Some? && fv.vtype != VDIR ==> Resulted(v.g, old(Now(v)), Now(v), old(fv.cluster), fv.cluster, a.size.value, err)
    ensures err == OK && a.size.Some? ==> fv.size == if Needed(v.g, a.size.value) == 0 then 0 else a.size.value
    ensures err == OK ==>
              Applied(a, old(MetaOf(fv)), old(fv.mode), MetaOf(fv), fv.mode) && Resized(v.g, a.size, old(MetaOf(fv)), MetaOf(fv))
    ensures err != OK ==> NotApplied(old(MetaOf(fv)), old(fv.mode), MetaOf(fv), fv.mode)
    ensures (err == ENOSPC && old(Exact(v)) && v.intact ==> FreeCount(v.fat) == 0) && (err == EIO ==> !v.intact)
    ensures old(Fits(v, fv)) && Fits(v, fv) ==> SameStart(old(FileBytes(v, fv)), FileBytes(v, fv))
    ensures old(Fits(v, fv)) ==> RoomAfter(v, fv, err) && LowSizeFits(v, fv)
    ensures err != OK ==> |ChainOf(old(v.chains), old(fv.cluster))| <= |ChainOf(v.chains, fv.cluster)|
  {
    hide DeviceHolds, Consistent, WellFormed, Laid, Exact, CacheSound, Needed, Bit, OthersKept, OnDir, Attached, FileBytes, Mul,
         Applied, Resized, Flagged, Fits, RoomAfter, LowSizeFits, FreeCount, Resulted;
    OnDirHolds(v, ParentOf(v.g, fv.parentCluster), slots);
    OthersKeptNow(Now(v), fv.cluster);
    err := OK;
    ghost var m, mode := MetaOf(fv), fv.mode;
    if Fits(v, fv) {
      FitsIsRoom(v, fv);
      BytesAre(v, fv);
    }
    if a.size.Some? {
      err := SetSize(v, fv, a.size.value, slots);
      if err != OK {
        return;
      }
    } else {
      SizeAlone(v.g, m);
    }
    ghost var m1 := MetaOf(fv);
    SetModeAndTimes(fv, a);
    AppliedAfter(v.g, a, m, m1, mode, MetaOf(fv), fv.mode);
  }

  lemma SizeAlone(g: Geometry, m: Meta)
    ensures Resized(g, None, m, m) && Flagged(m, m)
  {
  }

  /** The entry holds the times that were asked for. */
  predicate TimesHeld(a: Vattr, u: Slot) {
    && (a.atime.Some? ==> AccessIs(u, a.atime.value))
    && (a.mtime.Some? ==> WriteIs(u, a.mtime.value))
    && (a.ctime.Some? ==> CreationIs(u, a.ctime.value))
  }

  lemma TimesAreHeld(a: Vattr, m0: Meta, mode: nat, m: Meta, mode': nat, main: Slot)
    requires Applied(a, m0, mode, m, mode')
    ensures TimesHeld(a, UpdatedSlot(main, m))
  {
    hide UpdatedSlot, UnixToFat, Rle16, FileSize, FirstCluster, ShortName;
    UpdatedMeans(main, m);
  }

  /** `fat32_setattr` without ownership: the changes, then the sync.  `m` is what the file holds in
      memory before the sync. */
  method Setattr(v: Volume, fv: Vnode, a: Vattr, ghost slots: seq<Slot>, ghost main: Slot)
    returns (err: Errno, ghost m: Meta)
    requires HasEntry(v, fv, slots, main)
    modifies v, v.disk, fv`cluster, fv`size, fv`mode, fv`attr, fv`atime, fv`mtime, fv`ctime, fv`flags, fv.cache
    ensures v.Valid() && WellFormed(v.fat, v.chains) && Attached(v, fv)
    ensures Flagged(old(MetaOf(fv)), m) && (old(Exact(v)) ==> Exact(v))
    ensures err == EISDIR <==> a.size.Some? && fv.vtype == VDIR
    ensures err == OK || err == EISDIR || err == ENOSPC || err == EIO
    ensures err != OK ==> MetaOf(fv) == m && OnDir(v, ParentOf(v.g, fv.parentCluster), slots)
    ensures err == OK ==>
              && MetaOf(fv) == m.(flags := m.flags - DIRTY) && IsRoot !in m.flags
              && OnDir(v, ParentOf(v.g, fv.parentCluster),
                       slots[fv.diroff / SLOT + fv.dirsz - 1 := UpdatedSlot(main, m)])
              && TimesHeld(a, UpdatedSlot(main, m))
    ensures err == OK && a.mode.Some? ==> (Bit(m.attr, READ_ONLY) <==> a.mode.value / S_IWUSR % 2 == 0)
    ensures err == OK && a.size.Some? ==> m.size == if Needed(v.g, a.size.value) == 0 then 0 else a.size.value
    ensures err == OK ==> Applied(a, old(MetaOf(fv)), old(fv.mode), m, fv.mode) && Resized(v.g, a.size, old(MetaOf(fv)), m)
    ensures a.size.None? || fv.vtype == VDIR ==> fv.cluster == old(fv.cluster) && Now(v) == old(Now(v)).(data := v.data)
    ensures a.size.Some? && fv.vtype != VDIR ==> Resulted(v.g, old(Now(v)), Now(v), old(fv.cluster), fv.cluster, a.size.value, err)
    ensures err != OK ==> NotApplied(old(MetaOf(fv)), old(fv.mode), m, fv.mode)
    ensures (err == ENOSPC && old(Exact(v)) && v.intact ==> FreeCount(v.fat) == 0) && (err == EIO ==> !v.intact)
    ensures old(Fits(v, fv)) && Fits(v, fv) ==> SameStart(old(FileBytes(v, fv)), FileBytes(v, fv))
    ensures m.attr / 2 == old(fv.attr) / 2
    ensures KeptBut(old(Now(v)), Now(v), old(fv.cluster), ParentOf(v.g, fv.parentCluster))
    ensures err != OK ==> |v.data| == |old(v.data)| && OthersKept(old(Now(v)), Now(v), old(fv.cluster)) && IsRoot !in fv.flags
    ensures HeadMoved(old(v.chains), old(fv.cluster), fv.cluster)
    ensures err != OK && old(fv.cluster) in old(v.chains) ==> fv.cluster == old(fv.cluster) && fv.cluster in v.chains
    ensures old(Fits(v, fv)) ==> RoomAfter(v, fv, err) && LowSizeFits(v, fv)
    ensures err != OK ==> |ChainOf(old(v.chains), old(fv.cluster))| <= |ChainOf(v.chains, fv.cluster)|
  {
    hide DeviceHolds, Consistent, WellFormed, Laid, Exact, CacheSound, UpdatedSlot, Needed, Bit, OthersKept, KeptBut, OnlyDir, OnDir,
         Attached, HeadMoved, Flagged, Applied, Resized, SameStart, FileBytes, Mul, Fits, TimesHeld, FreeCount, Resulted,
         NotApplied, RoomAfter, LowSizeFits, ShortName, Backed;
    ghost var s, h, parent := Now(v), fv.cluster, ParentOf(v.g, fv.parentCluster);
    ghost var m0, mode0 := MetaOf(fv), fv.mode;
    err := EditAttributes(v, fv, a, slots);
    ghost var s1 := Now(v);
    m := MetaOf(fv);
    KeptOne(s, s1, h, parent);
    if err != OK {
      return;
    }
    TimesAreHeld(a, m0, mode0, m, fv.mode, main);
    err := SyncMetadata(v, fv, slots, main);
    KeptBoth(s, s1, Now(v), h, parent);
    SizePositive(v.g);
    if a.size.Some? && fv.vtype != VDIR {
      ResultedData(v.g, s, s1, Now(v), h, fv.cluster, a.size.value, err);
    }
  }

  lemma OnDirHolds(v: Volume, h: nat, slots: seq<Slot>)
    requires OnDir(v, h, slots)
    ensures v.Valid() && WellFormed(v.fat, v.chains) && h in v.chains
  {
    hide DeviceHolds, Consistent, WellFormed, Laid;
    LaidChain(Now(v), h, PerCluster(v.g), slots);
  }

  lemma TruncateErrors(g: Geometry, s: Snap, s': Snap, h: nat, h': nat, n: nat, err: Errno)
    requires TruncateOutcome(s, s', ChainOf(s.chains, h), ChainOf(s'.chains, h'), n, err)
    ensures err == OK || err == ENOSPC || err == EIO
    ensures err != OK ==> |ChainOf(s.chains, h)| <= |ChainOf(s'.chains, h')|
    ensures OneExtendsOther(ChainOf(s.chains, h), ChainOf(s'.chains, h')) && (err == EIO ==> !s'.intact)
  {
    hide FreeCount;
  }

  lemma NoEmptyChain(fat: seq<nat>, chains: Forest, h: nat)
    requires WellFormed(fat, chains)
    ensures h in chains ==> |ChainOf(chains, h)| > 0 && h != 0
  {
    hide WellFormed;
    if h in chains {
      ForestChain(fat, chains, h);
    }
  }

  /** When nothing is dirty the slot would be written back unchanged. */
  lemma SlotsSame(slots: seq<Slot>, k: nat, main: Slot, m: Meta)
    requires k < |slots| && slots[k] == main
    ensures m.flags * DIRTY == {} ==> slots[k := UpdatedSlot(main, m)] == slots
  {
    hide Put, Wle16, Wle32;
    if m.flags * DIRTY == {} {
      NothingDirty(m.flags);
      assert forall f :: f in DIRTY ==> f !in m.flags;
      NoPuts(main, m);
    }
  }

  lemma NoPuts(s: Slot, m: Meta)
    requires forall f :: f in DIRTY ==> f !in m.flags
    ensures UpdatedSlot(s, m) == s
  {
    hide Wle16, Wle32, DateOf, ClockOf, TenthsOf;
    assert AtimeDirty in DIRTY && MtimeDirty in DIRTY && CtimeDirty in DIRTY;
    assert AttrDirty in DIRTY && SizeDirty in DIRTY && ClusterDirty in DIRTY;
  }

  /** A new directory keeps the attribute byte 0 in memory: setting its mode before it is looked up
      again leaves its entry that of a directory exactly if the mode has write permission. */
  lemma ChmodOfNewDirectory(g: Geometry, fv: Vnode, main: Slot, slots: seq<Slot>, name: seq<byte>, mode0: nat, dirCluster: nat, mode: nat)
    requires NewVnode(g, fv, main, slots, name, true, mode0, dirCluster)
    ensures Bit(Attr(main), DIRECTORY)
    ensures Bit(Attr(UpdatedSlot(main, ModeSet(MetaOf(fv), mode))), DIRECTORY) <==> mode / S_IWUSR % 2 == 1
  {
    hide UpdatedSlot, FileSize, FirstCluster, FreeRun, SlotCount, ShortName;
    UpdatedFields(main, ModeSet(MetaOf(fv), mode));
  }
}
