/** Searching a directory in place: `fat32_find_dirent`, `fat32_dirempty` and
    `fat32_check_dir_integrity`, each against its specification on the slots. */
module Lookups {
  import opened Bytes
  import opened Layout
  import opened Volumes
  import opened Chains
  import opened Clusters
  import opened Contents
  import opened Vnodes
  import opened ReadWrite
  import opened Slots
  import opened SlotBytes
  import opened Listings
  import opened DirectoryMap
  import opened Integrity
  import opened DirReading

  // ---- finding a name ----

  /** `fat32_vnode_reset`. */
  method ResetVnode(fv: Vnode)
    modifies fv
    ensures fv.cluster == fv.parentCluster == 0x0FFF_FFF7 && fv.vtype == VNON && fv.flags == {}
    ensures fv.size == fv.mode == fv.diroff == fv.dirsz == 0 && fv.attr == 0
    ensures fv.atime == fv.mtime == fv.ctime == Timespec(0, 0)
  {
    fv.cluster, fv.parentCluster := BAD, BAD;
    fv.vtype, fv.mode, fv.size, fv.attr, fv.diroff, fv.dirsz, fv.flags := VNON, 0, 0, 0, 0, 0, {};
    fv.atime, fv.mtime, fv.ctime := Timespec(0, 0), Timespec(0, 0), Timespec(0, 0);
  }

  /** The part of a name that the driver compares: at most 255 bytes. */
  function Key(name: seq<byte>): seq<byte> {
    if |name| < NAME_BUFFER then name else name[..NAME_BUFFER - 1]
  }

  lemma KeyMeans(name: seq<byte>)
    ensures |name| <= 255 ==> Key(name) == name
    ensures |name| > 255 ==> Key(name) == name[..255]
  {
  }

  /** The comparison loop of `fat32_find_dirent`. */
  method Compare(name: seq<byte>, dname: array<byte>, size: nat) returns (same: bool)
    requires size <= dname.Length
    ensures same == SameName(name, dname[..size])
  {
    if size != |name| {
      return false;
    }
    var i := 0;
    while i < |name|
      invariant 0 <= i <= |name|
      invariant forall j :: 0 <= j < i ==> Upper(name[j]) == Upper(dname[..size][j])
    {
      if Upper(name[i]) != Upper(dname[i]) {
        return false;
      }
      i := i + 1;
    }
    same := true;
  }

  /** What one report of `fat32_get_dirent` says about the listing. */
  lemma ListingStep(slots: seq<Slot>, k: nat, stale: seq<byte>, before: seq<byte>, after: seq<byte>, err: Errno,
                    next: nat, size: nat, start: nat, count: nat, main: Slot)
    requires |stale| == NAME_BUFFER && before == stale[0 := 0]
    requires Reported(slots, k, before, after, err, next, size, start, count, main)
    ensures |after| == NAME_BUFFER && (err == OK || err == ENOENT)
    ensures err == ENOENT ==> Listing(slots, k, stale) == []
    ensures err == OK ==>
              && size <= NAME_BUFFER && k < next / SLOT <= |slots| && next % SLOT == 0 && next <= SLOT * |slots|
              && Listing(slots, k, stale) == [Dirent(after[..size], start, count, main)] + Listing(slots, next / SLOT, after)
  {
    hide Scan, Listing, Text;
    ListingOnce(slots, k, stale);
    ScanAhead(slots, k, before);
    if err == OK {
      var r := Scan(slots, k, Begin(before));
      assert Text(r.name) == after[..size] by {
        TextIs(r.name);
      }
    }
  }

  lemma TextIs(st: NameState)
    requires st.size <= NAME_BUFFER
    ensures Text(st) == st.buf[..st.size]
  {
  }

  lemma ScanAhead(slots: seq<Slot>, k: nat, buf: NameBuffer)
    ensures var r := Scan(slots, k, Begin(buf)); r.Entry? ==> k <= r.at < |slots| && r.name.size <= NAME_BUFFER
  {
    hide Scan;
  }

  lemma ListingOnce(slots: seq<Slot>, k: nat, buf: NameBuffer)
    ensures Listing(slots, k, buf)
         == match Scan(slots, k, Begin(buf[0 := 0]))
            case End => []
            case Entry(name, start, at) =>
              [Dirent(Text(name), start, if at < start then 0 else at - start + 1, slots[at])] + Listing(slots, at + 1, name.buf)
  {
    hide Scan, Text;
  }

  /** The listing is what was looked at, then what is still to come. */
  ghost predicate Seen(slots: seq<Slot>, junk: seq<byte>, key: seq<byte>, seen: seq<Dirent>, k: nat, buf: seq<byte>) {
    && |junk| == |buf| == NAME_BUFFER
    && Listing(slots, 0, junk) == seen + Listing(slots, k, buf) && Absent(seen, key)
  }

  lemma SeenMore(slots: seq<Slot>, junk: seq<byte>, key: seq<byte>, seen: seq<Dirent>, k: nat, stale: seq<byte>,
                 e: Dirent, k': nat, buf: seq<byte>)
    requires Seen(slots, junk, key, seen, k, stale) && |buf| == NAME_BUFFER
    requires Listing(slots, k, stale) == [e] + Listing(slots, k', buf)
    ensures !SameName(key, e.name) ==> Seen(slots, junk, key, seen + [e], k', buf)
    ensures SameName(key, e.name) ==> FoundAt(Listing(slots, 0, junk), key, |seen|) && Listing(slots, 0, junk)[|seen|] == e
  {
    hide Listing, SameName;
    assert seen + ([e] + Listing(slots, k', buf)) == seen + [e] + Listing(slots, k', buf);
  }

  lemma FoundListed(es: seq<Dirent>, key: seq<byte>, j: nat)
    requires FoundAt(es, key, j)
    ensures j < |es| && Listed(es, key) && Recased(key, es[j].name)
  {
    hide SameName, Recased;
    ListedExact(es, key);
  }

  lemma SeenNothing(slots: seq<Slot>, junk: seq<byte>, key: seq<byte>)
    requires |junk| == NAME_BUFFER
    ensures Seen(slots, junk, key, [], 0, junk)
  {
    hide Listing, SameName;
    assert Listing(slots, 0, junk) == [] + Listing(slots, 0, junk);
  }

  lemma SeenAll(slots: seq<Slot>, junk: seq<byte>, key: seq<byte>, seen: seq<Dirent>, k: nat, buf: seq<byte>)
    requires Seen(slots, junk, key, seen, k, buf) && Listing(slots, k, buf) == []
    ensures Absent(Listing(slots, 0, junk), key)
  {
    hide Listing, SameName;
    assert seen + [] == seen;
  }

  /** The answer of `fat32_find_dirent` for a listing. */
  ghost predicate Answer(es: seq<Dirent>, key: seq<byte>, err: Errno, j: nat) {
    match err
    case OK => FoundAt(es, key, j)
    case ENOENT => Absent(es, key)
    case _ => false
  }

  /** `fat32_find_dirent`.  `junk` is what the name buffer held at the start, and `j` the number of
      the entry found. */
  method FindDirent(v: Volume, dir: Vnode, name: seq<byte>, entry: Vnode)
    returns (err: Errno, ghost junk: seq<byte>, ghost j: nat)
    requires dir.vtype == VDIR ==> DirReady(v, dir)
    requires entry != dir
    modifies v, v.disk, dir.cache, entry
    ensures |junk| == NAME_BUFFER
    ensures dir.vtype != VDIR ==> err == ENOTDIR
    ensures Now(v) == old(Now(v)) && (old(Exact(v)) ==> Exact(v))
    ensures dir.vtype == VDIR ==> DirReady(v, dir) && SlotsOf(v, dir) == old(SlotsOf(v, dir))
    ensures dir.vtype == VDIR ==> Answer(Listing(SlotsOf(v, dir), 0, junk), Key(name), err, j)
    ensures dir.vtype == VDIR ==> (err == OK <==> Listed(Listing(SlotsOf(v, dir), 0, junk), Key(name)))
    ensures dir.vtype == VDIR && err == OK ==> Recased(Key(name), Listing(SlotsOf(v, dir), 0, junk)[j].name)
    ensures err == ENOENT ==> entry.flags == {} && entry.size == 0 && entry.attr == 0
    ensures err == OK && dir.vtype == VDIR ==>
              var e := Listing(SlotsOf(v, dir), 0, junk)[j];
              Filled(entry, e.main, e.start, e.count, dir.cluster) && entry.flags == {}
  {
    hide Mul, Listing, SlotsOf, Reported, SameName, Filled, Exact, DirReady, Seen, Absent, FoundAt, Listed, Recased;
    var dname := new byte[NAME_BUFFER];
    junk, j := dname[..], 0;
    if dir.vtype != VDIR {
      return ENOTDIR, junk, j;
    }
    var key := Key(name);
    ghost var slots := SlotsOf(v, dir);
    ghost var seen: seq<Dirent> := [];
    SlotsBelowWord(v, dir);
    SeenNothing(slots, junk, key);
    var offset := 0;
    while true
      invariant DirReady(v, dir) && SlotsOf(v, dir) == slots && Now(v) == old(Now(v)) && (old(Exact(v)) ==> Exact(v))
      invariant offset % SLOT == 0 && offset <= SLOT * |slots|
      invariant Seen(slots, junk, key, seen, offset / SLOT, dname[..])
      decreases |slots| - offset / SLOT
    {
      ghost var stale, k := dname[..], offset / SLOT;
      dname[0] := 0;
      ResetVnode(entry);
      ghost var before := dname[..];
      var next, size, start, count, main;
      err, next, size, start, count, main := GetDirent(v, dir, offset, dname);
      ListingStep(slots, k, stale, before, dname[..], err, next, size, start, count, main);
      if err != OK {
        SeenAll(slots, junk, key, seen, k, stale);
        ListedExact(Listing(slots, 0, junk), key);
        return ENOENT, junk, j;
      }
      FillVnode(entry, main, start, count, dir.cluster);
      offset := next;
      SeenMore(slots, junk, key, seen, k, stale, Dirent(dname[..size], start, count, main), next / SLOT, dname[..]);
      var same := Compare(key, dname, size);
      if same {
        j := |seen|;
        FoundListed(Listing(slots, 0, junk), key, j);
        return OK, junk, j;
      }
      seen := seen + [Dirent(dname[..size], start, count, main)];
    }
  }

  lemma SlotsBelowWord(v: Volume, dir: Vnode)
    requires DirReady(v, dir)
    ensures SLOT * |SlotsOf(v, dir)| < WORD
  {
    hide Mul, WellFormed, DeviceHolds, Backed, DirSlots;
    SlotsOfSize(v, dir);
  }

  /** On a well-formed directory the answer does not depend on the left-over bytes. */
  lemma AnswerOfDir(slots: seq<Slot>, junk: seq<byte>)
    requires DirOk(slots) && |junk| == NAME_BUFFER
    ensures Listing(slots, 0, junk) == ListOf(slots)
  {
    hide Listing, Entries, ItemOk, Flat, ListOf;
    var items, tail :| IsDir(slots, items, tail);
    ListOfDir(slots, items, tail);
    assert slots[0..] == slots;
    ListingIsEntries(slots, 0, items, tail, junk);
  }

  // ---- one cluster at a time ----

  /** `buf` holds the slots from number `base` on. */
  ghost predicate Window(buf: seq<byte>, slots: seq<Slot>, base: nat) {
    && |buf| % SLOT == 0 && base + |buf| / SLOT <= |slots|
    && forall j :: 0 <= j < |buf| / SLOT ==> slots[base + j] == BufferSlot(buf, j)
  }

  /** The slots of cluster `current`, read into a buffer. */
  method ReadWindow(v: Volume, ghost h: nat, ghost i: nat, current: nat, ghost slots: seq<Slot>)
    returns (buf: seq<byte>)
    requires v.Valid() && WellFormed(v.fat, v.chains) && At(v.chains, h, i, current)
    requires v.g.bytesPerCluster == SLOT * PerCluster(v.g) && Laid(Now(v), h, PerCluster(v.g), slots)
    ensures |buf| == SLOT * PerCluster(v.g) && Window(buf, slots, Mul(i, PerCluster(v.g)))
  {
    hide DeviceHolds, Consistent, WellFormed, Mul, Laid;
    ChainEntryInRange(v, h, i);
    buf := v.ReadCluster(current);
    ClusterSlots(Now(v), h, i, PerCluster(v.g), slots);
  }

  // ---- emptiness ----

  /** The inner loop of `fat32_dirempty`: whether the cluster settles the answer, and the answer. */
  method EmptyCluster(buf: seq<byte>, ghost slots: seq<Slot>, ghost base: nat) returns (settled: bool, empty: bool)
    requires Window(buf, slots, base)
    ensures settled ==> empty == EmptyFrom(slots, base)
    ensures !settled ==> EmptyFrom(slots, base) == EmptyFrom(slots, base + |buf| / SLOT)
  {
    ghost var j := 0;
    var offset := 0;
    while offset < |buf|
      invariant offset == SLOT * j && j <= |buf| / SLOT
      invariant EmptyFrom(slots, base) == EmptyFrom(slots, base + j)
      decreases |buf| / SLOT - j
    {
      var s: Slot := buf[offset..offset + SLOT];
      assert slots[base + j] == BufferSlot(buf, j) == s;
      if s[0] == 0 {
        return true, true;
      }
      if s[0] == DELETED || Bit(Attr(s), VOLUME_ID) {
      } else if Attr(s) == LFN_ATTR {
        return true, false;
      } else if s[0] != DOT {
        return true, false;
      }
      offset := offset + SLOT;
      j := j + 1;
    }
    settled, empty := false, false;
  }

  /** `fat32_dirempty`. */
  method DirEmpty(v: Volume, dir: Vnode, ghost slots: seq<Slot>) returns (err: Errno)
    requires dir.vtype == VDIR && dir.cluster != 0 ==> OnDir(v, dir.cluster, slots)
    modifies v, v.disk
    ensures Now(v) == old(Now(v)) && (old(Exact(v)) ==> Exact(v)) && (old(v.Valid()) ==> v.Valid())
    ensures dir.vtype != VDIR ==> err == ENOTDIR
    ensures dir.vtype == VDIR && dir.cluster == 0 ==> err == OK
    ensures dir.vtype == VDIR && dir.cluster != 0 ==> err == if EmptyFrom(slots, 0) then OK else ENOTEMPTY
  {
    hide DeviceHolds, Consistent, WellFormed, Mul, Exact, EmptyFrom, Laid;
    if dir.vtype != VDIR {
      return ENOTDIR;
    }
    if dir.cluster == 0 {
      return OK;
    }
    ghost var h, p, i := dir.cluster, PerCluster(v.g), 0;
    LaidChain(Now(v), h, p, slots);
    ForestChain(v.fat, v.chains, h);
    MulSucc(0, p);
    var current := dir.cluster;
    while true
      invariant v.Valid() && Now(v) == old(Now(v)) && (old(Exact(v)) ==> Exact(v))
      invariant At(v.chains, h, i, current) && EmptyFrom(slots, 0) == EmptyFrom(slots, Mul(i, p))
      decreases |v.chains[h]| - i
    {
      var buf := ReadWindow(v, h, i, current, slots);
      var settled, empty := EmptyCluster(buf, slots, Mul(i, p));
      MulSucc(i, p);
      if !settled {
        err, current := NextOrEnd(v, h, i, current);
        BeyondLast(Now(v), h, p, slots, i + 1);
        EmptyBeyond(slots, Mul(i + 1, p));
        i := i + 1;
        settled, empty := err != OK, true;
      }
      if settled {
        return if empty then OK else ENOTEMPTY;
      }
    }
  }

  lemma EmptyBeyond(slots: seq<Slot>, k: nat)
    ensures k >= |slots| ==> EmptyFrom(slots, k)
  {
  }

  // ---- the integrity check ----

  /** The variables that `fat32_check_dir_integrity` carries from slot to slot. */
  datatype Checker = Checker(inGroup: bool, seqNo: nat, checksum: byte)

  ghost predicate CheckFrom(slots: seq<Slot>, k: nat, c: Checker) {
    Check(slots, k, c.inGroup, c.seqNo, c.checksum)
  }

  /** The inner loop of `fat32_check_dir_integrity`. */
  method CheckCluster(buf: seq<byte>, c0: Checker, ghost slots: seq<Slot>, ghost base: nat)
    returns (settled: bool, passed: bool, c: Checker)
    requires Window(buf, slots, base)
    ensures settled ==> passed == CheckFrom(slots, base, c0)
    ensures !settled ==> CheckFrom(slots, base, c0) == CheckFrom(slots, base + |buf| / SLOT, c)
  {
    hide Checksum, Sequence, IsLast, LfnChecksum, DirectorySizeZero, Bit;
    ghost var j := 0;
    var offset := 0;
    c := c0;
    while offset < |buf|
      invariant offset == SLOT * j && j <= |buf| / SLOT
      invariant CheckFrom(slots, base, c0) == CheckFrom(slots, base + j, c)
      decreases |buf| / SLOT - j
    {
      var s: Slot := buf[offset..offset + SLOT];
      assert slots[base + j] == BufferSlot(buf, j) == s;
      if s[0] == 0 {
        return true, !c.inGroup, c;
      }
      if s[0] == DELETED {
        if c.inGroup {
          return true, false, c;
        }
      } else if Attr(s) == LFN_ATTR {
        if IsLast(s) {
          if c.inGroup {
            return true, false, c;
          }
          c := Checker(true, Sequence(s), LfnChecksum(s));
        } else if !c.inGroup {
          return true, false, c;
        }
        if Sequence(s) != c.seqNo || LfnChecksum(s) != c.checksum {
          return true, false, c;
        }
        c := c.(seqNo := (c.seqNo + 255) % 256);
      } else if Bit(Attr(s), VOLUME_ID) {
        if c.inGroup {
          return true, false, c;
        }
      } else {
        if c.inGroup {
          if c.seqNo != 0 {
            return true, false, c;
          }
          var sum := ComputeChecksum(ShortName(s));
          if sum != c.checksum {
            return true, false, c;
          }
          c := c.(inGroup := false);
        }
        if !DirectorySizeZero(s) {
          return true, false, c;
        }
      }
      offset := offset + SLOT;
      j := j + 1;
    }
    settled, passed := false, false;
  }

  /** `fat32_check_dir_integrity`. */
  method CheckDirIntegrity(v: Volume, dir: Vnode, ghost slots: seq<Slot>) returns (err: Errno)
    requires dir.vtype == VDIR && dir.cluster != 0 ==> OnDir(v, dir.cluster, slots)
    modifies v, v.disk
    ensures Now(v) == old(Now(v)) && (old(Exact(v)) ==> Exact(v)) && (old(v.Valid()) ==> v.Valid())
    ensures dir.vtype != VDIR ==> err == ENOTDIR
    ensures dir.vtype == VDIR && dir.cluster == 0 ==> err == OK
    ensures dir.vtype == VDIR && dir.cluster != 0 ==> err == if Check(slots, 0, false, 0, 0) then OK else EINVAL
  {
    hide DeviceHolds, Consistent, WellFormed, Mul, Exact, Check, Laid;
    if dir.vtype != VDIR {
      return ENOTDIR;
    }
    if dir.cluster == 0 {
      return OK;
    }
    ghost var h, p, i := dir.cluster, PerCluster(v.g), 0;
    LaidChain(Now(v), h, p, slots);
    ForestChain(v.fat, v.chains, h);
    MulSucc(0, p);
    var current, c := dir.cluster, Checker(false, 0, 0);
    while true
      invariant v.Valid() && Now(v) == old(Now(v)) && (old(Exact(v)) ==> Exact(v))
      invariant At(v.chains, h, i, current) && Check(slots, 0, false, 0, 0) == CheckFrom(slots, Mul(i, p), c)
      decreases |v.chains[h]| - i
    {
      var buf := ReadWindow(v, h, i, current, slots);
      var settled, passed;
      settled, passed, c := CheckCluster(buf, c, slots, Mul(i, p));
      MulSucc(i, p);
      if !settled {
        err, current := NextOrEnd(v, h, i, current);
        BeyondLast(Now(v), h, p, slots, i + 1);
        CheckBeyond(slots, Mul(i + 1, p), c);
        i := i + 1;
        settled, passed := err != OK, !c.inGroup;
      }
      if settled {
        return if passed then OK else EINVAL;
      }
    }
  }

  lemma CheckBeyond(slots: seq<Slot>, k: nat, c: Checker)
    ensures k >= |slots| ==> CheckFrom(slots, k, c) == !c.inGroup
  {
  }
}
