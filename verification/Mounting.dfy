/** From the bytes of a device to a mounted volume (fat32_vfs.c), and a device as a formatting program
    leaves it: one FAT, an empty root directory, and FSInfo with the exact count.  The driver does not
    format; this shows that what its operations rely on can be met. */
module Mounting {
  import opened Bytes
  import opened Layout
  import opened Volumes
  import opened Chains
  import opened Clusters
  import opened Contents
  import opened Vnodes
  import opened Slots
  import opened SlotBytes
  import opened Names
  import opened DirectoryMap
  import opened DirReading
  import opened Removal
  import opened Tree
  import opened Consistency
  import opened Operations
  import opened Making
  import opened Placing

  // ---- mounting a device ----

  const BOOT_SIG: nat := 0xAA55

  /** The boot sector of the partition. */
  function BootSector(d: seq<byte>, partitionOffset: nat): (br: seq<byte>)
    requires SectorPos(partitionOffset) + SECTOR <= |d|
    ensures |br| == SECTOR
  {
    d[SectorPos(partitionOffset)..SectorPos(partitionOffset) + SECTOR]
  }

  predicate BootSigned(br: seq<byte>)
    requires |br| == SECTOR
  {
    Rle16(br, 510) == BOOT_SIG
  }

  /** `fat32_read_boot`: a boot sector without signature is refused; else the geometry comes from its
      bytes, and the free count and the hint from FSInfo.  `g` is the geometry that a boot sector of
      the prescribed form describes; the FAT copies agree. */
  method ReadBoot(disk: array<byte>, partitionOffset: nat, infoReadable: bool, ghost g: Geometry, ghost chains: Forest, ghost intact: bool)
    returns (err: Errno, v: Volume?)
    requires SectorPos(partitionOffset) + SECTOR <= disk.Length
    requires BootSigned(BootSector(disk[..], partitionOffset)) ==>
               && WellFormedBoot(DecodeBoot(BootSector(disk[..], partitionOffset)), partitionOffset)
               && IsGeometry(DecodeBoot(BootSector(disk[..], partitionOffset)), partitionOffset, g)
               && disk.Length == DeviceSize(g) && CopiesAgree(g, disk[..])
    ensures err == if BootSigned(BootSector(disk[..], partitionOffset)) then OK else EINVAL
    ensures err == OK <==> v != null
    ensures err == OK ==>
              && fresh(v) && v.Valid() && v.g == g && v.disk == disk && v.chains == chains && v.intact == intact
              && v.fat == FatOf(g, disk[..]) && v.data == DataOf(g, disk[..])
              && v.infoFree == InfoWord(g, disk[..], INFO_FREE)
              && (if infoReadable && Signed(InfoSector(g, disk[..])) then v.freeCount == v.infoFree && v.nextFree == v.infoNext
                  else v.freeCount == v.nextFree == 0xFFFF_FFFF)
  {
    hide Signed, InfoWord, Consistent, DeviceHolds, WellFormedBoot, ClusterBytes, FatEntry, DecodeBoot;
    var br := disk[SectorPos(partitionOffset)..SectorPos(partitionOffset) + SECTOR];
    assert br == BootSector(disk[..], partitionOffset);
    if Rle16(br, 510) != BOOT_SIG {
      return EINVAL, null;
    }
    var b := DecodeBoot(br);
    var found := ReadGeometry(b, partitionOffset);
    GeometryUnique(b, partitionOffset, found, g);
    var volume := new Volume.Mount(found, disk, infoReadable, chains, intact);
    return OK, volume;
  }

  // ---- a fresh device ----

  /** Sector 0 is the boot sector, 1 FSInfo, 2 the FAT, then `n` clusters of one sector each. */
  function FreshGeometry(n: nat): Geometry {
    Geometry(0, SECTOR, 1, SECTOR, 2, 9, SECTOR - 1, 9, SECTOR - 1, 0, 1, 1, 2, 3 + n, 3, n, 1, 2)
  }

  lemma FreshIsConsistent(n: nat)
    requires 0 < n <= 126
    ensures Consistent(FreshGeometry(n)) && DeviceSize(FreshGeometry(n)) == SECTOR * (3 + n)
  {
    Pow2Of9(0);
    assert Pow2(0) == 1;
  }

  /** The bytes of the boot sector: 512-byte sectors, one per cluster, two reserved, one FAT of one
      sector, root directory in cluster 2, FSInfo in sector 1. */
  function BootByte(n: nat, i: nat): byte
    requires 0 < n <= 126
  {
    if i == 12 || i == 14 || i == 44 then 2
    else if i == 13 || i == 16 || i == 36 || i == 48 then 1
    else if i == 32 then 3 + n
    else if i == 510 then 0x55 else if i == 511 then 0xAA
    else 0
  }

  /** The bytes of the fresh device: the boot sector, the FSInfo signatures, count and hint, and the
      end mark of the root directory. */
  function FreshByte(n: nat, i: nat): byte
    requires 0 < n <= 126
  {
    if i < 512 then BootByte(n, i)
    else if i == 512 || i == 513 then 0x52 else if i == 514 then 0x61 else if i == 515 then 0x41
    else if i == 996 || i == 997 then 0x72 else if i == 998 then 0x41 else if i == 999 then 0x61
    else if i == 1000 then n - 1
    else if i == 1004 then 3
    else if i == 1022 then 0x55 else if i == 1023 then 0xAA
    else if 1032 <= i < 1035 then 0xFF else if i == 1035 then 0x0F
    else 0
  }

  predicate FreshDisk(n: nat, d: seq<byte>)
    requires 0 < n <= 126
  {
    |d| == SECTOR * (3 + n) && forall i :: 0 <= i < |d| ==> d[i] == FreshByte(n, i)
  }

  /** What the boot sector of the fresh device says. */
  lemma FreshBoot(n: nat, d: seq<byte>)
    requires 0 < n <= 126 && FreshDisk(n, d)
    ensures BootSigned(BootSector(d, 0)) && DecodeBoot(BootSector(d, 0)) == Boot(SECTOR, 1, 2, 1, 1, 2, 3 + n, 1)
  {
    hide FreshByte;
    var br := BootSector(d, 0);
    forall i: nat | i < 512
      ensures br[i] == BootByte(n, i)
    {
      assert d[i] == FreshByte(n, i);
      FirstSector(n, i);
    }
    hide BootByte;
    BootFields(n, br);
  }

  lemma FirstSector(n: nat, i: nat)
    requires 0 < n <= 126 && i < 512
    ensures FreshByte(n, i) == BootByte(n, i)
  {
    hide BootByte;
  }

  lemma BootFields(n: nat, br: seq<byte>)
    requires 0 < n <= 126 && |br| == SECTOR && forall i: nat :: i < 512 ==> br[i] == BootByte(n, i)
    ensures BootSigned(br) && DecodeBoot(br) == Boot(SECTOR, 1, 2, 1, 1, 2, 3 + n, 1)
  {
    assert br[11] == 0 && br[12] == 2 && br[13] == 1 && br[14] == 2 && br[15] == 0 && br[16] == 1;
    assert br[32] == 3 + n && br[33] == br[34] == br[35] == 0 && br[36] == 1 && br[37] == br[38] == br[39] == 0;
    assert br[44] == 2 && br[45] == br[46] == br[47] == 0 && br[48] == 1 && br[49] == 0 && br[510] == 0x55 && br[511] == 0xAA;
  }

  lemma FreshIsGeometry(n: nat)
    requires 0 < n <= 126
    ensures var b := Boot(SECTOR, 1, 2, 1, 1, 2, 3 + n, 1); WellFormedBoot(b, 0) && IsGeometry(b, 0, FreshGeometry(n))
  {
    FreshIsConsistent(n);
    assert Pow2(0) == 1;
  }

  /** The FAT of the fresh device: only the root directory is in use. */
  lemma FreshFat(n: nat, d: seq<byte>)
    requires 0 < n <= 126 && FreshDisk(n, d)
    ensures Consistent(FreshGeometry(n)) && |d| == DeviceSize(FreshGeometry(n)) && CopiesAgree(FreshGeometry(n), d)
    ensures forall c: nat :: InRange(FreshGeometry(n), c) ==> FatOf(FreshGeometry(n), d)[c] == if c == 2 then EOC else FREE
  {
    hide FreshByte, Rle32;
    FreshIsConsistent(n);
    var g := FreshGeometry(n);
    forall c: nat | InRange(g, c)
      ensures FatEntry(g, d, 0, c) == if c == 2 then EOC else FREE
    {
      FreshEntry(n, d, c);
    }
  }

  lemma FreshEntry(n: nat, d: seq<byte>, c: nat)
    requires 0 < n <= 126 && FreshDisk(n, d) && 2 <= c <= n + 1
    ensures 1024 + 4 * c + 4 <= |d| && Rle32(d, 1024 + 4 * c) % ENTRY_LIMIT == if c == 2 then EOC else FREE
  {
    var at := 1024 + 4 * c;
    assert d[at] == FreshByte(n, at) && d[at + 1] == FreshByte(n, at + 1);
    assert d[at + 2] == FreshByte(n, at + 2) && d[at + 3] == FreshByte(n, at + 3);
  }

  lemma FreshInfo(n: nat, d: seq<byte>)
    requires 0 < n <= 126 && FreshDisk(n, d)
    ensures Consistent(FreshGeometry(n)) && |d| == DeviceSize(FreshGeometry(n))
    ensures Signed(InfoSector(FreshGeometry(n), d))
    ensures InfoWord(FreshGeometry(n), d, INFO_FREE) == n - 1 && InfoWord(FreshGeometry(n), d, INFO_NEXT) == 3
  {
    FreshIsConsistent(n);
    FreshWord(n, d, 0);
    FreshWord(n, d, 484);
    FreshWord(n, d, 488);
    FreshWord(n, d, 492);
    FreshWord(n, d, 508);
  }

  lemma FreshWord(n: nat, d: seq<byte>, at: nat)
    requires 0 < n <= 126 && FreshDisk(n, d) && at + 4 <= SECTOR
    ensures Consistent(FreshGeometry(n)) && |d| == DeviceSize(FreshGeometry(n))
    ensures Rle32(InfoSector(FreshGeometry(n), d), at) == InfoWord(FreshGeometry(n), d, at)
    ensures InfoWord(FreshGeometry(n), d, at)
         == FreshByte(n, 512 + at) + 0x100 * FreshByte(n, 513 + at) + 0x1_0000 * FreshByte(n, 514 + at)
            + 0x100_0000 * FreshByte(n, 515 + at)
  {
    hide FreshByte;
    FreshIsConsistent(n);
    InfoRead(FreshGeometry(n), d, at);
    assert d[512 + at] == FreshByte(n, 512 + at) && d[513 + at] == FreshByte(n, 513 + at);
    assert d[514 + at] == FreshByte(n, 514 + at) && d[515 + at] == FreshByte(n, 515 + at);
  }

  /** With the root directory as its only chain the FAT is a forest, with `n - 1` free clusters. */
  lemma FreshForest(n: nat, fat: seq<nat>)
    requires 0 < n <= 126 && |fat| == n + 2
    requires forall c: nat :: 2 <= c <= n + 1 ==> fat[c] == if c == 2 then EOC else FREE
    ensures WellFormed(fat, map[2 := [2]]) && FreeCount(fat) == n - 1
  {
    var chains := map[2 := [2]];
    assert chains[2] == [2] && IsChain(fat, [2]);
    assert IsOwned(chains, 2) by {
      assert 2 in chains && 2 in chains[2];
    }
    assert FreeSet(fat) == Between(3, n + 2);
    BetweenSize(3, n + 2);
  }

  predicate Within(a: nat, c: nat, b: nat) {
    a <= c < b
  }

  ghost function Between(a: nat, b: nat): set<nat> {
    set c: nat | c < b && Within(a, c, b)
  }

  lemma {:induction false} BetweenSize(a: nat, b: nat)
    requires a <= b
    ensures |Between(a, b)| == b - a
    decreases b - a
  {
    if a < b {
      BetweenSize(a, b - 1);
      assert Between(a, b) == Between(a, b - 1) + {b - 1};
    } else {
      assert Between(a, b) == {};
    }
  }

  /** A directory of cleared slots is well formed and empty. */
  lemma ClearedIsEmpty(slots: seq<Slot>)
    requires AllEnd(slots)
    ensures DirOk(slots) && ListOf(slots) == []
  {
    assert slots == Flat([]) + slots;
    assert IsDir(slots, [], slots);
    ListOfDir(slots, [], slots);
  }

  lemma FreshRoot(n: nat, d: seq<byte>, s: Snap)
    requires 0 < n <= 126 && FreshDisk(n, d) && Consistent(FreshGeometry(n)) && |d| == DeviceSize(FreshGeometry(n))
    requires s.chains == map[2 := [2]] && s.data == DataOf(FreshGeometry(n), d) && Backed(s, SLOT * 16)
    ensures Shows(s, 16, 2, [])
  {
    hide ListOf, DirOk, Mul, FreshByte, Consistent;
    var g := FreshGeometry(n);
    var slots := DirSlots(s, 2);
    SlotTotal(s, 2, 16);
    MulSucc(0, 16);
    ClusterAddressing(g, 2);
    FreshCluster(n, d);
    forall j | 0 <= j < |slots|
      ensures slots[j][0] == 0
    {
      SlotInCluster(s, 2, 0, 16, j);
      assert slots[j] == BufferSlot(s.data[2], j);
      assert s.data[2] == ClusterBytes(g, d, 2);
    }
    ClearedIsEmpty(slots);
    assert Laid(s, 2, 16, slots);
  }

  lemma FreshCluster(n: nat, d: seq<byte>)
    requires 0 < n <= 126 && FreshDisk(n, d) && Consistent(FreshGeometry(n)) && |d| == DeviceSize(FreshGeometry(n))
    ensures forall i :: 0 <= i < SECTOR ==> ClusterBytes(FreshGeometry(n), d, 2)[i] == 0
  {
    hide Consistent;
    ClusterAddressing(FreshGeometry(n), 2);
    assert ClusterPos(FreshGeometry(n), 2) == 1536;
    forall i | 0 <= i < SECTOR
      ensures ClusterBytes(FreshGeometry(n), d, 2)[i] == 0
    {
      assert d[1536 + i] == FreshByte(n, 1536 + i);
    }
  }

  /** Such a device mounts as a consistent volume with an exact free count and an empty root. */
  method MountFresh(n: nat) returns (v: Volume)
    requires 0 < n <= 126
    ensures fresh(v) && fresh(v.disk) && v.g == FreshGeometry(n) && v.chains == map[2 := [2]]
    ensures VolumeOk(v, map[2 := []]) && Exact(v) && v.intact && v.freeCount == n - 1
  {
    hide FreshByte, Consistent, WellFormed, FreeCount, DeviceHolds, Shows, BootSigned, DecodeBoot, WellFormedBoot, IsGeometry, Signed,
         InfoWord, CopiesAgree, TreeOk, Backed;
    var disk := new byte[SECTOR * (3 + n)](i requires 0 <= i => FreshByte(n, i));
    ghost var d := disk[..];
    assert FreshDisk(n, d);
    FreshBoot(n, d);
    FreshIsGeometry(n);
    FreshFat(n, d);
    FreshInfo(n, d);
    var err, mounted := ReadBoot(disk, 0, true, FreshGeometry(n), map[2 := [2]], true);
    v := mounted;
    assert disk[..] == d;
    FreshForest(n, v.fat);
    VolumeBacked(v);
    FreshRoot(n, d, Now(v));
    FreshTree(v.chains);
  }

  lemma FreshTree(chains: Forest)
    requires chains == map[2 := [2]]
    ensures TreeOk(chains, map[2 := []], 2) && SizesFit(chains, map[2 := []], SECTOR)
  {
    var lists: Lists := map[2 := []];
    assert Unique([]);
    assert Leads(lists, 2, [2], 2);
    forall d: nat
      ensures DirectoryWell(chains, lists, 2, d)
    {
    }
  }

  /** The root directory of a consistent volume can be worked on. */
  lemma RootOpens(v: Volume, dir: Vnode, lists: Lists) returns (slots: seq<Slot>)
    requires VolumeOk(v, lists) && dir.cluster in lists && dir.cluster in v.chains && |v.chains[dir.cluster]| == 1
    requires PerCluster(v.g) == 16 && dir.cache.Length == CACHE_SIZE
    requires forall i :: 0 <= i < CACHE_SIZE ==> dir.cache[i] == CacheEntry(0, 0)
    ensures Open(v, dir, slots) && |slots| == 16
  {
    hide WellFormed, DeviceHolds, Consistent, DirOk, ListOf, Laid, TreeOk, SizesFit, Backed;
    assert Shows(Now(v), 16, dir.cluster, lists[dir.cluster]);
    slots :| Laid(Now(v), dir.cluster, 16, slots) && DirOk(slots) && ListOf(slots) == lists[dir.cluster];
    LaidChain(Now(v), dir.cluster, 16, slots);
    MulSucc(0, 16);
    PerClusterIs(v.g, 0);
  }

  lemma FewSlots(name: seq<byte>)
    requires IsName(name)
    ensures SlotCount(name) <= 21
  {
    hide IsShort;
  }

  /** The first file or directory of a fresh volume: unless FSInfo fails, the volume stays consistent
      and the root directory lists just the new entry, or there was no room. */
  method MakeFirst(n: nat, name: seq<byte>, isDir: bool, mode: nat, now: Timespec)
    returns (err: Errno, v: Volume, ghost lists: Lists, ghost main: Slot)
    requires 0 < n <= 126 && IsName(name) && RoundTrips(name) && !IsDots(name)
    ensures err == OK || err == ENOSPC || err == EIO
    ensures err != EIO ==> VolumeOk(v, lists)
    ensures err == OK ==> 2 in lists && |lists[2]| == 1 && lists[2][0].name == name && lists[2][0].main == main
    ensures err == ENOSPC ==> lists == map[2 := []]
  {
    hide WellFormed, DeviceHolds, Consistent, DirOk, ListOf, Laid, TreeOk, VolumeOk, Exact, IsShort, Open, SlotCount, SnapOk, Refusal,
         MakeStep, Visible, Fresh, Shown, FreeRun;
    v := MountFresh(n);
    var dir := new Vnode();
    dir.cluster, dir.vtype := 2, VDIR;
    ghost var lists0: Lists := map[2 := []];
    ghost var slots := RootOpens(v, dir, lists0);
    FewSlots(name);
    ghost var s := Now(v);
    VolumeSnap(v, lists0);
    var fv;
    ghost var slots', inner, j, count, stale;
    err, fv, main, slots', inner, lists, j, count, stale := MakeInVolume(v, dir, name, isDir, mode, now, lists0, slots);
    ShownSame(name);
    assert Fresh([], name) by {
      NothingTaken(name);
    }
    if err == OK {
      FirstListed(v.g, s, Now(v), lists0, slots, slots', name, main, inner);
    }
  }

  lemma VolumeSnap(v: Volume, lists: Lists)
    requires VolumeOk(v, lists)
    ensures SnapOk(Now(v), v.g, lists)
  {
    hide SnapOk;
  }

  lemma NothingTaken(name: seq<byte>)
    ensures Fresh([], name)
  {
    hide Visible, Shown;
  }

  /** The listing of a root directory that was empty. */
  lemma FirstListed(g: Geometry, s: Snap, s': Snap, lists0: Lists, slots: seq<Slot>, slots': seq<Slot>, name: seq<byte>,
                    main: Slot, inner: seq<Slot>)
    requires SnapOk(s, g, lists0) && lists0 == map[2 := []] && MakeStep(g, s, s', lists0, 2, slots, slots', name, main, inner)
    requires RoundTrips(name)
    ensures var lists := ListsAfterMake(lists0, 2, slots', name, main, inner);
      2 in lists && |lists[2]| == 1 && lists[2][0].name == name && lists[2][0].main == main
  {
    hide SnapOk, Created, Visible, Shown, FreeRun, SlotCount, IsShort, ListOf, Laid, NewlyMade, FirstCluster, DirOk, Unique, DotsPlain,
         WellFormed, Backed, RoundTrips;
    MadeListing(g, s, s', lists0, 2, slots, slots', name, main, inner);
    DirectoryFacts(s, g, lists0, 2, slots);
    ShownSame(name);
    NotTheNewOne(s, lists0, 2, main, slots');
  }
}
