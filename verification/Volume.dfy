/** The mounted volume: an array of bytes on the device, the cached FSInfo values, and the
    sector-level accesses of fat32_cls.c. */
module Volumes {
  import opened Bytes
  import opened Layout

  datatype Errno = OK | EINVAL | EIO | ENOSPC | ENOENT | ENOTDIR | EISDIR | EEXIST | ENOTEMPTY

  datatype Option<+T> = None | Some(value: T)

  // ---- what the bytes of a device mean ----

  /** Entry `c` in FAT copy `k`, without the four reserved bits. */
  function FatEntry(g: Geometry, d: seq<byte>, k: nat, c: nat): nat
    requires Consistent(g) && |d| == DeviceSize(g) && k < g.numFats && InRange(g, c)
  {
    EntryInCopy(g, k, c);
    Rle32(d, EntryPos(g, k, c)) % ENTRY_LIMIT
  }

  ghost predicate FatCopy(g: Geometry, d: seq<byte>, k: nat, fat: seq<nat>)
    requires Consistent(g) && |d| == DeviceSize(g) && k < g.numFats
  {
    |fat| == g.clusterCount + 2 && forall c: nat :: InRange(g, c) ==> FatEntry(g, d, k, c) == fat[c]
  }

  ghost predicate InAllCopies(g: Geometry, d: seq<byte>, fat: seq<nat>)
    requires Consistent(g) && |d| == DeviceSize(g)
  {
    forall k: nat :: k < g.numFats ==> FatCopy(g, d, k, fat)
  }

  function ClusterBytes(g: Geometry, d: seq<byte>, c: nat): (s: seq<byte>)
    requires Consistent(g) && |d| == DeviceSize(g) && InRange(g, c)
    ensures |s| == g.bytesPerCluster
  {
    ClusterAddressing(g, c);
    d[ClusterPos(g, c)..ClusterPos(g, c) + g.bytesPerCluster]
  }

  ghost predicate ClustersHold(g: Geometry, d: seq<byte>, data: seq<seq<byte>>)
    requires Consistent(g) && |d| == DeviceSize(g)
  {
    |data| == g.clusterCount + 2 && forall c: nat :: InRange(g, c) ==> data[c] == ClusterBytes(g, d, c)
  }

  const INFO_FREE: nat := 488
  const INFO_NEXT: nat := 492

  function InfoWord(g: Geometry, d: seq<byte>, at: nat): nat
    requires Consistent(g) && |d| == DeviceSize(g) && at + 4 <= SECTOR
  {
    Areas(g);
    Rle32(d, SectorPos(g.fsinfoSector) + at)
  }

  /** Everything outside the stretch `lo..hi` is the same on both devices. */
  ghost predicate SameOutside(d: seq<byte>, d': seq<byte>, lo: nat, hi: nat) {
    |d| == |d'| && forall i :: 0 <= i < |d| && !(lo <= i < hi) ==> d'[i] == d[i]
  }

  lemma WordOutside(d: seq<byte>, d': seq<byte>, lo: nat, hi: nat, at: nat)
    requires SameOutside(d, d', lo, hi) && at + 4 <= |d| && (at + 4 <= lo || hi <= at)
    ensures Rle32(d', at) == Rle32(d, at)
  {
    assert d'[at] == d[at] && d'[at + 1] == d[at + 1] && d'[at + 2] == d[at + 2] && d'[at + 3] == d[at + 3];
  }

  /** All FAT entries other than entry `c` of copy `k` are the same on both devices. */
  ghost predicate SameEntriesBut(g: Geometry, d: seq<byte>, d': seq<byte>, k: nat, c: nat)
    requires Consistent(g) && |d| == |d'| == DeviceSize(g)
  {
    forall k': nat, c': nat :: k' < g.numFats && InRange(g, c') && (k', c') != (k, c)
      ==> FatEntry(g, d', k', c') == FatEntry(g, d, k', c')
  }

  ghost predicate SameEntries(g: Geometry, d: seq<byte>, d': seq<byte>)
    requires Consistent(g) && |d| == |d'| == DeviceSize(g)
  {
    forall k: nat, c: nat :: k < g.numFats && InRange(g, c) ==> FatEntry(g, d', k, c) == FatEntry(g, d, k, c)
  }

  ghost predicate SameInfo(g: Geometry, d: seq<byte>, d': seq<byte>)
    requires Consistent(g) && |d| == |d'| == DeviceSize(g)
  {
    && InfoWord(g, d', INFO_FREE) == InfoWord(g, d, INFO_FREE)
    && InfoWord(g, d', INFO_NEXT) == InfoWord(g, d, INFO_NEXT)
  }

  ghost predicate SameClusters(g: Geometry, d: seq<byte>, d': seq<byte>)
    requires Consistent(g) && |d| == |d'| == DeviceSize(g)
  {
    forall c: nat :: InRange(g, c) ==> ClusterBytes(g, d', c) == ClusterBytes(g, d, c)
  }

  /** Writing one entry of one copy alters that entry and nothing else: not another entry, not
      another copy, not a cluster, not FSInfo. */
  lemma EntryWritten(g: Geometry, d: seq<byte>, d': seq<byte>, k: nat, c: nat)
    requires Consistent(g) && |d| == DeviceSize(g) && k < g.numFats && InRange(g, c)
    requires SameOutside(d, d', EntryPos(g, k, c), EntryPos(g, k, c) + 4)
    ensures SameEntriesBut(g, d, d', k, c)
    ensures SameClusters(g, d, d')
    ensures SameInfo(g, d, d')
  {
    var pos := EntryPos(g, k, c);
    EntryInCopy(g, k, c);
    Areas(g);
    WordOutside(d, d', pos, pos + 4, SectorPos(g.fsinfoSector) + INFO_FREE);
    WordOutside(d, d', pos, pos + 4, SectorPos(g.fsinfoSector) + INFO_NEXT);
    forall k': nat, c': nat | k' < g.numFats && InRange(g, c') && (k', c') != (k, c)
      ensures FatEntry(g, d', k', c') == FatEntry(g, d, k', c')
    {
      FatEntriesDisjoint(g, k, c, k', c');
      EntryInCopy(g, k', c');
      WordOutside(d, d', pos, pos + 4, EntryPos(g, k', c'));
    }
    ClustersSame(g, d, d', pos, pos + 4);
  }

  lemma ClustersSame(g: Geometry, d: seq<byte>, d': seq<byte>, lo: nat, hi: nat)
    requires Consistent(g) && |d| == DeviceSize(g) && SameOutside(d, d', lo, hi) && hi <= SectorPos(g.dataStart)
    ensures SameClusters(g, d, d')
  {
    forall c: nat | InRange(g, c)
      ensures ClusterBytes(g, d', c) == ClusterBytes(g, d, c)
    {
      ClusterAddressing(g, c);
    }
  }

  /** Writing inside the data area leaves every FAT entry and FSInfo alone. */
  lemma DataWritten(g: Geometry, d: seq<byte>, d': seq<byte>, lo: nat, hi: nat)
    requires Consistent(g) && |d| == DeviceSize(g) && SameOutside(d, d', lo, hi) && SectorPos(g.dataStart) <= lo
    ensures SameEntries(g, d, d') && SameInfo(g, d, d')
  {
    Areas(g);
    WordOutside(d, d', lo, hi, SectorPos(g.fsinfoSector) + INFO_FREE);
    WordOutside(d, d', lo, hi, SectorPos(g.fsinfoSector) + INFO_NEXT);
    forall k: nat, c: nat | k < g.numFats && InRange(g, c)
      ensures FatEntry(g, d', k, c) == FatEntry(g, d, k, c)
    {
      EntryInCopy(g, k, c);
      WordOutside(d, d', lo, hi, EntryPos(g, k, c));
    }
  }

  /** Writing one cluster changes the bytes of that cluster only. */
  lemma ClusterWritten(g: Geometry, d: seq<byte>, d': seq<byte>, data: seq<seq<byte>>, c: nat, s: seq<byte>)
    requires Consistent(g) && |d| == DeviceSize(g) && InRange(g, c) && |s| == g.bytesPerCluster
    requires ClusterPos(g, c) + |s| <= |d| && d' == Splice(d, ClusterPos(g, c), s)
    requires ClustersHold(g, d, data)
    ensures ClustersHold(g, d', data[c := s])
  {
    forall c': nat | InRange(g, c')
      ensures data[c := s][c'] == ClusterBytes(g, d', c')
    {
      ClusterAddressing(g, c');
      if c' < c {
        ClustersDisjoint(g, c', c);
        SpliceElsewhere(d, ClusterPos(g, c), s, ClusterPos(g, c'), ClusterPos(g, c') + g.bytesPerCluster);
      } else if c < c' {
        ClustersDisjoint(g, c, c');
        SpliceElsewhere(d, ClusterPos(g, c), s, ClusterPos(g, c'), ClusterPos(g, c') + g.bytesPerCluster);
      }
    }
  }

  /** Writing in the FSInfo sector leaves the FATs and the clusters alone. */
  lemma InfoWritten(g: Geometry, d: seq<byte>, d': seq<byte>)
    requires Consistent(g) && |d| == DeviceSize(g)
    requires SameOutside(d, d', SectorPos(g.fsinfoSector), SectorPos(g.fsinfoSector) + SECTOR)
    ensures SameEntries(g, d, d') && SameClusters(g, d, d')
  {
    var lo := SectorPos(g.fsinfoSector);
    Areas(g);
    forall k: nat, c: nat | k < g.numFats && InRange(g, c)
      ensures FatEntry(g, d', k, c) == FatEntry(g, d, k, c)
    {
      EntryInCopy(g, k, c);
      WordOutside(d, d', lo, lo + SECTOR, EntryPos(g, k, c));
    }
    ClustersSame(g, d, d', lo, lo + SECTOR);
  }

  /** What a device holds depends only on its entries and clusters. */
  lemma CopiesSame(g: Geometry, d: seq<byte>, d': seq<byte>, fat: seq<nat>)
    requires Consistent(g) && |d| == |d'| == DeviceSize(g) && SameEntries(g, d, d') && InAllCopies(g, d, fat)
    ensures InAllCopies(g, d', fat)
  {
    forall k: nat | k < g.numFats
      ensures FatCopy(g, d', k, fat)
    {
      assert FatCopy(g, d, k, fat);
    }
  }

  lemma HeldSame(g: Geometry, d: seq<byte>, d': seq<byte>, data: seq<seq<byte>>)
    requires Consistent(g) && |d| == |d'| == DeviceSize(g) && SameClusters(g, d, d') && ClustersHold(g, d, data)
    ensures ClustersHold(g, d', data)
  {
  }

  /** Copies below `k` already hold `fat'`, the others still hold `fat`. */
  ghost predicate HalfWritten(g: Geometry, d: seq<byte>, k: nat, fat: seq<nat>, fat': seq<nat>)
    requires Consistent(g) && |d| == DeviceSize(g)
  {
    && (forall j: nat :: j < g.numFats && j < k ==> FatCopy(g, d, j, fat'))
    && (forall j: nat :: j < g.numFats && k <= j ==> FatCopy(g, d, j, fat))
  }

  lemma CopyUntouched(g: Geometry, d: seq<byte>, d': seq<byte>, k: nat, c: nat, j: nat, fat: seq<nat>)
    requires Consistent(g) && |d| == |d'| == DeviceSize(g) && k < g.numFats && InRange(g, c)
    requires SameEntriesBut(g, d, d', k, c) && j < g.numFats && j != k && FatCopy(g, d, j, fat)
    ensures FatCopy(g, d', j, fat)
  {
    forall c': nat | InRange(g, c')
      ensures FatEntry(g, d', j, c') == fat[c']
    {
      assert (j, c') != (k, c);
    }
  }

  lemma CopyUpdated(g: Geometry, d: seq<byte>, d': seq<byte>, k: nat, c: nat, fat: seq<nat>)
    requires Consistent(g) && |d| == |d'| == DeviceSize(g) && k < g.numFats && InRange(g, c)
    requires SameEntriesBut(g, d, d', k, c) && FatCopy(g, d, k, fat)
    ensures FatCopy(g, d', k, fat[c := FatEntry(g, d', k, c)])
  {
    forall c': nat | InRange(g, c')
      ensures FatEntry(g, d', k, c') == fat[c := FatEntry(g, d', k, c)][c']
    {
      if c' != c {
        assert (k, c') != (k, c);
        assert FatEntry(g, d', k, c') == FatEntry(g, d, k, c');
      }
    }
  }

  lemma EntryStored(g: Geometry, d: seq<byte>, d': seq<byte>, k: nat, c: nat, value: nat)
    requires Consistent(g) && |d| == DeviceSize(g) && k < g.numFats && InRange(g, c)
    requires EntryPos(g, k, c) + 4 <= |d| && d' == Splice(d, EntryPos(g, k, c), Wle32(value))
    ensures |d'| == |d| && FatEntry(g, d', k, c) == value % ENTRY_LIMIT
    ensures SameOutside(d, d', EntryPos(g, k, c), EntryPos(g, k, c) + 4)
  {
    hide Mul, EntryPos, Wle32, Rle32, Splice;
    EntryInCopy(g, k, c);
    Rle32Same(d', EntryPos(g, k, c), Wle32(value), 0);
    ModMod(value);
  }

  /** One more copy has the new value. */
  lemma CopyWritten(g: Geometry, d: seq<byte>, d': seq<byte>, k: nat, c: nat, value: nat,
                    fat: seq<nat>, fat': seq<nat>, data: seq<seq<byte>>)
    requires Consistent(g) && |d| == DeviceSize(g) && k < g.numFats && InRange(g, c)
    requires EntryPos(g, k, c) + 4 <= |d| && d' == Splice(d, EntryPos(g, k, c), Wle32(value))
    requires |fat| == g.clusterCount + 2 && fat' == fat[c := value % ENTRY_LIMIT]
    requires HalfWritten(g, d, k, fat, fat') && ClustersHold(g, d, data)
    ensures HalfWritten(g, d', k + 1, fat, fat') && ClustersHold(g, d', data)
    ensures SameInfo(g, d, d')
  {
    hide Mul, EntryPos, Wle32, Rle32, FatCopy, ClustersHold, FatEntry, SameEntriesBut, SameClusters, SameInfo, Splice;
    EntryStored(g, d, d', k, c, value);
    EntryWritten(g, d, d', k, c);
    HeldSame(g, d, d', data);
    CopyUpdated(g, d, d', k, c, fat);
    forall j: nat | j < g.numFats && j < k
      ensures FatCopy(g, d', j, fat')
    {
      CopyUntouched(g, d, d', k, c, j, fat');
    }
    forall j: nat | j < g.numFats && k + 1 <= j
      ensures FatCopy(g, d', j, fat)
    {
      CopyUntouched(g, d, d', k, c, j, fat);
    }
  }

  lemma WriteStarts(g: Geometry, d: seq<byte>, fat: seq<nat>, fat': seq<nat>)
    requires Consistent(g) && |d| == DeviceSize(g) && InAllCopies(g, d, fat)
    ensures HalfWritten(g, d, 0, fat, fat')
  {
  }

  lemma WriteEnds(g: Geometry, d: seq<byte>, fat: seq<nat>, fat': seq<nat>)
    requires Consistent(g) && |d| == DeviceSize(g) && HalfWritten(g, d, g.numFats, fat, fat')
    ensures InAllCopies(g, d, fat')
  {
  }

  lemma FatSectorFits(g: Geometry, k: nat, c: nat)
    requires Consistent(g) && InRange(g, c) && k < g.numFats
    ensures SectorPos(FatSector(g, c) + Mul(k, g.fatSize)) + SECTOR <= DeviceSize(g)
  {
    hide Mul, FatSector, EntryOffset;
    FatAddressing(g, k, c);
    EntryInCopy(g, k, c);
  }

  lemma FirstFatSector(g: Geometry, c: nat)
    requires Consistent(g) && InRange(g, c)
    ensures SectorPos(FatSector(g, c)) + SECTOR <= DeviceSize(g) && g.numFats > 0
  {
    hide Mul, FatSector;
    MulSucc(0, g.fatSize);
    FatSectorFits(g, 0, c);
  }

  /** The word that `fat32_rmw_cluster` reads from the sector buffer is the entry. */
  lemma EntryRead(g: Geometry, d: seq<byte>, fat: seq<nat>, c: nat, buf: seq<byte>)
    requires Consistent(g) && |d| == DeviceSize(g) && InAllCopies(g, d, fat) && InRange(g, c)
    requires |fat| == g.clusterCount + 2 && |buf| == SECTOR
    requires SectorPos(FatSector(g, c)) + SECTOR <= |d|
    requires buf == d[SectorPos(FatSector(g, c))..SectorPos(FatSector(g, c)) + SECTOR]
    ensures EntryOffset(g, c) + 4 <= SECTOR
    ensures Rle32(buf, EntryOffset(g, c)) % ENTRY_LIMIT == fat[c]
  {
    hide Mul, Rle32, FatSector, EntryOffset, EntryPos;
    MulSucc(0, g.fatSize);
    FatAddressing(g, 0, c);
    EntryInCopy(g, 0, c);
    assert FatCopy(g, d, 0, fat);
    assert fat[c] == FatEntry(g, d, 0, c);
    SliceOfSlice(d, SectorPos(FatSector(g, c)), SECTOR, EntryOffset(g, c), 4);
    Rle32Same(buf, EntryOffset(g, c), d, EntryPos(g, 0, c));
  }

  lemma ModMod(v: nat)
    ensures v % WORD % ENTRY_LIMIT == v % ENTRY_LIMIT
  {
  }

  // ---- mounting ----

  /** All FAT copies of the device hold the same entries. */
  ghost predicate CopiesAgree(g: Geometry, d: seq<byte>)
    requires Consistent(g) && |d| == DeviceSize(g)
  {
    forall k: nat, c: nat :: k < g.numFats && InRange(g, c) ==> FatEntry(g, d, k, c) == FatEntry(g, d, 0, c)
  }

  ghost function FatOf(g: Geometry, d: seq<byte>): (fat: seq<nat>)
    requires Consistent(g) && |d| == DeviceSize(g)
    ensures |fat| == g.clusterCount + 2
    ensures forall c: nat :: InRange(g, c) ==> fat[c] == FatEntry(g, d, 0, c)
  {
    seq(g.clusterCount + 2, c requires 0 <= c < g.clusterCount + 2 => if InRange(g, c) then FatEntry(g, d, 0, c) else 0)
  }

  ghost function DataOf(g: Geometry, d: seq<byte>): (data: seq<seq<byte>>)
    requires Consistent(g) && |d| == DeviceSize(g)
    ensures |data| == g.clusterCount + 2
    ensures forall c: nat :: InRange(g, c) ==> data[c] == ClusterBytes(g, d, c)
  {
    seq(g.clusterCount + 2, c requires 0 <= c < g.clusterCount + 2 => if InRange(g, c) then ClusterBytes(g, d, c) else [])
  }

  const LEAD_SIG: nat := 0x4161_5252
  const STRUCT_SIG: nat := 0x6141_7272
  const TRAIL_SIG: nat := 0xAA55_0000

  /** The FSInfo sector carries its three signatures. */
  predicate Signed(buf: seq<byte>)
    requires |buf| == SECTOR
  {
    Rle32(buf, 0) == LEAD_SIG && Rle32(buf, 484) == STRUCT_SIG && Rle32(buf, 508) == TRAIL_SIG
  }

  /** The FSInfo sector of the device. */
  function InfoSector(g: Geometry, d: seq<byte>): (buf: seq<byte>)
    requires Consistent(g) && |d| == DeviceSize(g)
    ensures |buf| == SECTOR
  {
    Areas(g);
    d[SectorPos(g.fsinfoSector)..SectorPos(g.fsinfoSector) + SECTOR]
  }

  lemma InfoRead(g: Geometry, d: seq<byte>, at: nat)
    requires Consistent(g) && |d| == DeviceSize(g) && at + 4 <= SECTOR
    ensures Rle32(InfoSector(g, d), at) == InfoWord(g, d, at)
  {
    hide Rle32, Consistent;
    Areas(g);
    SliceOfSlice(d, SectorPos(g.fsinfoSector), SECTOR, at, 4);
    Rle32Same(InfoSector(g, d), at, d, SectorPos(g.fsinfoSector) + at);
  }

  // ---- the volume ----

  /** The device holds `fat` in every copy, `data` in the clusters, and the FSInfo words. */
  ghost predicate DeviceHolds(v: Volume)
    requires Consistent(v.g)
    reads v`fat, v`data, v`infoFree, v`infoNext, v.disk
  {
    && v.disk.Length == DeviceSize(v.g)
    && InAllCopies(v.g, v.disk[..], v.fat)
    && ClustersHold(v.g, v.disk[..], v.data)
    && v.infoFree == InfoWord(v.g, v.disk[..], INFO_FREE)
    && v.infoNext == InfoWord(v.g, v.disk[..], INFO_NEXT)
  }

  class Volume {
    const g: Geometry
    const disk: array<byte>
    var freeCount: Word
    var nextFree: Word

    /** The FAT entries, the cluster contents and the two FSInfo words that the device holds. */
    ghost var fat: seq<nat>
    ghost var data: seq<seq<byte>>
    ghost var infoFree: nat
    ghost var infoNext: nat
    /** The cluster chains by their first cluster; see module Chains. */
    ghost var chains: map<nat, seq<nat>>
    /** No FSInfo access has failed since the counts were known to be right. */
    ghost var intact: bool

    /** The part of `fat32_read_boot` behind the geometry: the FSInfo sector gives the free count
        and the hint, and without it both are unknown.  The FAT copies of the device agree. */
    constructor Mount(g: Geometry, disk: array<byte>, infoReadable: bool, ghost chains: map<nat, seq<nat>>, ghost intact: bool)
      requires Consistent(g) && disk.Length == DeviceSize(g) && CopiesAgree(g, disk[..])
      ensures Valid() && this.g == g && this.disk == disk && this.chains == chains && this.intact == intact
      ensures fat == FatOf(g, disk[..]) && data == DataOf(g, disk[..])
      ensures if infoReadable && Signed(InfoSector(g, disk[..]))
              then freeCount == infoFree && nextFree == infoNext
              else freeCount == nextFree == 0xFFFF_FFFF
      ensures infoFree == InfoWord(g, disk[..], INFO_FREE) && infoNext == InfoWord(g, disk[..], INFO_NEXT)
    {
      hide Rle32, Signed, InfoWord, Mul, FatEntry, ClusterBytes;
      this.g, this.disk := g, disk;
      Areas(g);
      var buf := disk[SectorPos(g.fsinfoSector)..SectorPos(g.fsinfoSector) + SECTOR];
      if infoReadable && Signed(buf) {
        freeCount, nextFree := Rle32(buf, INFO_FREE), Rle32(buf, INFO_NEXT);
      } else {
        freeCount, nextFree := UNKNOWN, UNKNOWN;
      }
      fat, data := FatOf(g, disk[..]), DataOf(g, disk[..]);
      infoFree, infoNext := InfoWord(g, disk[..], INFO_FREE), InfoWord(g, disk[..], INFO_NEXT);
      this.chains, this.intact := chains, intact;
      new;
      InfoRead(g, disk[..], INFO_FREE);
      InfoRead(g, disk[..], INFO_NEXT);
    }

    ghost predicate Valid()
      reads this`fat, this`data, this`infoFree, this`infoNext, disk
    {
      Consistent(g) && |fat| == |data| == g.clusterCount + 2 && DeviceHolds(this)
    }

    lemma FatBounds()
      requires Valid()
      ensures |fat| == |data| == g.clusterCount + 2
      ensures forall c: nat :: InRange(g, c) ==> 0 <= fat[c] < ENTRY_LIMIT && |data[c]| == g.bytesPerCluster
    {
      assert FatCopy(g, disk[..], 0, fat);
      forall c: nat | InRange(g, c)
        ensures 0 <= fat[c] < ENTRY_LIMIT
      {
        assert fat[c] == FatEntry(g, disk[..], 0, c);
      }
    }

    /** A copy of `count` sectors. */
    method Bread(sector: nat, count: nat) returns (buf: seq<byte>)
      requires SectorPos(sector + count) <= disk.Length
      ensures |buf| == SectorPos(count)
      ensures buf == disk[SectorPos(sector)..SectorPos(sector) + SectorPos(count)]
    {
      buf := disk[SectorPos(sector)..SectorPos(sector + count)];
    }

    /** Puts a buffer back at its sector. */
    method Bdwrite(sector: nat, buf: seq<byte>)
      requires SectorPos(sector) + |buf| <= disk.Length
      modifies disk
      ensures disk[..] == Splice(old(disk[..]), SectorPos(sector), buf)
    {
      var pos := SectorPos(sector);
      forall i | 0 <= i < |buf| {
        disk[pos + i] := buf[i];
      }
      ghost var r := Splice(old(disk[..]), pos, buf);
      assert forall i :: 0 <= i < |buf| ==> r[pos + i] == r[pos..pos + |buf|][i] == buf[i];
      assert forall i :: 0 <= i < disk.Length ==> disk[i] == r[i];
    }

    /** `fat32_rmw_cluster`: reads the entry of `cluster` and, when asked to, writes the new value
        to that entry in every FAT copy. */
    method RmwCluster(cluster: nat, newValue: Option<nat>) returns (err: Errno, oldValue: nat)
      requires Valid()
      modifies this`fat, disk
      ensures Valid()
      ensures err == if InRange(g, cluster) then OK else EINVAL
      ensures err == OK ==> oldValue == old(fat)[cluster]
      ensures err == OK && newValue.Some? ==> fat == old(fat)[cluster := newValue.value % ENTRY_LIMIT]
      ensures err != OK || newValue.None? ==> fat == old(fat) && disk[..] == old(disk[..])
    {
      hide Mul, EntryPos, Wle32, Rle32, HalfWritten, InAllCopies, ClustersHold, CopyPos, And, Shr, Consistent, DeviceSize, InfoWord;
      oldValue := 0;
      if cluster < CLUSTER_MIN || cluster > MaxCluster(g) {
        return EINVAL, oldValue;
      }
      var fatOffset := U32(cluster * 4);
      var fatSector := g.fatStart + Shr(fatOffset, g.sectorShift);
      var entryOffset := And(fatOffset, g.sectorMask);
      FirstFatSector(g, cluster);
      var buf := Bread(fatSector, 1);
      EntryRead(g, disk[..], fat, cluster, buf);
      oldValue := Rle32(buf, entryOffset) % ENTRY_LIMIT;
      if newValue.None? {
        return OK, oldValue;
      }
      ghost var fat' := fat[cluster := newValue.value % ENTRY_LIMIT];
      WriteStarts(g, disk[..], fat, fat');
      var k := 0;
      MulSucc(0, g.fatSize);
      while k < g.numFats
        invariant 0 <= k <= g.numFats && fat == old(fat)
        invariant fatSector == FatSector(g, cluster) + Mul(k, g.fatSize)
        invariant SectorPos(fatSector) + SECTOR <= disk.Length || k == g.numFats
        invariant k == 0 ==> SectorPos(fatSector) + SECTOR <= disk.Length && buf == disk[SectorPos(fatSector)..SectorPos(fatSector) + SECTOR]
        invariant disk.Length == DeviceSize(g)
        invariant HalfWritten(g, disk[..], k, fat, fat')
        invariant ClustersHold(g, disk[..], data)
        invariant infoFree == InfoWord(g, disk[..], INFO_FREE) && infoNext == InfoWord(g, disk[..], INFO_NEXT)
      {
        WriteEntry(fatSector, entryOffset, k, buf, cluster, newValue.value, fat');
        MulSucc(k, g.fatSize);
        k := k + 1;
        fatSector := fatSector + g.fatSize;
        if k < g.numFats {
          FatSectorFits(g, k, cluster);
        }
      }
      WriteEnds(g, disk[..], fat, fat');
      fat := fat';
      return OK, oldValue;
    }

    /** One turn of the write loop of `fat32_rmw_cluster`: copy `k`. */
    method WriteEntry(fatSector: nat, entryOffset: nat, k: nat, first: seq<byte>, cluster: nat, value: nat,
                      ghost fat': seq<nat>)
      requires Consistent(g) && disk.Length == DeviceSize(g) && |fat| == g.clusterCount + 2
      requires k < g.numFats && InRange(g, cluster)
      requires fatSector == FatSector(g, cluster) + Mul(k, g.fatSize) && entryOffset == EntryOffset(g, cluster)
      requires SectorPos(fatSector) + SECTOR <= disk.Length
      requires k == 0 ==> first == disk[SectorPos(fatSector)..SectorPos(fatSector) + SECTOR]
      requires fat' == fat[cluster := value % ENTRY_LIMIT]
      requires HalfWritten(g, disk[..], k, fat, fat') && ClustersHold(g, disk[..], data)
      modifies disk
      ensures HalfWritten(g, disk[..], k + 1, fat, fat') && ClustersHold(g, disk[..], data)
      ensures SameInfo(g, old(disk[..]), disk[..])
    {
      hide Mul, EntryPos, Wle32, Rle32, Splice, HalfWritten, ClustersHold, SameInfo, FatSector, EntryOffset, CopyPos;
      FatAddressing(g, k, cluster);
      EntryInCopy(g, k, cluster);
      var buf := first;
      if k > 0 {
        buf := Bread(fatSector, 1);
      }
      ghost var d := disk[..];
      SpliceWithin(d, SectorPos(fatSector), SECTOR, entryOffset, Wle32(value));
      Bdwrite(fatSector, Splice(buf, entryOffset, Wle32(value)));
      CopyWritten(g, d, disk[..], k, cluster, value, fat, fat', data);
    }

    /** `fat32_read_cluster`. */
    method ReadCluster(c: nat) returns (buf: seq<byte>)
      requires Valid() && InRange(g, c)
      ensures |buf| == g.bytesPerCluster && buf == data[c]
    {
      FatBounds();
      ClusterAddressing(g, c);
      buf := Bread(ClusterToSector(g, c), g.sectorsPerCluster);
      assert data[c] == ClusterBytes(g, disk[..], c);
    }

    /** Puts a cluster buffer back. */
    method WriteCluster(c: nat, buf: seq<byte>)
      requires Valid() && InRange(g, c) && |buf| == g.bytesPerCluster
      modifies this`data, disk
      ensures Valid()
      ensures data == old(data)[c := buf]
    {
      FatBounds();
      ClusterAddressing(g, c);
      ghost var d := disk[..];
      Bdwrite(ClusterToSector(g, c), buf);
      DataWritten(g, d, disk[..], ClusterPos(g, c), ClusterPos(g, c) + |buf|);
      ClusterWritten(g, d, disk[..], data, c, buf);
      data := data[c := buf];
      CopiesSame(g, d, disk[..], fat);
    }

    /** `fat32_clear_cluster`, sector by sector. */
    method ClearCluster(c: nat)
      requires Valid() && InRange(g, c)
      modifies this`data, disk
      ensures Valid()
      ensures data == old(data)[c := Zeros(g.bytesPerCluster)]
    {
      hide Mul, Splice, ClusterPos, ClusterToSector, InfoWord, ClustersHold, InAllCopies, SameEntries, DeviceSize;
      FatBounds();
      ClusterAddressing(g, c);
      var sector := ClusterToSector(g, c);
      ghost var d := disk[..];
      SpliceNothing(d, ClusterPos(g, c));
      var i := 0;
      while i < g.sectorsPerCluster
        invariant 0 <= i <= g.sectorsPerCluster && data == old(data)
        invariant disk.Length == |d| && disk[..] == Splice(d, ClusterPos(g, c), Zeros(SECTOR * i))
      {
        ghost var d1 := disk[..];
        Bdwrite(sector + i, Zeros(SECTOR));
        SpliceAppend(d, ClusterPos(g, c), Zeros(SECTOR * i), Zeros(SECTOR));
        assert Zeros(SECTOR * i) + Zeros(SECTOR) == Zeros(SECTOR * (i + 1));
        i := i + 1;
      }
      DataWritten(g, d, disk[..], ClusterPos(g, c), ClusterPos(g, c) + g.bytesPerCluster);
      ClusterWritten(g, d, disk[..], data, c, Zeros(g.bytesPerCluster));
      data := data[c := Zeros(g.bytesPerCluster)];
      CopiesSame(g, d, disk[..], fat);
    }

    /** Whether the read of the FSInfo sector succeeds is up to the device. */
    method ReadInfo() returns (ok: bool, buf: seq<byte>)
      requires Valid()
      ensures |buf| == SECTOR
      ensures buf == disk[SectorPos(g.fsinfoSector)..SectorPos(g.fsinfoSector) + SECTOR]
    {
      Areas(g);
      ok := *;
      buf := Bread(g.fsinfoSector, 1);
    }

    /** Writes back the FSInfo sector with a new free count and, if given, a new hint. */
    method WriteInfo(buf: seq<byte>, free: nat, next: Option<nat>)
      requires Valid() && free < WORD && (next.Some? ==> next.value < WORD)
      requires |buf| == SECTOR
      requires SectorPos(g.fsinfoSector) + SECTOR <= disk.Length
      requires buf == disk[SectorPos(g.fsinfoSector)..SectorPos(g.fsinfoSector) + SECTOR]
      modifies this`infoFree, this`infoNext, disk
      ensures Valid()
      ensures infoFree == free && infoNext == if next.Some? then next.value else old(infoNext)
    {
      hide Mul, Splice, Wle32, InfoWord, ClustersHold, InAllCopies, SameEntries, SameClusters, DeviceSize;
      Areas(g);
      ghost var d := disk[..];
      Bdwrite(g.fsinfoSector, NewInfo(buf, free, next));
      InfoWritten(g, d, disk[..]);
      CopiesSame(g, d, disk[..], fat);
      HeldSame(g, d, disk[..], data);
      InfoStored(g, d, disk[..], buf, free, next);
      infoFree := free;
      infoNext := if next.Some? then next.value else infoNext;
    }
  }

  /** The two words read back from the FSInfo sector after `WriteInfo`. */
  lemma InfoStored(g: Geometry, d: seq<byte>, d': seq<byte>, buf: seq<byte>, free: nat, next: Option<nat>)
    requires Consistent(g) && |d| == DeviceSize(g) && |buf| == SECTOR
    requires SectorPos(g.fsinfoSector) + SECTOR <= |d|
    requires buf == d[SectorPos(g.fsinfoSector)..SectorPos(g.fsinfoSector) + SECTOR]
    requires free < WORD && (next.Some? ==> next.value < WORD)
    requires d' == Splice(d, SectorPos(g.fsinfoSector), NewInfo(buf, free, next))
    ensures |d'| == |d| && InfoWord(g, d', INFO_FREE) == free
    ensures InfoWord(g, d', INFO_NEXT) == if next.Some? then next.value else InfoWord(g, d, INFO_NEXT)
  {
    hide Mul, Splice, Wle32, Rle32;
    Areas(g);
    var p := SectorPos(g.fsinfoSector);
    var buf2 := NewInfo(buf, free, next);
    assert d'[p..p + SECTOR] == buf2;
    assert buf2[INFO_FREE..INFO_FREE + 4] == Wle32(free);
    SliceOfSlice(d', p, SECTOR, INFO_FREE, 4);
    Rle32Same(d', p + INFO_FREE, Wle32(free), 0);
    SliceOfSlice(d', p, SECTOR, INFO_NEXT, 4);
    if next.Some? {
      Rle32Same(d', p + INFO_NEXT, Wle32(next.value), 0);
    } else {
      assert buf2[INFO_NEXT..INFO_NEXT + 4] == buf[INFO_NEXT..INFO_NEXT + 4];
      SliceOfSlice(d, p, SECTOR, INFO_NEXT, 4);
      Rle32Same(d', p + INFO_NEXT, d, p + INFO_NEXT);
    }
  }

  function NewInfo(buf: seq<byte>, free: nat, next: Option<nat>): (buf2: seq<byte>)
    requires |buf| == SECTOR
    ensures |buf2| == SECTOR
  {
    var buf1 := Splice(buf, INFO_FREE, Wle32(free));
    if next.Some? then Splice(buf1, INFO_NEXT, Wle32(next.value)) else buf1
  }

  lemma SpliceNothing<T>(s: seq<T>, pos: nat)
    requires pos <= |s|
    ensures Splice(s, pos, []) == s
  {
  }

  lemma SpliceAppend<T>(s: seq<T>, pos: nat, t: seq<T>, u: seq<T>)
    requires pos + |t| + |u| <= |s|
    ensures Splice(Splice(s, pos, t), pos + |t|, u) == Splice(s, pos, t + u)
  {
  }
}
