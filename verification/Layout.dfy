/** The geometry of a mounted volume and where its sectors lie on the device (fat32_vfs.c). */
module Layout {
  import opened Bytes

  const FREE: nat := 0
  const CLUSTER_MIN: nat := 2
  const CLUSTER_MAX: nat := 0x0FFF_FFEF
  const BAD: nat := 0x0FFF_FFF7
  const EOC_MIN: nat := 0x0FFF_FFF8
  const EOC: nat := 0x0FFF_FFFF
  const ENTRY_LIMIT: nat := 0x1000_0000
  const UNKNOWN: nat := 0xFFFF_FFFF
  const WORD: nat := 0x1_0000_0000
  const SECTOR: nat := 512

  /** The values of a `uint32_t`. */
  type Word = w: int | 0 <= w < WORD

  function U32(x: int): Word {
    x % WORD
  }

  function Pow2(k: nat): (p: nat)
    ensures p > 0
  {
    if k == 0 then 1 else 2 * Pow2(k - 1)
  }

  /** Multiplication under a name, so that proofs that only need congruence can hide it. */
  function Mul(a: nat, b: nat): nat {
    a * b
  }

  lemma MulMonotone(a: nat, b: nat, x: nat)
    requires a <= b
    ensures Mul(a, x) <= Mul(b, x)
  {
  }

  lemma MulSucc(a: nat, x: nat)
    ensures Mul(a + 1, x) == Mul(a, x) + x && Mul(0, x) == 0 && Mul(1, x) == x
  {
  }

  /** The C operator `>>`. */
  function Shr(x: nat, k: nat): nat {
    if k == 0 then x else Shr(x / 2, k - 1)
  }

  /** The C operator `<<`, before any cut to 32 bits. */
  function Shl(x: nat, k: nat): nat {
    Mul(x, Pow2(k))
  }

  /** The C operator `&`. */
  function And(x: nat, m: nat): nat
    decreases x
  {
    if x == 0 || m == 0 then 0
    else (if x % 2 == 1 && m % 2 == 1 then 1 else 0) + 2 * And(x / 2, m / 2)
  }

  /** Shifting by `k` and masking with 2^k - 1 are quotient and remainder by 2^k. */
  lemma {:induction false} ShrAnd(x: nat, q: nat, r: nat, k: nat)
    requires x == Mul(q, Pow2(k)) + r && r < Pow2(k)
    ensures Shr(x, k) == q && And(x, Pow2(k) - 1) == r
  {
    if k > 0 {
      var p := Pow2(k - 1);
      MulTwice(q, p);
      assert x / 2 == Mul(q, p) + r / 2;
      ShrAnd(x / 2, q, r / 2, k - 1);
      assert (2 * p - 1) / 2 == p - 1 && (2 * p - 1) % 2 == 1;
      assert x % 2 == r % 2;
      AndZero(p - 1);
    }
  }

  lemma MulTwice(q: nat, p: nat)
    ensures Mul(q, 2 * p) == 2 * Mul(q, p)
  {
  }

  lemma AndZero(m: nat)
    ensures And(0, m) == 0
  {
  }

  /** The position of the highest set bit; 0 for 0. */
  method Log2(n: nat) returns (bit: nat)
    ensures n > 0 ==> Pow2(bit) <= n < 2 * Pow2(bit)
    ensures n == 0 ==> bit == 0
  {
    var m := n;
    bit := 0;
    while m > 1
      invariant n > 0 ==> m > 0 && m * Pow2(bit) <= n < (m + 1) * Pow2(bit)
      invariant n == 0 ==> m == 0 && bit == 0
    {
      HalveBounds(m, Pow2(bit), n);
      m := m / 2;
      bit := bit + 1;
    }
  }

  lemma HalveBounds(m: nat, p: nat, n: nat)
    requires m * p <= n < (m + 1) * p
    ensures m / 2 * (2 * p) <= n < (m / 2 + 1) * (2 * p)
  {
    var h := m / 2;
    assert m == 2 * h || m == 2 * h + 1;
    assert h * (2 * p) == 2 * h * p;
    assert (h + 1) * (2 * p) == 2 * h * p + 2 * p;
    if m == 2 * h {
      assert m * p == 2 * h * p;
      assert (m + 1) * p == 2 * h * p + p;
    } else {
      assert m * p == 2 * h * p + p;
      assert (m + 1) * p == 2 * h * p + 2 * p;
    }
  }

  lemma Pow2Monotone(a: nat, b: nat)
    requires a < b
    ensures 2 * Pow2(a) <= Pow2(b)
  {
    if a < b - 1 {
      Pow2Monotone(a, b - 1);
    }
  }

  /** A power of two lies in only one of the intervals that `Log2` distinguishes. */
  lemma Log2OfPow2(k: nat, bit: nat)
    requires Pow2(bit) <= Pow2(k) < 2 * Pow2(bit)
    ensures bit == k
  {
    if bit < k {
      Pow2Monotone(bit, k);
    } else if k < bit {
      Pow2Monotone(k, bit);
    }
  }

  /** The fields of the mount structure that `fat32_read_boot` computes; sectors are absolute. */
  datatype Geometry = Geometry(
    partitionOffset: nat, bytesPerSector: nat, sectorsPerCluster: nat, bytesPerCluster: nat,
    reservedSectors: nat, sectorShift: nat, sectorMask: nat, clusterShift: nat, clusterMask: nat,
    spcShift: nat, numFats: nat, fatSize: nat, rootCluster: nat, totalSectors: nat,
    dataStart: nat, clusterCount: nat, fsinfoSector: nat, fatStart: nat)

  /** The highest cluster number. */
  function MaxCluster(g: Geometry): nat {
    g.clusterCount + 1
  }

  predicate InRange(g: Geometry, c: int) {
    CLUSTER_MIN <= c <= MaxCluster(g)
  }

  /** What the rest of the driver relies on: shifts and masks agree with the sizes they stand for,
      and FSInfo, the FAT copies and the clusters follow each other inside the partition. */
  ghost predicate Consistent(g: Geometry) {
    && g.bytesPerSector == SECTOR && Pow2(g.sectorShift) == SECTOR && g.sectorMask == SECTOR - 1
    && g.sectorsPerCluster > 0 && Pow2(g.spcShift) == g.sectorsPerCluster
    && g.bytesPerCluster == SECTOR * g.sectorsPerCluster
    && Pow2(g.clusterShift) == g.bytesPerCluster && g.clusterMask == g.bytesPerCluster - 1
    && g.numFats > 0
    && g.fatStart == g.partitionOffset + g.reservedSectors
    && g.partitionOffset < g.fsinfoSector < g.fatStart
    && g.dataStart == g.fatStart + Mul(g.numFats, g.fatSize)
    && g.dataStart + Mul(g.clusterCount, g.sectorsPerCluster) <= g.partitionOffset + g.totalSectors
    && g.partitionOffset + g.totalSectors <= WORD
    && 4 * (g.clusterCount + 2) <= SECTOR * g.fatSize
    && MaxCluster(g) <= CLUSTER_MAX
  }

  /** The decoded parameters of the boot sector. */
  datatype Boot = Boot(bytesPerSector: nat, sectorsPerCluster: nat, reservedSectors: nat, numFats: nat,
                       fatSize: nat, rootCluster: nat, totalSectors: nat, fsInfo: nat)

  function DecodeBoot(br: seq<byte>): Boot
    requires |br| == SECTOR
  {
    Boot(Rle16(br, 11), br[13], Rle16(br, 14), br[16], Rle32(br, 36), Rle32(br, 44), Rle32(br, 32), Rle16(br, 48))
  }

  /** A boot sector as the format prescribes it: 512-byte sectors, power-of-two clusters, all
      areas inside the volume, and FATs long enough for every cluster. */
  ghost predicate WellFormedBoot(b: Boot, partitionOffset: nat) {
    && b.bytesPerSector == SECTOR
    && 0 < b.sectorsPerCluster < 256 && (exists k: nat :: Pow2(k) == b.sectorsPerCluster)
    && b.numFats > 0
    && 0 < b.fsInfo < b.reservedSectors
    && b.reservedSectors + Mul(b.numFats, b.fatSize) <= b.totalSectors
    && 4 * (ClustersThatFit(b) + 2) <= SECTOR * b.fatSize
    && ClustersThatFit(b) + 1 <= CLUSTER_MAX
    && partitionOffset + b.totalSectors < WORD
  }

  /** The number of whole clusters behind the FATs. */
  ghost function ClustersThatFit(b: Boot): nat
    requires b.sectorsPerCluster > 0 && b.reservedSectors + Mul(b.numFats, b.fatSize) <= b.totalSectors
  {
    (b.totalSectors - (b.reservedSectors + Mul(b.numFats, b.fatSize))) / b.sectorsPerCluster
  }

  /** The geometry that a boot sector describes. */
  ghost predicate IsGeometry(b: Boot, partitionOffset: nat, g: Geometry)
    requires WellFormedBoot(b, partitionOffset)
  {
    && Consistent(g) && g.partitionOffset == partitionOffset && g.rootCluster == b.rootCluster
    && g.fatSize == b.fatSize && g.numFats == b.numFats && g.sectorsPerCluster == b.sectorsPerCluster
    && g.reservedSectors == b.reservedSectors && g.totalSectors == b.totalSectors
    && g.fsinfoSector == partitionOffset + b.fsInfo && g.clusterCount == ClustersThatFit(b)
  }

  /** There is only one. */
  lemma GeometryUnique(b: Boot, partitionOffset: nat, g: Geometry, g': Geometry)
    requires WellFormedBoot(b, partitionOffset) && IsGeometry(b, partitionOffset, g) && IsGeometry(b, partitionOffset, g')
    ensures g == g'
  {
    hide Mul, Pow2;
    SamePow2(g.sectorShift, g'.sectorShift);
    SamePow2(g.clusterShift, g'.clusterShift);
    SamePow2(g.spcShift, g'.spcShift);
  }

  lemma SamePow2(k: nat, k': nat)
    requires Pow2(k) == Pow2(k')
    ensures k == k'
  {
    if k < k' {
      Pow2Monotone(k, k');
    } else if k' < k {
      Pow2Monotone(k', k);
    }
  }

  /** The geometry part of `fat32_read_boot`, with the 32-bit wrap-around of the C arithmetic. */
  method ReadGeometry(b: Boot, partitionOffset: nat) returns (g: Geometry)
    requires WellFormedBoot(b, partitionOffset)
    ensures IsGeometry(b, partitionOffset, g)
  {
    hide Mul, Pow2, U32;
    var bytesPerCluster := U32(Mul(b.bytesPerSector, b.sectorsPerCluster));
    ClusterSize(b.bytesPerSector, b.sectorsPerCluster);
    var sectorShift, clusterShift, spcShift := ReadShifts(b.bytesPerSector, bytesPerCluster, b.sectorsPerCluster);
    var dataStart := U32(b.reservedSectors + U32(Mul(b.numFats, b.fatSize)));
    var clusterCount := U32(b.totalSectors - dataStart) / b.sectorsPerCluster;
    AreasFit(b.reservedSectors, Mul(b.numFats, b.fatSize), b.totalSectors, b.sectorsPerCluster);
    AbsoluteSectors(partitionOffset, b.reservedSectors, Mul(b.numFats, b.fatSize), b.totalSectors,
                    b.sectorsPerCluster, clusterCount, b.fsInfo);
    g := Geometry(partitionOffset, b.bytesPerSector, b.sectorsPerCluster, bytesPerCluster,
                  b.reservedSectors, sectorShift, b.bytesPerSector - 1, clusterShift, bytesPerCluster - 1,
                  spcShift, b.numFats, b.fatSize, b.rootCluster, b.totalSectors,
                  U32(dataStart + partitionOffset), clusterCount,
                  U32(partitionOffset + b.fsInfo), U32(partitionOffset + b.reservedSectors));
  }

  /** `Log2` is exact on powers of two. */
  lemma Log2Exact(n: nat, k: nat, bit: nat)
    requires Pow2(k) == n
    requires Pow2(bit) <= n < 2 * Pow2(bit)
    ensures Pow2(bit) == n
  {
    Log2OfPow2(k, bit);
  }

  /** The three shifts cached by `fat32_read_boot`. */
  method ReadShifts(bytesPerSector: nat, bytesPerCluster: nat, sectorsPerCluster: nat)
    returns (sectorShift: nat, clusterShift: nat, spcShift: nat)
    requires bytesPerSector == SECTOR && bytesPerCluster == SECTOR * sectorsPerCluster
    requires exists k: nat :: Pow2(k) == sectorsPerCluster
    ensures Pow2(sectorShift) == bytesPerSector && Pow2(clusterShift) == bytesPerCluster
    ensures Pow2(spcShift) == sectorsPerCluster
  {
    sectorShift := Log2(bytesPerSector);
    clusterShift := Log2(bytesPerCluster);
    spcShift := Log2(sectorsPerCluster);
    ghost var k: nat :| Pow2(k) == sectorsPerCluster;
    SectorShiftExact(sectorShift);
    ClusterShiftExact(sectorsPerCluster, k, clusterShift);
    Log2Exact(sectorsPerCluster, k, spcShift);
  }

  lemma SectorShiftExact(shift: nat)
    requires Pow2(shift) <= SECTOR < 2 * Pow2(shift)
    ensures Pow2(shift) == SECTOR
  {
    Pow2Of9(0);
    Log2Exact(SECTOR, 9, shift);
  }

  lemma ClusterShiftExact(spc: nat, k: nat, shift: nat)
    requires Pow2(k) == spc
    requires Pow2(shift) <= SECTOR * spc < 2 * Pow2(shift)
    ensures Pow2(shift) == SECTOR * spc
  {
    Pow2Of9(k);
    Log2Exact(SECTOR * spc, k + 9, shift);
  }

  lemma ClusterSize(bps: nat, spc: nat)
    requires bps == SECTOR && spc < 256
    ensures U32(Mul(bps, spc)) == SECTOR * spc
  {
  }

  lemma AbsoluteSectors(p: nat, reserved: nat, fats: nat, total: nat, spc: nat, count: nat, info: nat)
    requires reserved + fats <= total && info < reserved && p + total < WORD && spc > 0
    requires count == (total - (reserved + fats)) / spc
    ensures U32(reserved + fats + p) == p + reserved + fats && U32(p + info) == p + info && U32(p + reserved) == p + reserved
    ensures p + reserved + fats + Mul(count, spc) <= p + total < p + reserved + fats + Mul(count + 1, spc)
  {
    DivBounds(total - (reserved + fats), spc);
  }

  lemma AreasFit(reserved: nat, fats: nat, total: nat, spc: nat)
    requires reserved + fats <= total < WORD && spc > 0
    ensures U32(fats) == fats && U32(reserved + fats) == reserved + fats
    ensures U32(total - (reserved + fats)) == total - (reserved + fats)
    ensures var n := total - (reserved + fats); n / spc * spc <= n < (n / spc + 1) * spc
  {
    DivBounds(total - (reserved + fats), spc);
  }

  lemma Pow2Of9(k: nat)
    ensures Pow2(k + 9) == 512 * Pow2(k)
  {
    assert Pow2(k + 9) == 2 * Pow2(k + 8) == 4 * Pow2(k + 7) == 8 * Pow2(k + 6);
    assert Pow2(k + 6) == 2 * Pow2(k + 5) == 4 * Pow2(k + 4) == 8 * Pow2(k + 3);
    assert Pow2(k + 3) == 2 * Pow2(k + 2) == 4 * Pow2(k + 1) == 8 * Pow2(k);
  }

  lemma DivBounds(x: nat, d: nat)
    requires d > 0
    ensures x / d * d <= x < (x / d + 1) * d
  {
  }

  // ---- byte positions ----

  function SectorPos(sector: nat): nat {
    SECTOR * sector
  }

  function DeviceSize(g: Geometry): nat {
    SectorPos(g.partitionOffset + g.totalSectors)
  }

  /** Where FAT copy `k` starts. */
  function CopyPos(g: Geometry, k: nat): nat {
    SectorPos(g.fatStart + Mul(k, g.fatSize))
  }

  /** Where entry `c` of FAT copy `k` lies: four bytes per cluster from the start of the copy. */
  function EntryPos(g: Geometry, k: nat, c: nat): nat {
    CopyPos(g, k) + 4 * c
  }

  /** Where the bytes of cluster `c` lie. */
  function ClusterPos(g: Geometry, c: nat): nat
    requires c >= CLUSTER_MIN
  {
    SectorPos(g.dataStart + Mul(c - CLUSTER_MIN, g.sectorsPerCluster))
  }

  /** `fat32_cluster_to_sector`. */
  function ClusterToSector(g: Geometry, c: nat): nat
    requires c >= CLUSTER_MIN
  {
    g.dataStart + Shl(c - CLUSTER_MIN, g.spcShift)
  }

  /** The sector of copy 0 and the offset in it that `fat32_rmw_cluster` computes. */
  function FatSector(g: Geometry, c: nat): nat {
    g.fatStart + Shr(U32(c * 4), g.sectorShift)
  }

  function EntryOffset(g: Geometry, c: nat): nat {
    And(U32(c * 4), g.sectorMask)
  }

  /** The shift and mask arithmetic finds the entry, whole, in one sector of the copy. */
  lemma FatAddressing(g: Geometry, k: nat, c: nat)
    requires Consistent(g) && InRange(g, c) && k < g.numFats
    ensures SectorPos(FatSector(g, c) + Mul(k, g.fatSize)) + EntryOffset(g, c) == EntryPos(g, k, c)
    ensures EntryOffset(g, c) + 4 <= SECTOR
    ensures SectorPos(FatSector(g, c) + Mul(k, g.fatSize)) + SECTOR <= CopyPos(g, k + 1)
  {
    hide Mul, Pow2, Shr, And, U32;
    var q, r := SectorOfEntry(c);
    ShrAnd(4 * c, q, r, g.sectorShift);
    MulSucc(k, g.fatSize);
  }

  lemma SectorOfEntry(c: nat) returns (q: nat, r: nat)
    requires c <= CLUSTER_MAX
    ensures U32(c * 4) == 4 * c == SECTOR * q + r && Mul(q, SECTOR) == SECTOR * q
    ensures r + 4 <= SECTOR
  {
    q := c / 128;
    r := 4 * (c % 128);
    MulConst(q);
  }

  lemma MulConst(q: nat)
    ensures Mul(q, SECTOR) == SECTOR * q
  {
  }

  /** The areas of the device in their order. */
  lemma Areas(g: Geometry)
    requires Consistent(g)
    ensures SectorPos(g.fsinfoSector) + SECTOR <= CopyPos(g, 0) <= SectorPos(g.dataStart) <= DeviceSize(g)
    ensures CopyPos(g, 0) == SectorPos(g.fatStart)
    ensures CopyPos(g, g.numFats) == SectorPos(g.dataStart)
  {
    hide Mul, Pow2;
    MulSucc(0, g.fatSize);
  }

  /** The copies follow each other without overlap. */
  lemma CopiesInOrder(g: Geometry, k: nat, k': nat)
    requires k <= k'
    ensures CopyPos(g, k) <= CopyPos(g, k')
  {
    hide Mul;
    MulMonotone(k, k', g.fatSize);
  }

  /** Entries lie inside their copy, and every copy lies in front of the clusters. */
  lemma EntryInCopy(g: Geometry, k: nat, c: nat)
    requires Consistent(g) && InRange(g, c) && k < g.numFats
    ensures CopyPos(g, 0) <= CopyPos(g, k) <= EntryPos(g, k, c)
    ensures EntryPos(g, k, c) + 4 <= CopyPos(g, k + 1) <= SectorPos(g.dataStart) <= DeviceSize(g)
  {
    hide Mul, Pow2;
    MulSucc(k, g.fatSize);
    Areas(g);
    CopiesInOrder(g, 0, k);
    CopiesInOrder(g, k + 1, g.numFats);
  }

  /** Entries of different clusters or of different copies do not share a byte. */
  lemma FatEntriesDisjoint(g: Geometry, k: nat, c: nat, k': nat, c': nat)
    requires Consistent(g) && InRange(g, c) && InRange(g, c') && k < g.numFats && k' < g.numFats
    requires (k, c) != (k', c')
    ensures EntryPos(g, k, c) + 4 <= EntryPos(g, k', c') || EntryPos(g, k', c') + 4 <= EntryPos(g, k, c)
  {
    hide Mul, Pow2;
    EntryInCopy(g, k, c);
    EntryInCopy(g, k', c');
    if k < k' {
      CopiesInOrder(g, k + 1, k');
    } else if k' < k {
      CopiesInOrder(g, k' + 1, k);
    }
  }

  /** Clusters lie inside the partition, behind every FAT copy and behind FSInfo. */
  lemma ClusterAddressing(g: Geometry, c: nat)
    requires Consistent(g) && InRange(g, c)
    ensures SectorPos(ClusterToSector(g, c)) == ClusterPos(g, c)
    ensures SectorPos(g.dataStart) <= ClusterPos(g, c)
    ensures ClusterPos(g, c) + g.bytesPerCluster <= DeviceSize(g)
  {
    hide Mul, Pow2;
    var n := c - CLUSTER_MIN;
    MulMonotone(n + 1, g.clusterCount, g.sectorsPerCluster);
    MulSucc(n, g.sectorsPerCluster);
  }

  /** Different clusters occupy disjoint stretches of the device. */
  lemma ClustersDisjoint(g: Geometry, c: nat, c': nat)
    requires Consistent(g) && CLUSTER_MIN <= c < c'
    ensures ClusterPos(g, c) + g.bytesPerCluster <= ClusterPos(g, c')
  {
    hide Mul, Pow2;
    MulMonotone(c - CLUSTER_MIN + 1, c' - CLUSTER_MIN, g.sectorsPerCluster);
    MulSucc(c - CLUSTER_MIN, g.sectorsPerCluster);
  }

  /** The shift that stands for the cluster size keeps neighbouring clusters apart exactly if the size
      is a power of two, which the driver does not check: `shift` is what `Log2` finds. */
  lemma ClustersApartExact(sectorsPerCluster: nat, shift: nat)
    requires Pow2(shift) <= sectorsPerCluster < 2 * Pow2(shift)
    ensures (forall i: nat :: Shl(i, shift) + sectorsPerCluster <= Shl(i + 1, shift)) <==> exists k: nat :: Pow2(k) == sectorsPerCluster
  {
    hide Pow2;
    var p := Pow2(shift);
    assert Shl(0, shift) == 0 && Shl(1, shift) == p by {
      MulSucc(0, p);
    }
    if k: nat :| Pow2(k) == sectorsPerCluster {
      Log2Exact(sectorsPerCluster, k, shift);
      forall i: nat
        ensures Shl(i, shift) + sectorsPerCluster <= Shl(i + 1, shift)
      {
        MulSucc(i, p);
      }
    }
    if forall i: nat :: Shl(i, shift) + sectorsPerCluster <= Shl(i + 1, shift) {
      assert Shl(0, shift) + sectorsPerCluster <= Shl(0 + 1, shift);
      assert Pow2(shift) == sectorsPerCluster;
    }
  }

  // ---- other sector sizes ----

  /** A mask below bit `k` keeps nothing of a multiple of 2^k. */
  lemma {:induction false} AndHigh(q: nat, m: nat, k: nat)
    requires m < Pow2(k)
    ensures And(Mul(q, Pow2(k)), m) == 0
    decreases k
  {
    hide Mul;
    if k > 0 && m > 0 {
      MulTwice(q, Pow2(k - 1));
      AndHigh(q, m / 2, k - 1);
    }
  }

  /** A mask whose highest bit is `k` keeps that bit. */
  lemma {:induction false} AndTop(m: nat, k: nat)
    requires Pow2(k) <= m < 2 * Pow2(k)
    ensures And(Pow2(k), m) == Pow2(k)
    decreases k
  {
    if k > 0 {
      AndTop(m / 2, k - 1);
      assert Pow2(k) % 2 == 0 && Pow2(k) / 2 == Pow2(k - 1);
    } else {
      assert m == 1;
      AndZero(0);
    }
  }

  lemma {:induction false} AndBound(x: nat, m: nat)
    ensures And(x, m) <= m
    decreases x
  {
    if x > 0 && m > 0 {
      AndBound(x / 2, m / 2);
    }
  }

  lemma {:induction false} AndSelf(m: nat)
    ensures And(m, m) == m
    decreases m
  {
    if m > 0 {
      AndSelf(m / 2);
    }
  }

  /** Where the driver looks for FAT entry `c`, behind the start of the FAT, when the boot sector says
      that a sector has `bytesPerSector` bytes and `shift` is what `Log2` finds for it; the device is
      read in sectors of 512 bytes. */
  function EntryFound(bytesPerSector: nat, shift: nat, c: nat): nat
    requires bytesPerSector > 0
  {
    SectorPos(Shr(U32(c * 4), shift)) + And(U32(c * 4), bytesPerSector - 1)
  }

  /** That is four bytes per cluster, as the format has it, for every cluster number exactly if a sector
      has 512 bytes, which the driver does not check. */
  lemma SectorSizeExact(bytesPerSector: nat, shift: nat)
    requires 0 < bytesPerSector < 0x1_0000 && Pow2(shift) <= bytesPerSector < 2 * Pow2(shift)
    ensures (forall c: nat :: c <= CLUSTER_MAX ==> EntryFound(bytesPerSector, shift, c) == 4 * c) <==> bytesPerSector == SECTOR
  {
    hide Pow2, Shr, And, Mul;
    if bytesPerSector == SECTOR {
      SectorShiftExact(shift);
      forall c: nat | c <= CLUSTER_MAX
        ensures EntryFound(bytesPerSector, shift, c) == 4 * c
      {
        var q, r := SectorOfEntry(c);
        ShrAnd(4 * c, q, r, shift);
      }
    }
    if forall c: nat :: c <= CLUSTER_MAX ==> EntryFound(bytesPerSector, shift, c) == 4 * c {
      EighthSector(bytesPerSector, shift);
      SectorShiftIs(shift);
      if bytesPerSector > SECTOR {
        SecondSector(bytesPerSector, shift);
      }
    }
  }

  /** The entry in which eight sectors of the wrong size show. */
  lemma EighthSector(bytesPerSector: nat, shift: nat)
    requires 0 < bytesPerSector < 0x1_0000 && Pow2(shift) <= bytesPerSector < 2 * Pow2(shift)
    requires forall c: nat :: c <= CLUSTER_MAX ==> EntryFound(bytesPerSector, shift, c) == 4 * c
    ensures Pow2(shift) == SECTOR
  {
    hide Shr, And, Mul;
    var p := Pow2(shift);
    var c := 2 * p;
    assert c <= CLUSTER_MAX && c * 4 == 8 * p && U32(c * 4) == 8 * p;
    MulIs(8, p);
    ShrAnd(8 * p, 8, 0, shift);
    assert Pow2(shift + 1) == 2 * p;
    MulIs(4, 2 * p);
    AndHigh(4, bytesPerSector - 1, shift + 1);
    assert EntryFound(bytesPerSector, shift, c) == SectorPos(8);
  }

  lemma MulIs(a: nat, b: nat)
    ensures Mul(a, b) == a * b
  {
  }

  lemma SectorShiftIs(shift: nat)
    requires Pow2(shift) == SECTOR
    ensures shift == 9
  {
    hide Pow2;
    Pow2Of9(0);
    assert Pow2(0) == 1 by {
      Pow2Zero();
    }
    SamePow2(shift, 9);
  }

  lemma Pow2Zero()
    ensures Pow2(0) == 1
  {
  }

  /** The first entry of the second sector, when sectors are said to be larger than 512 bytes. */
  lemma SecondSector(bytesPerSector: nat, shift: nat)
    requires Pow2(shift) == SECTOR < bytesPerSector < 2 * SECTOR
    ensures EntryFound(bytesPerSector, shift, 128) != 4 * 128
  {
    hide Shr, And, Mul;
    MulIs(1, SECTOR);
    ShrAnd(SECTOR, 1, 0, shift);
    AndTop(bytesPerSector - 1, shift);
    assert U32(128 * 4) == SECTOR;
  }

  /** The offset in a cluster of `size` bytes that the driver computes for an offset in a file. */
  function OffsetFound(size: nat, off: nat): nat
    requires size > 0
  {
    And(off, size - 1)
  }

  /** The offset in a cluster lies in the buffer that is read for it exactly if a sector has no more than
      512 bytes. */
  lemma ClusterBufferExact(bytesPerSector: nat, sectorsPerCluster: nat)
    requires bytesPerSector > 0 && sectorsPerCluster > 0
    ensures Mul(bytesPerSector, sectorsPerCluster) > 0
    ensures (forall off: nat :: OffsetFound(Mul(bytesPerSector, sectorsPerCluster), off) < SectorPos(sectorsPerCluster))
       <==> bytesPerSector <= SECTOR
  {
    hide And;
    var size := Mul(bytesPerSector, sectorsPerCluster);
    SizesCompare(bytesPerSector, sectorsPerCluster);
    if bytesPerSector <= SECTOR {
      forall off: nat
        ensures OffsetFound(size, off) < SectorPos(sectorsPerCluster)
      {
        AndBound(off, size - 1);
      }
    } else {
      AndSelf(size - 1);
      assert OffsetFound(size, size - 1) >= SectorPos(sectorsPerCluster);
    }
  }

  lemma SizesCompare(bytesPerSector: nat, sectorsPerCluster: nat)
    requires bytesPerSector > 0 && sectorsPerCluster > 0
    ensures Mul(bytesPerSector, sectorsPerCluster) > 0
    ensures bytesPerSector <= SECTOR <==> Mul(bytesPerSector, sectorsPerCluster) <= SectorPos(sectorsPerCluster)
  {
    if bytesPerSector <= SECTOR {
      MulMonotone(bytesPerSector, SECTOR, sectorsPerCluster);
    } else {
      MulMonotone(SECTOR + 1, bytesPerSector, sectorsPerCluster);
    }
  }
}
