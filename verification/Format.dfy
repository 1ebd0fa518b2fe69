/** The on-disk format in its own numbers (fat32.h): where a slot, the FSInfo sector and the boot sector have
    their fields, which entries of the FAT stand for what, which characters names are made of.  The model's
    operations and their specifications share the small functions that read these fields; here each is
    given its meaning without them. */
module Format {
  import opened Bytes
  import opened Layout
  import opened Volumes
  import opened Chains
  import opened Clusters
  import opened Calendar
  import opened Slots
  import opened Names
  import opened DirReading
  import opened Vnodes
  import opened Mounting
  import opened Readdir

  // ---- words and bits ----

  /** Words are stored low byte first. */
  lemma LittleEndian(s: seq<byte>, at: nat, v: nat)
    requires at + 4 <= |s|
    ensures Rle16(s, at) == s[at] as nat + 256 * s[at + 1] as nat
    ensures Rle32(s, at) == s[at] as nat + 256 * s[at + 1] as nat + 65536 * s[at + 2] as nat + 16777216 * s[at + 3] as nat
    ensures Wle16(v)[0] == v % 256 && Wle16(v)[1] == v / 256 % 256
    ensures Wle32(v)[0] == v % 256 && Wle32(v)[1] == v / 256 % 256 && Wle32(v)[2] == v / 256 / 256 % 256
            && Wle32(v)[3] == v / 256 / 256 / 256 % 256
  {
  }

  /** A flag is set exactly if the C operator `&` with its mask gives something. */
  lemma FlagIsAnd(b: byte, k: nat)
    ensures Bit(b, Pow2(k)) <==> And(b, Pow2(k)) != 0
  {
    BitIsAnd(b, k);
  }

  lemma {:induction false} BitIsAnd(n: nat, k: nat)
    ensures n / Pow2(k) % 2 == 1 <==> And(n, Pow2(k)) != 0
    decreases k
  {
    if k == 0 {
      AndNothing(n / 2);
      assert n > 0 ==> And(n, 1) == n % 2 + 2 * And(n / 2, 0);
    } else {
      var p := Pow2(k - 1);
      BitIsAnd(n / 2, k - 1);
      HalfOf(n, p);
      assert n > 0 ==> And(n, 2 * p) == 2 * And(n / 2, p);
      AndZero(p);
    }
  }

  lemma AndNothing(n: nat)
    ensures And(n, 0) == 0
  {
  }

  lemma HalfOf(n: nat, p: nat)
    requires p > 0
    ensures n / (2 * p) == n / 2 / p
  {
    var q, r := n / 2 / p, n / 2 % p;
    assert n / 2 == q * p + r;
    QuotientIs(n, 2 * p, q, 2 * r + n % 2);
  }

  // ---- slots ----

  /** The fields of a slot. */
  lemma SlotFields(s: Slot)
    ensures ShortName(s) == s[..11] && Attr(s) == s[11] && LfnChecksum(s) == s[13]
    ensures Sequence(s) == s[0] % 32 && (IsLast(s) <==> s[0] / 64 % 2 == 1)
    ensures FirstCluster(s) == s[26] as nat + 256 * s[27] as nat + 65536 * s[20] as nat + 16777216 * s[21] as nat
    ensures FileSize(s) == s[28] as nat + 256 * s[29] as nat + 65536 * s[30] as nat + 16777216 * s[31] as nat
    ensures DirectorySizeZero(s) <==> s[11] / 16 % 2 == 0 || (s[28] == s[29] == s[30] == s[31] == 0)
  {
  }

  /** What a slot is, by its first byte and its attributes: free after 0 and 0xE5, part of a long name with all
      of the four low attribute bits and no other, a label with bit 3. */
  lemma SlotKindsAre(s: Slot)
    ensures IsFree(s) <==> s[0] == 0 || s[0] == 0xE5
    ensures IsLfn(s) <==> s[0] != 0 && s[0] != 0xE5 && s[11] == 0x0F
    ensures IsLabel(s) <==> s[0] != 0 && s[0] != 0xE5 && s[11] != 0x0F && s[11] / 8 % 2 == 1
    ensures IsMain(s) <==> s[0] != 0 && s[0] != 0xE5 && s[11] / 8 % 2 == 0
  {
  }

  /** The thirteen characters of a long-name slot, two bytes each, in three stretches. */
  lemma LfnCharacters(s: Slot, j: nat)
    requires j < 13
    ensures LfnChar(s, j) == Rle16(s[1..11] + s[14..26] + s[28..32], 2 * j)
  {
    var t := s[1..11] + s[14..26] + s[28..32];
    if j < 5 {
      assert t[2 * j] == s[1 + 2 * j] && t[2 * j + 1] == s[2 + 2 * j];
    } else if j < 11 {
      assert t[2 * j] == s[14 + 2 * (j - 5)] && t[2 * j + 1] == s[15 + 2 * (j - 5)];
    } else {
      assert t[2 * j] == s[28 + 2 * (j - 11)] && t[2 * j + 1] == s[29 + 2 * (j - 11)];
    }
  }

  /** What a long-name slot has behind the end of the name: one zero, then 0xFFFF, which is passed over when the
      name is read. */
  lemma Filling(name: seq<byte>, i: nat, checksum: byte, j: nat, st: NameState, pos: nat)
    requires 0 < i < 32 && j < 13 && (i - 1) * 13 + j >= |name| && st.size <= NAME_BUFFER
    ensures LfnChar(LfnSlot(name, i, checksum), j) == if (i - 1) * 13 + j == |name| then 0 else 0xFFFF
    ensures SetDname(st, pos, 0xFFFF) == st
  {
    hide LfnSlot, LfnChar;
    LfnSlotChar(name, i, checksum, j);
  }

  /** Behind a label nothing is left of what was read before it: not the length of a name, not whether
      there was a long name nor where it started, and not its first character. */
  lemma LabelForgets(slots: seq<Slot>, k: nat, st: Reading, st': Reading)
    requires k < |slots| && IsLabel(slots[k]) && st.name.size <= NAME_BUFFER && st'.name.size <= NAME_BUFFER
    requires st.name.buf[1..] == st'.name.buf[1..]
    ensures Scan(slots, k, st) == Scan(slots, k, st') == Scan(slots, k + 1, Begin(st.name.buf[0 := 0]))
  {
    hide Scan, ReadLfn, FinishName;
    ScanUnfold(slots, k, st);
    ScanUnfold(slots, k, st');
    assert st.name.buf[0 := 0] == [0] + st.name.buf[1..] && st'.name.buf[0 := 0] == [0] + st'.name.buf[1..];
  }

  // ---- names ----

  /** The name of an 8.3 slot: the first bytes up to a space, and, if the ninth byte is none, a dot and the last
      three up to a space. */
  lemma ShortTextIs(name: seq<byte>, m: nat, n: nat)
    requires |name| == 11 && m <= 8 && n <= 3
    requires (forall i :: 0 <= i < m ==> name[i] != 0x20) && (m == 8 || name[m] == 0x20)
    requires (forall i :: 8 <= i < 8 + n ==> name[i] != 0x20) && (n == 3 || name[8 + n] == 0x20)
    ensures ShortText(name) == name[..m] + if n == 0 then [] else [0x2E] + name[8..8 + n]
  {
    hide BeforeSpace;
    BeforeSpaceIs(name[..8], m);
    BeforeSpaceIs(name[8..11], n);
    assert name[..8][..m] == name[..m] && name[8..11][..n] == name[8..8 + n];
  }

  /** The eleven bytes of an 8.3 name: what is before the dot, filled up with spaces to eight, and what is
      behind it, filled up to three. */
  lemma ShortPaddedIs(name: seq<byte>, d: nat, k: nat)
    requires IsShort(name) && d <= |name| && (d == |name| || name[d] == 0x2E) && k < 11
    requires forall i :: 0 <= i < d ==> name[i] != 0x2E
    ensures ShortPadded(name)[k]
         == if k < 8 then (if k < d then name[k] else 0x20) else if d + k - 7 < |name| then name[d + k - 7] else 0x20
  {
    hide ShortChar, IsShort, ShortPadded;
    assert DotPos(name, 0) == d;
    PaddedAt(name);
  }

  /** The characters of 8.3 names: capital letters, digits, sixteen signs, and everything beyond 7 bits. */
  lemma ShortChars(c: byte)
    ensures ShortChar(c)
       <==> c == 0x21 || 0x23 <= c <= 0x29 || c == 0x2D || 0x30 <= c <= 0x39 || 0x40 <= c <= 0x5A || 0x5E <= c <= 0x60
            || c == 0x7B || 0x7D <= c <= 0x7E || c >= 0x80
  {
  }

  lemma HexDigits(n: nat)
    requires n < 16
    ensures Hex(n) == "0123456789ABCDEF"[n] as int
  {
  }

  /** Characters of more than 7 bits are listed as question marks. */
  lemma SevenIs(name: seq<byte>, i: nat)
    requires i < |name|
    ensures |Seven(name)| == |name| && Seven(name)[i] == if name[i] < 128 then name[i] else '?' as int
    ensures IsDots(name) <==> name == ['.' as int] || name == ['.' as int, '.' as int]
  {
  }

  // ---- the FAT, FSInfo and the boot sector ----

  /** What an entry of the FAT says: 0 is a free cluster, 2 up to the last cluster link to it, 0x0FFFFFF7 is a
      bad cluster, and from 0x0FFFFFF8 on a chain ends. */
  lemma EntryCodes(fat: seq<nat>, c: nat)
    requires 2 <= c < |fat| <= 0x0FFF_FFF0
    ensures fat[c] >= 0x0FFF_FFF8 <==> ReadNext(fat, c).0 == ENOSPC
    ensures 2 <= fat[c] < |fat| <==> ReadNext(fat, c) == (OK, fat[c])
    ensures fat[c] < 2 || |fat| <= fat[c] < 0x0FFF_FFF8 <==> ReadNext(fat, c).0 == EIO
    ensures c in FreeSet(fat) <==> fat[c] == 0
    ensures fat[c] != 0 ==> forall start: nat :: !IsFirstFree(fat, start, c)
  {
  }

  /** The last cluster of a chain that grew or was cut carries 0x0FFFFFFF; the clusters behind a cut are 0. */
  lemma EndCodes(fat: seq<nat>, s: seq<nat>, n: nat, parent: nat, c: nat)
    requires In(fat, c) && (parent == 0 || In(fat, parent)) && parent != c
    requires 0 < n <= |s| && ChainInRange(fat, s) && s[n - 1] !in s[n..]
    ensures Linked(fat, parent, c)[c] == 0x0FFF_FFFF && (parent != 0 ==> Linked(fat, parent, c)[parent] == c)
    ensures CutAt(fat, s, n)[s[n - 1]] == 0x0FFF_FFFF && forall i :: n <= i < |s| ==> CutAt(fat, s, n)[s[i]] == 0
  {
    hide CutAt, FreeAll;
    forall i | n <= i < |s|
      ensures CutAt(fat, s, n)[s[i]] == 0
    {
      assert s[i] == s[n..][i - n];
    }
  }

  /** The words of the FSInfo sector: the free count at 488 and the hint at 492, between its three signatures. */
  lemma InfoFields(g: Geometry, d: seq<byte>)
    requires Consistent(g) && |d| == DeviceSize(g)
    ensures var s := InfoSector(g, d);
      && InfoWord(g, d, INFO_FREE) == Rle32(s, 488) && InfoWord(g, d, INFO_NEXT) == Rle32(s, 492)
      && (Signed(s) <==>
            s[0..4] == [0x52, 0x52, 0x61, 0x41] && s[484..488] == [0x72, 0x72, 0x41, 0x61] && s[508..512] == [0, 0, 0x55, 0xAA])
  {
    hide Consistent, InfoSector, InfoWord;
    InfoRead(g, d, 488);
    InfoRead(g, d, 492);
    var s := InfoSector(g, d);
    WordIs(s, 0, 0x52, 0x52, 0x61, 0x41);
    WordIs(s, 484, 0x72, 0x72, 0x41, 0x61);
    WordIs(s, 508, 0, 0, 0x55, 0xAA);
  }

  lemma WordIs(s: seq<byte>, at: nat, a: byte, b: byte, c: byte, e: byte)
    requires at + 4 <= |s|
    ensures Rle32(s, at) == a as nat + 256 * b as nat + 65536 * c as nat + 16777216 * e as nat <==> s[at..at + 4] == [a, b, c, e]
  {
    if Rle32(s, at) == a as nat + 256 * b as nat + 65536 * c as nat + 16777216 * e as nat {
      assert s[at] == a && s[at + 1] == b && s[at + 2] == c && s[at + 3] == e;
    }
    if s[at..at + 4] == [a, b, c, e] {
      assert s[at] == s[at..at + 4][0] && s[at + 1] == s[at..at + 4][1] && s[at + 2] == s[at..at + 4][2] && s[at + 3] == s[at..at + 4][3];
    }
  }

  /** Where the boot sector has its parameters, and its signature in the last two bytes. */
  lemma BootFields(br: seq<byte>)
    requires |br| == SECTOR
    ensures var b := DecodeBoot(br);
      && b.bytesPerSector == Rle16(br, 11) && b.sectorsPerCluster == br[13] && b.reservedSectors == Rle16(br, 14)
      && b.numFats == br[16] && b.totalSectors == Rle32(br, 32) && b.fatSize == Rle32(br, 36)
      && b.rootCluster == Rle32(br, 44) && b.fsInfo == Rle16(br, 48)
    ensures BootSigned(br) <==> br[510] == 0x55 && br[511] == 0xAA
  {
  }

  /** Cluster 2 is the first behind the FATs, the others follow it, and an entry of the FAT is four bytes of which
      the upper four bits do not count. */
  lemma Places(g: Geometry, d: seq<byte>, k: nat, c: nat)
    requires Consistent(g) && |d| == DeviceSize(g) && InRange(g, c) && k < g.numFats
    ensures 2 <= c < g.clusterCount + 2
    ensures ClusterPos(g, c) == 512 * (g.dataStart + Mul(c - 2, g.sectorsPerCluster))
    ensures ClusterPos(g, c) + g.bytesPerCluster <= |d|
    ensures ClusterBytes(g, d, c) == d[ClusterPos(g, c)..ClusterPos(g, c) + g.bytesPerCluster]
    ensures EntryPos(g, k, c) == 512 * (g.fatStart + Mul(k, g.fatSize)) + 4 * c && EntryPos(g, k, c) + 4 <= |d|
    ensures FatEntry(g, d, k, c) == Rle32(d, EntryPos(g, k, c)) % 0x1000_0000
  {
    hide Mul, Rle32;
    ClusterAddressing(g, c);
    EntryInCopy(g, k, c);
  }

  // ---- in memory ----

  /** All flags but two are cleared by a sync. */
  lemma DirtyFlags(flags: set<Flag>)
    ensures flags - DIRTY == flags * {Modified, IsRoot}
  {
    forall f: Flag
      ensures f in DIRTY <==> f != Modified && f != IsRoot
    {
      match f {
        case Modified => case IsRoot => case AtimeDirty => case MtimeDirty =>
        case SizeDirty => case ClusterDirty => case CtimeDirty => case AttrDirty =>
      }
    }
  }

  /** The two lines made up for the root directory, which has no dot entries on disk. */
  lemma RootLines(slots: seq<Slot>, cluster: nat)
    ensures var lines := Rest(slots, true, cluster, 0);
      |lines| >= 2 && lines[0] == Line(['.' as int], 0, 1) && lines[1] == Line(['.' as int, '.' as int], 0, 2)
  {
  }

  /** An inode number holds 28 bits of the cluster, 28 bits of the slot and 8 bits of the count, in this order. */
  lemma InoFields(cluster: nat, offset: nat, count: nat)
    ensures PackIno(cluster, offset, count)
         == cluster % 0x1000_0000 * 0x10_0000_0000 + offset / 32 % 0x1000_0000 * 0x100 + count % 0x100
  {
  }
}
