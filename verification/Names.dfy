/** Names on disk: 8.3 names, long names in slots of thirteen characters, and exactly which names
    the driver reads back as they were written (fat32_util.c, fat32_dir.c). */
module Names {
  import opened Bytes
  import opened Layout
  import opened Slots

  /** A C string that fits the name buffer: no zero byte, 1 to 255 bytes. */
  predicate IsName(name: seq<byte>) {
    1 <= |name| <= 255 && forall i :: 0 <= i < |name| ==> name[i] != 0
  }

  /** The two names that stand for a directory itself and its parent. */
  predicate IsDots(name: seq<byte>) {
    name == [DOT] || name == [DOT, DOT]
  }

  // ---- 8.3 names ----

  /** The characters that `fat32_name_is_short` lets pass. */
  predicate ShortChar(c: byte) {
    || c >= 128
    || 0x41 <= c <= 0x5A || 0x30 <= c <= 0x39
    || c == 0x24 || c == 0x25 || c == 0x27 || c == 0x2D || c == 0x5F || c == 0x40 || c == 0x7E || c == 0x60
    || c == 0x21 || c == 0x28 || c == 0x29 || c == 0x7B || c == 0x7D || c == 0x5E || c == 0x23 || c == 0x26
  }

  /** The index of the first dot, or the length. */
  function DotPos(name: seq<byte>, i: nat): (d: nat)
    requires i <= |name|
    ensures i <= d <= |name| && (d < |name| ==> name[d] == DOT)
    ensures forall j :: i <= j < d ==> name[j] != DOT
    decreases |name| - i
  {
    if i == |name| || name[i] == DOT then i else DotPos(name, i + 1)
  }

  /** A valid 8.3 name: the two dot names, or a base of 1 to 8 and an optional extension of 1 to 3
      valid characters. */
  predicate IsShort(name: seq<byte>) {
    if |name| > 0 && name[0] == DOT then |name| == 1 || (|name| == 2 && name[1] == DOT)
    else
      var d := DotPos(name, 0);
      && d <= 8 && (forall j :: 0 <= j < d ==> ShortChar(name[j]))
      && (d < |name| ==> 1 <= |name| - d - 1 <= 3 && forall j :: d < j < |name| ==> ShortChar(name[j]))
  }

  /** `fat32_name_is_short`. */
  method NameIsShort(name: seq<byte>) returns (short: bool)
    requires |name| > 0
    ensures short == IsShort(name)
  {
    if name[0] == DOT {
      return |name| == 1 || (|name| == 2 && name[1] == DOT);
    }
    ghost var d := DotPos(name, 0);
    if |name| > 12 {
      return false;
    }
    var dotPos := -1;
    var i := 0;
    while i < |name|
      invariant 0 <= i <= |name| && -1 <= dotPos < i
      invariant dotPos == -1 ==> i <= d
      invariant dotPos >= 0 ==> dotPos == d
      invariant forall j :: 0 <= j < i && j != dotPos ==> ShortChar(name[j])
    {
      var c := name[i];
      if c == DOT {
        if dotPos != -1 {
          assert !ShortChar(name[i]);
          return false;
        }
        dotPos := i;
      } else if !ShortChar(c) {
        return false;
      }
      i := i + 1;
    }
    if dotPos == -1 {
      return |name| <= 8;
    }
    var extLen := |name| - dotPos - 1;
    return 0 < dotPos <= 8 && 0 < extLen <= 3;
  }

  function Pad(s: seq<byte>, n: nat): (r: seq<byte>)
    requires |s| <= n
    ensures |r| == n
  {
    s + seq(n - |s|, _ => SPACE)
  }

  /** The eleven name bytes that `fat32_create_fdentry` formats. */
  function ShortPadded(name: seq<byte>): (r: seq<byte>)
    requires IsShort(name)
    ensures |r| == 11
  {
    var d := DotPos(name, 0);
    Pad(name[..d], 8) + Pad(if d < |name| then name[d + 1..] else [], 3)
  }

  /** The formatting loops of `fat32_create_fdentry`. */
  method FormatShort(name: seq<byte>) returns (r: seq<byte>)
    requires IsShort(name)
    ensures r == ShortPadded(name)
  {
    hide Pad, ShortChar, IsShort, ShortPadded;
    ShortSizes(name);
    var buf := new byte[11](_ => SPACE);
    ghost var d := DotPos(name, 0);
    var i, j := 0, 0;
    while i < |name| && name[i] != DOT
      invariant 0 <= i == j <= d
      invariant forall k :: 0 <= k < 11 ==> buf[k] == if k < j then name[k] else SPACE
    {
      buf[j] := name[i];
      i, j := i + 1, j + 1;
    }
    if i < |name| && name[i] == DOT {
      i := i + 1;
      j := 8;
      while i < |name|
        invariant d < i <= |name| && j == 8 + (i - d - 1)
        invariant forall k :: 0 <= k < 8 ==> buf[k] == if k < d then name[k] else SPACE
        invariant forall k :: 8 <= k < 11 ==> buf[k] == if k < j then name[d + 1 + (k - 8)] else SPACE
      {
        buf[j] := name[i];
        i, j := i + 1, j + 1;
      }
    }
    r := buf[..];
    PaddedAt(name);
    assert forall k :: 0 <= k < 11 ==> r[k] == ShortPadded(name)[k];
  }

  lemma PadAt(s: seq<byte>, n: nat)
    requires |s| <= n
    ensures forall k :: 0 <= k < n ==> Pad(s, n)[k] == if k < |s| then s[k] else SPACE
  {
  }

  lemma PaddedAt(name: seq<byte>)
    requires IsShort(name)
    ensures var d := DotPos(name, 0);
      && (forall k :: 0 <= k < 8 ==> ShortPadded(name)[k] == if k < d then name[k] else SPACE)
      && (forall k :: 8 <= k < 11 ==> ShortPadded(name)[k] == if d + 1 + (k - 8) < |name| then name[d + 1 + (k - 8)] else SPACE)
  {
    hide Pad, ShortChar, IsShort;
    ShortSizes(name);
    var d := DotPos(name, 0);
    PadAt(name[..d], 8);
    PadAt(if d < |name| then name[d + 1..] else [], 3);
  }

  lemma {:induction false} BeforeSpacePad(s: seq<byte>, n: nat)
    requires |s| <= n && forall i :: 0 <= i < |s| ==> s[i] != SPACE
    ensures BeforeSpace(Pad(s, n)) == s
    decreases n
  {
    if s != [] {
      assert Pad(s, n)[1..] == Pad(s[1..], n - 1);
      BeforeSpacePad(s[1..], n - 1);
    }
  }

  /** An 8.3 name is read back as it was, except the name made of one dot. */
  lemma ShortRoundTrip(name: seq<byte>)
    requires IsShort(name) && |name| > 0
    ensures ShortText(ShortPadded(name)) == if name == [DOT] then [] else name
  {
    hide Pad, BeforeSpace, IsShort, ShortPadded, DotPos;
    var d := DotPos(name, 0);
    var base, ext := name[..d], if d < |name| then name[d + 1..] else [];
    ShortSizes(name);
    ShortHalves(name, base, ext);
    NoSpaces(name);
    NoSpaceFirst(ext);
    BeforeSpacePad(base, 8);
    BeforeSpacePad(ext, 3);
    DotSplit(name, d);
    assert base + [DOT] + ext == base + ([DOT] + ext);
    if name == [DOT] {
      assert name[0] == DOT;
      assert d == 0;
      assert base == [] && ext == [];
    } else if ext == [] {
      assert d == |name|;
      assert base + [] == base;
    }
  }

  lemma ShortHalves(name: seq<byte>, base: seq<byte>, ext: seq<byte>)
    requires IsShort(name)
    requires base == name[..DotPos(name, 0)]
    requires ext == if DotPos(name, 0) < |name| then name[DotPos(name, 0) + 1..] else []
    ensures |base| <= 8 && |ext| <= 3
    ensures ShortPadded(name)[..8] == Pad(base, 8) && ShortPadded(name)[8..11] == Pad(ext, 3)
    ensures ShortPadded(name)[8] == Pad(ext, 3)[0]
  {
    hide Pad, ShortChar;
  }

  lemma NoSpaceFirst(ext: seq<byte>)
    requires |ext| <= 3 && forall i :: 0 <= i < |ext| ==> ext[i] != SPACE
    ensures Pad(ext, 3)[0] == SPACE <==> ext == []
  {
  }

  lemma ShortSizes(name: seq<byte>)
    requires IsShort(name)
    ensures var d := DotPos(name, 0); d <= 8 && (d < |name| ==> |name| - d - 1 <= 3)
    ensures var d := DotPos(name, 0); d + 1 == |name| ==> name == [DOT]
  {
  }

  lemma DotSplit(name: seq<byte>, d: nat)
    requires d <= |name| && (d < |name| ==> name[d] == DOT)
    ensures d < |name| ==> name == name[..d] + [DOT] + name[d + 1..]
    ensures d == |name| ==> name[..d] == name
  {
  }

  lemma NoSpaces(name: seq<byte>)
    requires IsShort(name)
    ensures forall i :: 0 <= i < |name| ==> name[i] != SPACE
  {
  }

  // ---- long names ----

  /** Characters above 127 are read back as question marks. */
  function Seven(name: seq<byte>): (r: seq<byte>)
    ensures |r| == |name|
    ensures forall i :: 0 <= i < |name| ==> r[i] == if name[i] >= 128 then QUESTION else name[i]
  {
    seq(|name|, i requires 0 <= i < |name| => if name[i] >= 128 then QUESTION else name[i])
  }

  function LfnCount(name: seq<byte>): nat {
    (|name| + 12) / 13
  }

  /** Character `j` of LFN slot number `i`: a byte of the name, then one zero, then filling. */
  function NameChar(name: seq<byte>, i: nat, j: nat): (c: nat)
    requires i > 0 && j < 13
    ensures c < 0x1_0000
  {
    var x := (i - 1) * 13 + j;
    if x < |name| then name[x] else if x == |name| then 0 else LFN_FILL
  }

  /** Which character the byte at `b` of an LFN slot belongs to. */
  function CharAt(b: nat): (j: nat)
    requires 1 <= b < 11 || 14 <= b < 26 || 28 <= b < 32
    ensures j < 13 && (b == CharPos(j) || b == CharPos(j) + 1)
  {
    if b < 11 then (b - 1) / 2 else if b < 26 then 5 + (b - 14) / 2 else 11 + (b - 28) / 2
  }

  function LfnByte(name: seq<byte>, i: nat, checksum: byte, b: nat): byte
    requires 0 < i < 32 && b < SLOT
  {
    if b == 0 then i + if i == LfnCount(name) then LFN_LAST else 0
    else if b == 11 then LFN_ATTR
    else if b == 13 then checksum
    else if b == 12 || b == 26 || b == 27 then 0
    else
      var j := CharAt(b);
      if b == CharPos(j) then NameChar(name, i, j) % 0x100 else NameChar(name, i, j) / 0x100
  }

  /** LFN slot number `i` of a name, as `fat32_write_lfn_fdentry` fills it. */
  function LfnSlot(name: seq<byte>, i: nat, checksum: byte): Slot
    requires 0 < i < 32
  {
    seq(SLOT, b requires 0 <= b < SLOT => LfnByte(name, i, checksum, b))
  }

  /** The LFN slots in disk order, the highest number first. */
  function LfnGroup(name: seq<byte>, checksum: byte): (lfn: seq<Slot>)
    requires LfnCount(name) < 32
    ensures |lfn| == LfnCount(name)
  {
    seq(LfnCount(name), p requires 0 <= p < LfnCount(name) => LfnSlot(name, LfnCount(name) - p, checksum))
  }

  lemma LfnSlotFields(name: seq<byte>, i: nat, checksum: byte)
    requires 0 < i < 32
    ensures var s := LfnSlot(name, i, checksum);
      && IsLfn(s) && Sequence(s) == i && (IsLast(s) <==> i == LfnCount(name)) && LfnChecksum(s) == checksum
      && GroupPos(s) == (i - 1) * 13
  {
    var s := LfnSlot(name, i, checksum);
    assert s[0] == LfnByte(name, i, checksum, 0) && s[11] == LFN_ATTR && s[13] == checksum;
  }

  lemma LfnSlotChar(name: seq<byte>, i: nat, checksum: byte, j: nat)
    requires 0 < i < 32 && j < 13
    ensures LfnChar(LfnSlot(name, i, checksum), j) == NameChar(name, i, j)
  {
    var s, b := LfnSlot(name, i, checksum), CharPos(j);
    assert CharAt(b) == j && CharAt(b + 1) == j;
    assert s[b] == LfnByte(name, i, checksum, b) && s[b + 1] == LfnByte(name, i, checksum, b + 1);
  }

  /** What the driver writes for a long name passes as a group. */
  lemma LfnGroupOk(name: seq<byte>, main: Slot)
    requires LfnCount(name) < 32
    ensures GroupOk(LfnGroup(name, Checksum(ShortName(main), 11)), main)
  {
    var ck := Checksum(ShortName(main), 11);
    forall p | 0 <= p < LfnCount(name)
      ensures var s := LfnGroup(name, ck)[p];
        IsLfn(s) && Sequence(s) == LfnCount(name) - p && (IsLast(s) <==> p == 0) && LfnChecksum(s) == ck
    {
      LfnSlotFields(name, LfnCount(name) - p, ck);
    }
  }

  /** The first `n` characters of a slot are copied when they are name characters and there is room. */
  lemma {:induction false} CharsCopied(st: NameState, name: seq<byte>, i: nat, checksum: byte, n: nat)
    requires IsName(name) && 0 < i < 32 && n <= 13 && (i - 1) * 13 + n <= |name|
    requires (i - 1) * 13 + n <= st.size <= NAME_BUFFER
    ensures var r := SetChars(st, (i - 1) * 13, LfnSlot(name, i, checksum), n);
      && r.size == st.size
      && forall x :: 0 <= x < NAME_BUFFER ==>
           r.buf[x] == if (i - 1) * 13 <= x < (i - 1) * 13 + n then Seven(name)[x] else st.buf[x]
    decreases n
  {
    hide LfnSlot, LfnChar;
    if n > 0 {
      CharsCopied(st, name, i, checksum, n - 1);
      LfnSlotChar(name, i, checksum, n - 1);
    }
  }

  /** Behind the end of the name: one zero ends it, the filling changes nothing. */
  lemma {:induction false} CharsEnd(st: NameState, name: seq<byte>, i: nat, checksum: byte, n: nat)
    requires IsName(name) && 0 < i < 32 && n <= 13
    requires (i - 1) * 13 <= |name| < (i - 1) * 13 + n && |name| < st.size <= NAME_BUFFER
    ensures var r := SetChars(st, (i - 1) * 13, LfnSlot(name, i, checksum), n);
      && r.size == |name|
      && forall x :: 0 <= x < |name| ==> r.buf[x] == if (i - 1) * 13 <= x then Seven(name)[x] else st.buf[x]
    decreases n
  {
    hide LfnSlot, LfnChar;
    LfnSlotChar(name, i, checksum, n - 1);
    if (i - 1) * 13 + (n - 1) == |name| {
      CharsCopied(st, name, i, checksum, n - 1);
    } else {
      CharsEnd(st, name, i, checksum, n - 1);
    }
  }

  /** From position `from` on the buffer holds the name, and its length is known. */
  predicate ReadDownTo(st: Reading, name: seq<byte>, from: nat)
    requires |name| < NAME_BUFFER
  {
    st.name.size == |name| && forall x :: from <= x < |name| ==> st.name.buf[x] == Seven(name)[x]
  }

  /** The first slot of the group, the one with the highest number, settles the length. */
  lemma FirstSlotRead(st: Reading, name: seq<byte>, checksum: byte, k: nat)
    requires IsName(name) && st.name.size == NAME_BUFFER
    ensures var n := LfnCount(name);
      && 0 < n < 32 && ReadDownTo(ReadLfn(st, LfnSlot(name, n, checksum), k), name, (n - 1) * 13)
  {
    hide LfnSlot, SetChars;
    var n := LfnCount(name);
    assert (n - 1) * 13 < |name| <= n * 13 && n <= 20;
    LfnSlotFields(name, n, checksum);
    var s := LfnSlot(name, n, checksum);
    var st1 := OpenGroup(st, s, k);
    assert st1.name.size == if n * 13 < NAME_BUFFER then n * 13 else NAME_BUFFER;
    if n * 13 == |name| {
      CharsCopied(st1.name, name, n, checksum, 13);
    } else {
      CharsEnd(st1.name, name, n, checksum, 13);
    }
  }

  /** Every further slot puts thirteen more characters in front. */
  lemma {:induction false} RestRead(st: Reading, name: seq<byte>, checksum: byte, p: nat, k: nat)
    requires IsName(name) && LfnCount(name) < 32 && 0 < p <= LfnCount(name)
    requires ReadDownTo(st, name, (LfnCount(name) - p) * 13)
    ensures ReadDownTo(ReadGroup(st, LfnGroup(name, checksum)[p..], k), name, 0)
    decreases LfnCount(name) - p
  {
    hide LfnSlot, SetChars;
    var n, g := LfnCount(name), LfnGroup(name, checksum);
    if p < n {
      var i := n - p;
      assert g[p] == LfnSlot(name, i, checksum);
      LfnSlotFields(name, i, checksum);
      var st1 := OpenGroup(st, g[p], k);
      CharsCopied(st1.name, name, i, checksum, 13);
      assert g[p..][0] == g[p] && g[p..][1..] == g[p + 1..];
      RestRead(ReadLfn(st, g[p], k), name, checksum, p + 1, k + 1);
    } else {
      assert g[p..] == [];
    }
  }

  /** The long-name round trip: whatever the buffer held, the slots of a name are read as that
      name with every character above 127 replaced. */
  lemma LongRoundTrip(name: seq<byte>, checksum: byte, main: Slot, buf: NameBuffer)
    requires IsName(name)
    ensures LfnCount(name) < 32
    ensures GroupText(LfnGroup(name, checksum), main, buf) == Seven(name)
  {
    hide LfnSlot, SetChars, ReadLfn;
    var g, st := LfnGroup(name, checksum), Begin(buf);
    FirstSlotRead(st, name, checksum, 0);
    assert g[0] == LfnSlot(name, LfnCount(name), checksum);
    RestRead(ReadLfn(st, g[0], 0), name, checksum, 1, 1);
    var r := ReadGroup(st, g, 0);
    assert ReadDownTo(r, name, 0);
    assert r.name.buf[0] == Seven(name)[0] != 0;
    assert FinishName(r.name, main) == r.name;
    assert Text(r.name) == Seven(name);
  }

  // ---- synthetic 8.3 names ----

  /** Hexadecimal digit `i` of `x`, counted from the right. */
  function Nibble(x: nat, i: nat): (n: nat)
    ensures n < 16
  {
    if i == 0 then x % 16 else Nibble(x / 16, i - 1)
  }

  function XorBit(x: nat, y: nat, weight: nat): (n: nat)
    ensures n == 0 || n == weight
  {
    if x == y then 0 else weight
  }

  /** Exclusive or of two hexadecimal digits. */
  function Xor(a: nat, b: nat): (n: nat)
    ensures n < 16
  {
    XorBit(a % 2, b % 2, 1) + XorBit(a / 2 % 2, b / 2 % 2, 2) + XorBit(a / 4 % 2, b / 4 % 2, 4) + XorBit(a / 8 % 2, b / 8 % 2, 8)
  }

  function Hex(n: nat): (c: byte)
    requires n < 16
    ensures 0x30 <= c <= 0x46
  {
    if n < 10 then 0x30 + n else 0x41 + (n - 10)
  }

  /** Digit `p` of the synthetic name: four digits of the cluster, three overlaps, four of the slot. */
  function PlaceDigit(cluster: nat, slot: nat, p: nat): (n: nat)
    requires p < 11
    ensures n < 16
  {
    if p < 4 then Nibble(cluster, 6 - p)
    else if p < 7 then Xor(Nibble(cluster, 6 - p), Nibble(slot, 10 - p))
    else Nibble(slot, 10 - p)
  }

  function PlaceName(cluster: nat, offset: nat): (n: seq<byte>)
    ensures |n| == 11
  {
    seq(11, p requires 0 <= p < 11 => Hex(PlaceDigit(cluster, offset / SLOT, p)))
  }

  /** `fat32_generate_short_name`. */
  method GenerateShortName(cluster: nat, offset: nat) returns (name: seq<byte>)
    ensures name == PlaceName(cluster, offset)
  {
    var slot := offset / SLOT;
    var cNib, oNib, res := new nat[7], new nat[7], new nat[11];
    var i := 0;
    while i < 7
      invariant 0 <= i <= 7
      invariant forall k :: 7 - i <= k < 7 ==> cNib[k] == Nibble(cluster, 6 - k) && oNib[k] == Nibble(slot, 6 - k)
    {
      cNib[6 - i] := Nibble(cluster, i);
      oNib[6 - i] := Nibble(slot, i);
      i := i + 1;
    }
    i := 0;
    while i < 4
      invariant 0 <= i <= 4
      invariant forall k :: 0 <= k < i ==> res[k] == PlaceDigit(cluster, slot, k)
      invariant forall k :: 0 <= k < 7 ==> cNib[k] == Nibble(cluster, 6 - k) && oNib[k] == Nibble(slot, 6 - k)
    {
      res[i] := cNib[i];
      i := i + 1;
    }
    i := 0;
    while i < 3
      invariant 0 <= i <= 3
      invariant forall k :: 0 <= k < 4 + i ==> res[k] == PlaceDigit(cluster, slot, k)
      invariant forall k :: 0 <= k < 7 ==> cNib[k] == Nibble(cluster, 6 - k) && oNib[k] == Nibble(slot, 6 - k)
    {
      res[4 + i] := Xor(cNib[4 + i], oNib[i]);
      assert res[4 + i] == PlaceDigit(cluster, slot, 4 + i);
      i := i + 1;
    }
    i := 0;
    while i < 4
      invariant 0 <= i <= 4
      invariant forall k :: 0 <= k < 7 + i ==> res[k] == PlaceDigit(cluster, slot, k)
      invariant forall k :: 0 <= k < 7 ==> cNib[k] == Nibble(cluster, 6 - k) && oNib[k] == Nibble(slot, 6 - k)
    {
      res[7 + i] := oNib[3 + i];
      i := i + 1;
    }
    name := [];
    i := 0;
    while i < 11
      invariant 0 <= i <= 11 && |name| == i
      invariant forall k :: 0 <= k < i ==> name[k] == PlaceName(cluster, offset)[k]
    {
      name := name + [Hex(res[i])];
      i := i + 1;
    }
  }

  lemma HexInjective(m: nat, n: nat)
    requires m < 16 && n < 16 && Hex(m) == Hex(n)
    ensures m == n
  {
  }

  lemma Bits(b: nat)
    requires b < 16
    ensures b == b % 2 + 2 * (b / 2 % 2) + 4 * (b / 4 % 2) + 8 * (b / 8 % 2)
  {
    assert b / 2 == 2 * (b / 4) + b / 2 % 2 && b / 4 == 2 * (b / 8) + b / 4 % 2;
  }

  lemma XorBitCancels(x: nat, y: nat, z: nat, weight: nat)
    requires x < 2 && y < 2 && z < 2 && weight > 0 && XorBit(x, y, weight) == XorBit(x, z, weight)
    ensures y == z
  {
  }

  /** Four terms that are 0 or their weight are determined by their sum. */
  lemma WeightsDetermine(p: nat, q: nat, r: nat, t: nat, p': nat, q': nat, r': nat, t': nat)
    requires (p == 0 || p == 1) && (q == 0 || q == 2) && (r == 0 || r == 4) && (t == 0 || t == 8)
    requires (p' == 0 || p' == 1) && (q' == 0 || q' == 2) && (r' == 0 || r' == 4) && (t' == 0 || t' == 8)
    requires p + q + r + t == p' + q' + r' + t'
    ensures p == p' && q == q' && r == r' && t == t'
  {
  }

  lemma XorCancels(a: nat, b: nat, c: nat)
    requires b < 16 && c < 16 && Xor(a, b) == Xor(a, c)
    ensures b == c
  {
    hide XorBit;
    WeightsDetermine(XorBit(a % 2, b % 2, 1), XorBit(a / 2 % 2, b / 2 % 2, 2),
                     XorBit(a / 4 % 2, b / 4 % 2, 4), XorBit(a / 8 % 2, b / 8 % 2, 8),
                     XorBit(a % 2, c % 2, 1), XorBit(a / 2 % 2, c / 2 % 2, 2),
                     XorBit(a / 4 % 2, c / 4 % 2, 4), XorBit(a / 8 % 2, c / 8 % 2, 8));
    XorBitCancels(a % 2, b % 2, c % 2, 1);
    XorBitCancels(a / 2 % 2, b / 2 % 2, c / 2 % 2, 2);
    XorBitCancels(a / 4 % 2, b / 4 % 2, c / 4 % 2, 4);
    XorBitCancels(a / 8 % 2, b / 8 % 2, c / 8 % 2, 8);
    Bits(b);
    Bits(c);
  }

  lemma {:induction false} NibblesDetermine(x: nat, y: nat, n: nat)
    requires x / 16 < Power16(n) && y / 16 < Power16(n)
    requires forall i :: 0 <= i <= n ==> Nibble(x, i) == Nibble(y, i)
    ensures x == y
    decreases n
  {
    assert Nibble(x, 0) == Nibble(y, 0);
    if n > 0 {
      forall i | 0 <= i <= n - 1
        ensures Nibble(x / 16, i) == Nibble(y / 16, i)
      {
        assert Nibble(x, i + 1) == Nibble(y, i + 1);
      }
      NibblesDetermine(x / 16, y / 16, n - 1);
    }
  }

  function Power16(n: nat): nat {
    if n == 0 then 1 else 16 * Power16(n - 1)
  }

  /** Within one directory the synthetic names of different places differ. */
  lemma PlaceNamesDiffer(cluster: nat, offset: nat, offset': nat)
    requires offset / SLOT / 16 < Power16(6) && offset' / SLOT / 16 < Power16(6)
    requires PlaceName(cluster, offset) == PlaceName(cluster, offset')
    ensures offset / SLOT == offset' / SLOT
  {
    var x, y := offset / SLOT, offset' / SLOT;
    forall i | 0 <= i <= 6
      ensures Nibble(x, i) == Nibble(y, i)
    {
      var p := 10 - i;
      assert Hex(PlaceDigit(cluster, x, p)) == PlaceName(cluster, offset)[p] == PlaceName(cluster, offset')[p];
      HexInjective(PlaceDigit(cluster, x, p), PlaceDigit(cluster, y, p));
      if p < 7 {
        XorCancels(Nibble(cluster, 6 - p), Nibble(x, i), Nibble(y, i));
      }
    }
    NibblesDetermine(x, y, 6);
  }

  // ---- the 8.3 slot and the whole entry ----

  /** A time stamp as the slot stores it. */
  datatype Stamp = Stamp(date: nat, time: nat, tenths: byte)

  /** The 8.3 slot that `fat32_create_fdentry` prepares; its size field is 0. */
  function MainSlot(name: seq<byte>, attr: byte, t: Stamp, cluster: nat): (s: Slot)
    requires |name| == 11
    ensures ShortName(s) == name && Attr(s) == attr && FileSize(s) == 0
    ensures cluster < WORD ==> FirstCluster(s) == cluster
  {
    var s := name + [attr, 0, t.tenths] + Wle16(t.time) + Wle16(t.date) + Wle16(t.date) + Wle16(cluster / 0x1_0000)
             + Wle16(t.time) + Wle16(t.date) + Wle16(cluster % 0x1_0000) + Wle32(0);
    assert s[20] == Wle16(cluster / 0x1_0000)[0] && s[21] == Wle16(cluster / 0x1_0000)[1];
    assert s[26] == Wle16(cluster % 0x1_0000)[0] && s[27] == Wle16(cluster % 0x1_0000)[1];
    assert s[28..32] == Wle32(0);
    s
  }

  /** The bytes of the slot, in the order of the format: the time of creation before its date, then the
      date of access, the time and date of writing, and the two halves of the first cluster apart. */
  lemma MainSlotBytes(name: seq<byte>, attr: byte, t: Stamp, cluster: nat)
    requires |name| == 11
    ensures var s := MainSlot(name, attr, t, cluster);
      && s[..11] == name && s[11] == attr && s[12] == 0 && s[13] == t.tenths
      && Rle16(s, 14) == t.time % 0x1_0000 && Rle16(s, 16) == t.date % 0x1_0000
      && Rle16(s, 18) == t.date % 0x1_0000
      && Rle16(s, 22) == t.time % 0x1_0000 && Rle16(s, 24) == t.date % 0x1_0000
      && Rle16(s, 20) == cluster / 0x1_0000 % 0x1_0000 && Rle16(s, 26) == cluster % 0x1_0000
      && s[28] == s[29] == s[30] == s[31] == 0
  {
    hide Wle16, Wle32;
    var s := MainSlot(name, attr, t, cluster);
    var time, date, high, low := Wle16(t.time), Wle16(t.date), Wle16(cluster / 0x1_0000), Wle16(cluster % 0x1_0000);
    assert s[14] == time[0] && s[15] == time[1] && s[16] == date[0] && s[17] == date[1] && s[18] == date[0] && s[19] == date[1];
    assert s[20] == high[0] && s[21] == high[1] && s[22] == time[0] && s[23] == time[1] && s[24] == date[0] && s[25] == date[1];
    assert s[26] == low[0] && s[27] == low[1];
    assert Rle16(time, 0) == t.time % 0x1_0000 && Rle16(date, 0) == t.date % 0x1_0000;
    assert s[28..32] == Wle32(0);
    ZeroWord();
  }

  lemma ZeroWord()
    ensures Wle32(0) == [0, 0, 0, 0]
  {
  }

  /** The eleven bytes that an entry for `name` gets at `offset` of the directory at `cluster`. */
  function DiskName(name: seq<byte>, cluster: nat, offset: nat): (n: seq<byte>)
    ensures |n| == 11
  {
    if IsShort(name) then ShortPadded(name) else PlaceName(cluster, offset)
  }

  /** The number of slots of an entry. */
  function SlotCount(name: seq<byte>): nat {
    if IsShort(name) then 1 else LfnCount(name) + 1
  }

  /** The LFN slots of an entry. */
  function EntryLfn(name: seq<byte>, main: Slot): (lfn: seq<Slot>)
    requires IsName(name)
    ensures |lfn| + 1 == SlotCount(name)
  {
    if IsShort(name) then [] else LfnGroup(name, Checksum(ShortName(main), 11))
  }

  /** The name under which an entry is listed. */
  function Shown(name: seq<byte>): seq<byte> {
    if IsShort(name) then (if name == [DOT] then [] else name) else Seven(name)
  }

  /** A short name that starts with 0xE5 makes a slot that reads as deleted. */
  predicate Visible(name: seq<byte>) {
    !(IsShort(name) && name != [] && name[0] == DELETED)
  }

  /** The attribute bytes that the driver gives to new entries. */
  predicate NewAttr(attr: byte) {
    attr == 0 || attr == READ_ONLY || attr == DIRECTORY || attr == DIRECTORY + READ_ONLY
  }

  predicate MainFor(main: Slot, name: seq<byte>, cluster: nat, offset: nat) {
    ShortName(main) == DiskName(name, cluster, offset) && NewAttr(Attr(main)) && FileSize(main) == 0
  }

  lemma MainForIsMain(main: Slot, name: seq<byte>, cluster: nat, offset: nat)
    requires IsName(name) && MainFor(main, name, cluster, offset)
    ensures IsMain(main) <==> Visible(name)
    ensures !Visible(name) ==> main[0] == DELETED && SlotCount(name) == 1
    ensures main[0] != 0
  {
    hide Pad;
    assert main[0] == ShortName(main)[0];
    if IsShort(name) {
      PaddedAt(name);
    }
  }

  /** The entry that the driver writes for a name is read back under `Shown(name)`, whatever the
      name buffer holds, and passes the checks. */
  lemma EntryReadBack(main: Slot, name: seq<byte>, cluster: nat, offset: nat)
    requires IsName(name) && MainFor(main, name, cluster, offset) && Visible(name)
    ensures ItemOk(Live(EntryLfn(name, main), main))
    ensures forall buf: NameBuffer :: buf[0] == 0 ==> GroupText(EntryLfn(name, main), main, buf) == Shown(name)
  {
    hide LfnGroup, IsShort, ShortPadded, ReadGroup, FinishName, Checksum, ShortText;
    MainForIsMain(main, name, cluster, offset);
    forall buf: NameBuffer | buf[0] == 0
      ensures GroupText(EntryLfn(name, main), main, buf) == Shown(name)
    {
      if IsShort(name) {
        ShortReadBack(main, name, buf);
      } else {
        LongRoundTrip(name, Checksum(ShortName(main), 11), main, buf);
      }
    }
    if !IsShort(name) {
      LongRoundTrip(name, Checksum(ShortName(main), 11), main, Zeros(256));
      LfnGroupOk(name, main);
    }
  }

  lemma ShortReadBack(main: Slot, name: seq<byte>, buf: NameBuffer)
    requires |name| > 0 && IsShort(name) && ShortName(main) == ShortPadded(name) && buf[0] == 0
    ensures GroupText([], main, buf) == Shown(name)
  {
    hide ShortText, ShortPadded, IsShort;
    ShortRoundTrip(name);
    var t := ShortText(ShortName(main));
    assert Splice(buf, 0, t + [0])[..|t|] == t;
  }

  /** The names that the driver lists as they were given: short ones other than "." that do not
      start with byte 0xE5, and long ones of 7-bit characters. */
  predicate RoundTrips(name: seq<byte>) {
    if IsShort(name) then name != [DOT] && name != [] && name[0] != DELETED
    else forall i :: 0 <= i < |name| ==> name[i] < 128
  }

  /** Exactly these names survive being written and read. */
  lemma RoundTripExact(main: Slot, name: seq<byte>, cluster: nat, offset: nat)
    requires IsName(name) && MainFor(main, name, cluster, offset)
    ensures RoundTrips(name)
       <==> (IsMain(main) && forall buf: NameBuffer :: buf[0] == 0 ==> GroupText(EntryLfn(name, main), main, buf) == name)
  {
    hide IsShort, GroupText, EntryLfn, MainFor;
    MainForIsMain(main, name, cluster, offset);
    if Visible(name) {
      EntryReadBack(main, name, cluster, offset);
      assert Zeros(256)[0] == 0;
      SevenIsSame(name);
      var buf: NameBuffer := Zeros(256);
      assert GroupText(EntryLfn(name, main), main, buf) == Shown(name);
    }
  }

  lemma SevenIsSame(name: seq<byte>)
    ensures Seven(name) == name <==> forall i :: 0 <= i < |name| ==> name[i] < 128
  {
    if Seven(name) == name {
      forall i | 0 <= i < |name|
        ensures name[i] < 128
      {
        assert Seven(name)[i] == name[i];
      }
    }
  }

  /** A name other than the dot names is listed as one, and its 8.3 name does not start with a dot. */
  lemma ShownNotDots(main: Slot, name: seq<byte>, cluster: nat, offset: nat)
    requires IsName(name) && MainFor(main, name, cluster, offset)
    ensures IsDots(Shown(name)) <==> name == [DOT, DOT]
    ensures main[0] != DOT
  {
    hide Pad, ShortPadded, PlaceDigit;
    assert main[0] == ShortName(main)[0];
    if IsShort(name) {
      PaddedAt(name);
    } else {
      assert Seven(name)[0] == if name[0] >= 128 then QUESTION else name[0];
    }
  }

  /** Every long name with characters above 127 is listed as another name, which is listed as it is:
      the driver looks for the bytes it was given but lists question marks. */
  lemma HighCharactersClash(name: seq<byte>)
    requires IsName(name) && !IsShort(name) && !RoundTrips(name)
    ensures var other := Seven(name);
      IsName(other) && other != name && Shown(other) == Shown(name) == other && RoundTrips(other)
  {
    hide ShortPadded;
    var other := Seven(name);
    SevenIsSame(name);
    SevenIsSame(other);
    var i :| 0 <= i < |name| && name[i] >= 128;
    assert other[i] == QUESTION && !ShortChar(QUESTION);
  }
}
