/** The 32-byte slots of a directory: how `fat32_get_dirent` reads them and what
    `fat32_check_dir_integrity` accepts (fat32_dir.c, fat32_util.c). */
module Slots {
  import opened Bytes
  import opened Layout

  const SLOT: nat := 32
  const NAME_BUFFER: nat := 256
  const DELETED: byte := 0xE5
  const LFN_ATTR: byte := 0x0F
  const VOLUME_ID: nat := 0x08
  const DIRECTORY: nat := 0x10
  const READ_ONLY: nat := 0x01
  const LFN_LAST: nat := 0x40
  const LFN_FILL: nat := 0xFFFF
  const SPACE: byte := 0x20
  const DOT: byte := 0x2E
  const QUESTION: byte := 0x3F

  type Slot = s: seq<byte> | |s| == 32 witness Zeros(32)

  /** The name buffer of the callers of `fat32_get_dirent`. */
  type NameBuffer = b: seq<byte> | |b| == 256 witness Zeros(256)

  /** The slots that the bytes of a directory form. */
  function ToSlots(content: seq<byte>): (s: seq<Slot>)
    ensures |s| == |content| / SLOT
  {
    seq(|content| / SLOT, k requires 0 <= k < |content| / SLOT => content[SLOT * k..SLOT * k + SLOT])
  }

  /** `n` cleared slots. */
  function Cleared(n: nat): (s: seq<Slot>)
    ensures |s| == n
  {
    seq(n, _ => Zeros(32))
  }

  // ---- fields ----

  function Attr(s: Slot): byte { s[11] }

  function Sequence(s: Slot): nat { s[0] % 32 }

  predicate IsLast(s: Slot) { Bit(s[0], LFN_LAST) }

  function LfnChecksum(s: Slot): byte { s[13] }

  function ShortName(s: Slot): (n: seq<byte>)
    ensures |n| == 11
  {
    s[..11]
  }

  function FirstCluster(s: Slot): nat {
    Rle16(s, 26) + 0x1_0000 * Rle16(s, 20)
  }

  function FileSize(s: Slot): nat { Rle32(s, 28) }

  predicate IsFree(s: Slot) { s[0] == 0 || s[0] == DELETED }

  predicate IsLfn(s: Slot) { !IsFree(s) && Attr(s) == LFN_ATTR }

  predicate IsLabel(s: Slot) { !IsFree(s) && Attr(s) != LFN_ATTR && Bit(Attr(s), VOLUME_ID) }

  predicate IsMain(s: Slot) { !IsFree(s) && !Bit(Attr(s), VOLUME_ID) }

  lemma SlotKinds(s: Slot)
    ensures IsFree(s) || IsLfn(s) || IsLabel(s) || IsMain(s)
    ensures IsMain(s) ==> Attr(s) != LFN_ATTR
  {
  }

  /** Where character `j` of an LFN slot is stored. */
  function CharPos(j: nat): nat
    requires j < 13
  {
    if j < 5 then 1 + 2 * j else if j < 11 then 14 + 2 * (j - 5) else 28 + 2 * (j - 11)
  }

  function LfnChar(s: Slot, j: nat): nat
    requires j < 13
  {
    Rle16(s, CharPos(j))
  }

  /** `fat32_checksum` after the first `n` bytes: rotate right, then add. */
  function Checksum(name: seq<byte>, n: nat): byte
    requires n <= |name|
  {
    if n == 0 then 0
    else
      var sum := Checksum(name, n - 1);
      (sum % 2 * 128 + sum / 2 + name[n - 1]) % 256
  }

  /** `fat32_checksum`. */
  method ComputeChecksum(name: seq<byte>) returns (sum: byte)
    requires |name| == 11
    ensures sum == Checksum(name, 11)
  {
    sum := 0;
    var i := 0;
    while i < 11
      invariant 0 <= i <= 11 && sum == Checksum(name, i)
    {
      sum := (sum % 2 * 128 + sum / 2 + name[i]) % 256;
      i := i + 1;
    }
  }

  /** One step: the eight bits of the sum are rotated by one place to the right, bit 0 to bit 7, and the
      next byte is added without carry. */
  lemma ChecksumStep(name: seq<byte>, n: nat) returns (rotated: byte)
    requires n < |name|
    ensures Checksum(name, 0) == 0 && Checksum(name, n + 1) == (rotated + name[n]) % 256
    ensures var sum := Checksum(name, n);
      && rotated % 2 == sum / 2 % 2 && rotated / 2 % 2 == sum / 4 % 2 && rotated / 4 % 2 == sum / 8 % 2
      && rotated / 8 % 2 == sum / 16 % 2 && rotated / 16 % 2 == sum / 32 % 2 && rotated / 32 % 2 == sum / 64 % 2
      && rotated / 64 % 2 == sum / 128 && rotated / 128 == sum % 2
  {
    hide Checksum;
    var sum := Checksum(name, n);
    rotated := sum % 2 * 128 + sum / 2;
    OneMore(name, n);
    Halves(sum);
    Halves(rotated);
    RotatedLow(sum, rotated);
    RotatedHigh(sum, rotated);
  }

  lemma OneMore(name: seq<byte>, n: nat)
    requires n < |name|
    ensures Checksum(name, 0) == 0
    ensures Checksum(name, n + 1) == (Checksum(name, n) % 2 * 128 + Checksum(name, n) / 2 + name[n]) % 256
  {
  }

  lemma Halves(x: nat)
    ensures x / 4 == x / 2 / 2 && x / 8 == x / 4 / 2 && x / 16 == x / 8 / 2
    ensures x / 32 == x / 16 / 2 && x / 64 == x / 32 / 2 && x / 128 == x / 64 / 2
  {
  }

  lemma RotatedLow(sum: nat, r: nat)
    requires r == sum % 2 * 128 + sum / 2
    requires r / 4 == r / 2 / 2 && r / 8 == r / 4 / 2 && sum / 4 == sum / 2 / 2 && sum / 8 == sum / 4 / 2 && sum / 16 == sum / 8 / 2
    ensures r % 2 == sum / 2 % 2 && r / 2 % 2 == sum / 4 % 2 && r / 4 % 2 == sum / 8 % 2 && r / 8 == sum % 2 * 16 + sum / 16
  {
    assert r / 2 == sum % 2 * 64 + sum / 4;
    assert r / 4 == sum % 2 * 32 + sum / 8;
  }

  lemma RotatedHigh(sum: nat, r: nat)
    requires sum < 256 && r / 8 == sum % 2 * 16 + sum / 16
    requires r / 16 == r / 8 / 2 && r / 32 == r / 16 / 2 && r / 64 == r / 32 / 2 && r / 128 == r / 64 / 2
    requires sum / 32 == sum / 16 / 2 && sum / 64 == sum / 32 / 2 && sum / 128 == sum / 64 / 2
    ensures r / 8 % 2 == sum / 16 % 2 && r / 16 % 2 == sum / 32 % 2 && r / 32 % 2 == sum / 64 % 2
    ensures r / 64 % 2 == sum / 128 && r / 128 == sum % 2
  {
    NibbleRotated(r / 8, sum / 16, sum % 2);
  }

  lemma NibbleRotated(y: nat, x: nat, bit: nat)
    requires x < 16 && bit < 2 && y == bit * 16 + x
    ensures y % 2 == x % 2 && y / 2 % 2 == x / 2 % 2 && y / 2 / 2 % 2 == x / 2 / 2 % 2
    ensures y / 2 / 2 / 2 % 2 == x / 2 / 2 / 2 && y / 2 / 2 / 2 / 2 == bit
  {
    assert y / 2 == bit * 8 + x / 2;
    assert y / 2 / 2 == bit * 4 + x / 2 / 2;
    assert y / 2 / 2 / 2 == bit * 2 + x / 2 / 2 / 2;
  }

  // ---- reading a name ----

  /** The name buffer with the length found so far. */
  datatype NameState = NameState(buf: NameBuffer, size: nat)

  /** `fat32_set_dname`. */
  function SetDname(st: NameState, pos: nat, c: nat): (r: NameState)
    requires st.size <= NAME_BUFFER
    ensures r.size <= st.size
  {
    if pos >= st.size || c == LFN_FILL then st
    else
      var b: byte := if c >= 128 then QUESTION else c;
      NameState(st.buf[pos := b], if b == 0 then pos else st.size)
  }

  /** After the first `n` of the thirteen calls of `fat32_set_dname` for one slot. */
  function SetChars(st: NameState, pos: nat, s: Slot, n: nat): (r: NameState)
    requires st.size <= NAME_BUFFER && n <= 13
    ensures r.size <= st.size
  {
    if n == 0 then st else SetDname(SetChars(st, pos, s, n - 1), pos + (n - 1), LfnChar(s, n - 1))
  }

  /** The local variables of `fat32_get_dirent` that carry over from slot to slot. */
  datatype Reading = Reading(name: NameState, hasLfn: bool, start: nat)

  function Begin(buf: NameBuffer): Reading {
    Reading(NameState(buf, NAME_BUFFER), false, 0)
  }

  /** The first slot of a group fixes the start and ends the name at its full length. */
  function OpenGroup(st: Reading, s: Slot, k: nat): (r: Reading)
    requires st.name.size <= NAME_BUFFER
    ensures r.name.size <= NAME_BUFFER
  {
    if IsLast(s) then
      var full := Sequence(s) * 13;
      Reading(if full < NAME_BUFFER then NameState(st.name.buf[full := 0], full) else st.name, true, k)
    else st.(hasLfn := true)
  }

  /** The position in the name of the first character of an LFN slot, as the C code computes it:
      sequence number 0 gives a position beyond any name. */
  function GroupPos(s: Slot): nat {
    U32((Sequence(s) - 1) * 13)
  }

  /** Reading one LFN slot at index `k`. */
  function ReadLfn(st: Reading, s: Slot, k: nat): (r: Reading)
    requires st.name.size <= NAME_BUFFER
    ensures r.name.size <= NAME_BUFFER
  {
    var st1 := OpenGroup(st, s, k);
    st1.(name := SetChars(st1.name, GroupPos(s), s, 13))
  }

  /** A volume label discards what was read. */
  function Reset(st: Reading): Reading {
    Reading(NameState(st.name.buf[0 := 0], NAME_BUFFER), false, 0)
  }

  /** The bytes of `s` before the first space. */
  function BeforeSpace(s: seq<byte>): (t: seq<byte>)
    ensures t <= s
  {
    if s == [] || s[0] == SPACE then [] else [s[0]] + BeforeSpace(s[1..])
  }

  /** The 8.3 name as text. */
  function ShortText(name: seq<byte>): (t: seq<byte>)
    requires |name| == 11
    ensures |t| <= 12
  {
    BeforeSpace(name[..8]) + if name[8] != SPACE then [DOT] + BeforeSpace(name[8..11]) else []
  }

  /** The name of the entry: the long name if one was read, else the 8.3 name. */
  function FinishName(st: NameState, s: Slot): (r: NameState)
    requires st.size <= NAME_BUFFER
    ensures r.size <= NAME_BUFFER
  {
    if st.buf[0] == 0 then
      var t := ShortText(ShortName(s));
      NameState(Splice(st.buf, 0, t + [0]), |t|)
    else st
  }

  datatype Scanned =
    | End
    | Entry(name: NameState, start: nat, at: nat)

  /** The text of a name. */
  function Text(st: NameState): seq<byte>
    requires st.size <= NAME_BUFFER
  {
    st.buf[..st.size]
  }

  /** The scan of `fat32_get_dirent` from slot `k`: it stops at the end marker, passes over deleted
      slots and labels, collects LFN slots, and finishes at the next 8.3 slot. */
  function Scan(slots: seq<Slot>, k: nat, st: Reading): (r: Scanned)
    requires st.name.size <= NAME_BUFFER
    ensures r.Entry? ==> k <= r.at < |slots| && r.name.size <= NAME_BUFFER
    decreases |slots| - k
  {
    if k >= |slots| || slots[k][0] == 0 then End
    else if slots[k][0] == DELETED then Scan(slots, k + 1, st)
    else if Attr(slots[k]) == LFN_ATTR then Scan(slots, k + 1, ReadLfn(st, slots[k], k))
    else if Bit(Attr(slots[k]), VOLUME_ID) then Scan(slots, k + 1, Reset(st))
    else Entry(FinishName(st.name, slots[k]), if st.hasLfn then st.start else k, k)
  }

  // ---- what a directory is made of ----

  /** A deleted slot, a volume label, or the slots of one entry: its LFN slots and the 8.3 slot. */
  datatype Item =
    | Gap(slot: Slot)
    | Label(slot: Slot)
    | Live(lfn: seq<Slot>, main: Slot)

  function ItemSlots(it: Item): (s: seq<Slot>)
    ensures |s| > 0
  {
    match it
    case Gap(s) => [s]
    case Label(s) => [s]
    case Live(lfn, main) => lfn + [main]
  }

  /** LFN slots count down to 1, only the first is marked as last, and all carry the checksum of
      the 8.3 name. */
  predicate GroupOk(lfn: seq<Slot>, main: Slot) {
    forall i :: 0 <= i < |lfn| ==>
      && IsLfn(lfn[i]) && Sequence(lfn[i]) == |lfn| - i && (IsLast(lfn[i]) <==> i == 0)
      && LfnChecksum(lfn[i]) == Checksum(ShortName(main), 11)
  }

  /** Reading the LFN slots one after the other; the first lies at index `k`. */
  function ReadGroup(st: Reading, lfn: seq<Slot>, k: nat): (r: Reading)
    requires st.name.size <= NAME_BUFFER
    ensures r.name.size <= NAME_BUFFER
    decreases |lfn|
  {
    if lfn == [] then st else ReadGroup(ReadLfn(st, lfn[0], k), lfn[1..], k + 1)
  }

  /** The text that reading an entry yields, when the buffer first holds `buf`. */
  function GroupText(lfn: seq<Slot>, main: Slot, buf: NameBuffer): seq<byte> {
    Text(FinishName(ReadGroup(Begin(buf), lfn, 0).name, main))
  }

  /** Bytes left in the buffer by an earlier entry do not show up in the name. */
  ghost predicate Determined(lfn: seq<Slot>, main: Slot) {
    forall b: NameBuffer, b': NameBuffer :: b[0] == 0 && b'[0] == 0 ==> GroupText(lfn, main, b) == GroupText(lfn, main, b')
  }

  predicate DirectorySizeZero(main: Slot) {
    Bit(Attr(main), DIRECTORY) ==> FileSize(main) == 0
  }

  /** The items that the driver writes, and that its checker accepts. */
  ghost predicate ItemOk(it: Item) {
    match it
    case Gap(s) => s[0] == DELETED
    case Label(s) => IsLabel(s)
    case Live(lfn, main) => IsMain(main) && GroupOk(lfn, main) && DirectorySizeZero(main) && Determined(lfn, main)
  }

  ghost predicate ItemsOk(items: seq<Item>) {
    forall i :: 0 <= i < |items| ==> ItemOk(items[i])
  }

  function Flat(items: seq<Item>): seq<Slot> {
    if items == [] then [] else ItemSlots(items[0]) + Flat(items[1..])
  }

  /** Every slot carries the end marker. */
  predicate AllEnd(tail: seq<Slot>) {
    forall i :: 0 <= i < |tail| ==> tail[i][0] == 0
  }

  /** The slots of a directory: items, then end markers up to the end of the last cluster. */
  ghost predicate IsDir(slots: seq<Slot>, items: seq<Item>, tail: seq<Slot>) {
    slots == Flat(items) + tail && ItemsOk(items) && AllEnd(tail)
  }

  ghost predicate DirOk(slots: seq<Slot>) {
    exists items, tail :: IsDir(slots, items, tail)
  }

  /** One line of a listing: the name, the first slot, the number of slots, and the 8.3 slot. */
  datatype Dirent = Dirent(name: seq<byte>, start: nat, count: nat, main: Slot)

  /** The entries of a directory in slot order; the first item lies at slot `k`. */
  function Entries(items: seq<Item>, k: nat): seq<Dirent>
    decreases |items|
  {
    if items == [] then []
    else
      var n := |ItemSlots(items[0])|;
      var rest := Entries(items[1..], k + n);
      if items[0].Live? then
        [Dirent(GroupText(items[0].lfn, items[0].main, Zeros(256)), k, n, items[0].main)] + rest
      else rest
  }

  lemma {:induction false} FlatConcat(a: seq<Item>, b: seq<Item>)
    ensures Flat(a + b) == Flat(a) + Flat(b)
    decreases |a|
  {
    if a == [] {
      assert a + b == b;
    } else {
      assert (a + b)[0] == a[0] && (a + b)[1..] == a[1..] + b;
      FlatConcat(a[1..], b);
    }
  }

  lemma {:induction false} EntriesConcat(a: seq<Item>, b: seq<Item>, k: nat)
    ensures Entries(a + b, k) == Entries(a, k) + Entries(b, k + |Flat(a)|)
    decreases |a|
  {
    hide GroupText, ItemSlots;
    if a == [] {
      assert a + b == b;
    } else {
      assert (a + b)[0] == a[0] && (a + b)[1..] == a[1..] + b;
      EntriesConcat(a[1..], b, k + |ItemSlots(a[0])|);
    }
  }

  /** The first item takes the first slots, the others follow. */
  lemma FirstItem(slots: seq<Slot>, k: nat, items: seq<Item>, tail: seq<Slot>)
    requires items != [] && k <= |slots| && slots[k..] == Flat(items) + tail
    ensures var n := |ItemSlots(items[0])|;
      && k + n <= |slots| && slots[k..k + n] == ItemSlots(items[0]) && slots[k] == ItemSlots(items[0])[0]
      && slots[k + n..] == Flat(items[1..]) + tail
  {
    hide ItemSlots;
    var a, b := ItemSlots(items[0]), Flat(items[1..]) + tail;
    assert Flat(items) + tail == a + b;
    SplitSuffix(slots, k, a, b);
  }
}
