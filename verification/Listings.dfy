/** Reading a directory entry by entry: on a well-formed directory `fat32_get_dirent` lists
    exactly its live entries, in order, whatever the name buffer held before. */
module Listings {
  import opened Bytes
  import opened Slots

  /** What repeated calls of `fat32_get_dirent` return from slot `k` on.  Each caller empties the
      name by writing 0 to its first byte; the rest of the buffer is left over. */
  function Listing(slots: seq<Slot>, k: nat, buf: NameBuffer): seq<Dirent>
    decreases |slots| - k
  {
    match Scan(slots, k, Begin(buf[0 := 0]))
    case End => []
    case Entry(name, start, at) =>
      [Dirent(Text(name), start, if at < start then 0 else at - start + 1, slots[at])] + Listing(slots, at + 1, name.buf)
  }

  lemma {:induction false} NameIgnoresPlace(st: Reading, st': Reading, lfn: seq<Slot>, k: nat, k': nat)
    requires st.name == st'.name && st.name.size <= NAME_BUFFER
    ensures ReadGroup(st, lfn, k).name == ReadGroup(st', lfn, k').name
    decreases |lfn|
  {
    hide SetChars;
    if lfn != [] {
      NameIgnoresPlace(ReadLfn(st, lfn[0], k), ReadLfn(st', lfn[0], k'), lfn[1..], k + 1, k' + 1);
    }
  }

  lemma {:induction false} PlaceKept(st: Reading, lfn: seq<Slot>, k: nat)
    requires st.name.size <= NAME_BUFFER && forall i :: 0 <= i < |lfn| ==> !IsLast(lfn[i])
    ensures ReadGroup(st, lfn, k).start == st.start && (st.hasLfn ==> ReadGroup(st, lfn, k).hasLfn)
    decreases |lfn|
  {
    hide SetChars, IsLast;
    if lfn != [] {
      assert forall i :: 0 <= i < |lfn| - 1 ==> lfn[1..][i] == lfn[i + 1];
      PlaceKept(ReadLfn(st, lfn[0], k), lfn[1..], k + 1);
    }
  }

  /** A group read from index `k` remembers where it started. */
  lemma GroupPlace(buf: NameBuffer, lfn: seq<Slot>, main: Slot, k: nat)
    requires GroupOk(lfn, main) && lfn != []
    ensures ReadGroup(Begin(buf), lfn, k).start == k && ReadGroup(Begin(buf), lfn, k).hasLfn
  {
    hide SetChars, IsLast;
    assert IsLast(lfn[0]);
    assert forall i :: 0 <= i < |lfn| - 1 ==> lfn[1..][i] == lfn[i + 1] && !IsLast(lfn[i + 1]);
    PlaceKept(ReadLfn(Begin(buf), lfn[0], k), lfn[1..], k + 1);
  }

  /** The scan passes over the LFN slots of a group by reading them. */
  lemma {:induction false} ScanGroup(slots: seq<Slot>, k: nat, st: Reading, lfn: seq<Slot>)
    requires st.name.size <= NAME_BUFFER && k + |lfn| <= |slots| && slots[k..k + |lfn|] == lfn
    requires forall i :: 0 <= i < |lfn| ==> IsLfn(lfn[i])
    ensures Scan(slots, k, st) == Scan(slots, k + |lfn|, ReadGroup(st, lfn, k))
    decreases |lfn|
  {
    hide ReadLfn, FinishName;
    if lfn != [] {
      assert slots[k] == slots[k..k + |lfn|][0] == lfn[0];
      assert slots[k + 1..k + 1 + |lfn[1..]|] == lfn[1..];
      ScanGroup(slots, k + 1, ReadLfn(st, lfn[0], k), lfn[1..]);
    }
  }

  /** The result of a scan that finds the first of `entries`, or the end. */
  ghost predicate Finds(r: Scanned, slots: seq<Slot>, entries: seq<Dirent>) {
    if entries == [] then r == End
    else
      && r.Entry? && r.name.size <= NAME_BUFFER && r.start == entries[0].start
      && r.at + 1 == entries[0].start + entries[0].count && r.at < |slots|
      && slots[r.at] == entries[0].main && Text(r.name) == entries[0].name
  }

  lemma ScanLive(slots: seq<Slot>, k: nat, lfn: seq<Slot>, main: Slot, buf: NameBuffer)
    requires buf[0] == 0 && ItemOk(Live(lfn, main))
    requires k + |lfn| < |slots| && slots[k..k + |lfn| + 1] == lfn + [main]
    ensures var r := Scan(slots, k, Begin(buf));
      && r.Entry? && r.name.size <= NAME_BUFFER && r.start == k && r.at == k + |lfn|
      && slots[r.at] == main && Text(r.name) == GroupText(lfn, main, Zeros(256))
  {
    hide ReadGroup, FinishName, IsLfn, Text, Zeros;
    assert slots[k..k + |lfn|] == slots[k..k + |lfn| + 1][..|lfn|] == lfn;
    assert slots[k + |lfn|] == slots[k..k + |lfn| + 1][|lfn|] == main;
    ScanGroup(slots, k, Begin(buf), lfn);
    if lfn != [] {
      GroupPlace(buf, lfn, main, k);
    }
    NoGroup(Begin(buf), k);
    NameIgnoresPlace(Begin(buf), Begin(buf), lfn, k, 0);
    ZeroBuffer();
    assert GroupText(lfn, main, buf) == GroupText(lfn, main, Zeros(256));
  }

  lemma NoGroup(st: Reading, k: nat)
    requires st.name.size <= NAME_BUFFER
    ensures ReadGroup(st, [], k) == st
  {
  }

  lemma ZeroBuffer()
    ensures Zeros(256)[0] == 0
  {
  }

  /** A scan from the start of an item finds the next live item. */
  lemma {:induction false} ScanItems(slots: seq<Slot>, k: nat, items: seq<Item>, tail: seq<Slot>, buf: NameBuffer)
    requires buf[0] == 0 && ItemsOk(items) && AllEnd(tail)
    requires k <= |slots| && slots[k..] == Flat(items) + tail
    ensures Finds(Scan(slots, k, Begin(buf)), slots, Entries(items, k))
    decreases |items|
  {
    hide ReadLfn, FinishName, GroupText, Text, ItemOk, Finds;
    if items == [] {
      assert slots[k..] == tail;
      assert k < |slots| ==> slots[k] == slots[k..][0];
      FindsEnd(slots);
    } else {
      var it := items[0];
      var n := |ItemSlots(it)|;
      assert ItemOk(it);
      assert slots[k..] == ItemSlots(it) + (Flat(items[1..]) + tail);
      assert slots[k] == slots[k..][0] == ItemSlots(it)[0];
      if it.Live? {
        assert slots[k..k + n] == slots[k..][..n] == ItemSlots(it);
        ScanLive(slots, k, it.lfn, it.main, buf);
        FindsLive(slots, k, items, buf);
      } else {
        SkipOne(slots, k, it, buf);
        assert slots[k + 1..] == slots[k..][1..] == Flat(items[1..]) + tail;
        assert forall i :: 0 <= i < |items| - 1 ==> items[1..][i] == items[i + 1];
        ScanItems(slots, k + 1, items[1..], tail, buf);
      }
    }
  }

  lemma FindsEnd(slots: seq<Slot>)
    ensures Finds(End, slots, [])
  {
  }

  lemma FindsLive(slots: seq<Slot>, k: nat, items: seq<Item>, buf: NameBuffer)
    requires items != [] && items[0].Live?
    requires var r := Scan(slots, k, Begin(buf));
      && r.Entry? && r.name.size <= NAME_BUFFER && r.start == k && r.at == k + |items[0].lfn|
      && slots[r.at] == items[0].main && Text(r.name) == GroupText(items[0].lfn, items[0].main, Zeros(256))
    ensures Finds(Scan(slots, k, Begin(buf)), slots, Entries(items, k))
  {
    hide Scan, GroupText, Text;
  }

  lemma SkipOne(slots: seq<Slot>, k: nat, it: Item, buf: NameBuffer)
    requires k < |slots| && !it.Live? && ItemOk(it) && slots[k] == it.slot && buf[0] == 0
    ensures Scan(slots, k, Begin(buf)) == Scan(slots, k + 1, Begin(buf))
  {
    assert buf[0 := 0] == buf;
  }

  /** On a well-formed directory the driver lists its live entries. */
  lemma {:induction false} ListingIsEntries(slots: seq<Slot>, k: nat, items: seq<Item>, tail: seq<Slot>, buf: NameBuffer)
    requires ItemsOk(items) && AllEnd(tail) && k <= |slots| && slots[k..] == Flat(items) + tail
    ensures Listing(slots, k, buf) == Entries(items, k)
    decreases |items|
  {
    hide Scan, GroupText, Text, ItemOk, Flat;
    ScanItems(slots, k, items, tail, buf[0 := 0]);
    var es := Entries(items, k);
    if es != [] {
      var rest, k' := SplitAtFirst(items, k, tail, slots);
      var r := Scan(slots, k, Begin(buf[0 := 0]));
      ListingIsEntries(slots, k', rest, tail, r.name.buf);
    }
  }

  /** The items behind the first live one, and where they start. */
  lemma {:induction false} SplitAtFirst(items: seq<Item>, k: nat, tail: seq<Slot>, slots: seq<Slot>)
    returns (rest: seq<Item>, k': nat)
    requires ItemsOk(items) && Entries(items, k) != [] && k <= |slots| && slots[k..] == Flat(items) + tail
    ensures |rest| < |items| && ItemsOk(rest)
    ensures k' == Entries(items, k)[0].start + Entries(items, k)[0].count <= |slots| && slots[k'..] == Flat(rest) + tail
    ensures Entries(items, k) == [Entries(items, k)[0]] + Entries(rest, k')
    decreases |items|
  {
    hide GroupText, ItemOk, ItemSlots, Flat;
    var n := |ItemSlots(items[0])|;
    FirstItem(slots, k, items, tail);
    assert forall i :: 0 <= i < |items| - 1 ==> items[1..][i] == items[i + 1];
    if items[0].Live? {
      rest, k' := items[1..], k + n;
    } else {
      rest, k' := SplitAtFirst(items[1..], k + n, tail, slots);
    }
  }
}
