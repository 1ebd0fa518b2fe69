/** What a directory is worth after a call that failed while it grew: the last cluster it has gained
    still holds what it held before it was free (fat32_cls.c:232-262, fat32_dir.c:760-771). */
module Stale {
  import opened Bytes
  import opened Slots
  import opened Placing
  import opened Integrity

  predicate HasEnd(slots: seq<Slot>) {
    exists k :: 0 <= k < |slots| && slots[k][0] == 0
  }

  /** Whether the slots `stale` behind `n` cleared ones do no harm: behind an end marker they must all
      be end markers, too, because later entries overwrite the first one; otherwise they must be a
      directory of their own. */
  ghost predicate Harmless(slots: seq<Slot>, n: nat, stale: seq<Slot>) {
    if n > 0 || HasEnd(slots) then AllEnd(stale) else DirOk(stale)
  }

  // ---- where the items end ----

  lemma EndIsTail(slots: seq<Slot>, items: seq<Item>, tail: seq<Slot>)
    requires IsDir(slots, items, tail)
    ensures HasEnd(slots) <==> tail != []
    ensures forall k :: 0 <= k < |Flat(items)| ==> slots[k] == Flat(items)[k] && slots[k][0] != 0
  {
    hide ItemOk, Flat;
    NoEndInItems(items);
    if tail != [] {
      assert slots[|Flat(items)|] == tail[0];
    }
  }

  /** The slots of two items cannot begin alike and have different lengths. */
  lemma SameFirstItem(a: Item, b: Item, x: seq<Slot>, y: seq<Slot>)
    requires ItemOk(a) && ItemOk(b) && ItemSlots(a) + x == ItemSlots(b) + y
    ensures |ItemSlots(a)| == |ItemSlots(b)| && x == y
  {
    hide Determined, Checksum, Sequence, IsLast, LfnChecksum, DirectorySizeZero;
    var s, t := ItemSlots(a), ItemSlots(b);
    assert s[0] == (s + x)[0] == (t + y)[0] == t[0];
    if a.Live? && b.Live? {
      if |s| < |t| {
        LongerGroup(a.lfn, a.main, b.lfn, b.main, x, y);
      } else if |t| < |s| {
        LongerGroup(b.lfn, b.main, a.lfn, a.main, y, x);
      }
    }
    assert |s| == |t|;
    assert (s + x)[|s|..] == x && (t + y)[|t|..] == y;
  }

  lemma LongerGroup(lfn: seq<Slot>, main: Slot, lfn': seq<Slot>, main': Slot, x: seq<Slot>, y: seq<Slot>)
    requires IsMain(main) && (forall i :: 0 <= i < |lfn'| ==> IsLfn(lfn'[i]))
    requires lfn + [main] + x == lfn' + [main'] + y
    ensures |lfn| >= |lfn'|
  {
    if |lfn| < |lfn'| {
      var k := |lfn|;
      assert (lfn + [main] + x)[k] == main && (lfn' + [main'] + y)[k] == lfn'[k];
      SlotKinds(main);
    }
  }

  /** Items in front of other slots: what parses as a whole parses behind them. */
  lemma {:induction false} DropItems(items: seq<Item>, stale: seq<Slot>, all: seq<Item>, tail: seq<Slot>) returns (rest: seq<Item>)
    requires ItemsOk(items) && ItemsOk(all) && AllEnd(tail) && Flat(items) + stale == Flat(all) + tail
    ensures IsDir(stale, rest, tail)
    decreases |items|
  {
    hide ItemOk, ItemSlots, Flat;
    if items == [] {
      FlatNothing();
      rest := all;
      assert stale == Flat(items) + stale;
    } else {
      assert ItemOk(items[0]);
      assert Flat(items) == ItemSlots(items[0]) + Flat(items[1..]) by { FlatStarts(items); }
      assert Flat(items) + stale == ItemSlots(items[0]) + (Flat(items[1..]) + stale);
      ItemSlotKinds(items[0]);
      FlatNothing();
      assert (Flat(items) + stale)[0] == ItemSlots(items[0])[0];
      if all == [] {
        assert false;
      }
      assert ItemOk(all[0]);
      assert Flat(all) == ItemSlots(all[0]) + Flat(all[1..]) by { FlatStarts(all); }
      assert Flat(all) + tail == ItemSlots(all[0]) + (Flat(all[1..]) + tail);
      SameFirstItem(items[0], all[0], Flat(items[1..]) + stale, Flat(all[1..]) + tail);
      assert forall i :: 0 <= i < |items| - 1 ==> items[1..][i] == items[i + 1];
      assert forall i :: 0 <= i < |all| - 1 ==> all[1..][i] == all[i + 1];
      rest := DropItems(items[1..], stale, all[1..], tail);
    }
  }

  lemma FlatStarts(items: seq<Item>)
    requires items != []
    ensures Flat(items) == ItemSlots(items[0]) + Flat(items[1..])
  {
  }

  /** After such a call the slots are a directory exactly if the stale ones do no harm. */
  lemma StaleExact(slots: seq<Slot>, n: nat, stale: seq<Slot>)
    requires DirOk(slots)
    ensures DirOk(slots + Cleared(n) + stale) <==> Harmless(slots, n, stale)
  {
    hide ItemOk, Flat, Cleared;
    var items, tail :| IsDir(slots, items, tail);
    var all := slots + Cleared(n) + stale;
    EndIsTail(slots, items, tail);
    if n > 0 || HasEnd(slots) {
      BehindEnd(slots, n, stale, items, tail);
    } else {
      assert all == Flat(items) + stale;
      if DirOk(all) {
        var items', tail' :| IsDir(all, items', tail');
        var rest := DropItems(items, stale, items', tail');
      }
      if DirOk(stale) {
        var more, end :| IsDir(stale, more, end);
        JoinDirs(items, stale, more, end);
      }
    }
  }

  lemma JoinDirs(items: seq<Item>, stale: seq<Slot>, more: seq<Item>, end: seq<Slot>)
    requires ItemsOk(items) && IsDir(stale, more, end)
    ensures IsDir(Flat(items) + stale, items + more, end)
  {
    hide ItemOk, Flat;
    FlatConcat(items, more);
    assert Flat(items) + stale == Flat(items + more) + end;
  }

  lemma BehindEnd(slots: seq<Slot>, n: nat, stale: seq<Slot>, items: seq<Item>, tail: seq<Slot>)
    requires IsDir(slots, items, tail) && (n > 0 || tail != [])
    ensures DirOk(slots + Cleared(n) + stale) <==> AllEnd(stale)
  {
    hide ItemOk, Flat;
    var all, rest, m := slots + Cleared(n) + stale, tail + Cleared(n) + stale, |Flat(items)|;
    assert all == Flat(items) + rest;
    assert all[m] == rest[0] && rest[0][0] == 0;
    if AllEnd(stale) {
      assert IsDir(all, items, rest);
    }
    if DirOk(all) {
      var items', tail' :| IsDir(all, items', tail');
      EndIsTail(all, items', tail');
      assert |Flat(items')| <= m;
      forall i | 0 <= i < |stale|
        ensures stale[i][0] == 0
      {
        var at := |slots| + n + i;
        assert stale[i] == all[at] == tail'[at - |Flat(items')|];
      }
    }
  }

  // ---- what the checker says ----

  lemma {:induction false} CheckPast(slots: seq<Slot>, k: nat, items: seq<Item>, rest: seq<Slot>)
    requires ItemsChecked(items) && k <= |slots| && slots[k..] == Flat(items) + rest
    ensures k + |Flat(items)| <= |slots| && Check(slots, k, false, 0, 0) == Check(slots, k + |Flat(items)|, false, 0, 0)
    decreases |items|
  {
    hide ItemChecked, Flat, Check;
    if items == [] {
      FlatNothing();
    } else {
      var it, n := items[0], |ItemSlots(items[0])|;
      assert ItemChecked(it);
      FirstItem(slots, k, items, rest);
      FlatStarts(items);
      assert forall i :: 0 <= i < |items| - 1 ==> items[1..][i] == items[i + 1];
      CheckPast(slots, k + n, items[1..], rest);
      if it.Live? {
        CheckLive(slots, k, it.lfn, it.main);
      } else {
        CheckSingle(slots, k, it);
      }
    }
  }

  lemma {:induction false} CheckShift(a: seq<Slot>, b: seq<Slot>, k: nat, inGroup: bool, seqNo: nat, checksum: byte)
    requires k <= |b|
    ensures Check(a + b, |a| + k, inGroup, seqNo, checksum) == Check(b, k, inGroup, seqNo, checksum)
    decreases |b| - k
  {
    hide Checksum, Sequence, IsLast, LfnChecksum, DirectorySizeZero, Bit;
    if k < |b| && b[k][0] != 0 {
      assert (a + b)[|a| + k] == b[k];
      CheckShift(a, b, k + 1, true, (Sequence(b[k]) + 255) % 256, LfnChecksum(b[k]));
      CheckShift(a, b, k + 1, true, (seqNo + 255) % 256, checksum);
      CheckShift(a, b, k + 1, false, seqNo, checksum);
    }
  }

  /** `fat32_check_dir_integrity` passes such a directory exactly if an end marker comes before the
      stale slots, or they pass on their own. */
  lemma StaleCheck(slots: seq<Slot>, n: nat, stale: seq<Slot>)
    requires DirOk(slots)
    ensures Check(slots + Cleared(n) + stale, 0, false, 0, 0) <==> n > 0 || HasEnd(slots) || Check(stale, 0, false, 0, 0)
  {
    hide ItemOk, Flat, Check, ItemChecked;
    var items, tail :| IsDir(slots, items, tail);
    var all, rest, m := slots + Cleared(n) + stale, tail + Cleared(n) + stale, |Flat(items)|;
    EndIsTail(slots, items, tail);
    CheckedItems(items);
    assert all[0..] == Flat(items) + rest;
    CheckPast(all, 0, items, rest);
    if n > 0 || tail != [] {
      assert all[m] == rest[0] && rest[0][0] == 0;
      CheckEnds(all, m);
    } else {
      assert all == Flat(items) + stale;
      CheckShift(Flat(items), stale, 0, false, 0, 0);
    }
  }

  lemma CheckedItems(items: seq<Item>)
    requires ItemsOk(items)
    ensures ItemsChecked(items)
  {
    hide Determined, GroupOk;
    forall i | 0 <= i < |items|
      ensures ItemChecked(items[i])
    {
      assert ItemOk(items[i]);
    }
  }

  /** A full directory that grew by a cluster whose first slot is an LFN slot inside a group does not
      pass any more. */
  lemma StaleGroupBreaks(slots: seq<Slot>, stale: seq<Slot>)
    requires DirOk(slots) && !HasEnd(slots) && stale != [] && IsLfn(stale[0]) && !IsLast(stale[0])
    ensures !Check(slots + stale, 0, false, 0, 0) && !DirOk(slots + stale)
  {
    hide DirOk, HasEnd, IsLast, ItemOk;
    assert slots + Cleared(0) + stale == slots + stale;
    StaleCheck(slots, 0, stale);
    if DirOk(slots + stale) {
      StaleExact(slots, 0, stale);
      PassesCheck(stale);
    }
  }

  lemma PassesCheck(slots: seq<Slot>)
    requires DirOk(slots)
    ensures Check(slots, 0, false, 0, 0)
  {
    hide IsDir, Check;
    var items: seq<Item>, tail: seq<Slot> :| IsDir(slots, items, tail);
    DirPassesCheck(slots, items, tail);
  }

  /** An input: a directory of one cluster, full of volume labels, and a cluster that held the second
      part of a long name. */
  lemma StaleExample() returns (slots: seq<Slot>, stale: seq<Slot>)
    ensures |slots| == |stale| == 16 && DirOk(slots) && FreeRun(slots, 0, 0, 1) == 16
    ensures !Check(slots + stale, 0, false, 0, 0) && !DirOk(slots + stale)
  {
    hide FreeRun, Flat, Check;
    var mark: Slot := Zeros(32)[0 := 0x41][11 := VOLUME_ID];
    var part: Slot := Zeros(32)[0 := 1][11 := LFN_ATTR];
    slots, stale := seq(16, _ => mark), seq(16, _ => part);
    var items := Labels(mark, 16);
    assert IsDir(slots, items, []);
    NoRoom(slots, 0);
    StaleGroupBreaks(slots, stale);
  }

  lemma {:induction false} Labels(mark: Slot, n: nat) returns (items: seq<Item>)
    requires IsLabel(mark)
    ensures ItemsOk(items) && Flat(items) == seq(n, _ => mark)
    decreases n
  {
    if n == 0 {
      items := [];
    } else {
      var rest := Labels(mark, n - 1);
      items := [Label(mark)] + rest;
      assert items[1..] == rest;
      assert [mark] + seq(n - 1, _ => mark) == seq(n, _ => mark);
    }
  }

  lemma {:induction false} NoRoom(slots: seq<Slot>, k: nat)
    requires k <= |slots| && forall i :: 0 <= i < |slots| ==> !IsFree(slots[i])
    ensures FreeRun(slots, k, 0, 1) == |slots|
    decreases |slots| - k
  {
    if k < |slots| {
      NoRoom(slots, k + 1);
    }
  }
}
