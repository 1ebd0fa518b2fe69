/** `fat32_check_dir_integrity` and `fat32_dirempty` on the slots of a directory, and what they
    mean (fat32_dir.c, fat32_vnode.c). */
module Integrity {
  import opened Bytes
  import opened Slots
  import opened Placing

  /** The scan of `fat32_check_dir_integrity` from slot `k`; true is its result 0.  `seqNo` is an
      8-bit variable that counts down. */
  function Check(slots: seq<Slot>, k: nat, inGroup: bool, seqNo: nat, checksum: byte): bool
    decreases |slots| - k
  {
    if k >= |slots| || slots[k][0] == 0 then !inGroup
    else
      var s := slots[k];
      if s[0] == DELETED then !inGroup && Check(slots, k + 1, false, seqNo, checksum)
      else if Attr(s) == LFN_ATTR then
        if IsLast(s) then
          !inGroup && Check(slots, k + 1, true, (Sequence(s) + 255) % 256, LfnChecksum(s))
        else
          inGroup && Sequence(s) == seqNo && LfnChecksum(s) == checksum
          && Check(slots, k + 1, true, (seqNo + 255) % 256, checksum)
      else if Bit(Attr(s), VOLUME_ID) then !inGroup && Check(slots, k + 1, false, seqNo, checksum)
      else
        && (inGroup ==> seqNo == 0 && Checksum(ShortName(s), 11) == checksum)
        && DirectorySizeZero(s)
        && Check(slots, k + 1, false, seqNo, checksum)
  }

  /** What the checker asks of one item. */
  predicate ItemChecked(it: Item) {
    match it
    case Gap(s) => s[0] == DELETED
    case Label(s) => IsLabel(s)
    case Live(lfn, main) => IsMain(main) && GroupOk(lfn, main) && DirectorySizeZero(main)
  }

  predicate ItemsChecked(items: seq<Item>) {
    forall i :: 0 <= i < |items| ==> ItemChecked(items[i])
  }

  /** The variables of an idle checker do not matter. */
  lemma {:induction false} IdleCheck(slots: seq<Slot>, k: nat, seqNo: nat, ck: byte, seqNo': nat, ck': byte)
    ensures Check(slots, k, false, seqNo, ck) == Check(slots, k, false, seqNo', ck')
    decreases |slots| - k
  {
    hide Checksum, Sequence, IsLast, LfnChecksum, DirectorySizeZero;
    if k < |slots| {
      IdleCheck(slots, k + 1, seqNo, ck, seqNo', ck');
    }
  }

  /** The slots `k` up to `j` are the rest of a group that counts down from `seqNo`, followed by
      its 8.3 slot at `j`. */
  ghost predicate GroupRest(slots: seq<Slot>, k: nat, j: nat, seqNo: nat, checksum: byte) {
    && k <= j < |slots| && j - k == seqNo
    && (forall i :: k <= i < j ==>
          IsLfn(slots[i]) && Sequence(slots[i]) == j - i && !IsLast(slots[i]) && LfnChecksum(slots[i]) == checksum)
    && IsMain(slots[j]) && Checksum(ShortName(slots[j]), 11) == checksum && DirectorySizeZero(slots[j])
  }

  /** Inside a group the checker accepts exactly the rest of that group and whatever it accepts
      behind it. */
  lemma {:induction false} CheckGroupRest(slots: seq<Slot>, k: nat, j: nat, seqNo: nat, checksum: byte)
    requires GroupRest(slots, k, j, seqNo, checksum)
    ensures Check(slots, k, true, seqNo, checksum) == Check(slots, j + 1, false, 0, checksum)
    decreases j - k
  {
    hide Checksum, Sequence, IsLast, LfnChecksum, DirectorySizeZero;
    SlotKinds(slots[k]);
    if k < j {
      SequenceSmall(slots[k]);
      assert (seqNo + 255) % 256 == seqNo - 1;
      CheckGroupRest(slots, k + 1, j, seqNo - 1, checksum);
    } else {
      IdleCheck(slots, j + 1, 0, checksum, seqNo, checksum);
    }
  }

  lemma SequenceSmall(s: Slot)
    ensures Sequence(s) < 32
  {
  }

  lemma {:induction false} CheckInsideGroup(slots: seq<Slot>, k: nat, seqNo: nat, checksum: byte) returns (j: nat)
    requires seqNo < 256 && Check(slots, k, true, seqNo, checksum)
    ensures GroupRest(slots, k, j, seqNo, checksum)
    decreases |slots| - k
  {
    hide Checksum, Sequence, IsLast, LfnChecksum, DirectorySizeZero;
    SlotKinds(slots[k]);
    if IsLfn(slots[k]) {
      SequenceSmall(slots[k]);
      var next := (seqNo + 255) % 256;
      j := CheckInsideGroup(slots, k + 1, next, checksum);
      if seqNo == 0 {
        LongCountdown(slots, k + 1, j, checksum);
      }
    } else {
      j := k;
    }
  }

  lemma LongCountdown(slots: seq<Slot>, k: nat, j: nat, checksum: byte)
    ensures !GroupRest(slots, k, j, 255, checksum)
  {
    if GroupRest(slots, k, j, 255, checksum) {
      SequenceSmall(slots[k]);
    }
  }

  /** A whole entry passes the checker. */
  lemma CheckLive(slots: seq<Slot>, k: nat, lfn: seq<Slot>, main: Slot)
    requires ItemChecked(Live(lfn, main)) && k + |lfn| < |slots| && slots[k..k + |lfn| + 1] == lfn + [main]
    ensures Check(slots, k, false, 0, 0) == Check(slots, k + |lfn| + 1, false, 0, 0)
  {
    hide Checksum, Sequence, IsLast, LfnChecksum, DirectorySizeZero;
    var g := lfn + [main];
    assert forall i :: 0 <= i < |g| ==> slots[k + i] == slots[k..k + |lfn| + 1][i] == g[i];
    SlotKinds(slots[k]);
    var j := k + |lfn|;
    assert slots[j] == main;
    if lfn == [] {
      IdleCheck(slots, k + 1, 0, 0, 0, 0);
    } else {
      assert slots[k] == lfn[0];
      SequenceSmall(lfn[0]);
      var ck := LfnChecksum(lfn[0]);
      assert (Sequence(lfn[0]) + 255) % 256 == |lfn| - 1;
      forall i | k + 1 <= i < j
        ensures IsLfn(slots[i]) && Sequence(slots[i]) == j - i && !IsLast(slots[i]) && LfnChecksum(slots[i]) == ck
      {
        assert slots[i] == lfn[i - k];
      }
      CheckGroupRest(slots, k + 1, j, |lfn| - 1, ck);
      IdleCheck(slots, j + 1, 0, ck, 0, 0);
    }
  }

  /** The checker accepts every directory made of checked items. */
  lemma {:induction false} CheckAccepts(slots: seq<Slot>, k: nat, items: seq<Item>, tail: seq<Slot>)
    requires ItemsChecked(items) && k <= |slots| && slots[k..] == Flat(items) + tail && (tail == [] || tail[0][0] == 0)
    ensures Check(slots, k, false, 0, 0)
    decreases |items|
  {
    hide ItemChecked, Flat, Check;
    if items == [] {
      FlatNothing();
      assert slots[k..] == tail;
      assert k < |slots| ==> slots[k] == slots[k..][0];
      CheckEnds(slots, k);
    } else {
      var it, n := items[0], |ItemSlots(items[0])|;
      assert ItemChecked(it);
      FirstItem(slots, k, items, tail);
      assert forall i :: 0 <= i < |items| - 1 ==> items[1..][i] == items[i + 1];
      CheckAccepts(slots, k + n, items[1..], tail);
      if it.Live? {
        CheckLive(slots, k, it.lfn, it.main);
      } else {
        CheckSingle(slots, k, it);
      }
    }
  }

  lemma CheckEnds(slots: seq<Slot>, k: nat)
    requires k <= |slots| && (k == |slots| || slots[k][0] == 0)
    ensures Check(slots, k, false, 0, 0)
  {
  }

  lemma CheckSingle(slots: seq<Slot>, k: nat, it: Item)
    requires k < |slots| && !it.Live? && ItemChecked(it) && slots[k] == it.slot
    ensures Check(slots, k, false, 0, 0) == Check(slots, k + 1, false, 0, 0)
  {
  }

  /** Whatever the checker accepts is made of checked items up to the end marker or the end. */
  lemma {:induction false} CheckImpliesItems(slots: seq<Slot>, k: nat) returns (items: seq<Item>, n: nat)
    requires k <= |slots| && Check(slots, k, false, 0, 0)
    ensures k <= n <= |slots| && slots[k..n] == Flat(items) && ItemsChecked(items)
    ensures n == |slots| || slots[n][0] == 0
    decreases |slots| - k
  {
    hide Checksum, Sequence, IsLast, LfnChecksum, DirectorySizeZero, ItemChecked;
    if k == |slots| || slots[k][0] == 0 {
      items, n := [], k;
    } else {
      var it, next := CheckedItem(slots, k);
      var rest;
      rest, n := CheckImpliesItems(slots, next);
      items := [it] + rest;
      assert items[1..] == rest;
      SliceAppend(slots, k, next, n);
      assert slots[k..n] == slots[k..next] + slots[next..n];
    }
  }

  lemma CheckOpens(slots: seq<Slot>, k: nat)
    requires k < |slots| && IsLfn(slots[k]) && Check(slots, k, false, 0, 0)
    ensures IsLast(slots[k])
    ensures Check(slots, k + 1, true, (Sequence(slots[k]) + 255) % 256, LfnChecksum(slots[k]))
  {
  }

  lemma CheckPasses(slots: seq<Slot>, k: nat)
    requires k < |slots| && slots[k][0] != 0 && !IsLfn(slots[k]) && Check(slots, k, false, 0, 0)
    ensures Check(slots, k + 1, false, 0, 0)
    ensures IsMain(slots[k]) ==> DirectorySizeZero(slots[k])
  {
  }

  lemma GroupFound(slots: seq<Slot>, k: nat, j: nat)
    requires k < |slots| && IsLfn(slots[k]) && IsLast(slots[k]) && Sequence(slots[k]) > 0
    requires GroupRest(slots, k + 1, j, Sequence(slots[k]) - 1, LfnChecksum(slots[k]))
    ensures slots[k..j + 1] == slots[k..j] + [slots[j]] && ItemChecked(Live(slots[k..j], slots[j]))
  {
    hide Checksum, Sequence, IsLast, LfnChecksum, DirectorySizeZero, IsLfn, IsMain;
    var lfn := slots[k..j];
    forall i | 0 <= i < |lfn|
      ensures IsLfn(lfn[i]) && Sequence(lfn[i]) == |lfn| - i && (IsLast(lfn[i]) <==> i == 0)
      ensures LfnChecksum(lfn[i]) == Checksum(ShortName(slots[j]), 11)
    {
      assert lfn[i] == slots[k + i];
    }
  }

  lemma CheckedItem(slots: seq<Slot>, k: nat) returns (it: Item, next: nat)
    requires k < |slots| && slots[k][0] != 0 && Check(slots, k, false, 0, 0)
    ensures k < next <= |slots| && slots[k..next] == ItemSlots(it) && ItemChecked(it) && Check(slots, next, false, 0, 0)
  {
    hide Checksum, Sequence, IsLast, LfnChecksum, DirectorySizeZero, Check;
    var s := slots[k];
    SlotKinds(s);
    if IsLfn(s) {
      CheckOpens(slots, k);
      SequenceSmall(s);
      var ck := LfnChecksum(s);
      var j := CheckInsideGroup(slots, k + 1, (Sequence(s) + 255) % 256, ck);
      if Sequence(s) == 0 {
        LongCountdown(slots, k + 1, j, ck);
      }
      it, next := Live(slots[k..j], slots[j]), j + 1;
      CheckGroupRest(slots, k + 1, j, Sequence(s) - 1, ck);
      IdleCheck(slots, j + 1, 0, ck, 0, 0);
      GroupFound(slots, k, j);
    } else {
      CheckPasses(slots, k);
      it := if s[0] == DELETED then Gap(s) else if IsLabel(s) then Label(s) else Live([], s);
      next := k + 1;
      assert ItemSlots(it) == [s];
    }
  }

  /** The first `n` slots are made of checked items, and there the scan ends. */
  predicate MadeOf(slots: seq<Slot>, items: seq<Item>, n: nat) {
    n <= |slots| && slots[..n] == Flat(items) && ItemsChecked(items) && (n == |slots| || slots[n][0] == 0)
  }

  /** The checker is exactly the grammar of a directory. */
  lemma CheckExact(slots: seq<Slot>)
    ensures Check(slots, 0, false, 0, 0) <==> exists items: seq<Item>, n: nat :: MadeOf(slots, items, n)
  {
    hide ItemsChecked, Flat, Check;
    if Check(slots, 0, false, 0, 0) {
      var items, n := CheckImpliesItems(slots, 0);
      assert slots[..n] == slots[0..n];
      assert MadeOf(slots, items, n);
    }
    if items: seq<Item>, n: nat :| MadeOf(slots, items, n) {
      assert slots[..n] + slots[n..] == slots;
      assert slots[0..] == Flat(items) + slots[n..];
      CheckAccepts(slots, 0, items, slots[n..]);
    }
  }

  /** Every well-formed directory passes. */
  lemma DirPassesCheck(slots: seq<Slot>, items: seq<Item>, tail: seq<Slot>)
    requires IsDir(slots, items, tail)
    ensures Check(slots, 0, false, 0, 0)
  {
    hide Determined, GroupOk, Flat;
    forall i | 0 <= i < |items|
      ensures ItemChecked(items[i])
    {
      assert ItemOk(items[i]);
    }
    assert slots[0..] == slots;
    CheckAccepts(slots, 0, items, tail);
  }

  // ---- emptiness ----

  /** The scan of `fat32_dirempty` from slot `k`: true is its result 0.  LFN slots carry the volume
      bit, so they are passed over with the labels and the later LFN test never fires. */
  function EmptyFrom(slots: seq<Slot>, k: nat): bool
    decreases |slots| - k
  {
    if k >= |slots| || slots[k][0] == 0 then true
    else if slots[k][0] == DELETED then EmptyFrom(slots, k + 1)
    else if Bit(Attr(slots[k]), VOLUME_ID) then EmptyFrom(slots, k + 1)
    else if Attr(slots[k]) == LFN_ATTR then false
    else if slots[k][0] == DOT then EmptyFrom(slots, k + 1)
    else false
  }

  /** The entries that do not keep a directory from being removed. */
  predicate OnlyDots(es: seq<Dirent>) {
    forall i :: 0 <= i < |es| ==> es[i].main[0] == DOT
  }

  lemma {:induction false} SkipLfn(slots: seq<Slot>, k: nat, j: nat)
    requires k <= j <= |slots| && forall i :: k <= i < j ==> IsLfn(slots[i])
    ensures EmptyFrom(slots, k) == EmptyFrom(slots, j)
    decreases j - k
  {
    if k < j {
      LfnHasVolumeBit();
      SkipLfn(slots, k + 1, j);
    }
  }

  lemma LfnHasVolumeBit()
    ensures Bit(LFN_ATTR, VOLUME_ID)
  {
  }

  /** A directory counts as empty exactly when all its listed entries are dot entries. */
  lemma {:induction false} EmptyExact(slots: seq<Slot>, k: nat, items: seq<Item>, tail: seq<Slot>)
    requires ItemsOk(items) && AllEnd(tail) && k <= |slots| && slots[k..] == Flat(items) + tail
    ensures EmptyFrom(slots, k) <==> OnlyDots(Entries(items, k))
    decreases |items|
  {
    hide GroupText, ItemOk, ItemSlots, Flat, EmptyFrom;
    if items == [] {
      FlatNothing();
      assert slots[k..] == tail;
      assert k < |slots| ==> slots[k] == slots[k..][0];
      EmptyEnds(slots, k);
    } else {
      var it, n := items[0], |ItemSlots(items[0])|;
      assert ItemOk(it);
      FirstItem(slots, k, items, tail);
      assert forall i :: 0 <= i < |items| - 1 ==> items[1..][i] == items[i + 1];
      EmptyExact(slots, k + n, items[1..], tail);
      EmptyStep(slots, k, it);
      DotsStep(items, k);
    }
  }

  lemma EmptyEnds(slots: seq<Slot>, k: nat)
    requires k <= |slots| && (k == |slots| || slots[k][0] == 0)
    ensures EmptyFrom(slots, k)
  {
  }

  lemma DotsStep(items: seq<Item>, k: nat)
    requires items != []
    ensures OnlyDots(Entries(items, k))
       <==> (items[0].Live? ==> items[0].main[0] == DOT) && OnlyDots(Entries(items[1..], k + |ItemSlots(items[0])|))
  {
    hide GroupText, ItemSlots;
    var rest, es := Entries(items[1..], k + |ItemSlots(items[0])|), Entries(items, k);
    if items[0].Live? {
      assert es[0].main == items[0].main && es[1..] == rest;
      if OnlyDots(es) {
        forall i | 0 <= i < |rest|
          ensures rest[i].main[0] == DOT
        {
          assert rest[i] == es[i + 1];
        }
      }
      if items[0].main[0] == DOT && OnlyDots(rest) {
        forall i | 0 <= i < |es|
          ensures es[i].main[0] == DOT
        {
          if i > 0 {
            assert es[i] == rest[i - 1];
          }
        }
      }
    } else {
      assert es == rest;
    }
  }

  lemma EmptyStep(slots: seq<Slot>, k: nat, it: Item)
    requires ItemOk(it) && k + |ItemSlots(it)| <= |slots| && slots[k..k + |ItemSlots(it)|] == ItemSlots(it)
    ensures it.Live? ==> EmptyFrom(slots, k) == (it.main[0] == DOT && EmptyFrom(slots, k + |ItemSlots(it)|))
    ensures !it.Live? ==> |ItemSlots(it)| == 1 && EmptyFrom(slots, k) == EmptyFrom(slots, k + 1)
  {
    hide Determined, Checksum, Sequence, IsLast;
    var g := ItemSlots(it);
    assert forall i :: 0 <= i < |g| ==> slots[k + i] == slots[k..k + |g|][i] == g[i];
    if it.Live? {
      var j := k + |it.lfn|;
      forall i | k <= i < j
        ensures IsLfn(slots[i])
      {
        assert slots[i] == g[i - k] == it.lfn[i - k];
      }
      SkipLfn(slots, k, j);
      assert slots[j] == g[|it.lfn|] == it.main;
    } else {
      assert slots[k] == g[0] == it.slot;
    }
  }
}
