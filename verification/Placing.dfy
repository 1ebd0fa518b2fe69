/** Finding room in a directory, putting an entry there and deleting one: the effect on the slots
    and on the listing (fat32_alloc_fdentry, fat32_create_fdentry, fat32_delete_fdentry_chain). */
module Placing {
  import opened Bytes
  import opened Slots

  // ---- finding room ----

  /** The scan of `fat32_alloc_fdentry` from slot `k`, with `run` deleted slots just before it: the
      first of `n` deleted slots in a row, or of the run in front of the end marker or of the end. */
  function FreeRun(slots: seq<Slot>, k: nat, run: nat, n: nat): (start: nat)
    requires run <= k <= |slots|
    ensures start <= |slots|
    decreases |slots| - k
  {
    if k == |slots| || slots[k][0] == 0 then k - run
    else if slots[k][0] == DELETED then
      if run + 1 == n then k - run else FreeRun(slots, k + 1, run + 1, n)
    else FreeRun(slots, k + 1, 0, n)
  }

  /** What the scan guarantees: `r` deleted slots from the result on, which are either enough or
      reach up to the first end marker. */
  ghost predicate RunFound(slots: seq<Slot>, start: nat, r: nat, n: nat) {
    && start + r <= |slots| && r <= n
    && (forall i :: start <= i < start + r ==> slots[i][0] == DELETED)
    && (r == n || start + r == |slots| || slots[start + r][0] == 0)
    && (forall i :: 0 <= i < start + r ==> slots[i][0] != 0)
  }

  lemma {:induction false} FreeRunFinds(slots: seq<Slot>, k: nat, run: nat, n: nat) returns (r: nat)
    requires run <= k <= |slots| && run < n
    requires forall i :: k - run <= i < k ==> slots[i][0] == DELETED
    requires forall i :: 0 <= i < k ==> slots[i][0] != 0
    ensures RunFound(slots, FreeRun(slots, k, run, n), r, n)
    decreases |slots| - k
  {
    if k == |slots| || slots[k][0] == 0 {
      r := run;
    } else if slots[k][0] == DELETED {
      if run + 1 == n {
        r := n;
      } else {
        r := FreeRunFinds(slots, k + 1, run + 1, n);
      }
    } else {
      r := FreeRunFinds(slots, k + 1, 0, n);
    }
  }

  // ---- positions of items ----

  lemma {:induction false} FlatTake(items: seq<Item>, a: nat)
    requires a <= |items|
    ensures Flat(items) == Flat(items[..a]) + Flat(items[a..])
  {
    assert items == items[..a] + items[a..];
    FlatConcat(items[..a], items[a..]);
  }

  lemma FlatOne(it: Item)
    ensures Flat([it]) == ItemSlots(it)
  {
    assert [it][1..] == [];
    assert Flat([it]) == ItemSlots(it) + Flat([]);
  }

  /** No slot of an item carries an end marker; a deleted slot is an item of its own. */
  lemma ItemSlotKinds(it: Item)
    requires ItemOk(it)
    ensures forall i :: 0 <= i < |ItemSlots(it)| ==> ItemSlots(it)[i][0] != 0
    ensures forall i :: 0 <= i < |ItemSlots(it)| && ItemSlots(it)[i][0] == DELETED ==> it.Gap?
  {
    hide Determined, Checksum;
  }

  /** A deleted slot starts an item, and that item is a gap. */
  lemma {:induction false} DeletedIsGap(items: seq<Item>, k: nat) returns (a: nat)
    requires ItemsOk(items) && k < |Flat(items)| && Flat(items)[k][0] == DELETED
    ensures a < |items| && |Flat(items[..a])| == k && items[a].Gap?
    decreases |items|
  {
    hide ItemOk;
    var n := |ItemSlots(items[0])|;
    assert ItemOk(items[0]);
    ItemSlotKinds(items[0]);
    if k < n {
      assert Flat(items)[k] == ItemSlots(items[0])[k];
      a := 0;
    } else {
      assert Flat(items)[k] == Flat(items[1..])[k - n];
      assert forall i :: 0 <= i < |items| - 1 ==> items[1..][i] == items[i + 1];
      var b := DeletedIsGap(items[1..], k - n);
      a := b + 1;
      assert items[..a] == [items[0]] + items[1..][..b];
      assert items[..a][1..] == items[1..][..b];
    }
  }

  lemma {:induction false} NoEndInItems(items: seq<Item>)
    requires ItemsOk(items)
    ensures forall k :: 0 <= k < |Flat(items)| ==> Flat(items)[k][0] != 0
    decreases |items|
  {
    hide ItemOk;
    if items != [] {
      assert ItemOk(items[0]);
      ItemSlotKinds(items[0]);
      assert forall i :: 0 <= i < |items| - 1 ==> items[1..][i] == items[i + 1];
      NoEndInItems(items[1..]);
    }
  }

  lemma {:induction false} FlatShorter(items: seq<Item>, a: nat, b: nat)
    requires a < b <= |items|
    ensures |Flat(items[..a])| < |Flat(items[..b])|
  {
    assert items[..b][..a] == items[..a];
    FlatTake(items[..b], a);
    assert |ItemSlots(items[..b][a..][0])| > 0;
  }

  predicate AllGaps(items: seq<Item>) {
    forall i :: 0 <= i < |items| ==> items[i].Gap?
  }

  lemma {:induction false} GapsFlat(items: seq<Item>)
    requires AllGaps(items)
    ensures |Flat(items)| == |items|
    ensures forall k :: Entries(items, k) == []
    decreases |items|
  {
    if items != [] {
      assert forall i :: 0 <= i < |items| - 1 ==> items[1..][i] == items[i + 1];
      GapsFlat(items[1..]);
    }
  }

  /** A run of deleted slots is a run of gap items. */
  lemma {:induction false} RunIsGaps(items: seq<Item>, k: nat, r: nat) returns (a: nat)
    requires ItemsOk(items) && k + r <= |Flat(items)|
    requires forall i :: k <= i < k + r ==> Flat(items)[i][0] == DELETED
    requires r > 0
    ensures a + r <= |items| && |Flat(items[..a])| == k && AllGaps(items[a..a + r])
    decreases r
  {
    hide ItemOk, Flat;
    a := DeletedIsGap(items, k);
    if r > 1 {
      var b := RunIsGaps(items, k + 1, r - 1);
      GapStep(items, a);
      if b < a + 1 {
        FlatShorter(items, b, a + 1);
      } else if b > a + 1 {
        FlatShorter(items, a + 1, b);
      }
      assert items[a..a + r] == [items[a]] + items[b..b + (r - 1)];
    } else {
      assert items[a..a + 1] == [items[a]];
    }
  }

  lemma GapStep(items: seq<Item>, a: nat)
    requires a < |items| && items[a].Gap?
    ensures |Flat(items[..a + 1])| == |Flat(items[..a])| + 1
  {
    assert items[..a + 1] == items[..a] + [items[a]];
    FlatConcat(items[..a], [items[a]]);
    FlatOne(items[a]);
  }

  // ---- placing an entry ----

  /** `es'` is `es` with `e` put in at its place in slot order. */
  ghost predicate AddedEntry(es: seq<Dirent>, es': seq<Dirent>, e: Dirent) {
    exists j :: 0 <= j <= |es| && AddedAt(es, es', e, j)
  }

  ghost predicate AddedAt(es: seq<Dirent>, es': seq<Dirent>, e: Dirent, j: nat)
    requires j <= |es|
  {
    && es' == es[..j] + [e] + es[j..]
    && (forall i :: 0 <= i < j ==> es[i].start < e.start)
    && (forall i :: j <= i < |es| ==> es[i].start > e.start)
  }

  /** The entries listed for one item at slot `k`. */
  function ItemEntries(it: Item, k: nat): seq<Dirent> {
    if it.Live? then [Dirent(GroupText(it.lfn, it.main, Zeros(256)), k, |ItemSlots(it)|, it.main)] else []
  }

  lemma {:induction false} EntryStarts(items: seq<Item>, k: nat)
    ensures forall i :: 0 <= i < |Entries(items, k)| ==> k <= Entries(items, k)[i].start < k + |Flat(items)|
    decreases |items|
  {
    hide GroupText, ItemSlots;
    if items != [] {
      EntryStarts(items[1..], k + |ItemSlots(items[0])|);
    }
  }

  /** Replacing a stretch of gaps by one item: the listing gains the entry of that item. */
  lemma ReplaceGaps(a: seq<Item>, gaps: seq<Item>, b: seq<Item>, it: Item)
    requires AllGaps(gaps) && |ItemSlots(it)| >= |gaps|
    requires |ItemSlots(it)| == |gaps| || b == []
    ensures Flat(a + gaps + b) == Flat(a) + Flat(gaps) + Flat(b)
    ensures Flat(a + [it] + b) == Flat(a) + ItemSlots(it) + Flat(b)
    ensures var k, es, es' := |Flat(a)|, Entries(a + gaps + b, 0), Entries(a + [it] + b, 0);
      if it.Live? then AddedEntry(es, es', ItemEntries(it, k)[0]) else es' == es
  {
    hide GroupText, ItemSlots, Flat, Entries;
    var k, n := |Flat(a)|, |ItemSlots(it)|;
    FlatConcat(a + gaps, b);
    FlatConcat(a, gaps);
    FlatConcat(a + [it], b);
    FlatConcat(a, [it]);
    FlatOne(it);
    GapsFlat(gaps);
    EntriesConcat(a + gaps, b, 0);
    EntriesConcat(a, gaps, 0);
    EntriesConcat(a + [it], b, 0);
    EntriesConcat(a, [it], 0);
    EntriesOne(it, k);
    var ea, eb := Entries(a, 0), Entries(b, k + n);
    EntryStarts(a, 0);
    EntryStarts(b, k + n);
    EntriesOfNothing(b, k + |gaps|, k + n);
    var es, es' := Entries(a + gaps + b, 0), Entries(a + [it] + b, 0);
    assert es == ea + eb;
    assert es' == ea + ItemEntries(it, k) + eb;
    if it.Live? {
      assert es[..|ea|] == ea && es[|ea|..] == eb;
      assert AddedAt(es, es', ItemEntries(it, k)[0], |ea|);
    }
  }

  lemma EntriesOne(it: Item, k: nat)
    ensures Entries([it], k) == ItemEntries(it, k)
  {
    hide GroupText, ItemSlots;
    assert [it][1..] == [];
    assert Entries([it][1..], k + |ItemSlots(it)|) == [];
  }

  lemma EntriesOfNothing(b: seq<Item>, k: nat, k': nat)
    requires k == k' || b == []
    ensures Entries(b, k) == Entries(b, k')
  {
  }

  /** The slots with `group` at `start`, extended by cleared slots as far as needed. */
  ghost predicate Placed(slots: seq<Slot>, slots': seq<Slot>, start: nat, group: seq<Slot>) {
    && |slots'| >= |slots| && start + |group| <= |slots'|
    && (forall i :: 0 <= i < |slots'| ==>
          slots'[i] == if start <= i < start + |group| then group[i - start]
                       else if i < |slots| then slots[i] else Zeros(32))
  }

  /** The run that the scan finds lies among the items, or reaches exactly up to their end. */
  lemma RoomFound(slots: seq<Slot>, items: seq<Item>, tail: seq<Slot>, n: nat) returns (r: nat)
    requires IsDir(slots, items, tail) && n > 0
    ensures var k := FreeRun(slots, 0, 0, n);
      && r <= n && k + r <= |Flat(items)| && (r == n || k + r == |Flat(items)|)
      && forall i :: k <= i < k + r ==> slots[i][0] == DELETED && Flat(items)[i] == slots[i]
  {
    hide ItemOk, ItemSlots, Flat;
    var k := FreeRun(slots, 0, 0, n);
    r := FreeRunFinds(slots, 0, 0, n);
    NoEndInItems(items);
    var m := |Flat(items)|;
    assert forall i :: 0 <= i < m ==> slots[i] == Flat(items)[i];
    assert tail != [] ==> slots[m] == tail[0];
  }

  /** The slots that are handed out are deleted or lie at or behind the end marker. */
  lemma RoomIsFree(slots: seq<Slot>, items: seq<Item>, tail: seq<Slot>, n: nat)
    requires IsDir(slots, items, tail) && n > 0
    ensures var k := FreeRun(slots, 0, 0, n); forall i :: k <= i < k + n && i < |slots| ==> IsFree(slots[i])
  {
    hide ItemOk, ItemSlots, Flat;
    var k := FreeRun(slots, 0, 0, n);
    var r := RoomFound(slots, items, tail, n);
    forall i | k <= i < k + n && i < |slots|
      ensures IsFree(slots[i])
    {
      if i >= k + r {
        assert slots[i] == tail[i - |Flat(items)|];
      }
    }
  }

  /** Placing an entry where `fat32_alloc_fdentry` finds room keeps the directory well formed and
      adds exactly that entry to the listing. */
  lemma PlaceKeepsDir(slots: seq<Slot>, slots': seq<Slot>, items: seq<Item>, tail: seq<Slot>, it: Item)
    requires IsDir(slots, items, tail) && ItemOk(it)
    requires Placed(slots, slots', FreeRun(slots, 0, 0, |ItemSlots(it)|), ItemSlots(it))
    ensures exists items', tail' :: IsDir(slots', items', tail') && PlacedEntries(items, items', it, FreeRun(slots, 0, 0, |ItemSlots(it)|))
  {
    hide ItemOk, ItemSlots, Flat, Entries, GroupText, FreeRun, IsDir, Placed, PlacedEntries;
    var n := |ItemSlots(it)|;
    var k := FreeRun(slots, 0, 0, n);
    var r := RoomFound(slots, items, tail, n);
    DirItemsOk(slots, items, tail);
    if r == n {
      var a := RunIsGaps(items, k, n);
      PlaceInGaps(slots, slots', items, tail, it, a, n);
    } else {
      PlaceAtEnd(slots, slots', items, tail, it, k, r);
    }
  }

  lemma DirItemsOk(slots: seq<Slot>, items: seq<Item>, tail: seq<Slot>)
    requires IsDir(slots, items, tail)
    ensures ItemsOk(items)
  {
  }

  ghost predicate PlacedEntries(items: seq<Item>, items': seq<Item>, it: Item, start: nat) {
    if it.Live? then AddedEntry(Entries(items, 0), Entries(items', 0), ItemEntries(it, start)[0])
    else Entries(items', 0) == Entries(items, 0)
  }

  lemma PlaceInGaps(slots: seq<Slot>, slots': seq<Slot>, items: seq<Item>, tail: seq<Slot>, it: Item, a: nat, n: nat)
    requires IsDir(slots, items, tail) && ItemOk(it) && n == |ItemSlots(it)| && a + n <= |items|
    requires AllGaps(items[a..a + n]) && Placed(slots, slots', |Flat(items[..a])|, ItemSlots(it))
    ensures exists items', tail' :: IsDir(slots', items', tail') && PlacedEntries(items, items', it, |Flat(items[..a])|)
  {
    hide ItemOk, ItemSlots, Flat, Entries, GroupText, AddedEntry;
    var x, gaps, b := items[..a], items[a..a + n], items[a + n..];
    assert items == x + gaps + b;
    ReplaceGaps(x, gaps, b, it);
    GapsFlat(gaps);
    var items' := x + [it] + b;
    var k := |Flat(x)|;
    ItemsOkReplaced(items, a, a + n, it);
    assert slots == Flat(x) + Flat(gaps) + Flat(b) + tail;
    var t := tail + slots'[|slots|..];
    assert |slots| == k + n + |Flat(b)| + |tail|;
    assert slots' == Flat(x) + ItemSlots(it) + Flat(b) + t;
    assert AllEnd(t);
    assert IsDir(slots', items', t);
  }

  lemma PlaceAtEnd(slots: seq<Slot>, slots': seq<Slot>, items: seq<Item>, tail: seq<Slot>, it: Item, k: nat, r: nat)
    requires IsDir(slots, items, tail) && ItemOk(it) && r < |ItemSlots(it)| && k + r == |Flat(items)|
    requires forall i :: k <= i < k + r ==> slots[i][0] == DELETED
    requires Placed(slots, slots', k, ItemSlots(it))
    ensures exists items', tail' :: IsDir(slots', items', tail') && PlacedEntries(items, items', it, k)
  {
    hide ItemOk, ItemSlots, Flat, Entries, GroupText, AddedEntry, Placed, AllEnd;
    var a := |items|;
    assert items[..a] == items && items[a..a] == [];
    assert forall i :: 0 <= i < k + r ==> slots[i] == Flat(items)[i];
    if r > 0 {
      a := RunIsGaps(items, k, r);
      GapsToEnd(items, a, r);
    }
    var x, gaps := items[..a], items[a..];
    assert items == x + gaps + [] && AllGaps(gaps);
    ReplaceGaps(x, gaps, [], it);
    FlatNothing();
    GapsFlat(gaps);
    var items' := x + [it] + [];
    ItemsOkReplaced(items, a, |items|, it);
    assert items[|items|..] == [];
    EndPlaced(slots, slots', Flat(items), Flat(x), ItemSlots(it), tail, r);
    assert IsDir(slots', items', slots'[k + |ItemSlots(it)|..]);
  }

  /** Writing a group over the last `r` slots in front of the tail, and over part of the tail. */
  lemma EndPlaced(slots: seq<Slot>, slots': seq<Slot>, flat: seq<Slot>, before: seq<Slot>, group: seq<Slot>, tail: seq<Slot>, r: nat)
    requires slots == flat + tail && AllEnd(tail) && |before| + r == |flat| && before == flat[..|before|] && r < |group|
    requires Placed(slots, slots', |before|, group)
    ensures |before| + |group| <= |slots'| && slots' == before + group + [] + slots'[|before| + |group|..]
    ensures AllEnd(slots'[|before| + |group|..])
  {
    var k, n := |before|, |group|;
    var t := slots'[k + n..];
    forall i | 0 <= i < |t|
      ensures t[i][0] == 0
    {
      if k + n + i < |slots| {
        assert slots[k + n + i] == tail[k + n + i - (k + r)];
      }
    }
    forall i | 0 <= i < k
      ensures slots'[i] == before[i]
    {
      assert slots[i] == flat[i] == before[i];
    }
  }

  lemma FlatNothing()
    ensures Flat([]) == []
  {
  }

  lemma GapsToEnd(items: seq<Item>, a: nat, r: nat)
    requires a + r <= |items| && AllGaps(items[a..a + r]) && |Flat(items[..a])| + r == |Flat(items)|
    ensures a + r == |items|
  {
    hide Flat;
    assert items[..a + r] == items[..a] + items[a..a + r];
    FlatConcat(items[..a], items[a..a + r]);
    GapsFlat(items[a..a + r]);
    if a + r < |items| {
      assert items[..|items|] == items;
      FlatShorter(items, a + r, |items|);
    }
  }

  lemma ItemsOkReplaced(items: seq<Item>, a: nat, b: nat, it: Item)
    requires ItemsOk(items) && ItemOk(it) && a <= b <= |items|
    ensures ItemsOk(items[..a] + [it] + items[b..])
  {
    hide ItemOk;
    var items' := items[..a] + [it] + items[b..];
    forall i | 0 <= i < |items'|
      ensures ItemOk(items'[i])
    {
      if i < a {
        assert items'[i] == items[i];
      } else if i > a {
        assert items'[i] == items[b + (i - a - 1)];
      }
    }
  }

  // ---- deleting an entry ----

  /** The slot with its first byte overwritten. */
  function Deleted(s: Slot): (d: Slot)
    ensures d[0] == DELETED
  {
    s[0 := DELETED]
  }

  /** Slots `start` to `start + n` are marked as deleted, the others are as before. */
  ghost predicate Erased(slots: seq<Slot>, slots': seq<Slot>, start: nat, n: nat) {
    && |slots'| == |slots| && start + n <= |slots|
    && (forall i :: 0 <= i < |slots| ==> slots'[i] == if start <= i < start + n then Deleted(slots[i]) else slots[i])
  }

  function DeletedGaps(s: seq<Slot>): (g: seq<Item>)
    ensures |g| == |s| && AllGaps(g)
  {
    seq(|s|, i requires 0 <= i < |s| => Gap(Deleted(s[i])))
  }

  lemma {:induction false} DeletedGapsFlat(s: seq<Slot>)
    ensures Flat(DeletedGaps(s)) == seq(|s|, i requires 0 <= i < |s| => Deleted(s[i]))
    decreases |s|
  {
    if s != [] {
      assert DeletedGaps(s)[1..] == DeletedGaps(s[1..]);
      DeletedGapsFlat(s[1..]);
    }
  }

  lemma {:induction false} LiveItem(items: seq<Item>, k: nat, j: nat) returns (a: nat)
    requires j < |Entries(items, k)|
    ensures a < |items| && items[a].Live? && |Entries(items[..a], k)| == j
    decreases |items|
  {
    hide GroupText, ItemSlots, Flat;
    var p, last := items[..|items| - 1], items[|items| - 1];
    assert items == p + [last];
    EntriesConcat(p, [last], k);
    EntriesOne(last, k + |Flat(p)|);
    if j < |Entries(p, k)| {
      a := LiveItem(p, k, j);
      assert p[..a] == items[..a];
    } else {
      a := |items| - 1;
    }
  }

  /** Where entry number `j` of a listing comes from. */
  lemma EntryItem(items: seq<Item>, k: nat, j: nat) returns (a: nat)
    requires j < |Entries(items, k)|
    ensures a < |items| && items[a].Live?
    ensures Entries(items, k)[j] == ItemEntries(items[a], k + |Flat(items[..a])|)[0]
    ensures Entries(items, k)[..j] == Entries(items[..a], k)
    ensures Entries(items, k)[j + 1..] == Entries(items[a + 1..], k + |Flat(items[..a])| + |ItemSlots(items[a])|)
  {
    hide GroupText, ItemSlots, Flat, Entries;
    a := LiveItem(items, k, j);
    var x, it, b := items[..a], items[a], items[a + 1..];
    assert items == x + ([it] + b);
    EntriesConcat(x, [it] + b, k);
    EntriesConcat([it], b, k + |Flat(x)|);
    EntriesOne(it, k + |Flat(x)|);
    FlatOne(it);
  }

  /** Erasing the slots of a listed entry keeps the directory well formed and removes exactly that
      entry from the listing. */
  lemma EraseKeepsDir(slots: seq<Slot>, slots': seq<Slot>, items: seq<Item>, tail: seq<Slot>, j: nat)
    requires IsDir(slots, items, tail) && j < |Entries(items, 0)|
    requires Erased(slots, slots', Entries(items, 0)[j].start, Entries(items, 0)[j].count)
    ensures exists items', tail' ::
              IsDir(slots', items', tail') && Entries(items', 0) == Entries(items, 0)[..j] + Entries(items, 0)[j + 1..]
  {
    hide ItemOk, ItemsOk, ItemSlots, Flat, Entries, GroupText, DeletedGaps, Erased, AllEnd;
    var a := EntryItem(items, 0, j);
    var x, it, b := items[..a], items[a], items[a + 1..];
    var gaps := DeletedGaps(ItemSlots(it));
    assert items == x + [it] + b;
    ErasedFlat(slots, slots', x, it, b, tail);
    GapsListNothing(x, gaps, b, |ItemSlots(it)|);
    DeletedGapsAre(ItemSlots(it));
    ItemsOkWithGaps(x, gaps, b, items, a);
    assert IsDir(slots', x + gaps + b, tail);
  }

  lemma GapsListNothing(x: seq<Item>, gaps: seq<Item>, b: seq<Item>, n: nat)
    requires AllGaps(gaps) && |gaps| == n
    ensures Entries(x + gaps + b, 0) == Entries(x, 0) + Entries(b, |Flat(x)| + n)
  {
    hide GroupText, ItemSlots, Flat, Entries;
    EntriesConcat(x + gaps, b, 0);
    EntriesConcat(x, gaps, 0);
    FlatConcat(x, gaps);
    GapsFlat(gaps);
  }

  lemma DeletedGapsAre(s: seq<Slot>)
    ensures forall i :: 0 <= i < |s| ==> DeletedGaps(s)[i].Gap? && DeletedGaps(s)[i].slot[0] == DELETED
  {
  }

  /** The slots of one item turn into gaps in place. */
  lemma ErasedFlat(slots: seq<Slot>, slots': seq<Slot>, x: seq<Item>, it: Item, b: seq<Item>, tail: seq<Slot>)
    requires slots == Flat(x + [it] + b) + tail
    requires Erased(slots, slots', |Flat(x)|, |ItemSlots(it)|)
    ensures slots' == Flat(x + DeletedGaps(ItemSlots(it)) + b) + tail
  {
    hide ItemSlots, Flat, DeletedGaps, Deleted;
    var g, gaps := ItemSlots(it), DeletedGaps(ItemSlots(it));
    FlatConcat(x + [it], b);
    FlatConcat(x, [it]);
    FlatOne(it);
    DeletedGapsFlat(g);
    FlatConcat(x + gaps, b);
    FlatConcat(x, gaps);
    assert slots == Flat(x) + g + Flat(b) + tail;
    var k, n := |Flat(x)|, |g|;
    assert forall i :: k <= i < k + n ==> slots[i] == g[i - k];
    assert slots' == Flat(x) + Flat(gaps) + Flat(b) + tail;
  }

  lemma ItemsOkWithGaps(x: seq<Item>, gaps: seq<Item>, b: seq<Item>, items: seq<Item>, a: nat)
    requires a < |items| && ItemsOk(items) && x == items[..a] && b == items[a + 1..]
    requires forall i :: 0 <= i < |gaps| ==> gaps[i].Gap? && gaps[i].slot[0] == DELETED
    ensures ItemsOk(x + gaps + b)
  {
    hide Determined, GroupOk;
    var items' := x + gaps + b;
    forall i | 0 <= i < |items'|
      ensures ItemOk(items'[i])
    {
      if i < a {
        assert items'[i] == items[i];
      } else if i < a + |gaps| {
        assert items'[i] == gaps[i - a];
      } else {
        assert items'[i] == items[i - |gaps| + 1];
      }
    }
  }
}
