/** A directory as a case-insensitive map from names to entries: finding, creating and removing,
    and what holds over every run of these (fat32_dir.c, fat32_vnode.c). */
module DirectoryMap {
  import opened Bytes
  import opened Slots
  import opened Names
  import opened Placing
  import opened Listings
  import opened Stale

  function Upper(c: byte): byte {
    if 0x61 <= c <= 0x7A then c - 32 else c
  }

  /** `fat32_chrcmp` on every character, after the lengths agree. */
  predicate SameName(a: seq<byte>, b: seq<byte>) {
    |a| == |b| && forall i :: 0 <= i < |a| ==> Upper(a[i]) == Upper(b[i])
  }

  /** Two letters that differ by their case alone. */
  predicate CasePair(x: nat, y: nat) {
    (0x41 <= x <= 0x5A && y == x + 32) || (0x41 <= y <= 0x5A && x == y + 32)
  }

  /** The same name, possibly in another casing. */
  predicate Recased(a: seq<byte>, b: seq<byte>) {
    |a| == |b| && forall i :: 0 <= i < |a| ==> a[i] == b[i] || CasePair(a[i], b[i])
  }

  /** The comparison does not tell letters of different case apart, and tells everything else apart. */
  lemma SameNameExact(a: seq<byte>, b: seq<byte>)
    ensures SameName(a, b) <==> Recased(a, b)
  {
    hide Upper;
    if |a| == |b| {
      forall i | 0 <= i < |a|
        ensures Upper(a[i]) == Upper(b[i]) <==> a[i] == b[i] || CasePair(a[i], b[i])
      {
        SameCharacter(a[i], b[i]);
      }
    }
  }

  lemma SameCharacter(x: byte, y: byte)
    ensures Upper(x) == Upper(y) <==> x == y || CasePair(x, y)
  {
  }

  /** What the driver lists for a directory. */
  function ListOf(slots: seq<Slot>): seq<Dirent> {
    Listing(slots, 0, Zeros(256))
  }

  lemma ListOfDir(slots: seq<Slot>, items: seq<Item>, tail: seq<Slot>)
    requires IsDir(slots, items, tail)
    ensures ListOf(slots) == Entries(items, 0)
  {
    hide Listing, Entries, ItemOk;
    assert slots[0..] == slots;
    ListingIsEntries(slots, 0, items, tail, Zeros(256));
  }

  /** The entry that `fat32_find_dirent` picks: the first with the same name. */
  ghost predicate FoundAt(es: seq<Dirent>, name: seq<byte>, j: nat) {
    j < |es| && SameName(name, es[j].name) && forall i :: 0 <= i < j ==> !SameName(name, es[i].name)
  }

  ghost predicate Absent(es: seq<Dirent>, name: seq<byte>) {
    forall i :: 0 <= i < |es| ==> !SameName(name, es[i].name)
  }

  /** A name is listed, in some casing. */
  ghost predicate Listed(es: seq<Dirent>, name: seq<byte>) {
    exists i :: 0 <= i < |es| && Recased(name, es[i].name)
  }

  lemma ListedExact(es: seq<Dirent>, name: seq<byte>)
    ensures Absent(es, name) <==> !Listed(es, name)
    ensures forall j: nat :: FoundAt(es, name, j) ==> j < |es| && Recased(name, es[j].name)
  {
    hide SameName, Recased;
    forall i | 0 <= i < |es|
      ensures SameName(name, es[i].name) <==> Recased(name, es[i].name)
    {
      SameNameExact(name, es[i].name);
    }
  }

  /** No two listed names are the same up to case. */
  ghost predicate Unique(es: seq<Dirent>) {
    forall i, j :: 0 <= i < j < |es| ==> !SameName(es[i].name, es[j].name)
  }

  /** With unique names the first match is the only one. */
  lemma FoundIsOnly(es: seq<Dirent>, name: seq<byte>, j: nat, i: nat)
    requires Unique(es) && FoundAt(es, name, j) && i < |es| && SameName(name, es[i].name)
    ensures i == j
  {
    if i > j {
      SameNameJoin(name, es[j].name, es[i].name);
    }
  }

  lemma SameNameJoin(a: seq<byte>, b: seq<byte>, c: seq<byte>)
    requires SameName(a, b) && SameName(a, c)
    ensures SameName(b, c) && SameName(b, a)
  {
    forall i | 0 <= i < |b|
      ensures Upper(b[i]) == Upper(c[i])
    {
      assert Upper(a[i]) == Upper(b[i]) && Upper(a[i]) == Upper(c[i]);
    }
  }

  /** Adding an entry keeps the names unique exactly when its listed name is new. */
  lemma AddUnique(es: seq<Dirent>, es': seq<Dirent>, e: Dirent)
    requires AddedEntry(es, es', e)
    ensures Unique(es') <==> Unique(es) && Absent(es, e.name)
  {
    hide SameName, Unique, Absent, AddedAt;
    var j :| 0 <= j <= |es| && AddedAt(es, es', e, j);
    if Unique(es') {
      UniqueBefore(es, es', e, j);
    }
    if Unique(es) && Absent(es, e.name) {
      UniqueAfter(es, es', e, j);
    }
  }

  /** Where an old entry lies in the new listing. */
  function Moved(i: nat, j: nat): nat {
    if i < j then i else i + 1
  }

  lemma UniqueBefore(es: seq<Dirent>, es': seq<Dirent>, e: Dirent, j: nat)
    requires j <= |es| && AddedAt(es, es', e, j) && Unique(es')
    ensures Unique(es) && Absent(es, e.name)
  {
    hide SameName;
    assert es'[j] == e;
    forall i | 0 <= i < |es|
      ensures !SameName(e.name, es[i].name)
    {
      assert es'[Moved(i, j)] == es[i];
      SameNameSymmetric(e.name, es[i].name);
    }
    forall i, k | 0 <= i < k < |es|
      ensures !SameName(es[i].name, es[k].name)
    {
      assert es'[Moved(i, j)] == es[i] && es'[Moved(k, j)] == es[k];
    }
  }

  lemma UniqueAfter(es: seq<Dirent>, es': seq<Dirent>, e: Dirent, j: nat)
    requires j <= |es| && AddedAt(es, es', e, j) && Unique(es) && Absent(es, e.name)
    ensures Unique(es')
  {
    hide SameName;
    assert es'[j] == e;
    forall i, k | 0 <= i < k < |es'|
      ensures !SameName(es'[i].name, es'[k].name)
    {
      assert i < j ==> es'[i] == es[i];
      assert i > j ==> es'[i] == es[i - 1];
      assert k < j ==> es'[k] == es[k];
      assert k > j ==> es'[k] == es[k - 1];
      if k == j {
        SameNameSymmetric(es[i].name, e.name);
      }
    }
  }

  lemma SameNameSymmetric(a: seq<byte>, b: seq<byte>)
    ensures SameName(a, b) <==> SameName(b, a)
  {
  }

  lemma RemoveUnique(es: seq<Dirent>, j: nat)
    requires Unique(es) && j < |es|
    ensures Unique(es[..j] + es[j + 1..])
  {
    hide SameName;
    var es' := es[..j] + es[j + 1..];
    forall i, k | 0 <= i < k < |es'|
      ensures !SameName(es'[i].name, es'[k].name)
    {
      assert es'[i] == es[if i < j then i else i + 1] && es'[k] == es[if k < j then k else k + 1];
    }
  }

  // ---- creating ----

  /** What `fat32_create_fdentry` does to the slots of the directory at `cluster`. */
  ghost predicate Created(slots: seq<Slot>, slots': seq<Slot>, name: seq<byte>, main: Slot, cluster: nat) {
    && IsName(name)
    && var start := FreeRun(slots, 0, 0, SlotCount(name));
    && MainFor(main, name, cluster, SLOT * start)
    && Placed(slots, slots', start, EntryLfn(name, main) + [main])
  }

  /** Creating an entry keeps the directory well formed; the listing gains exactly that entry,
      under the name `Shown(name)`; a name that starts with 0xE5 and is short leaves no trace. */
  lemma CreateEffect(slots: seq<Slot>, slots': seq<Slot>, name: seq<byte>, main: Slot, cluster: nat)
    requires DirOk(slots) && Created(slots, slots', name, main, cluster)
    ensures DirOk(slots')
    ensures var start := FreeRun(slots, 0, 0, SlotCount(name));
      if Visible(name)
      then AddedEntry(ListOf(slots), ListOf(slots'), Dirent(Shown(name), start, SlotCount(name), main))
      else ListOf(slots') == ListOf(slots)
  {
    hide ListOf, EntryLfn, GroupText, IsShort, IsDir, Placed, Entries, FreeRun, Shown, AddedEntry, MainFor;
    var items, tail :| IsDir(slots, items, tail);
    var start := FreeRun(slots, 0, 0, SlotCount(name));
    MainForIsMain(main, name, cluster, SLOT * start);
    ListOfDir(slots, items, tail);
    var it := ItemFor(name, main);
    if Visible(name) {
      EntryReadBack(main, name, cluster, SLOT * start);
      ZeroBuffer();
    } else {
      NoLfn(name, main);
    }
    PlaceKeepsDir(slots, slots', items, tail, it);
    var items', tail' :| IsDir(slots', items', tail') && PlacedEntries(items, items', it, start);
    ListOfDir(slots', items', tail');
  }

  function ItemFor(name: seq<byte>, main: Slot): Item
    requires IsName(name)
  {
    if Visible(name) then Live(EntryLfn(name, main), main) else Gap(main)
  }

  lemma NoLfn(name: seq<byte>, main: Slot)
    requires IsName(name) && SlotCount(name) == 1
    ensures EntryLfn(name, main) + [main] == [main]
  {
  }

  // ---- removing ----

  /** What removing entry number `j` of the listing does to the slots. */
  ghost predicate RemovedAt(slots: seq<Slot>, slots': seq<Slot>, j: nat) {
    && j < |ListOf(slots)| && Erased(slots, slots', ListOf(slots)[j].start, ListOf(slots)[j].count)
  }

  /** Removing an entry keeps the directory well formed; the listing loses exactly that entry. */
  lemma RemoveEffect(slots: seq<Slot>, slots': seq<Slot>, j: nat)
    requires DirOk(slots) && RemovedAt(slots, slots', j)
    ensures DirOk(slots')
    ensures ListOf(slots') == ListOf(slots)[..j] + ListOf(slots)[j + 1..]
  {
    hide ListOf, IsDir, Entries, Erased;
    var items, tail :| IsDir(slots, items, tail);
    ListOfDir(slots, items, tail);
    EraseKeepsDir(slots, slots', items, tail, j);
    var items', tail' :|
      IsDir(slots', items', tail') && Entries(items', 0) == Entries(items, 0)[..j] + Entries(items, 0)[j + 1..];
    ListOfDir(slots', items', tail');
  }

  // ---- the map laws ----

  /** Where the new entry stands, and which names it answers to. */
  lemma AddedFound(es: seq<Dirent>, es': seq<Dirent>, e: Dirent, name: seq<byte>)
    requires AddedEntry(es, es', e) && Absent(es, name)
    ensures (exists j: nat :: FoundAt(es', name, j)) <==> SameName(name, e.name)
    ensures forall j: nat :: FoundAt(es', name, j) ==> es'[j] == e
  {
    hide SameName;
    var i :| 0 <= i <= |es| && AddedAt(es, es', e, i);
    assert es'[i] == e;
    assert forall k :: 0 <= k < i ==> es'[k] == es[k];
    assert forall k :: i < k < |es'| ==> es'[k] == es[k - 1];
    if SameName(name, e.name) {
      assert FoundAt(es', name, i);
    }
  }

  /** The listed name of an entry is the same as the given one exactly if it reads back. */
  lemma ShownSame(name: seq<byte>)
    requires IsName(name)
    ensures RoundTrips(name) <==> Visible(name) && SameName(name, Shown(name))
    ensures RoundTrips(name) ==> Shown(name) == name
  {
    hide IsShort;
    SevenIsSame(name);
    SameNameRefl(name);
    if !IsShort(name) && !RoundTrips(name) {
      var i :| 0 <= i < |name| && name[i] >= 128;
      assert Upper(name[i]) != Upper(Seven(name)[i]);
    }
  }

  /** After creating an absent name a lookup finds something exactly if the name is one that reads
      back, and then it finds the new entry; the names stay unique exactly if the name under which
      the entry is listed, if any, is new. */
  lemma CreateThenFind(slots: seq<Slot>, slots': seq<Slot>, name: seq<byte>, main: Slot, cluster: nat)
    requires DirOk(slots) && Created(slots, slots', name, main, cluster) && Absent(ListOf(slots), name)
    ensures (exists j: nat :: FoundAt(ListOf(slots'), name, j)) <==> RoundTrips(name)
    ensures forall j: nat :: FoundAt(ListOf(slots'), name, j) ==> ListOf(slots')[j].main == main && ListOf(slots')[j].name == name
    ensures Unique(ListOf(slots')) <==> Unique(ListOf(slots)) && (Visible(name) ==> Absent(ListOf(slots), Shown(name)))
  {
    hide ListOf, SameName, IsShort, FreeRun, DirOk, Shown, Unique;
    CreateEffect(slots, slots', name, main, cluster);
    ShownSame(name);
    if Visible(name) {
      var e := Dirent(Shown(name), FreeRun(slots, 0, 0, SlotCount(name)), SlotCount(name), main);
      AddUnique(ListOf(slots), ListOf(slots'), e);
      AddedFound(ListOf(slots), ListOf(slots'), e, name);
    }
  }

  lemma SameNameRefl(a: seq<byte>)
    ensures SameName(a, a)
  {
  }

  /** After removing the entry found for a name, the name is absent. */
  lemma RemoveThenFind(slots: seq<Slot>, slots': seq<Slot>, name: seq<byte>, j: nat)
    requires DirOk(slots) && RemovedAt(slots, slots', j) && Unique(ListOf(slots)) && FoundAt(ListOf(slots), name, j)
    ensures Unique(ListOf(slots')) && Absent(ListOf(slots'), name)
  {
    hide ListOf, SameName, DirOk;
    RemoveEffect(slots, slots', j);
    var es, es' := ListOf(slots), ListOf(slots');
    RemoveUnique(es, j);
    forall i | 0 <= i < |es'|
      ensures !SameName(name, es'[i].name)
    {
      var i0 := if i < j then i else i + 1;
      assert es'[i] == es[i0];
      if SameName(name, es[i0].name) {
        FoundIsOnly(es, name, j, i0);
      }
    }
  }

  /** Creating a name and removing it again restores the listing. */
  lemma CreateRemove(slots: seq<Slot>, slots1: seq<Slot>, slots2: seq<Slot>, name: seq<byte>, main: Slot, cluster: nat, j: nat)
    requires DirOk(slots) && Created(slots, slots1, name, main, cluster) && RoundTrips(name)
    requires Unique(ListOf(slots)) && Absent(ListOf(slots), name)
    requires FoundAt(ListOf(slots1), name, j) && RemovedAt(slots1, slots2, j)
    ensures ListOf(slots2) == ListOf(slots)
  {
    hide ListOf, SameName, IsShort, FreeRun, DirOk, AddedAt, Unique, Created, RoundTrips, RemovedAt, SlotCount;
    CreateEffect(slots, slots1, name, main, cluster);
    CreatedName(slots, slots1, name, main, cluster);
    ShownSame(name);
    RemoveEffect(slots1, slots2, j);
    var start := FreeRun(slots, 0, 0, SlotCount(name));
    var es, es', e := ListOf(slots), ListOf(slots1), Dirent(name, start, SlotCount(name), main);
    AddUnique(es, es', e);
    var i :| 0 <= i <= |es| && AddedAt(es, es', e, i);
    AddedAway(es, es', e, i);
    SameNameRefl(name);
    FoundIsOnly(es', name, j, i);
  }

  lemma AddedAway(es: seq<Dirent>, es': seq<Dirent>, e: Dirent, i: nat)
    requires i <= |es| && AddedAt(es, es', e, i)
    ensures i < |es'| && es'[i] == e && es'[..i] + es'[i + 1..] == es
  {
    assert es'[..i] == es[..i] && es'[i + 1..] == es[i..];
    assert es[..i] + es[i..] == es;
  }

  lemma CreatedName(slots: seq<Slot>, slots': seq<Slot>, name: seq<byte>, main: Slot, cluster: nat)
    requires Created(slots, slots', name, main, cluster)
    ensures IsName(name)
  {
  }

  // ---- the dot entries ----

  /** Exactly the entries named "." and ".." have 8.3 names that start with a dot. */
  predicate DotsPlain(es: seq<Dirent>) {
    forall i :: 0 <= i < |es| ==> (es[i].main[0] == DOT <==> IsDots(es[i].name))
  }

  lemma AddDots(es: seq<Dirent>, es': seq<Dirent>, e: Dirent)
    requires AddedEntry(es, es', e) && DotsPlain(es)
    ensures DotsPlain(es') <==> (e.main[0] == DOT <==> IsDots(e.name))
  {
    hide IsDots;
    var i :| 0 <= i <= |es| && AddedAt(es, es', e, i);
    assert es'[i] == e;
    forall k | 0 <= k < |es'| && k != i
      ensures es'[k].main[0] == DOT <==> IsDots(es'[k].name)
    {
      assert es'[k] == es[if k < i then k else k - 1];
    }
  }

  lemma RemoveDots(es: seq<Dirent>, j: nat)
    requires j < |es| && DotsPlain(es)
    ensures DotsPlain(es[..j] + es[j + 1..])
  {
    hide IsDots;
    var es' := es[..j] + es[j + 1..];
    forall k | 0 <= k < |es'|
      ensures es'[k].main[0] == DOT <==> IsDots(es'[k].name)
    {
      assert es'[k] == es[if k < j then k else k + 1];
    }
  }

  /** Creating any name but ".." keeps the dot entries apart from the others. */
  lemma CreateDots(slots: seq<Slot>, slots': seq<Slot>, name: seq<byte>, main: Slot, cluster: nat)
    requires DirOk(slots) && Created(slots, slots', name, main, cluster) && DotsPlain(ListOf(slots))
    ensures DotsPlain(ListOf(slots')) <==> name != [DOT, DOT]
  {
    hide ListOf, IsShort, FreeRun, DirOk, Shown, DotsPlain, IsDots, MainFor, Placed;
    CreateEffect(slots, slots', name, main, cluster);
    var start := FreeRun(slots, 0, 0, SlotCount(name));
    ShownNotDots(main, name, cluster, SLOT * start);
    assert Visible([DOT, DOT]);
    if Visible(name) {
      AddDots(ListOf(slots), ListOf(slots'), Dirent(Shown(name), start, SlotCount(name), main));
    }
  }

  // ---- runs ----

  /** One operation on a directory that succeeded, or, for `Grow`, a creation that failed after the
      directory had grown by `count` cleared slots and, when FSInfo could not be read, by the `stale`
      slots of one more cluster. */
  datatype Op =
    | Create(name: seq<byte>, main: Slot, cluster: nat)
    | Remove(j: nat)
    | Grow(count: nat, stale: seq<Slot>)

  ghost predicate Step(slots: seq<Slot>, slots': seq<Slot>, op: Op) {
    match op
    case Create(name, main, cluster) => Created(slots, slots', name, main, cluster)
    case Remove(j) => RemovedAt(slots, slots', j)
    case Grow(count, stale) => slots' == slots + Cleared(count) + stale
  }

  ghost predicate Run(states: seq<seq<Slot>>, ops: seq<Op>) {
    && |states| == |ops| + 1
    && forall i :: 0 <= i < |ops| ==> Step(states[i], states[i + 1], ops[i])
  }

  /** The stale slots are no directory slots at all, or one that lists nothing. */
  ghost predicate NoTrace(slots: seq<Slot>, count: nat, stale: seq<Slot>) {
    Harmless(slots, count, stale) && (count > 0 || HasEnd(slots) || ListOf(stale) == [])
  }

  lemma NothingStale(slots: seq<Slot>, count: nat)
    ensures NoTrace(slots, count, []) && slots + Cleared(count) + [] == slots + Cleared(count)
  {
    assert IsDir([], [], []);
  }

  /** What the directory lists then: what it did, and what the stale slots list on their own if no end
      marker comes before them. */
  lemma GrowEffect(slots: seq<Slot>, count: nat, stale: seq<Slot>)
    requires DirOk(slots) && Harmless(slots, count, stale)
    ensures DirOk(slots + Cleared(count) + stale)
    ensures |ListOf(slots + Cleared(count) + stale)|
         == |ListOf(slots)| + if count > 0 || HasEnd(slots) then 0 else |ListOf(stale)|
    ensures ListOf(slots) <= ListOf(slots + Cleared(count) + stale)
  {
    hide ListOf, Entries, Flat, ItemOk;
    StaleExact(slots, count, stale);
    var items, tail :| IsDir(slots, items, tail);
    var all, rest := slots + Cleared(count) + stale, tail + Cleared(count) + stale;
    EndIsTail(slots, items, tail);
    ListOfDir(slots, items, tail);
    if count > 0 || HasEnd(slots) {
      assert all == Flat(items) + rest;
      assert IsDir(all, items, rest);
      ListOfDir(all, items, rest);
    } else {
      var more, end :| IsDir(stale, more, end);
      assert all == Flat(items) + stale;
      JoinDirs(items, stale, more, end);
      ListOfDir(all, items + more, end);
      ListOfDir(stale, more, end);
      EntriesConcat(items, more, 0);
      SameMany(more, |Flat(items)|, 0);
    }
  }

  lemma {:induction false} SameMany(items: seq<Item>, k: nat, k': nat)
    ensures |Entries(items, k)| == |Entries(items, k')|
    decreases |items|
  {
    hide GroupText, ItemSlots;
    if items != [] {
      SameMany(items[1..], k + |ItemSlots(items[0])|, k' + |ItemSlots(items[0])|);
    }
  }

  /** A creation that failed leaves the directory with its listing exactly if no stale slot leaves a
      trace. */
  lemma GrowKeepsDir(slots: seq<Slot>, count: nat, stale: seq<Slot>)
    requires DirOk(slots)
    ensures var slots' := slots + Cleared(count) + stale;
      DirOk(slots') && ListOf(slots') == ListOf(slots) <==> NoTrace(slots, count, stale)
  {
    hide ListOf, DirOk, HasEnd, AllEnd;
    StaleExact(slots, count, stale);
    if Harmless(slots, count, stale) {
      GrowEffect(slots, count, stale);
    }
  }

  /** Every operation keeps the directory well formed, but for stale slots that do harm. */
  lemma StepKeepsDirectory(slots: seq<Slot>, slots': seq<Slot>, op: Op)
    requires DirOk(slots) && Step(slots, slots', op)
    ensures DirOk(slots') <==> (op.Grow? ==> Harmless(slots, op.count, op.stale))
  {
    hide ListOf, DirOk, Created, RemovedAt, Harmless;
    match op
    case Create(name, main, cluster) => CreateEffect(slots, slots', name, main, cluster);
    case Remove(j) => RemoveEffect(slots, slots', j);
    case Grow(count, stale) => StaleExact(slots, count, stale);
  }

  /** Over every run of creations of any names, removals and failed creations the directory stays
      well formed all the way exactly if no creation failed over slots that do harm. */
  lemma {:induction false} RunKeepsDirectory(states: seq<seq<Slot>>, ops: seq<Op>)
    requires Run(states, ops) && DirOk(states[0])
    ensures (forall i :: 0 <= i < |states| ==> DirOk(states[i]))
       <==> forall i :: 0 <= i < |ops| && ops[i].Grow? ==> Harmless(states[i], ops[i].count, ops[i].stale)
    decreases |ops|
  {
    hide DirOk, Step, Harmless;
    if ops != [] {
      var n := |ops| - 1;
      var s0, o0 := states[..n + 1], ops[..n];
      assert Run(s0, o0) && forall i :: 0 <= i <= n ==> s0[i] == states[i];
      RunKeepsDirectory(s0, o0);
      assert Step(states[n], states[n + 1], ops[n]);
      if DirOk(states[n]) {
        StepKeepsDirectory(states[n], states[n + 1], ops[n]);
      }
    }
  }

  /** No creation failed over slots that leave a trace. */
  ghost predicate Clean(states: seq<seq<Slot>>, ops: seq<Op>)
    requires |states| == |ops| + 1
  {
    forall i :: 0 <= i < |ops| && ops[i].Grow? ==> NoTrace(states[i], ops[i].count, ops[i].stale)
  }

  lemma CleanRun(states: seq<seq<Slot>>, ops: seq<Op>)
    requires Run(states, ops) && DirOk(states[0]) && Clean(states, ops)
    ensures forall i :: 0 <= i < |states| ==> DirOk(states[i])
    ensures ops != [] ==> Run(states[..|ops|], ops[..|ops| - 1]) && Clean(states[..|ops|], ops[..|ops| - 1])
  {
    hide DirOk, Step, Harmless;
    RunKeepsDirectory(states, ops);
  }

  /** What a step must not do if the names are to stay unique: list an entry under a taken name. */
  ghost predicate ListsNew(slots: seq<Slot>, op: Op) {
    op.Create? && IsName(op.name) && Visible(op.name) ==> Absent(ListOf(slots), Shown(op.name))
  }

  lemma StepKeepsUnique(slots: seq<Slot>, slots': seq<Slot>, op: Op)
    requires DirOk(slots) && Unique(ListOf(slots)) && Step(slots, slots', op)
    requires op.Grow? ==> NoTrace(slots, op.count, op.stale)
    ensures Unique(ListOf(slots')) <==> ListsNew(slots, op)
  {
    hide ListOf, DirOk, Unique, Absent, RemovedAt, Shown, FreeRun, NoTrace;
    match op
    case Create(name, main, cluster) =>
      CreateEffect(slots, slots', name, main, cluster);
      if Visible(name) {
        AddUnique(ListOf(slots), ListOf(slots'), Dirent(Shown(name), FreeRun(slots, 0, 0, SlotCount(name)), SlotCount(name), main));
      }
    case Remove(j) =>
      RemoveEffect(slots, slots', j);
      RemovedIn(slots, slots', j);
      RemoveUnique(ListOf(slots), j);
    case Grow(count, stale) =>
      GrowKeepsDir(slots, count, stale);
  }

  lemma RemovedIn(slots: seq<Slot>, slots': seq<Slot>, j: nat)
    requires RemovedAt(slots, slots', j)
    ensures j < |ListOf(slots)|
  {
    hide ListOf;
  }

  /** Over every run the listed names are unique up to case all the way exactly if they are at the
      start and no creation lists an entry under a taken name. */
  lemma {:induction false} RunKeepsUnique(states: seq<seq<Slot>>, ops: seq<Op>)
    requires Run(states, ops) && DirOk(states[0]) && Clean(states, ops)
    ensures (forall i :: 0 <= i < |states| ==> Unique(ListOf(states[i])))
       <==> Unique(ListOf(states[0])) && forall i :: 0 <= i < |ops| ==> ListsNew(states[i], ops[i])
    decreases |ops|
  {
    hide DirOk, Step, ListOf, Unique, ListsNew, NoTrace;
    if ops != [] {
      var n := |ops| - 1;
      var s0, o0 := states[..n + 1], ops[..n];
      CleanRun(states, ops);
      assert forall i :: 0 <= i <= n ==> s0[i] == states[i];
      RunKeepsUnique(s0, o0);
      assert Step(states[n], states[n + 1], ops[n]);
      if Unique(ListOf(states[n])) {
        StepKeepsUnique(states[n], states[n + 1], ops[n]);
      }
    }
  }

  /** The driver looks for the name it was given, not for the one it lists.  That is enough for names
      that read back, and for those that leave no trace. */
  lemma GuardIsEnough(slots: seq<Slot>, op: Op)
    requires op.Create? && IsName(op.name) && Absent(ListOf(slots), op.name) && (RoundTrips(op.name) || !Visible(op.name))
    ensures ListsNew(slots, op)
  {
    hide ListOf, SameName, IsShort;
    ShownSame(op.name);
  }

  lemma StepKeepsDots(slots: seq<Slot>, slots': seq<Slot>, op: Op)
    requires DirOk(slots) && DotsPlain(ListOf(slots)) && Step(slots, slots', op)
    requires op.Grow? ==> NoTrace(slots, op.count, op.stale)
    ensures DotsPlain(ListOf(slots')) <==> (op.Create? ==> op.name != [DOT, DOT])
  {
    hide ListOf, DirOk, DotsPlain, Created, RemovedAt, NoTrace;
    match op
    case Create(name, main, cluster) => CreateDots(slots, slots', name, main, cluster);
    case Remove(j) =>
      RemoveEffect(slots, slots', j);
      RemovedIn(slots, slots', j);
      RemoveDots(ListOf(slots), j);
    case Grow(count, stale) => GrowKeepsDir(slots, count, stale);
  }

  /** Over every run that does not create the name "..", an 8.3 name starts with a dot exactly in the
      dot entries. */
  lemma {:induction false} RunKeepsDots(states: seq<seq<Slot>>, ops: seq<Op>)
    requires Run(states, ops) && DirOk(states[0]) && DotsPlain(ListOf(states[0])) && Clean(states, ops)
    ensures (forall i :: 0 <= i < |states| ==> DotsPlain(ListOf(states[i])))
       <==> forall i :: 0 <= i < |ops| && ops[i].Create? ==> ops[i].name != [DOT, DOT]
    decreases |ops|
  {
    hide DirOk, Step, ListOf, DotsPlain, NoTrace;
    if ops != [] {
      var n := |ops| - 1;
      var s0, o0 := states[..n + 1], ops[..n];
      CleanRun(states, ops);
      assert forall i :: 0 <= i <= n ==> s0[i] == states[i];
      RunKeepsDots(s0, o0);
      assert Step(states[n], states[n + 1], ops[n]);
      if DotsPlain(ListOf(states[n])) {
        StepKeepsDots(states[n], states[n + 1], ops[n]);
      }
    }
  }
}
