/** Histories of a whole volume: any sequence of creations, removals, writes, changes of attributes
    and failed creations, in any directories and with any number of files open at a time. */
module Histories {
  import opened Bytes
  import opened Layout
  import opened Volumes
  import opened Chains
  import opened Clusters
  import opened Contents
  import opened Vnodes
  import opened Files
  import opened ReadWrite
  import opened Slots
  import opened SlotBytes
  import opened Names
  import opened Placing
  import opened DirectoryMap
  import opened DirReading
  import opened Removal
  import opened Writeback
  import opened Tree
  import opened Consistency
  import opened Operations

  /** A file that is open: the directory, its name there, the first slot and the number of slots that
      it remembers, and what it holds in memory. */
  datatype Held = Held(dir: nat, name: seq<byte>, start: nat, count: nat, m: Meta)

  datatype System = System(s: Snap, lists: Lists, files: map<nat, Held>)

  /** Entry `j` of its directory is that of the open file: it lies where the file remembers it and
      agrees with the file in all that is not dirty; the file's chain is its own and has room for its
      size. */
  ghost predicate Owns(g: Geometry, s: Snap, lists: Lists, x: Held, j: nat) {
    && OwnHead(lists, x.dir, j, x.m.cluster) && (x.m.cluster == 0 || x.m.cluster in s.chains)
    && x.m.size <= Mul(|ChainOf(s.chains, x.m.cluster)|, g.bytesPerCluster)
    && var e := lists[x.dir][j];
       && e.name == x.name && !IsDots(x.name) && !IsDirEntry(e) && e.start == x.start && e.count == x.count
       && Coherent(x.m, e.main) && x.m.attr / 2 == Attr(e.main) / 2
  }

  ghost predicate HasOwn(g: Geometry, s: Snap, lists: Lists, x: Held) {
    exists j: nat :: Owns(g, s, lists, x, j)
  }

  /** Two open files are different files with different chains. */
  ghost predicate Apart(x: Held, z: Held) {
    (x.dir != z.dir || x.name != z.name) && (x.m.cluster == 0 || x.m.cluster != z.m.cluster)
  }

  ghost predicate FilesOk(g: Geometry, y: System) {
    && (forall f :: f in y.files ==> HasOwn(g, y.s, y.lists, y.files[f]))
    && (forall f, f' :: f in y.files && f' in y.files && f != f' ==> Apart(y.files[f], y.files[f']))
  }

  ghost predicate SystemOk(g: Geometry, y: System) {
    SnapOk(y.s, g, y.lists) && FilesOk(g, y)
  }

  /** What can happen: a creation, a creation that failed, a removal, the opening of a file by a lookup
      or a creation, its closing, a change of it in memory and of its chain, and its sync after any
      changes. */
  datatype Event =
    | Make(d: nat, slots: seq<Slot>, slots': seq<Slot>, name: seq<byte>, main: Slot, inner: seq<Slot>)
    | Grow(d: nat, slots: seq<Slot>, count: nat, stale: seq<Slot>)
    | Remove(d: nat, j: nat, slots: seq<Slot>, slots': seq<Slot>)
    | Open(f: nat, d: nat, j: nat, m: Meta)
    | Close(f: nat)
    | Write(f: nat, m: Meta, offset: nat, done: nat, append: bool)
    | Set(f: nat, slots: seq<Slot>, m: Meta)

  /** The place among the slots of its directory where an open file remembers its 8.3 slot. */
  function Place(x: Held): int {
    x.start + x.count - 1
  }

  /** What the operations do: of each event this is what the contract of the method says. */
  ghost predicate Step(g: Geometry, y: System, y': System, e: Event) {
    match e
    case Make(d, slots, slots', name, main, inner) =>
      && MakeStep(g, y.s, y'.s, y.lists, d, slots, slots', name, main, inner)
      && y' == y.(s := y'.s, lists := ListsAfterMake(y.lists, d, slots', name, main, inner))
    case Grow(d, slots, count, stale) =>
      GrowStep(g, y.s, y'.s, y.lists, d, slots, count, stale) && y' == y.(s := y'.s)
    case Remove(d, j, slots, slots') =>
      && RemoveStep(g, y.s, y'.s, y.lists, d, j, slots, slots')
      && y' == y.(s := y'.s, lists := ListsWithout(y.lists, d, j))
    case Open(f, d, j, m) =>
      && f !in y.files && d in y.lists && j < |y.lists[d]|
      && var x := y.lists[d][j];
         && !IsDots(x.name) && !IsDirEntry(x)
         && m.size == FileSize(x.main) && m.cluster == FirstCluster(x.main)
         && SizeDirty !in m.flags && ClusterDirty !in m.flags && AttrDirty !in m.flags
         && y' == y.(files := y.files[f := Held(d, x.name, x.start, x.count, m)])
    case Close(f) =>
      y' == y.(files := y.files - {f})
    case Write(f, m, offset, done, append) =>
      && f in y.files
      && var x := y.files[f];
         && Wrote(g, y.s, y'.s, x.m.cluster, m.cluster) && Flagged(x.m, m) && m.attr / 2 == x.m.attr / 2
         && (m.size <= Mul(|ChainOf(y'.s.chains, m.cluster)|, g.bytesPerCluster) <==> append || StaysInside(g, offset, done))
         && y' == y.(s := y'.s, files := y.files[f := x.(m := m)])
    case Set(f, slots, m) =>
      && f in y.files
      && var x := y.files[f];
         && Synced(g, y.s, y'.s, x.dir, Place(x), slots, m, x.m.cluster) && Flagged(x.m, m) && m.attr / 2 == x.m.attr / 2
         && y' == System(y'.s, y.lists[x.dir := ListOf(SlotsSynced(slots, Place(x), m))],
                         y.files[f := x.(m := m.(flags := m.flags - DIRTY))])
  }

  /** What the operations do not ask, and a caller has to: the listed name is new; a cluster that could
      not be cleared leaves no trace; a file is not open when it is removed or opened, and a new one is
      kept open only if it can be written to; offsets are addressable and sizes fit in 32 bits. */
  ghost predicate Guarded(g: Geometry, y: System, e: Event) {
    match e
    case Make(d, slots, slots', name, main, inner) => d in y.lists && Fresh(y.lists[d], name)
    case Grow(d, slots, count, stale) => NoTrace(slots, count, stale)
    case Remove(d, j, slots, slots') =>
      d in y.lists && j < |y.lists[d]| && forall f :: f in y.files ==> y.files[f].dir != d || y.files[f].name != y.lists[d][j].name
    case Open(f, d, j, m) =>
      && d in y.lists && j < |y.lists[d]| && m.attr == Attr(y.lists[d][j].main)
      && forall f' :: f' in y.files ==> y.files[f'].dir != d || y.files[f'].name != y.lists[d][j].name
    case Close(f) => true
    case Write(f, m, offset, done, append) => append || StaysInside(g, offset, done)
    case Set(f, slots, m) => m.size < WORD
  }

  /** What an open file knows. */
  lemma HeldFacts(g: Geometry, s: Snap, lists: Lists, x: Held) returns (j: nat)
    requires HasOwn(g, s, lists, x)
    ensures Owns(g, s, lists, x, j)
    ensures OwnHead(lists, x.dir, j, x.m.cluster) && x.dir in lists && j < |lists[x.dir]|
    ensures x.m.cluster == 0 || (x.m.cluster in s.chains && x.m.cluster !in lists)
    ensures lists[x.dir][j].name == x.name && !IsDots(x.name) && !IsDirEntry(lists[x.dir][j])
  {
    hide Mul, IsDots, IsDirEntry, Coherent;
    j :| Owns(g, s, lists, x, j);
  }

  lemma OwnIsHeld(g: Geometry, s: Snap, lists: Lists, x: Held, j: nat)
    requires Owns(g, s, lists, x, j)
    ensures HasOwn(g, s, lists, x)
  {
    hide Owns;
  }

  /** A file stays open on its entry when the entry is found at `j'` and the chain is as before. */
  lemma HeldOn(g: Geometry, s: Snap, s': Snap, lists: Lists, lists': Lists, x: Held, j: nat, j': nat)
    requires Owns(g, s, lists, x, j) && OwnHead(lists', x.dir, j', x.m.cluster) && lists'[x.dir][j'] == lists[x.dir][j]
    requires 0 !in s.chains && 0 !in s'.chains && Untouched(s, s', x.m.cluster)
    ensures HasOwn(g, s', lists', x)
  {
    hide Mul, IsDots, IsDirEntry, Private, HasOwn, Coherent;
    OwnIsHeld(g, s', lists', x, j');
  }

  /** The clusters of chain `h` are as before, and so is what they hold. */
  ghost predicate Untouched(s: Snap, s': Snap, h: nat) {
    && |s'.data| == |s.data|
    && (h in s.chains ==>
          && h in s'.chains && s'.chains[h] == s.chains[h]
          && forall c :: c in s.chains[h] && c < |s.data| ==> s'.data[c] == s.data[c])
  }

  /** So the bytes of the file are the same. */
  lemma UntouchedBytes(s: Snap, s': Snap, h: nat, size: nat)
    requires Untouched(s, s', h) && Backed(s, size) && Backed(s', size) && (h in s'.chains ==> h in s.chains)
    ensures ChainOf(s'.chains, h) == ChainOf(s.chains, h) && ChainBytes(s', h) == ChainBytes(s, h)
  {
    if h in s.chains {
      ContentFrame(s.data, s'.data, s.chains[h]);
    }
  }

  lemma SnapHeads(g: Geometry, s: Snap, lists: Lists)
    requires SnapOk(s, g, lists)
    ensures TreeOk(s.chains, lists, g.rootCluster) && 0 !in s.chains && forall h :: h in lists ==> h in s.chains
  {
    hide WellFormed, TreeOk, AllShow, SizesFit, Backed;
    ZeroIsNoChain(s.fat, s.chains);
    HeadsOf(s.chains, lists, g.rootCluster);
  }

  // ---- where the entry of an open file goes ----

  lemma MadeOwn(chains: Forest, chains': Forest, lists: Lists, lists': Lists, d: nat, e: Dirent, i: nat, inner: seq<Dirent>,
                xd: nat, j: nat, h: nat) returns (j': nat)
    requires ListsMade(chains, chains', lists, lists', d, e, i, inner) && (forall k :: k in lists ==> k in chains)
    requires OwnHead(lists, xd, j, h) && (h == 0 || h in chains)
    ensures OwnHead(lists', xd, j', h) && lists'[xd][j'] == lists[xd][j]
  {
    hide FirstCluster, IsDots, IsDirEntry, AddedAt;
    j' := MadeMoves(chains, chains', lists, lists', d, e, i, inner, xd, j);
    if h != 0 {
      forall d': nat, k': nat | Refers(lists', d', k', h)
        ensures d' == xd && k' == j'
      {
        var k0 := MadeOrigin(chains, chains', lists, lists', d, e, i, inner, d', k');
        assert d' in lists && k0 < |lists[d']| && lists'[d'][k'] == lists[d'][k0] ==> Refers(lists, d', k0, h);
      }
    }
  }

  lemma UnmadeOwn(chains: Forest, chains': Forest, lists: Lists, lists': Lists, d: nat, j: nat, xd: nat, k: nat, h: nat)
    returns (k': nat)
    requires ListsUnmade(chains, chains', lists, lists', d, j) && OwnHead(lists, xd, k, h) && (xd != d || k != j)
    requires !IsDots(lists[xd][k].name)
    ensures OwnHead(lists', xd, k', h) && lists'[xd][k'] == lists[xd][k]
  {
    hide FirstCluster, IsDots, IsDirEntry;
    k' := UnmadeMoves(chains, chains', lists, lists', d, j, xd, k);
    if h != 0 {
      forall d': nat, i': nat | Refers(lists', d', i', h)
        ensures d' == xd && i' == k'
      {
        var i0 := UnmadeOrigin(chains, chains', lists, lists', d, j, d', i');
        assert Refers(lists, d', i0, h);
      }
    }
  }

  lemma AdoptedOwn(lists: Lists, d: nat, j: nat, u: Slot, xd: nat, k: nat, h: nat)
    requires OwnHead(lists, xd, k, h) && d in lists && j < |lists[d]| && (xd != d || k != j)
    requires h == 0 || FirstCluster(u) != h
    ensures OwnHead(Adopted(lists, d, j, u), xd, k, h) && Adopted(lists, d, j, u)[xd][k] == lists[xd][k]
  {
    hide FirstCluster, IsDots;
    var lists' := Adopted(lists, d, j, u);
    if h != 0 {
      forall d': nat, k': nat | Refers(lists', d', k', h)
        ensures d' == xd && k' == k
      {
        assert Refers(lists, d', k', h);
      }
    }
  }

  /** The chain of an entry is that of no open file, unless the entry is the file's. */
  lemma NotItsChain(lists: Lists, d: nat, j: nat, xd: nat, k: nat, h: nat)
    requires OwnHead(lists, xd, k, h) && d in lists && j < |lists[d]| && !IsDots(lists[d][j].name) && (xd != d || k != j)
    ensures h == 0 || FirstCluster(lists[d][j].main) != h
  {
    hide FirstCluster, IsDots;
    assert Refers(lists, d, j, FirstCluster(lists[d][j].main));
  }

  // ---- the files that an event does not concern ----

  lemma MakeKeepsHeld(g: Geometry, s: Snap, s': Snap, lists: Lists, d: nat, slots: seq<Slot>, slots': seq<Slot>,
                      name: seq<byte>, main: Slot, inner: seq<Slot>, x: Held)
    requires SnapOk(s, g, lists) && MakeStep(g, s, s', lists, d, slots, slots', name, main, inner) && Fresh(lists[d], name)
    requires SnapOk(s', g, ListsAfterMake(lists, d, slots', name, main, inner)) && HasOwn(g, s, lists, x)
    ensures HasOwn(g, s', ListsAfterMake(lists, d, slots', name, main, inner), x) && Untouched(s, s', x.m.cluster)
  {
    hide SnapOk, FirstCluster, IsDots, IsDirEntry, Created, Visible, Fresh, NewlyMade, ListOf, Laid, HasOwn, Owns, OwnHead,
         ListsAfterMake, MadeEntry, Bit, WellFormed, Backed, ListsMade;
    var lists' := ListsAfterMake(lists, d, slots', name, main, inner);
    SnapHeads(g, s, lists);
    SnapHeads(g, s', lists');
    var j := HeldFacts(g, s, lists, x);
    var j' := j;
    if Visible(name) {
      var i := TreeMade(g, s, s', lists, d, slots, slots', name, main, inner);
      j' := MadeOwn(s.chains, s'.chains, lists, lists', d, MadeEntry(slots, name, main), i, ListOf(inner), x.dir, j, x.m.cluster);
    } else {
      NothingListed(g, s, s', lists, d, slots, slots', name, main, inner);
    }
    HeldOn(g, s, s', lists, lists', x, j, j');
  }

  /** A creation that leaves no trace in the listing leaves all listings. */
  lemma NothingListed(g: Geometry, s: Snap, s': Snap, lists: Lists, d: nat, slots: seq<Slot>, slots': seq<Slot>,
                      name: seq<byte>, main: Slot, inner: seq<Slot>)
    requires SnapOk(s, g, lists) && MakeStep(g, s, s', lists, d, slots, slots', name, main, inner) && !Visible(name)
    ensures ListsAfterMake(lists, d, slots', name, main, inner) == lists
  {
    hide SnapOk, FirstCluster, IsDots, Created, Visible, NewlyMade, ListOf, Laid, WellFormed, Backed;
    MadeListing(g, s, s', lists, d, slots, slots', name, main, inner);
  }

  lemma GrowKeepsHeld(g: Geometry, s: Snap, s': Snap, lists: Lists, d: nat, slots: seq<Slot>, count: nat, stale: seq<Slot>, x: Held)
    requires SnapOk(s, g, lists) && GrowStep(g, s, s', lists, d, slots, count, stale) && SnapOk(s', g, lists) && HasOwn(g, s, lists, x)
    ensures HasOwn(g, s', lists, x) && Untouched(s, s', x.m.cluster)
  {
    hide SnapOk, IsDots, IsDirEntry, Laid, TreeOk, HasOwn, Owns, OwnHead, WellFormed, Backed;
    SnapHeads(g, s, lists);
    SnapHeads(g, s', lists);
    var j := HeldFacts(g, s, lists, x);
    HeldOn(g, s, s', lists, lists, x, j, j);
  }

  /** An open file stays on its entry exactly if it is not the one removed: the code frees the chain
      of an entry without asking whether a file is open on it. */
  lemma RemoveKeepsHeld(g: Geometry, s: Snap, s': Snap, lists: Lists, d: nat, j: nat, slots: seq<Slot>, slots': seq<Slot>, x: Held)
    requires SnapOk(s, g, lists) && RemoveStep(g, s, s', lists, d, j, slots, slots') && SnapOk(s', g, ListsWithout(lists, d, j))
    requires HasOwn(g, s, lists, x)
    ensures HasOwn(g, s', ListsWithout(lists, d, j), x) <==> x.dir != d || x.name != lists[d][j].name
    ensures x.dir != d || x.name != lists[d][j].name ==> Untouched(s, s', x.m.cluster)
  {
    hide SnapOk, FirstCluster, IsDots, IsDirEntry, Laid, TreeOk, HasOwn, Owns, OwnHead, RemovedAt, FreeCount, EmptyDir, WellFormed,
         Backed, ListsWithout, ListsUnmade, Unique;
    var lists' := ListsWithout(lists, d, j);
    SnapHeads(g, s, lists);
    SnapHeads(g, s', lists');
    RemovedLists(g, s, s', lists, d, j, slots, slots');
    if x.dir != d || x.name != lists[d][j].name {
      var k := HeldFacts(g, s, lists, x);
      var k' := UnmadeOwn(s.chains, s'.chains, lists, lists', d, j, x.dir, k, x.m.cluster);
      NotItsChain(lists, d, j, x.dir, k, x.m.cluster);
      HeldOn(g, s, s', lists, lists', x, k, k');
    } else if HasOwn(g, s', lists', x) {
      var k' := HeldFacts(g, s', lists', x);
      var k := UnmadeOrigin(s.chains, s'.chains, lists, lists', d, j, d, k');
      TreeFacts(s.chains, lists, g.rootCluster, d);
      NameOnce(lists[d], j, k);
    }
  }

  lemma NameOnce(es: seq<Dirent>, j: nat, k: nat)
    requires Unique(es) && j < |es| && k < |es| && es[j].name == es[k].name
    ensures j == k
  {
    SameNameRefl(es[j].name);
  }

  /** The entry of an open file is the only one of its name. */
  lemma OwnsOnce(g: Geometry, s: Snap, s': Snap, lists: Lists, x: Held, x': Held, j: nat, k: nat)
    requires TreeOk(s.chains, lists, g.rootCluster) && Owns(g, s', lists, x', k) && x'.dir == x.dir && x'.name == x.name
    requires x.dir in lists && j < |lists[x.dir]| && lists[x.dir][j].name == x.name
    ensures k == j
  {
    hide TreeOk, IsDots, IsDirEntry, Mul, Coherent, Unique;
    TreeFacts(s.chains, lists, g.rootCluster, x.dir);
    NameOnce(lists[x.dir], j, k);
  }

  lemma WriteKeepsHeld(g: Geometry, s: Snap, s': Snap, lists: Lists, d: nat, j: nat, h: nat, h': nat, x: Held)
    requires SnapOk(s, g, lists) && WriteStep(g, s, s', lists, d, j, h, h') && SnapOk(s', g, lists)
    requires HasOwn(g, s, lists, x) && (x.m.cluster == 0 || x.m.cluster != h)
    ensures HasOwn(g, s', lists, x) && Untouched(s, s', x.m.cluster)
  {
    hide SnapOk, IsDots, IsDirEntry, TreeOk, HasOwn, Owns, OwnHead, WellFormed, Backed, HeadMoved;
    SnapHeads(g, s, lists);
    SnapHeads(g, s', lists);
    var k := HeldFacts(g, s, lists, x);
    HeldOn(g, s, s', lists, lists, x, k, k);
  }

  /** The first cluster that a file has afterwards is that of no other open file. */
  lemma HeadStaysApart(g: Geometry, s: Snap, lists: Lists, x: Held, h: nat, h': nat)
    requires HasOwn(g, s, lists, x) && HeadMoved(s.chains, h, h') && (x.m.cluster == 0 || x.m.cluster != h)
    ensures x.m.cluster == 0 || x.m.cluster != h'
  {
    hide IsDots, IsDirEntry, Owns, OwnHead, HasOwn;
    var j := HeldFacts(g, s, lists, x);
  }

  lemma SetKeepsHeld(g: Geometry, s: Snap, s': Snap, lists: Lists, d: nat, j: nat, slots: seq<Slot>, m: Meta, h: nat, x: Held)
    requires SnapOk(s, g, lists) && SetStep(g, s, s', lists, d, j, slots, m, h) && SnapOk(s', g, ListsAfterSet(lists, d, j, m))
    requires HasOwn(g, s, lists, x) && (x.m.cluster == 0 || x.m.cluster != h) && (x.dir != d || x.name != lists[d][j].name)
    ensures HasOwn(g, s', ListsAfterSet(lists, d, j, m), x) && Untouched(s, s', x.m.cluster)
  {
    hide SnapOk, IsDots, IsDirEntry, TreeOk, HasOwn, Owns, OwnHead, WellFormed, Backed, HeadMoved, UpdatedSlot, FirstCluster, FileSize,
         Coherent, Laid, Bit, Mul, SlotsSynced;
    OwnIsEntry(lists, d, j, h);
    var lists', main := ListsAfterSet(lists, d, j, m), lists[d][j].main;
    SnapHeads(g, s, lists);
    SnapHeads(g, s', lists');
    var k := HeldFacts(g, s, lists, x);
    SyncedSlot(main, m);
    HeadStaysApart(g, s, lists, x, h, m.cluster);
    AdoptedOwn(lists, d, j, UpdatedSlot(main, m), x.dir, k, x.m.cluster);
    HeldOn(g, s, s', lists, lists', x, k, k);
  }

  // ---- the file that an event concerns ----

  /** A file that was opened owns its entry exactly if it has its attribute byte. */
  lemma OpenedOwns(g: Geometry, s: Snap, lists: Lists, d: nat, j: nat, m: Meta)
    requires SnapOk(s, g, lists) && d in lists && j < |lists[d]| && !IsDots(lists[d][j].name) && !IsDirEntry(lists[d][j])
    requires m.size == FileSize(lists[d][j].main) && m.cluster == FirstCluster(lists[d][j].main)
    requires SizeDirty !in m.flags && ClusterDirty !in m.flags && AttrDirty !in m.flags
    ensures var e := lists[d][j];
      HasOwn(g, s, lists, Held(d, e.name, e.start, e.count, m)) <==> m.attr == Attr(e.main)
  {
    hide WellFormed, AllShow, Backed, TreeOk, SizesFit, IsDots, IsDirEntry, Mul, FirstCluster, FileSize, HasOwn, OwnHead;
    EntryFacts(s.chains, lists, g.rootCluster, d, j, g.bytesPerCluster);
    var e := lists[d][j];
    var x := Held(d, e.name, e.start, e.count, m);
    if m.attr == Attr(e.main) {
      OwnIsHeld(g, s, lists, x, j);
    }
    if HasOwn(g, s, lists, x) {
      var k := HeldFacts(g, s, lists, x);
      OwnsOnce(g, s, s, lists, x, x, j, k);
    }
  }

  lemma OpenedApart(g: Geometry, s: Snap, lists: Lists, d: nat, j: nat, z: Held)
    requires d in lists && j < |lists[d]| && !IsDots(lists[d][j].name)
    requires HasOwn(g, s, lists, z) && (z.dir != d || z.name != lists[d][j].name)
    ensures z.m.cluster == 0 || FirstCluster(lists[d][j].main) != z.m.cluster
  {
    hide IsDots, IsDirEntry, FirstCluster, HasOwn, Owns, OwnHead;
    var k := HeldFacts(g, s, lists, z);
    NotItsChain(lists, d, j, z.dir, k, z.m.cluster);
  }

  /** A file that was written to still owns its entry exactly if its size fits its chain. */
  lemma WrittenOwns(g: Geometry, s: Snap, s': Snap, lists: Lists, x: Held, j: nat, m: Meta)
    requires SnapOk(s, g, lists) && Owns(g, s, lists, x, j) && Wrote(g, s, s', x.m.cluster, m.cluster)
    requires Flagged(x.m, m) && m.attr / 2 == x.m.attr / 2
    ensures WriteStep(g, s, s', lists, x.dir, j, x.m.cluster, m.cluster)
    ensures HasOwn(g, s', lists, x.(m := m)) <==> m.size <= Mul(|ChainOf(s'.chains, m.cluster)|, g.bytesPerCluster)
  {
    hide SnapOk, IsDots, IsDirEntry, Mul, HasOwn, OwnHead, WellFormed, Backed, HeadMoved, Coherent, Flagged;
    OwnIsEntry(lists, x.dir, j, x.m.cluster);
    WriteKeepsVolume(g, s, s', lists, x.dir, j, x.m.cluster, m.cluster);
    FlaggedIsCoherent(x.m, m, lists[x.dir][j].main);
    if m.size <= Mul(|ChainOf(s'.chains, m.cluster)|, g.bytesPerCluster) {
      OwnIsHeld(g, s', lists, x.(m := m), j);
    }
    if HasOwn(g, s', lists, x.(m := m)) {
      var k := HeldFacts(g, s', lists, x.(m := m));
    }
  }

  /** The sync at the place that the file remembers is the sync of its entry. */
  lemma SyncIsSet(g: Geometry, s: Snap, s': Snap, lists: Lists, x: Held, j: nat, slots: seq<Slot>, m: Meta)
    requires SnapOk(s, g, lists) && Owns(g, s, lists, x, j) && Synced(g, s, s', x.dir, Place(x), slots, m, x.m.cluster)
    requires Flagged(x.m, m) && m.attr / 2 == x.m.attr / 2
    ensures SetStep(g, s, s', lists, x.dir, j, slots, m, x.m.cluster)
    ensures lists[x.dir := ListOf(SlotsSynced(slots, Place(x), m))] == ListsAfterSet(lists, x.dir, j, m)
  {
    hide SnapOk, IsDots, IsDirEntry, Mul, WellFormed, Backed, HeadMoved, Coherent, Flagged, ListOf, DirOk, Laid, UpdatedSlot, Unique,
         DotsPlain, KeptBut;
    var e := lists[x.dir][j];
    DirectoryFacts(s, g, lists, x.dir, slots);
    MainIsLast(slots, j);
    FlaggedIsCoherent(x.m, m, e.main);
    SetListing(g, s, s', lists, x.dir, j, slots, m, x.m.cluster);
  }

  /** After the sync the file still owns its entry exactly if its size fits in 32 bits. */
  lemma SetOwns(g: Geometry, s: Snap, s': Snap, lists: Lists, x: Held, j: nat, slots: seq<Slot>, m: Meta)
    requires SnapOk(s, g, lists) && Owns(g, s, lists, x, j) && SetStep(g, s, s', lists, x.dir, j, slots, m, x.m.cluster)
    ensures x.dir in lists && j < |lists[x.dir]|
    ensures HasOwn(g, s', ListsAfterSet(lists, x.dir, j, m), x.(m := m.(flags := m.flags - DIRTY))) <==> m.size < WORD
  {
    hide SnapOk, IsDots, Mul, HasOwn, OwnHead, UpdatedSlot, FirstCluster, FileSize, Coherent, Laid, Bit, KeptBut, WellFormed, Backed,
         HeadMoved, SlotsSynced, TreeOk;
    OwnIsEntry(lists, x.dir, j, x.m.cluster);
    var main, x', lists' := lists[x.dir][j].main, x.(m := m.(flags := m.flags - DIRTY)), ListsAfterSet(lists, x.dir, j, m);
    AdoptsInStep(g, s, s', lists, x.dir, j, slots, m, x.m.cluster);
    SyncedSlot(main, m);
    SyncIsCoherent(main, m);
    UpdatedFields(main, m);
    AttrAfter(main, m);
    StaysOwn(lists, x.dir, j, UpdatedSlot(main, m), m.cluster);
    SizeBack(m.size);
    if m.size < WORD {
      OwnIsHeld(g, s', lists', x', j);
    }
    if HasOwn(g, s', lists', x') {
      var k := HeldFacts(g, s', lists', x');
      SetKeepsVolume(g, s, s', lists, x.dir, j, slots, m, x.m.cluster);
      SnapHeads(g, s', lists');
      OwnsOnce(g, s', s', lists', x', x', j, k);
    }
  }

  lemma AttrAfter(main: Slot, m: Meta)
    requires Coherent(m, main)
    ensures Attr(UpdatedSlot(main, m)) == m.attr
  {
    hide UpdatedSlot, FirstCluster, FileSize;
    UpdatedFields(main, m);
  }

  // ---- one event ----

  /** Every guarded event keeps the volume consistent. */
  lemma EventKeepsVolume(g: Geometry, y: System, y': System, e: Event)
    requires SystemOk(g, y) && Step(g, y, y', e) && Guarded(g, y, e)
    ensures SnapOk(y'.s, g, y'.lists)
  {
    hide SnapOk, MakeStep, GrowStep, RemoveStep, Wrote, WriteStep, Synced, SetStep, Owns, HasOwn, Apart, Mul, Fresh, ListsAfterMake,
         ListsAfterSet, ListsWithout, IsDots, IsDirEntry, NoTrace, ListOf, SlotsSynced, Flagged;
    match e
    case Make(d, slots, slots', name, main, inner) =>
      MakeKeepsVolume(g, y.s, y'.s, y.lists, d, slots, slots', name, main, inner);
    case Grow(d, slots, count, stale) => GrowKeepsVolume(g, y.s, y'.s, y.lists, d, slots, count, stale);
    case Remove(d, j, slots, slots') => RemoveKeepsVolume(g, y.s, y'.s, y.lists, d, j, slots, slots');
    case Open(f, d, j, m) =>
    case Close(f) =>
    case Write(f, m, offset, done, append) =>
      var x := y.files[f];
      var j := HeldFacts(g, y.s, y.lists, x);
      WrittenOwns(g, y.s, y'.s, y.lists, x, j, m);
      WriteKeepsVolume(g, y.s, y'.s, y.lists, x.dir, j, x.m.cluster, m.cluster);
    case Set(f, slots, m) =>
      var x := y.files[f];
      var j := HeldFacts(g, y.s, y.lists, x);
      SyncIsSet(g, y.s, y'.s, y.lists, x, j, slots, m);
      SetKeepsVolume(g, y.s, y'.s, y.lists, x.dir, j, slots, m, x.m.cluster);
  }

  /** Whether event `e` concerns the open file `f`. */
  predicate Concerns(e: Event, f: nat) {
    (e.Open? || e.Close? || e.Write? || e.Set?) && e.f == f
  }

  /** A guarded event leaves every other open file as it is: on its entry, where the file remembers it,
      in agreement with it, and with the same clusters and bytes. */
  lemma EventKeepsHeld(g: Geometry, y: System, y': System, e: Event, f: nat)
    requires SystemOk(g, y) && Step(g, y, y', e) && Guarded(g, y, e) && f in y.files && !Concerns(e, f)
    ensures f in y'.files && y'.files[f] == y.files[f]
    ensures HasOwn(g, y'.s, y'.lists, y.files[f]) && Untouched(y.s, y'.s, y.files[f].m.cluster)
  {
    hide SnapOk, MakeStep, GrowStep, RemoveStep, Wrote, WriteStep, Synced, SetStep, Mul, Fresh, ListsAfterMake, ListsAfterSet,
         ListsWithout, IsDots, IsDirEntry, HasOwn, Owns, NoTrace, ListOf, SlotsSynced, Flagged, Untouched;
    EventKeepsVolume(g, y, y', e);
    var x := y.files[f];
    match e
    case Make(d, slots, slots', name, main, inner) =>
      MakeKeepsHeld(g, y.s, y'.s, y.lists, d, slots, slots', name, main, inner, x);
    case Grow(d, slots, count, stale) => GrowKeepsHeld(g, y.s, y'.s, y.lists, d, slots, count, stale, x);
    case Remove(d, j, slots, slots') => RemoveKeepsHeld(g, y.s, y'.s, y.lists, d, j, slots, slots', x);
    case Open(f', d, j, m) => SameUntouched(y.s, x.m.cluster);
    case Close(f') => SameUntouched(y.s, x.m.cluster);
    case Write(f', m, offset, done, append) =>
      var z := y.files[f'];
      assert Apart(x, z);
      var j := HeldFacts(g, y.s, y.lists, z);
      WrittenOwns(g, y.s, y'.s, y.lists, z, j, m);
      WriteKeepsHeld(g, y.s, y'.s, y.lists, z.dir, j, z.m.cluster, m.cluster, x);
    case Set(f', slots, m) =>
      var z := y.files[f'];
      assert Apart(x, z);
      var j := HeldFacts(g, y.s, y.lists, z);
      SyncIsSet(g, y.s, y'.s, y.lists, z, j, slots, m);
      SetKeepsHeld(g, y.s, y'.s, y.lists, z.dir, j, slots, m, z.m.cluster, x);
  }

  lemma SameUntouched(s: Snap, h: nat)
    ensures Untouched(s, s, h)
  {
  }

  /** The file that an event concerns, if it is still open afterwards. */
  lemma EventKeepsOwn(g: Geometry, y: System, y': System, e: Event, f: nat)
    requires SystemOk(g, y) && Step(g, y, y', e) && Guarded(g, y, e) && f in y'.files && Concerns(e, f)
    ensures HasOwn(g, y'.s, y'.lists, y'.files[f])
    ensures forall f' :: f' in y.files && f' != f ==> Apart(y'.files[f], y.files[f'])
  {
    hide SnapOk, Wrote, WriteStep, Synced, SetStep, Mul, ListsAfterSet, IsDots, IsDirEntry, HasOwn, Owns, FirstCluster, FileSize,
         ListOf, SlotsSynced, Flagged;
    match e
    case Open(_, d, j, m) =>
      OpenedOwns(g, y.s, y.lists, d, j, m);
      forall f' | f' in y.files && f' != f
        ensures Apart(y'.files[f], y.files[f'])
      {
        OpenedApart(g, y.s, y.lists, d, j, y.files[f']);
      }
    case Write(_, m, offset, done, append) =>
      var x := y.files[f];
      var j := HeldFacts(g, y.s, y.lists, x);
      WrittenOwns(g, y.s, y'.s, y.lists, x, j, m);
      HeadMovesInWrite(g, y.s, y'.s, x.m.cluster, m.cluster);
      StillApart(g, y, f, m.cluster);
    case Set(_, slots, m) =>
      var x := y.files[f];
      var j := HeldFacts(g, y.s, y.lists, x);
      SyncIsSet(g, y.s, y'.s, y.lists, x, j, slots, m);
      SetOwns(g, y.s, y'.s, y.lists, x, j, slots, m);
      HeadMovesInSet(g, y.s, y'.s, x.dir, Place(x), slots, m, x.m.cluster);
      StillApart(g, y, f, m.cluster);
    case _ =>
  }

  /** The file stays apart from the others with the first cluster that it has then. */
  lemma StillApart(g: Geometry, y: System, f: nat, h': nat)
    requires FilesOk(g, y) && f in y.files && HeadMoved(y.s.chains, y.files[f].m.cluster, h')
    ensures forall f' :: f' in y.files && f' != f ==>
              && (y.files[f].dir != y.files[f'].dir || y.files[f].name != y.files[f'].name)
              && (h' == 0 || h' != y.files[f'].m.cluster)
  {
    hide HasOwn, HeadMoved;
    forall f' | f' in y.files && f' != f
      ensures (y.files[f].dir != y.files[f'].dir || y.files[f].name != y.files[f'].name)
      ensures h' == 0 || h' != y.files[f'].m.cluster
    {
      assert Apart(y.files[f], y.files[f']) && Apart(y.files[f'], y.files[f]);
      HeadStaysApart(g, y.s, y.lists, y.files[f'], y.files[f].m.cluster, h');
    }
  }

  lemma HeadMovesInWrite(g: Geometry, s: Snap, s': Snap, h: nat, h': nat)
    requires Wrote(g, s, s', h, h')
    ensures HeadMoved(s.chains, h, h')
  {
    hide WellFormed, Backed;
  }

  lemma HeadMovesInSet(g: Geometry, s: Snap, s': Snap, d: nat, place: int, slots: seq<Slot>, m: Meta, h: nat)
    requires Synced(g, s, s', d, place, slots, m, h)
    ensures HeadMoved(s.chains, h, m.cluster)
  {
    hide WellFormed, Backed, Laid, UpdatedSlot, KeptBut, Mul, SlotsSynced;
  }

  lemma EventKeepsSystem(g: Geometry, y: System, y': System, e: Event)
    requires SystemOk(g, y) && Step(g, y, y', e) && Guarded(g, y, e)
    ensures SystemOk(g, y')
  {
    hide SnapOk, HasOwn, Step, Apart, Guarded, Untouched;
    EventKeepsVolume(g, y, y', e);
    forall f | f in y'.files
      ensures HasOwn(g, y'.s, y'.lists, y'.files[f])
    {
      if Concerns(e, f) {
        EventKeepsOwn(g, y, y', e, f);
      } else {
        OnlyConcerned(g, y, y', e, f);
        EventKeepsHeld(g, y, y', e, f);
      }
    }
    forall f, f' | f in y'.files && f' in y'.files && f != f'
      ensures Apart(y'.files[f], y'.files[f'])
    {
      OnlyConcerned(g, y, y', e, f);
      OnlyConcerned(g, y, y', e, f');
      if Concerns(e, f) {
        EventKeepsOwn(g, y, y', e, f);
        EventKeepsHeld(g, y, y', e, f');
      } else if Concerns(e, f') {
        EventKeepsOwn(g, y, y', e, f');
        EventKeepsHeld(g, y, y', e, f);
        ApartBothWays(y'.files[f'], y'.files[f]);
      } else {
        EventKeepsHeld(g, y, y', e, f);
        EventKeepsHeld(g, y, y', e, f');
      }
    }
  }

  lemma ApartBothWays(x: Held, z: Held)
    requires Apart(x, z)
    ensures Apart(z, x)
  {
  }

  /** No event opens a file that it does not concern. */
  lemma OnlyConcerned(g: Geometry, y: System, y': System, e: Event, f: nat)
    requires Step(g, y, y', e) && f in y'.files
    ensures f in y.files || Concerns(e, f)
  {
    hide MakeStep, GrowStep, RemoveStep, Wrote, Synced, Mul, Fresh, ListsAfterMake, ListsWithout, IsDots, IsDirEntry, ListOf, SlotsSynced,
         Flagged, FirstCluster, FileSize;
  }

  // ---- what happens otherwise ----

  /** An event that is not guarded breaks the volume or an open file. */
  lemma UnguardedBreaks(g: Geometry, y: System, y': System, e: Event)
    requires SystemOk(g, y) && Step(g, y, y', e) && SystemOk(g, y')
    ensures Guarded(g, y, e)
  {
    hide SnapOk, MakeStep, GrowStep, RemoveStep, Wrote, WriteStep, Synced, SetStep, Owns, HasOwn, Mul, Fresh, ListsAfterMake,
         ListsAfterSet, ListsWithout, IsDots, IsDirEntry, NoTrace, ListOf, SlotsSynced, Flagged, FirstCluster, FileSize;
    match e
    case Make(d, slots, slots', name, main, inner) =>
      MakeKeepsVolume(g, y.s, y'.s, y.lists, d, slots, slots', name, main, inner);
      InLists(g, y.s, y'.s, y.lists, d, slots, slots', name, main, inner);
    case Grow(d, slots, count, stale) => GrowKeepsVolume(g, y.s, y'.s, y.lists, d, slots, count, stale);
    case Remove(d, j, slots, slots') =>
      RemovedEntry(g, y.s, y'.s, y.lists, d, j, slots, slots');
      forall f | f in y.files
        ensures y.files[f].dir != d || y.files[f].name != y.lists[d][j].name
      {
        assert HasOwn(g, y'.s, y'.lists, y'.files[f]);
        RemoveKeepsHeld(g, y.s, y'.s, y.lists, d, j, slots, slots', y.files[f]);
      }
    case Open(f, d, j, m) =>
      OpenedOwns(g, y.s, y.lists, d, j, m);
      assert HasOwn(g, y'.s, y'.lists, y'.files[f]);
      forall f' | f' in y.files
        ensures y.files[f'].dir != d || y.files[f'].name != y.lists[d][j].name
      {
        assert Apart(y'.files[f'], y'.files[f]);
      }
    case Close(f) =>
    case Write(f, m, offset, done, append) =>
      var x := y.files[f];
      var j := HeldFacts(g, y.s, y.lists, x);
      WrittenOwns(g, y.s, y'.s, y.lists, x, j, m);
      assert HasOwn(g, y'.s, y'.lists, y'.files[f]);
    case Set(f, slots, m) =>
      var x := y.files[f];
      var j := HeldFacts(g, y.s, y.lists, x);
      SyncIsSet(g, y.s, y'.s, y.lists, x, j, slots, m);
      SetOwns(g, y.s, y'.s, y.lists, x, j, slots, m);
      assert HasOwn(g, y'.s, y'.lists, y'.files[f]);
  }

  lemma InLists(g: Geometry, s: Snap, s': Snap, lists: Lists, d: nat, slots: seq<Slot>, slots': seq<Slot>,
                name: seq<byte>, main: Slot, inner: seq<Slot>)
    requires MakeStep(g, s, s', lists, d, slots, slots', name, main, inner)
    ensures d in lists
  {
    hide WellFormed, Backed, Laid, Created, FirstCluster, NewlyMade, IsDots, Bit;
  }

  lemma RemovedEntry(g: Geometry, s: Snap, s': Snap, lists: Lists, d: nat, j: nat, slots: seq<Slot>, slots': seq<Slot>)
    requires RemoveStep(g, s, s', lists, d, j, slots, slots')
    ensures d in lists && j < |lists[d]|
  {
    hide WellFormed, Backed, Laid, RemovedAt, Removed, EmptyDir, IsDots, IsDirEntry, FirstCluster;
  }

  // ---- runs ----

  ghost predicate Run(g: Geometry, ys: seq<System>, es: seq<Event>) {
    |ys| == |es| + 1 && forall k :: 0 <= k < |es| ==> Step(g, ys[k], ys[k + 1], es[k])
  }

  /** Over every history all goes well all the way exactly if every event is guarded: the directories
      form a tree and list unique names, every entry owns its chain and claims no more than it has, and
      every open file is on its entry, where it remembers it, agrees with it, and has a chain of its own
      with room for its size. */
  lemma {:induction false} HistoryExact(g: Geometry, ys: seq<System>, es: seq<Event>)
    requires Run(g, ys, es) && SystemOk(g, ys[0])
    ensures (forall i :: 0 <= i < |ys| ==> SystemOk(g, ys[i])) <==> forall i :: 0 <= i < |es| ==> Guarded(g, ys[i], es[i])
    decreases |es|
  {
    hide SystemOk, Step, Guarded;
    if es != [] {
      var n := |es| - 1;
      var ys0, es0 := ys[..n + 1], es[..n];
      assert Run(g, ys0, es0) && forall i :: 0 <= i <= n ==> ys0[i] == ys[i];
      HistoryExact(g, ys0, es0);
      assert Step(g, ys[n], ys[n + 1], es[n]);
      if SystemOk(g, ys[n]) {
        if Guarded(g, ys[n], es[n]) {
          EventKeepsSystem(g, ys[n], ys[n + 1], es[n]);
        }
        if SystemOk(g, ys[n + 1]) {
          UnguardedBreaks(g, ys[n], ys[n + 1], es[n]);
        }
      }
    }
  }

  // ---- the operations ----

  /** What a history knows of an open vnode. */
  ghost function HeldOf(fv: Vnode, d: nat, name: seq<byte>): Held
    reads fv`size, fv`cluster, fv`attr, fv`atime, fv`mtime, fv`ctime, fv`flags, fv`diroff, fv`dirsz
  {
    Held(d, name, fv.diroff / SLOT, fv.dirsz, MetaOf(fv))
  }

  /** The rest of it: which directory it names as its parent, and its position cache. */
  ghost predicate VnodeOf(v: Volume, fv: Vnode, d: nat)
    reads v`chains, fv`parentCluster, fv`flags, fv`diroff, fv`cluster, fv.cache
  {
    d == ParentOf(v.g, fv.parentCluster) && fv.parentCluster != BAD && IsRoot !in fv.flags && fv.diroff % SLOT == 0 && Attached(v, fv)
  }

  /** An open file of a history is a file as the operations on a volume ask for it. */
  lemma FileIsHeld(v: Volume, fv: Vnode, lists: Lists, slots: seq<Slot>, d: nat, j: nat)
    requires VolumeOk(v, lists) && OnDir(v, d, slots) && d in lists && j < |lists[d]|
    ensures FileOf(v, fv, lists, slots, d, j) <==> VnodeOf(v, fv, d) && Owns(v.g, Now(v), lists, HeldOf(fv, d, lists[d][j].name), j)
  {
    hide IsDots, IsDirEntry, Mul, Coherent, OnDir, CacheSound, SnapOk, DirOk, ListOf, Unique, DotsPlain;
    SlotsFacts(v, lists, d, slots);
    MainIsLast(slots, j);
  }

  /** The chain `h` has the same bytes. */
  ghost predicate SameBytes(s: Snap, s': Snap, h: nat, size: nat) {
    Backed(s, size) && Backed(s', size) && ChainBytes(s', h) == ChainBytes(s, h)
  }

  /** A guarded event that does not concern the open file `f`. */
  ghost predicate Beside(g: Geometry, y: System, y': System, e: Event, f: nat) {
    SystemOk(g, y) && Step(g, y, y', e) && Guarded(g, y, e) && f in y.files && !Concerns(e, f)
  }

  /** The open file `f` as it was before an event. */
  ghost predicate WasOpen(g: Geometry, y: System, fv: Vnode, f: nat, d: nat, name: seq<byte>)
    reads fv, fv.cache
  {
    && f in y.files && y.files[f] == HeldOf(fv, d, name)
    && d == ParentOf(g, fv.parentCluster) && fv.parentCluster != BAD && IsRoot !in fv.flags && fv.diroff % SLOT == 0
    && fv.cache.Length == CACHE_SIZE && CacheSound(fv.cache[..], ChainOf(y.s.chains, fv.cluster))
  }

  /** After any guarded event that does not concern it an open file is still one, at the entry of its
      name, with the same bytes. */
  lemma FileStays(v: Volume, fv: Vnode, y: System, y': System, e: Event, f: nat, d: nat, name: seq<byte>, slots: seq<Slot>)
    returns (j: nat)
    requires Beside(v.g, y, y', e, f) && WasOpen(v.g, y, fv, f, d, name)
    requires v.Valid() && y'.s == Now(v) && OnDir(v, d, slots)
    ensures VolumeOk(v, y'.lists) && FileOf(v, fv, y'.lists, slots, d, j)
    ensures d in y'.lists && j < |y'.lists[d]| && y'.lists[d][j].name == name
    ensures SameBytes(y.s, Now(v), fv.cluster, v.g.bytesPerCluster)
  {
    hide SnapOk, Step, Guarded, Apart, HasOwn, Owns, CacheSound, OnDir, FileOf, Backed, Content;
    var x := y.files[f];
    EventKeepsHeld(v.g, y, y', e, f);
    EventKeepsVolume(v.g, y, y', e);
    VolumeIs(v, y'.lists);
    j := HeldFacts(v.g, y'.s, y'.lists, x);
    SystemBacked(v.g, y.s, y.lists);
    SystemBacked(v.g, y'.s, y'.lists);
    assert v.g.bytesPerCluster == SLOT * PerCluster(v.g) by {
      VolumeFacts(v, y'.lists);
    }
    SnapHeads(v.g, y'.s, y'.lists);
    var k := HeldFacts(v.g, y.s, y.lists, x);
    UntouchedBytes(y.s, y'.s, fv.cluster, v.g.bytesPerCluster);
    FileIsHeld(v, fv, y'.lists, slots, d, j);
  }

  lemma SystemBacked(g: Geometry, s: Snap, lists: Lists)
    requires SnapOk(s, g, lists)
    ensures Backed(s, SLOT * PerCluster(g))
  {
    hide WellFormed, TreeOk, AllShow, SizesFit;
  }

  /** A call of `Operations.WriteInVolume` is the event. */
  lemma WriteIsEvent(g: Geometry, y: System, s': Snap, f: nat, j: nat, m: Meta, offset: nat, done: nat, append: bool)
    requires f in y.files && WriteStep(g, y.s, s', y.lists, y.files[f].dir, j, y.files[f].m.cluster, m.cluster)
    requires Flagged(y.files[f].m, m) && m.attr / 2 == y.files[f].m.attr / 2
    requires m.size <= Mul(|ChainOf(s'.chains, m.cluster)|, g.bytesPerCluster) <==> append || StaysInside(g, offset, done)
    ensures Step(g, y, y.(s := s', files := y.files[f := y.files[f].(m := m)]), Write(f, m, offset, done, append))
  {
    hide Wrote, OwnHead, Flagged, Mul, StaysInside;
  }

  /** A call of `Operations.SetattrInVolume` or `SyncInVolume` is the event. */
  lemma SetIsEvent(g: Geometry, y: System, s': Snap, f: nat, j: nat, slots: seq<Slot>, m: Meta)
    requires SystemOk(g, y) && f in y.files && Owns(g, y.s, y.lists, y.files[f], j)
    requires SetStep(g, y.s, s', y.lists, y.files[f].dir, j, slots, m, y.files[f].m.cluster)
    requires Flagged(y.files[f].m, m) && m.attr / 2 == y.files[f].m.attr / 2
    ensures var x := y.files[f];
      Step(g, y, System(s', ListsAfterSet(y.lists, x.dir, j, m), y.files[f := x.(m := m.(flags := m.flags - DIRTY))]), Set(f, slots, m))
  {
    hide SnapOk, OwnHead, Flagged, Mul, Coherent, ListOf, SlotsSynced, ListsAfterSet, IsDots, IsDirEntry, Synced;
    SyncIsSet(g, y.s, s', y.lists, y.files[f], j, slots, m);
  }

  /** `fat32_write` to one open file: it is the event, and with it every other open file stays one that
      can be worked on, with the same bytes.  Here `other` stands for any of them. */
  method WriteBeside(v: Volume, fv: Vnode, offset: nat, data: seq<byte>, append: bool, now: Timespec, ghost other: Vnode,
                     ghost y: System, ghost f: nat, ghost j: nat, ghost slots: seq<Slot>,
                     ghost k: nat, ghost name: seq<byte>, ghost d: nat, ghost otherSlots: seq<Slot>)
    returns (err: Errno, done: nat, ghost y': System, ghost j': nat)
    requires v.Valid() && SystemOk(v.g, y) && y.s == Now(v) && f in y.files && f != k && fv != other && fv.cache != other.cache
    requires FileOf(v, fv, y.lists, slots, y.files[f].dir, j) && y.files[f] == HeldOf(fv, y.files[f].dir, y.files[f].name)
    requires WasOpen(v.g, y, other, k, d, name) && OnDir(v, d, otherSlots)
    requires append || Addressable(v.g, offset)
    modifies v, v.disk, fv`cluster, fv`size, fv`mtime, fv`flags, fv.cache
    ensures y'.s == Now(v) && Step(v.g, y, y', Write(f, MetaOf(fv), offset, done, append)) && SystemOk(v.g, y')
    ensures FileOf(v, fv, y'.lists, slots, y.files[f].dir, j)
    ensures OnDir(v, d, otherSlots) && FileOf(v, other, y'.lists, otherSlots, d, j')
    ensures SameBytes(old(Now(v)), Now(v), other.cluster, v.g.bytesPerCluster)
  {
    hide SnapOk, Step, Apart, HasOwn, Owns, CacheSound, OnDir, FileOf, Backed, Content, WriteStep, Flagged, SameBytes, FileBytes,
         Overwrite, Fits, WellFormed, DeviceHolds, Consistent, Exact, OthersKept, Addressable, WrittenAt, WriteNoted, Extended, FreeCount,
         Landing;
    ghost var s, x := Now(v), y.files[f];
    VolumeIs(v, y.lists);
    SnapHeads(v.g, s, y.lists);
    ghost var i := HeldFacts(v.g, s, y.lists, y.files[k]);
    FileFacts(v, fv, y.lists, slots, x.dir, j);
    OwnIsNoList(y.lists, x.dir, j, fv.cluster);
    LaidNow(v, d, otherSlots);
    err, done := WriteInVolume(v, fv, offset, data, append, now, y.lists, slots, x.dir, j);
    y' := y.(s := Now(v), files := y.files[f := x.(m := MetaOf(fv))]);
    SizeAfter(v, fv);
    WriteIsEvent(v.g, y, Now(v), f, j, MetaOf(fv), offset, done, append);
    ghost var e := Write(f, MetaOf(fv), offset, done, append);
    EventKeepsSystem(v.g, y, y', e);
    WriteKept(v.g, s, Now(v), y.lists, x.dir, j, x.m.cluster, fv.cluster);
    VolumeFacts(v, y.lists);
    EntryKept(v, s, x.m.cluster, d, otherSlots);
    j' := FileStays(v, other, y, y', e, k, d, name, otherSlots);
  }

  lemma OwnIsNoList(lists: Lists, d: nat, j: nat, h: nat)
    requires OwnHead(lists, d, j, h)
    ensures h == 0 || h !in lists
  {
  }

  lemma LaidNow(v: Volume, d: nat, slots: seq<Slot>)
    requires OnDir(v, d, slots)
    ensures Laid(Now(v), d, PerCluster(v.g), slots) && d in v.chains
  {
    hide WellFormed, DeviceHolds, Consistent, Laid;
    LaidChain(Now(v), d, PerCluster(v.g), slots);
  }

  lemma SizeAfter(v: Volume, fv: Vnode)
    requires Attached(v, fv)
    ensures Fits(v, fv) <==> fv.size <= Mul(|ChainOf(v.chains, fv.cluster)|, v.g.bytesPerCluster)
  {
    hide CacheSound, Mul;
  }
}
