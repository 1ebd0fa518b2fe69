/** A whole volume: the forest, every directory, and who owns which chain.  What each operation does
    to it is stated as a step from one state to the next, and every step keeps it. */
module Consistency {
  import opened Bytes
  import opened Layout
  import opened Volumes
  import opened Chains
  import opened Clusters
  import opened Contents
  import opened Files
  import opened Slots
  import opened SlotBytes
  import opened Names
  import opened Placing
  import opened Integrity
  import opened DirectoryMap
  import opened DirReading
  import opened DirCreation
  import opened Removal
  import opened Making
  import opened Writeback
  import opened Updating
  import opened Tree

  /** The directory with first cluster `d` is well formed and lists `es`. */
  ghost predicate Shows(s: Snap, p: nat, d: nat, es: seq<Dirent>) {
    exists slots :: Laid(s, d, p, slots) && DirOk(slots) && ListOf(slots) == es
  }

  ghost predicate AllShow(s: Snap, p: nat, lists: Lists) {
    forall d :: d in lists ==> Shows(s, p, d, lists[d])
  }

  /** `lists` are the listings of all directories, which form a tree; every entry owns its chain, and
      no file claims more bytes than its chain has. */
  ghost predicate SnapOk(s: Snap, g: Geometry, lists: Lists) {
    && WellFormed(s.fat, s.chains) && Backed(s, SLOT * PerCluster(g))
    && TreeOk(s.chains, lists, g.rootCluster) && AllShow(s, PerCluster(g), lists)
    && SizesFit(s.chains, lists, g.bytesPerCluster)
  }

  ghost predicate VolumeOk(v: Volume, lists: Lists)
    reads v, v.disk
  {
    v.Valid() && SnapOk(Now(v), v.g, lists)
  }

  /** A chain that was not touched shows the same listing. */
  lemma ShowsStill(s: Snap, s': Snap, p: nat, x: nat, es: seq<Dirent>)
    requires Shows(s, p, x, es) && x in s.chains && x in s'.chains && s'.chains[x] == s.chains[x]
    requires |s'.data| == |s.data| && Backed(s, SLOT * p) && Backed(s', SLOT * p)
    requires forall c :: c in s.chains[x] && c < |s.data| ==> s'.data[c] == s.data[c]
    ensures Shows(s', p, x, es)
  {
    hide DirOk, ListOf, Mul, Content;
    var slots :| Laid(s, x, p, slots) && DirOk(slots) && ListOf(slots) == es;
    ContentFrame(s.data, s'.data, s.chains[x]);
    assert Laid(s', x, p, slots);
  }

  lemma ShowsOf(s: Snap, p: nat, d: nat, es: seq<Dirent>, slots: seq<Slot>)
    requires Shows(s, p, d, es) && Laid(s, d, p, slots)
    ensures DirOk(slots) && ListOf(slots) == es
  {
    hide DirOk, ListOf, Laid;
    var slots' :| Laid(s, d, p, slots') && DirOk(slots') && ListOf(slots') == es;
    LaidOnce(s, d, p, slots, slots');
  }

  lemma ShowsNow(s: Snap, p: nat, c: nat, slots: seq<Slot>)
    requires Laid(s, c, p, slots) && DirOk(slots)
    ensures Shows(s, p, c, ListOf(slots))
  {
    hide Laid, DirOk, ListOf;
  }

  /** What is known of a directory of a consistent volume. */
  lemma DirectoryFacts(s: Snap, g: Geometry, lists: Lists, d: nat, slots: seq<Slot>)
    requires SnapOk(s, g, lists) && d in lists && Laid(s, d, PerCluster(g), slots)
    ensures DirOk(slots) && ListOf(slots) == lists[d] && Unique(lists[d]) && DotsPlain(lists[d])
    ensures d in s.chains && 0 !in s.chains && d != 0
  {
    hide DirOk, ListOf, Laid, WellFormed, Unique, DotsPlain, Shows, TreeOk, Backed;
    ShowsOf(s, PerCluster(g), d, lists[d], slots);
    TreeFacts(s.chains, lists, g.rootCluster, d);
    ZeroIsNoChain(s.fat, s.chains);
  }

  /** The later state is one of chains over clusters, too, with as many clusters. */
  ghost predicate Later(s: Snap, s': Snap, g: Geometry) {
    WellFormed(s'.fat, s'.chains) && Backed(s', SLOT * PerCluster(g)) && |s'.data| == |s.data|
  }

  /** After a change to directory `d`, which now has slots `slots'`, all other directories show
      what they did. */
  lemma AllShowAfter(s: Snap, s': Snap, g: Geometry, lists: Lists, d: nat, slots': seq<Slot>)
    requires SnapOk(s, g, lists) && Later(s, s', g) && OthersKept(s, s', d)
    requires d in lists && Laid(s', d, PerCluster(g), slots') && DirOk(slots')
    ensures AllShow(s', PerCluster(g), lists[d := ListOf(slots')])
  {
    hide DirOk, ListOf, Laid, Backed, WellFormed, TreeOk, SizesFit, Shows;
    var lists', p := lists[d := ListOf(slots')], PerCluster(g);
    ShowsNow(s', p, d, slots');
    forall x | x in lists'
      ensures Shows(s', p, x, lists'[x])
    {
      if x != d {
        TreeFacts(s.chains, lists, g.rootCluster, x);
        assert Shows(s, p, x, lists[x]);
        ShowsStill(s, s', p, x, lists[x]);
      }
    }
  }

  // ---- making ----

  /** Creating `name` in directory `d`: its slots go from `slots` to `slots'`, `main` is the new 8.3
      slot, and a new directory has the slots `inner`. */
  ghost predicate MakeStep(g: Geometry, s: Snap, s': Snap, lists: Lists, d: nat, slots: seq<Slot>, slots': seq<Slot>,
                           name: seq<byte>, main: Slot, inner: seq<Slot>)
  {
    && Later(s, s', g) && OthersKept(s, s', d) && d in lists
    && Laid(s, d, PerCluster(g), slots) && Laid(s', d, PerCluster(g), slots')
    && Created(slots, slots', name, main, d) && !IsDots(name)
    && var c := FirstCluster(main);
       if Bit(Attr(main), DIRECTORY) then c != 0 && c !in s.chains && Laid(s', c, PerCluster(g), inner) && NewlyMade(g, c, inner)
       else c == 0
  }

  ghost predicate NewlyMade(g: Geometry, c: nat, inner: seq<Slot>) {
    PerCluster(g) >= 2 && exists parent: nat, t: Stamp :: inner == NewDir(PerCluster(g), c, parent, t)
  }

  ghost function ListsAfterMake(lists: Lists, d: nat, slots': seq<Slot>, name: seq<byte>, main: Slot, inner: seq<Slot>): Lists {
    var grown := lists[d := ListOf(slots')];
    if Bit(Attr(main), DIRECTORY) && Visible(name) then grown[FirstCluster(main) := ListOf(inner)] else grown
  }

  /** The name under which the new entry is listed, if any, is new. */
  ghost predicate Fresh(es: seq<Dirent>, name: seq<byte>) {
    Visible(name) ==> Absent(es, Shown(name))
  }

  /** For names that read back this is what the code asks. */
  lemma FreshIsAbsent(es: seq<Dirent>, name: seq<byte>)
    requires IsName(name) && RoundTrips(name)
    ensures Fresh(es, name) <==> Absent(es, name)
  {
    hide Absent, IsShort;
    ShownSame(name);
  }

  lemma InnerFacts(g: Geometry, c: nat, inner: seq<Slot>)
    requires NewlyMade(g, c, inner)
    ensures DirOk(inner) && Unique(ListOf(inner)) && DotsPlain(ListOf(inner))
    ensures forall k :: 0 <= k < |ListOf(inner)| ==> IsDots(ListOf(inner)[k].name)
  {
    hide DirOk, ListOf, Unique, DotsPlain, NewDir;
    var parent: nat, t: Stamp :| inner == NewDir(PerCluster(g), c, parent, t);
    NewDirOk(PerCluster(g), c, parent, t);
    NewDirDots(PerCluster(g), c, parent, t);
  }

  /** The entry of the new listing. */
  function MadeEntry(slots: seq<Slot>, name: seq<byte>, main: Slot): Dirent
    requires IsName(name)
  {
    Dirent(Shown(name), FreeRun(slots, 0, 0, SlotCount(name)), SlotCount(name), main)
  }

  /** What making does to the listing of its directory. */
  lemma MadeListing(g: Geometry, s: Snap, s': Snap, lists: Lists, d: nat, slots: seq<Slot>, slots': seq<Slot>,
                    name: seq<byte>, main: Slot, inner: seq<Slot>)
    requires SnapOk(s, g, lists) && MakeStep(g, s, s', lists, d, slots, slots', name, main, inner)
    ensures IsName(name) && FileSize(main) == 0 && DirOk(slots')
    ensures Visible(name) ==> !IsDots(Shown(name)) && AddedEntry(lists[d], ListOf(slots'), MadeEntry(slots, name, main))
    ensures !Visible(name) ==> ListOf(slots') == lists[d]
    ensures Unique(ListOf(slots')) <==> Fresh(lists[d], name)
    ensures DotsPlain(ListOf(slots'))
  {
    hide DirOk, ListOf, Laid, WellFormed, Unique, DotsPlain, TreeOk, AllShow, SizesFit, Backed, Absent, Shown, FreeRun, Visible,
         IsShort, FirstCluster, FileSize, SlotCount, Placed, AddedEntry;
    DirectoryFacts(s, g, lists, d, slots);
    CreateEffect(slots, slots', name, main, d);
    CreateDots(slots, slots', name, main, d);
    ShownNotDots(main, name, d, SLOT * FreeRun(slots, 0, 0, SlotCount(name)));
    SizeOfNew(main, name, d, SLOT * FreeRun(slots, 0, 0, SlotCount(name)));
    DirKept(slots, slots', name, main, d);
    if Visible(name) {
      AddUnique(lists[d], ListOf(slots'), MadeEntry(slots, name, main));
    }
  }

  lemma SizeOfNew(main: Slot, name: seq<byte>, cluster: nat, offset: nat)
    requires MainFor(main, name, cluster, offset)
    ensures FileSize(main) == 0
  {
    hide FileSize;
  }

  lemma DirKept(slots: seq<Slot>, slots': seq<Slot>, name: seq<byte>, main: Slot, d: nat)
    requires DirOk(slots) && Created(slots, slots', name, main, d)
    ensures DirOk(slots')
  {
    hide DirOk, ListOf, Created;
    CreateEffect(slots, slots', name, main, d);
  }

  /** The listings of all directories after the creation. */
  lemma ShowsMade(g: Geometry, s: Snap, s': Snap, lists: Lists, d: nat, slots: seq<Slot>, slots': seq<Slot>,
                  name: seq<byte>, main: Slot, inner: seq<Slot>)
    requires SnapOk(s, g, lists) && MakeStep(g, s, s', lists, d, slots, slots', name, main, inner)
    ensures AllShow(s', PerCluster(g), ListsAfterMake(lists, d, slots', name, main, inner))
  {
    hide DirOk, ListOf, Laid, WellFormed, Unique, DotsPlain, TreeOk, SizesFit, Backed, Visible, FirstCluster, Created, Shows,
         IsDots, NewlyMade, OthersKept;
    MadeListing(g, s, s', lists, d, slots, slots', name, main, inner);
    AllShowAfter(s, s', g, lists, d, slots');
    if Bit(Attr(main), DIRECTORY) {
      InnerFacts(g, FirstCluster(main), inner);
      ShowsNow(s', PerCluster(g), FirstCluster(main), inner);
    }
  }

  /** The tree and the sizes after an entry was made that is listed under a new name. */
  lemma TreeMade(g: Geometry, s: Snap, s': Snap, lists: Lists, d: nat, slots: seq<Slot>, slots': seq<Slot>,
                 name: seq<byte>, main: Slot, inner: seq<Slot>) returns (i: nat)
    requires SnapOk(s, g, lists) && MakeStep(g, s, s', lists, d, slots, slots', name, main, inner)
    requires Fresh(lists[d], name) && Visible(name)
    ensures IsName(name)
    ensures ListsMade(s.chains, s'.chains, lists, ListsAfterMake(lists, d, slots', name, main, inner), d,
                      MadeEntry(slots, name, main), i, ListOf(inner))
    ensures TreeOk(s'.chains, ListsAfterMake(lists, d, slots', name, main, inner), g.rootCluster)
    ensures SizesFit(s'.chains, ListsAfterMake(lists, d, slots', name, main, inner), g.bytesPerCluster)
  {
    hide DirOk, ListOf, Laid, WellFormed, Unique, DotsPlain, TreeOk, SizesFit, Backed, Visible, FirstCluster, Created, Shows,
         IsDots, NewlyMade, FileSize, Shown, FreeRun, SlotCount, Fresh, IsShort, AddedAt, AllShow;
    MadeListing(g, s, s', lists, d, slots, slots', name, main, inner);
    var lists', e := ListsAfterMake(lists, d, slots', name, main, inner), MadeEntry(slots, name, main);
    DirectoryFacts(s, g, lists, d, slots);
    LaidChain(s', d, PerCluster(g), slots');
    ZeroIsNoChain(s'.fat, s'.chains);
    i :| 0 <= i <= |lists[d]| && AddedAt(lists[d], ListOf(slots'), e, i);
    var isDir := Bit(Attr(main), DIRECTORY);
    if isDir {
      InnerFacts(g, FirstCluster(main), inner);
      LaidChain(s', FirstCluster(main), PerCluster(g), inner);
    }
    assert forall h :: h in s.chains ==> h in s'.chains;
    HeadsOf(s.chains, lists, g.rootCluster);
    var es := if isDir then ListOf(inner) else [];
    EmptyFacts();
    assert ListsMade(s.chains, s'.chains, lists, lists', d, e, i, es);
    MakeKeepsTree(s.chains, s'.chains, lists, lists', g.rootCluster, d, e, i, es);
    MakeKeepsSizes(s.chains, s'.chains, lists, lists', g.rootCluster, d, e, i, es, g.bytesPerCluster);
  }

  lemma EmptyFacts()
    ensures Unique([]) && DotsPlain([])
  {
  }

  /** A creation keeps the volume consistent exactly if the name under which the entry is listed, if
      any, is new; the code compares the names as given. */
  lemma MakeKeepsVolume(g: Geometry, s: Snap, s': Snap, lists: Lists, d: nat, slots: seq<Slot>, slots': seq<Slot>,
                        name: seq<byte>, main: Slot, inner: seq<Slot>)
    requires SnapOk(s, g, lists) && MakeStep(g, s, s', lists, d, slots, slots', name, main, inner)
    ensures SnapOk(s', g, ListsAfterMake(lists, d, slots', name, main, inner)) <==> Fresh(lists[d], name)
  {
    hide DirOk, ListOf, Laid, WellFormed, Unique, DotsPlain, TreeOk, SizesFit, Backed, Visible, Created, Shows,
         IsDots, NewlyMade, FileSize, Shown, FreeRun, SlotCount, Fresh, IsShort, AllShow, FirstCluster;
    var lists' := ListsAfterMake(lists, d, slots', name, main, inner);
    MadeListing(g, s, s', lists, d, slots, slots', name, main, inner);
    ShowsMade(g, s, s', lists, d, slots, slots', name, main, inner);
    DirectoryFacts(s, g, lists, d, slots);
    if Fresh(lists[d], name) {
      if Visible(name) {
        var i := TreeMade(g, s, s', lists, d, slots, slots', name, main, inner);
      } else {
        assert lists' == lists;
        ZeroIsNoChain(s'.fat, s'.chains);
        LaidChain(s', d, PerCluster(g), slots');
        assert forall h :: h in s.chains ==> h in s'.chains;
        GrowthKeepsTree(s.chains, s'.chains, lists, g.rootCluster);
        GrowthKeepsSizes(s.chains, s'.chains, lists, g.rootCluster, d, g.bytesPerCluster);
      }
    } else if TreeOk(s'.chains, lists', g.rootCluster) {
      NotTheNewOne(s, lists, d, main, slots');
      TreeFacts(s'.chains, lists', g.rootCluster, d);
    }
  }

  lemma NotTheNewOne(s: Snap, lists: Lists, d: nat, main: Slot, slots': seq<Slot>)
    requires d in s.chains && (Bit(Attr(main), DIRECTORY) ==> FirstCluster(main) !in s.chains)
    ensures Bit(Attr(main), DIRECTORY) ==> FirstCluster(main) != d
  {
    hide FirstCluster, ListOf;
  }

  // ---- growing ----

  /** A creation that failed has given directory `d` `count` cleared slots and then the `stale` ones. */
  ghost predicate GrowStep(g: Geometry, s: Snap, s': Snap, lists: Lists, d: nat, slots: seq<Slot>, count: nat, stale: seq<Slot>) {
    && Later(s, s', g) && OthersKept(s, s', d) && d in lists
    && Laid(s, d, PerCluster(g), slots) && Laid(s', d, PerCluster(g), slots + Cleared(count) + stale)
  }

  /** It keeps the volume consistent exactly if the stale slots leave no trace. */
  lemma GrowKeepsVolume(g: Geometry, s: Snap, s': Snap, lists: Lists, d: nat, slots: seq<Slot>, count: nat, stale: seq<Slot>)
    requires SnapOk(s, g, lists) && GrowStep(g, s, s', lists, d, slots, count, stale)
    ensures SnapOk(s', g, lists) <==> NoTrace(slots, count, stale)
  {
    hide DirOk, ListOf, Unique, Laid, WellFormed, DotsPlain, Backed, TreeOk, SizesFit, Shows, AllShow, NoTrace;
    var slots' := slots + Cleared(count) + stale;
    DirectoryFacts(s, g, lists, d, slots);
    GrowKeepsDir(slots, count, stale);
    if NoTrace(slots, count, stale) {
      ZeroIsNoChain(s'.fat, s'.chains);
      AllShowAfter(s, s', g, lists, d, slots');
      assert lists[d := ListOf(slots')] == lists;
      LaidChain(s', d, PerCluster(g), slots');
      assert forall h :: h in s.chains ==> h in s'.chains;
      GrowthKeepsTree(s.chains, s'.chains, lists, g.rootCluster);
      GrowthKeepsSizes(s.chains, s'.chains, lists, g.rootCluster, d, g.bytesPerCluster);
    }
    if SnapOk(s', g, lists) {
      DirectoryFacts(s', g, lists, d, slots');
    }
  }

  // ---- removing ----

  /** Removing entry `j` of directory `d`, whose slots go from `slots` to `slots'`.  A directory that
      is removed counts as empty. */
  ghost predicate RemoveStep(g: Geometry, s: Snap, s': Snap, lists: Lists, d: nat, j: nat, slots: seq<Slot>, slots': seq<Slot>) {
    && Later(s, s', g) && d in lists && j < |lists[d]| && !IsDots(lists[d][j].name)
    && Laid(s, d, PerCluster(g), slots) && Laid(s', d, PerCluster(g), slots') && RemovedAt(slots, slots', j)
    && var c := FirstCluster(lists[d][j].main);
       Removed(s, s', d, c) && (IsDirEntry(lists[d][j]) ==> EmptyDir(s, c, PerCluster(g)))
  }

  /** The listings after the removal of entry `j` of directory `d`. */
  ghost function ListsWithout(lists: Lists, d: nat, j: nat): Lists
    requires d in lists && j < |lists[d]|
  {
    var e := lists[d][j];
    (if IsDirEntry(e) && FirstCluster(e.main) != 0 then lists - {FirstCluster(e.main)} else lists)[d := lists[d][..j] + lists[d][j + 1..]]
  }

  /** A directory that counts as empty lists only the dot entries. */
  lemma EmptyLists(s: Snap, g: Geometry, lists: Lists, c: nat)
    requires SnapOk(s, g, lists) && c in lists && EmptyDir(s, c, PerCluster(g))
    ensures forall k :: 0 <= k < |lists[c]| ==> IsDots(lists[c][k].name)
  {
    hide DirOk, ListOf, Laid, WellFormed, Unique, DotsPlain, TreeOk, SizesFit, Backed, IsDots, EmptyFrom;
    HeadsOf(s.chains, lists, g.rootCluster);
    assert Shows(s, PerCluster(g), c, lists[c]);
    var inner :| Laid(s, c, PerCluster(g), inner) && DirOk(inner) && ListOf(inner) == lists[c];
    DirectoryFacts(s, g, lists, c, inner);
    EmptyMeansDots(inner);
  }

  lemma RemovedLists(g: Geometry, s: Snap, s': Snap, lists: Lists, d: nat, j: nat, slots: seq<Slot>, slots': seq<Slot>)
    requires SnapOk(s, g, lists) && RemoveStep(g, s, s', lists, d, j, slots, slots')
    ensures ListsUnmade(s.chains, s'.chains, lists, ListsWithout(lists, d, j), d, j)
    ensures forall k :: k in s'.chains ==> s'.chains[k] == s.chains[k]
  {
    hide DirOk, ListOf, Laid, WellFormed, TreeOk, SizesFit, Backed, IsDots, FreeCount, RemovedAt, FirstCluster, AllShow, EmptyDir,
         IsDirEntry;
    var c := FirstCluster(lists[d][j].main);
    ZeroIsNoChain(s.fat, s.chains);
    if IsDirEntry(lists[d][j]) && c in lists {
      EmptyLists(s, g, lists, c);
    }
  }

  /** After the removal every remaining directory shows its listing. */
  lemma ShowsWithout(g: Geometry, s: Snap, s': Snap, lists: Lists, d: nat, j: nat, slots: seq<Slot>, slots': seq<Slot>)
    requires SnapOk(s, g, lists) && RemoveStep(g, s, s', lists, d, j, slots, slots')
    ensures AllShow(s', PerCluster(g), ListsWithout(lists, d, j))
  {
    hide DirOk, ListOf, Laid, Backed, FirstCluster, IsDots, FreeCount, WellFormed, TreeOk, SizesFit, RemovedAt, EmptyDir, IsDirEntry,
         Shows;
    var lists', p := ListsWithout(lists, d, j), PerCluster(g);
    DirectoryFacts(s, g, lists, d, slots);
    RemoveEffect(slots, slots', j);
    ShowsNow(s', p, d, slots');
    RemovedHead(s.chains, lists, g.rootCluster, d, j);
    HeadsOf(s.chains, lists, g.rootCluster);
    ZeroIsNoChain(s.fat, s.chains);
    forall x | x in lists'
      ensures Shows(s', p, x, lists'[x])
    {
      if x != d {
        assert Shows(s, p, x, lists[x]);
        ShowsStill(s, s', p, x, lists[x]);
      }
    }
  }

  lemma RemoveKeepsVolume(g: Geometry, s: Snap, s': Snap, lists: Lists, d: nat, j: nat, slots: seq<Slot>, slots': seq<Slot>)
    requires SnapOk(s, g, lists) && RemoveStep(g, s, s', lists, d, j, slots, slots')
    ensures SnapOk(s', g, ListsWithout(lists, d, j))
  {
    hide DirOk, ListOf, Laid, Backed, FirstCluster, IsDots, FreeCount, WellFormed, TreeOk, SizesFit, RemovedAt, EmptyDir, IsDirEntry,
         AllShow, Removed;
    var lists' := ListsWithout(lists, d, j);
    RemovedLists(g, s, s', lists, d, j, slots, slots');
    ShowsWithout(g, s, s', lists, d, j, slots, slots');
    RemoveKeepsTree(s.chains, s'.chains, lists, lists', g.rootCluster, d, j);
    RemoveKeepsSizes(s.chains, s'.chains, lists, lists', g.rootCluster, d, j, g.bytesPerCluster);
  }

  // ---- writing to a file ----

  /** The chain `h` of the file at entry `j` of directory `d` is its own. */
  ghost predicate OwnHead(lists: Lists, d: nat, j: nat, h: nat) {
    d in lists && j < |lists[d]| && (h == 0 || Private(lists, d, j, h))
  }

  /** A file whose chain was `h` and is now `h'` has gained clusters or bytes; nothing else has
      changed. */
  ghost predicate Wrote(g: Geometry, s: Snap, s': Snap, h: nat, h': nat) {
    && Later(s, s', g) && OthersKept(s, s', h)
    && HeadMoved(s.chains, h, h') && (h' == 0 || h' in s'.chains) && (h in s.chains ==> h' == h)
    && |ChainOf(s.chains, h)| <= |ChainOf(s'.chains, h')|
  }

  /** The file is that of entry `j` of directory `d`. */
  ghost predicate WriteStep(g: Geometry, s: Snap, s': Snap, lists: Lists, d: nat, j: nat, h: nat, h': nat) {
    Wrote(g, s, s', h, h') && OwnHead(lists, d, j, h)
  }

  /** The chain that the file has afterwards is its own. */
  lemma StillPrivate(chains: Forest, lists: Lists, root: nat, d: nat, j: nat, h: nat, h': nat)
    requires TreeOk(chains, lists, root) && OwnHead(lists, d, j, h) && HeadMoved(chains, h, h')
    ensures OwnHead(lists, d, j, h')
  {
    hide TreeOk;
    HeadsOf(chains, lists, root);
    if h' != 0 && h' != h {
      forall d', j'
        ensures Refers(lists, d', j', h') ==> h' in chains
      {
        if Refers(lists, d', j', h') {
          RefIsWell(chains, lists, root, d', j', h');
        }
      }
    }
  }

  lemma WriteKeepsVolume(g: Geometry, s: Snap, s': Snap, lists: Lists, d: nat, j: nat, h: nat, h': nat)
    requires SnapOk(s, g, lists) && WriteStep(g, s, s', lists, d, j, h, h')
    ensures SnapOk(s', g, lists) && OwnHead(lists, d, j, h')
  {
    hide DirOk, ListOf, Laid, Backed, WellFormed, TreeOk, SizesFit, Shows;
    var p := PerCluster(g);
    ZeroIsNoChain(s.fat, s.chains);
    ZeroIsNoChain(s'.fat, s'.chains);
    HeadsOf(s.chains, lists, g.rootCluster);
    StillPrivate(s.chains, lists, g.rootCluster, d, j, h, h');
    GrowthKeepsTree(s.chains, s'.chains, lists, g.rootCluster);
    GrowthKeepsSizes(s.chains, s'.chains, lists, g.rootCluster, h, g.bytesPerCluster);
    forall x | x in lists
      ensures Shows(s', p, x, lists[x])
    {
      assert Shows(s, p, x, lists[x]);
      ShowsStill(s, s', p, x, lists[x]);
    }
  }

  // ---- setting attributes, and the sync ----

  /** A file whose chain was `h` is synced with what it holds in memory, `m`, at number `place` of the
      slots of directory `d`, where it remembers its entry; only that slot and the file's own chain have
      changed. */
  ghost predicate Synced(g: Geometry, s: Snap, s': Snap, d: nat, place: int, slots: seq<Slot>, m: Meta, h: nat) {
    && Later(s, s', g) && KeptBut(s, s', h, d) && HeadMoved(s.chains, h, m.cluster)
    && (m.cluster == 0 || (m.cluster in s'.chains && m.cluster < WORD))
    && m.size % WORD <= Mul(|ChainOf(s'.chains, m.cluster)|, g.bytesPerCluster)
    && Laid(s, d, PerCluster(g), slots) && Laid(s', d, PerCluster(g), SlotsSynced(slots, place, m))
  }

  /** The slots after `fat32_update_fdentry`; a place behind the end is an error there. */
  function SlotsSynced(slots: seq<Slot>, place: int, m: Meta): (slots': seq<Slot>)
    ensures |slots'| == |slots|
  {
    if 0 <= place < |slots| then slots[place := UpdatedSlot(slots[place], m)] else slots
  }

  /** The file is that of entry `j` of directory `d`, and the place is that of the entry. */
  ghost predicate SetStep(g: Geometry, s: Snap, s': Snap, lists: Lists, d: nat, j: nat, slots: seq<Slot>, m: Meta, h: nat) {
    && OwnHead(lists, d, j, h) && h != d
    && var e := lists[d][j];
       && !IsDirEntry(e) && e.count > 0 && e.start + e.count <= |slots| && slots[e.start + e.count - 1] == e.main
       && Synced(g, s, s', d, e.start + e.count - 1, slots, m, h)
       && Coherent(m, e.main) && m.attr / 2 == Attr(e.main) / 2
  }

  /** The listings after the sync of a file. */
  ghost function ListsAfterSet(lists: Lists, d: nat, j: nat, m: Meta): Lists
    requires d in lists && j < |lists[d]|
  {
    Adopted(lists, d, j, UpdatedSlot(lists[d][j].main, m))
  }

  /** The new 8.3 slot is that of a file, with the file's first cluster and the low 32 bits of its
      size. */
  lemma SyncedSlot(main: Slot, m: Meta)
    requires Coherent(m, main) && m.attr / 2 == Attr(main) / 2 && m.cluster < WORD
    ensures var u := UpdatedSlot(main, m);
      && FirstCluster(u) == m.cluster && FileSize(u) == m.size % WORD
      && Bit(Attr(u), DIRECTORY) == Bit(Attr(main), DIRECTORY) && u[0] == main[0]
  {
    hide UpdatedSlot, FileSize, FirstCluster;
    UpdatedFields(main, m);
    FieldsBelowWord(main);
    HighBits(m.attr, Attr(main));
    assert UpdatedSlot(main, m)[0] == ShortName(UpdatedSlot(main, m))[0] == ShortName(main)[0];
  }

  /** All directories but `d` show what they did. */
  lemma OthersShow(s: Snap, s': Snap, g: Geometry, lists: Lists, h: nat, d: nat, x: nat)
    requires SnapOk(s, g, lists) && Later(s, s', g) && KeptBut(s, s', h, d) && x in lists && x != h && x != d
    ensures Shows(s', PerCluster(g), x, lists[x])
  {
    hide DirOk, ListOf, Laid, Backed, Shows, TreeOk, WellFormed, SizesFit;
    HeadsOf(s.chains, lists, g.rootCluster);
    assert Shows(s, PerCluster(g), x, lists[x]);
    ShowsStill(s, s', PerCluster(g), x, lists[x]);
  }

  /** What the sync does to the listing of the directory. */
  lemma SetListing(g: Geometry, s: Snap, s': Snap, lists: Lists, d: nat, j: nat, slots: seq<Slot>, m: Meta, h: nat)
    requires SnapOk(s, g, lists) && SetStep(g, s, s', lists, d, j, slots, m, h)
    ensures var e := lists[d][j];
            var slots' := slots[e.start + e.count - 1 := UpdatedSlot(e.main, m)];
      DirOk(slots') && ListOf(slots') == lists[d][j := e.(main := UpdatedSlot(e.main, m))]
  {
    hide DirOk, ListOf, Laid, Backed, Unique, DotsPlain, TreeOk, WellFormed, SizesFit, AllShow, UpdatedSlot, KeptBut, Coherent, Private;
    DirectoryFacts(s, g, lists, d, slots);
    SyncKeepsDirectory(slots, j, m);
  }

  lemma AdoptsInStep(g: Geometry, s: Snap, s': Snap, lists: Lists, d: nat, j: nat, slots: seq<Slot>, m: Meta, h: nat)
    requires SnapOk(s, g, lists) && SetStep(g, s, s', lists, d, j, slots, m, h)
    ensures Adopts(s.chains, s'.chains, lists, d, j, h, UpdatedSlot(lists[d][j].main, m))
    ensures OwnHead(lists, d, j, m.cluster)
  {
    hide DirOk, ListOf, Laid, Backed, TreeOk, WellFormed, SizesFit, AllShow, UpdatedSlot, Coherent, FirstCluster, FileSize, Bit, Mul;
    SyncedSlot(lists[d][j].main, m);
    StillPrivate(s.chains, lists, g.rootCluster, d, j, h, m.cluster);
    ZeroIsNoChain(s'.fat, s'.chains);
  }

  lemma SetKeepsVolume(g: Geometry, s: Snap, s': Snap, lists: Lists, d: nat, j: nat, slots: seq<Slot>, m: Meta, h: nat)
    requires SnapOk(s, g, lists) && SetStep(g, s, s', lists, d, j, slots, m, h)
    ensures SnapOk(s', g, ListsAfterSet(lists, d, j, m))
  {
    hide DirOk, ListOf, Laid, Backed, TreeOk, WellFormed, SizesFit, UpdatedSlot, Coherent, FirstCluster, FileSize, Bit, Mul, Shows,
         KeptBut, Adopts, Refers;
    var e, p := lists[d][j], PerCluster(g);
    var u := UpdatedSlot(e.main, m);
    var slots' := slots[e.start + e.count - 1 := u];
    SyncedSlot(e.main, m);
    SetListing(g, s, s', lists, d, j, slots, m, h);
    AdoptsInStep(g, s, s', lists, d, j, slots, m, h);
    AdoptKeepsTree(s.chains, s'.chains, lists, g.rootCluster, d, j, h, u);
    AdoptKeepsSizes(s.chains, s'.chains, lists, g.rootCluster, d, j, h, u, g.bytesPerCluster);
    ShowsNow(s', p, d, slots');
    HeadsOf(s.chains, lists, g.rootCluster);
    var lists' := ListsAfterSet(lists, d, j, m);
    forall x | x in lists'
      ensures Shows(s', p, x, lists'[x])
    {
      if x != d {
        OthersShow(s, s', g, lists, h, d, x);
      }
    }
  }
}
