/** The directories of a volume together: every directory is reached from the root, every entry owns
    its chain, and no file claims more bytes than its chain has.  This is what removal, lookup and
    writing rely on, and every operation keeps it. */
module Tree {
  import opened Bytes
  import opened Layout
  import opened Chains
  import opened Contents
  import opened Slots
  import opened Names
  import opened Placing
  import opened DirectoryMap
  import opened Updating

  /** The listings of the directories, by first cluster. */
  type Lists = map<nat, seq<Dirent>>

  /** Entry `j` of directory `d`, other than the dot entries, has first cluster `r`. */
  ghost predicate Refers(lists: Lists, d: nat, j: nat, r: nat) {
    d in lists && j < |lists[d]| && !IsDots(lists[d][j].name) && FirstCluster(lists[d][j].main) == r
  }

  predicate IsDirEntry(e: Dirent) {
    Bit(Attr(e.main), DIRECTORY)
  }

  /** An entry with clusters has a chain of its own, neither the root's nor that of its directory; it
      is the chain of a directory exactly if the entry says so. */
  ghost predicate RefersWell(chains: Forest, lists: Lists, root: nat, d: nat, j: nat) {
    forall r :: Refers(lists, d, j, r) && r != 0 ==>
      r in chains && r != root && r != d && (IsDirEntry(lists[d][j]) <==> r in lists)
  }

  /** No two entries of the volume share a chain. */
  ghost predicate OneOwner(lists: Lists) {
    forall d, j, d', j', r :: Refers(lists, d, j, r) && Refers(lists, d', j', r) && r != 0 ==> d == d' && j == j'
  }

  /** Directory `p` has an entry for cluster `c`. */
  ghost predicate Child(lists: Lists, p: nat, c: nat) {
    exists j :: Refers(lists, p, j, c)
  }

  /** A path of entries leads from the root to directory `d`. */
  ghost predicate Leads(lists: Lists, root: nat, path: seq<nat>, d: nat) {
    && |path| > 0 && path[0] == root && path[|path| - 1] == d
    && forall i :: 0 <= i < |path| - 1 ==> Child(lists, path[i], path[i + 1])
  }

  ghost predicate Reached(lists: Lists, root: nat, d: nat) {
    exists path: seq<nat> :: Leads(lists, root, path, d)
  }

  ghost predicate DirectoryWell(chains: Forest, lists: Lists, root: nat, d: nat) {
    d in lists ==> d in chains && Unique(lists[d]) && DotsPlain(lists[d]) && Reached(lists, root, d)
  }

  ghost predicate TreeOk(chains: Forest, lists: Lists, root: nat) {
    && root in lists && 0 !in chains && (forall d: nat :: DirectoryWell(chains, lists, root, d))
    && (forall d, j: nat :: d in lists && j < |lists[d]| ==> RefersWell(chains, lists, root, d, j))
    && OneOwner(lists)
  }

  lemma TreeFacts(chains: Forest, lists: Lists, root: nat, d: nat)
    requires TreeOk(chains, lists, root) && d in lists
    ensures d in chains && d != 0 && Unique(lists[d]) && DotsPlain(lists[d]) && Reached(lists, root, d)
  {
    hide Unique, DotsPlain, Reached, RefersWell, OneOwner;
    assert DirectoryWell(chains, lists, root, d);
  }

  lemma RefIsWell(chains: Forest, lists: Lists, root: nat, d: nat, j: nat, r: nat)
    requires TreeOk(chains, lists, root) && Refers(lists, d, j, r) && r != 0
    ensures r in chains && r != root && r != d && (IsDirEntry(lists[d][j]) <==> r in lists)
  {
    hide Unique, DotsPlain, Reached, OneOwner, IsDirEntry;
    assert RefersWell(chains, lists, root, d, j);
  }

  /** A directory stays reached if the entries stay that lead to directories, but for one, `gone`,
      that leads nowhere. */
  lemma StillReached(lists: Lists, lists': Lists, root: nat, d: nat, gone: nat)
    requires Reached(lists, root, d) && d in lists && d != gone
    requires forall x :: !Child(lists, gone, x)
    requires forall p, x :: Child(lists, p, x) && x in lists && x != gone ==> Child(lists', p, x)
    ensures Reached(lists', root, d)
  {
    hide Child;
    var path: seq<nat> :| Leads(lists, root, path, d);
    forall i | 0 <= i < |path| - 1
      ensures Child(lists', path[i], path[i + 1])
    {
      assert Child(lists, path[i], path[i + 1]);
      if i + 1 < |path| - 1 {
        assert Child(lists, path[i + 1], path[i + 2]);
        ChildInLists(lists, path[i + 1], path[i + 2]);
      }
    }
    assert Leads(lists', root, path, d);
  }

  lemma ChildInLists(lists: Lists, p: nat, c: nat)
    requires Child(lists, p, c)
    ensures p in lists
  {
  }

  lemma ReachedFurther(lists: Lists, root: nat, d: nat, c: nat)
    requires Reached(lists, root, d) && Child(lists, d, c)
    ensures Reached(lists, root, c)
  {
    hide Child;
    var path: seq<nat> :| Leads(lists, root, path, d);
    assert Leads(lists, root, path + [c], c);
  }

  // ---- sizes ----

  /** The entry of a file claims no more bytes than its chain of clusters of `size` bytes has. */
  ghost predicate EntryFits(chains: Forest, e: Dirent, size: nat) {
    IsDots(e.name) || IsDirEntry(e) || FileSize(e.main) <= Mul(|ChainOf(chains, FirstCluster(e.main))|, size)
  }

  ghost predicate SizesFit(chains: Forest, lists: Lists, size: nat) {
    forall d, j: nat :: d in lists && j < |lists[d]| ==> EntryFits(chains, lists[d][j], size)
  }

  /** An entry still fits when its chain was not shortened. */
  lemma StillFits(chains: Forest, chains': Forest, e: Dirent, size: nat)
    requires EntryFits(chains, e, size)
    requires |ChainOf(chains, FirstCluster(e.main))| <= |ChainOf(chains', FirstCluster(e.main))|
    ensures EntryFits(chains', e, size)
  {
    hide FirstCluster, FileSize, Mul, IsDots, IsDirEntry;
    MulMonotone(|ChainOf(chains, FirstCluster(e.main))|, |ChainOf(chains', FirstCluster(e.main))|, size);
  }

  // ---- growing ----

  /** Chains that no entry refers to do not matter. */
  lemma GrowthKeepsTree(chains: Forest, chains': Forest, lists: Lists, root: nat)
    requires TreeOk(chains, lists, root) && 0 !in chains' && forall h :: h in chains ==> h in chains'
    ensures TreeOk(chains', lists, root)
  {
    hide Unique, OneOwner, Refers, IsDirEntry, Reached, DotsPlain;
    forall d: nat
      ensures DirectoryWell(chains', lists, root, d)
    {
      assert DirectoryWell(chains, lists, root, d);
    }
    forall d, j: nat | d in lists && j < |lists[d]|
      ensures RefersWell(chains', lists, root, d, j)
    {
      assert RefersWell(chains, lists, root, d, j);
    }
  }

  /** No chain but `h` has changed, and `h` is a directory's or has not become shorter. */
  ghost predicate OnlyGrew(chains: Forest, chains': Forest, lists: Lists, h: nat) {
    && (forall k :: k in chains && k != h ==> k in chains' && chains'[k] == chains[k])
    && (h in lists || |ChainOf(chains, h)| <= |ChainOf(chains', h)|)
  }

  /** An entry of the listings still fits. */
  lemma EntryStillFits(chains: Forest, chains': Forest, lists: Lists, root: nat, h: nat, size: nat, d: nat, j: nat)
    requires TreeOk(chains, lists, root) && SizesFit(chains, lists, size) && OnlyGrew(chains, chains', lists, h)
    requires d in lists && j < |lists[d]|
    ensures EntryFits(chains', lists[d][j], size)
  {
    hide TreeOk, EntryFits, FirstCluster, IsDots, IsDirEntry;
    var e := lists[d][j];
    var r := FirstCluster(e.main);
    assert EntryFits(chains, e, size);
    if IsDots(e.name) || IsDirEntry(e) {
      FitsAnyway(chains', e, size);
    } else {
      if r != 0 {
        RefIsWell(chains, lists, root, d, j, r);
      } else {
        ZeroNotIn(chains, lists, root);
      }
      StillFits(chains, chains', e, size);
    }
  }

  lemma FitsAnyway(chains: Forest, e: Dirent, size: nat)
    requires IsDots(e.name) || IsDirEntry(e)
    ensures EntryFits(chains, e, size)
  {
  }

  lemma ZeroNotIn(chains: Forest, lists: Lists, root: nat)
    requires TreeOk(chains, lists, root)
    ensures 0 !in chains && ChainOf(chains, 0) == []
  {
  }

  lemma GrowthKeepsSizes(chains: Forest, chains': Forest, lists: Lists, root: nat, h: nat, size: nat)
    requires TreeOk(chains, lists, root) && SizesFit(chains, lists, size) && OnlyGrew(chains, chains', lists, h)
    ensures SizesFit(chains', lists, size)
  {
    hide TreeOk, EntryFits, OnlyGrew;
    forall d, j: nat | d in lists && j < |lists[d]|
      ensures EntryFits(chains', lists[d][j], size)
    {
      EntryStillFits(chains, chains', lists, root, h, size, d, j);
    }
  }

  // ---- making an entry ----

  /** The listings after `e` was put into directory `d` at place `i`; for a directory, the cluster
      of `e` has the listing `inner`. */
  ghost predicate ListsMade(chains: Forest, chains': Forest, lists: Lists, lists': Lists, d: nat, e: Dirent, i: nat, inner: seq<Dirent>) {
    var c := FirstCluster(e.main);
    && d in lists && i <= |lists[d]| && d in lists' && AddedAt(lists[d], lists'[d], e, i) && !IsDots(e.name)
    && (forall h :: h in chains ==> h in chains')
    && (if IsDirEntry(e)
        then c != 0 && c !in chains && c in chains' && lists'.Keys == lists.Keys + {c} && lists'[c] == inner
             && (forall k :: 0 <= k < |inner| ==> IsDots(inner[k].name))
        else c == 0 && lists'.Keys == lists.Keys)
    && (forall x :: x in lists && x != d ==> lists'[x] == lists[x])
  }

  /** Where an entry of the new listings comes from. */
  lemma MadeOrigin(chains: Forest, chains': Forest, lists: Lists, lists': Lists, d: nat, e: Dirent, i: nat, inner: seq<Dirent>,
                   x: nat, k: nat) returns (k0: nat)
    requires ListsMade(chains, chains', lists, lists', d, e, i, inner)
    requires forall h :: h in lists ==> h in chains
    requires x in lists' && k < |lists'[x]| && !IsDots(lists'[x][k].name)
    ensures (x == d && k == i && lists'[x][k] == e)
         || (x in lists && k0 < |lists[x]| && lists'[x][k] == lists[x][k0] && k == if x == d then Moved(k0, i) else k0)
  {
    hide FirstCluster, IsDots, IsDirEntry;
    k0 := 0;
    if x == d {
      var es, es' := lists[d], lists'[d];
      k0 := if k <= i then k else k - 1;
      assert es' == es[..i] + [e] + es[i..];
      assert k < i ==> es'[k] == es[k];
      assert k > i ==> es'[k] == es[k - 1];
    } else {
      k0 := k;
      assert x in lists || x == FirstCluster(e.main);
    }
  }

  /** Where an old entry lies in the new listings. */
  lemma MadeMoves(chains: Forest, chains': Forest, lists: Lists, lists': Lists, d: nat, e: Dirent, i: nat, inner: seq<Dirent>,
                  x: nat, k: nat) returns (k': nat)
    requires ListsMade(chains, chains', lists, lists', d, e, i, inner) && x in lists && k < |lists[x]|
    ensures x in lists' && k' < |lists'[x]| && lists'[x][k'] == lists[x][k] && k' == if x == d then Moved(k, i) else k
  {
    hide FirstCluster, IsDots, IsDirEntry;
    if x == d {
      k' := Moved(k, i);
      assert lists'[d] == lists[d][..i] + [e] + lists[d][i..];
    } else {
      k' := k;
    }
  }

  lemma MakeKeepsTree(chains: Forest, chains': Forest, lists: Lists, lists': Lists, root: nat, d: nat, e: Dirent, i: nat,
                      inner: seq<Dirent>)
    requires TreeOk(chains, lists, root) && ListsMade(chains, chains', lists, lists', d, e, i, inner)
    requires 0 !in chains' && Unique(lists'[d]) && Unique(inner) && DotsPlain(lists'[d]) && DotsPlain(inner)
    ensures TreeOk(chains', lists', root)
  {
    hide FirstCluster, IsDots, IsDirEntry, Unique, DotsPlain, AddedAt, Reached;
    forall x: nat
      ensures DirectoryWell(chains', lists', root, x)
    {
      if x in lists {
        assert DirectoryWell(chains, lists, root, x);
      }
      if x in lists' {
        MakeKeepsReached(chains, chains', lists, lists', root, d, e, i, inner, x);
      }
    }
    forall x, k: nat | x in lists' && k < |lists'[x]|
      ensures RefersWell(chains', lists', root, x, k)
    {
      forall r | Refers(lists', x, k, r) && r != 0
        ensures r in chains' && r != root && r != x && (IsDirEntry(lists'[x][k]) <==> r in lists')
      {
        HeadsOf(chains, lists, root);
        var k0 := MadeOrigin(chains, chains', lists, lists', d, e, i, inner, x, k);
        if x in lists && k0 < |lists[x]| && lists'[x][k] == lists[x][k0] {
          assert Refers(lists, x, k0, r);
          RefIsWell(chains, lists, root, x, k0, r);
        }
      }
    }
    MakeKeepsOwner(chains, chains', lists, lists', root, d, e, i, inner);
  }

  lemma HeadsOf(chains: Forest, lists: Lists, root: nat)
    requires TreeOk(chains, lists, root)
    ensures root in lists && forall h :: h in lists ==> h in chains && h != 0
  {
    forall h | h in lists
      ensures h in chains && h != 0
    {
      TreeFacts(chains, lists, root, h);
    }
  }

  lemma MakeKeepsReached(chains: Forest, chains': Forest, lists: Lists, lists': Lists, root: nat, d: nat, e: Dirent, i: nat,
                         inner: seq<Dirent>, x: nat)
    requires TreeOk(chains, lists, root) && ListsMade(chains, chains', lists, lists', d, e, i, inner) && x in lists'
    ensures Reached(lists', root, x)
  {
    hide FirstCluster, IsDots, IsDirEntry, AddedAt, Reached, TreeOk;
    HeadsOf(chains, lists, root);
    var c := FirstCluster(e.main);
    forall p, y | Child(lists, p, y)
      ensures Child(lists', p, y)
    {
      var k :| Refers(lists, p, k, y);
      var k' := MadeMoves(chains, chains', lists, lists', d, e, i, inner, p, k);
      assert Refers(lists', p, k', y);
    }
    if x in lists {
      TreeFacts(chains, lists, root, x);
      StillReached(lists, lists', root, x, 0);
    } else {
      TreeFacts(chains, lists, root, d);
      StillReached(lists, lists', root, d, 0);
      assert Refers(lists', d, i, c) by {
        AddedIs(lists[d], lists'[d], e, i);
      }
      ReachedFurther(lists', root, d, c);
    }
  }

  lemma AddedIs(es: seq<Dirent>, es': seq<Dirent>, e: Dirent, i: nat)
    requires i <= |es| && AddedAt(es, es', e, i)
    ensures i < |es'| && es'[i] == e
  {
  }

  lemma MakeKeepsOwner(chains: Forest, chains': Forest, lists: Lists, lists': Lists, root: nat, d: nat, e: Dirent, i: nat,
                       inner: seq<Dirent>)
    requires TreeOk(chains, lists, root) && ListsMade(chains, chains', lists, lists', d, e, i, inner)
    ensures OneOwner(lists')
  {
    hide FirstCluster, IsDots, IsDirEntry, AddedAt, Reached, DirectoryWell, RefersWell;
    HeadsOf(chains, lists, root);
    forall x: nat, k: nat, x': nat, k': nat, r: nat | Refers(lists', x, k, r) && Refers(lists', x', k', r) && r != 0
      ensures x == x' && k == k'
    {
      var k0 := MadeOrigin(chains, chains', lists, lists', d, e, i, inner, x, k);
      var k1 := MadeOrigin(chains, chains', lists, lists', d, e, i, inner, x', k');
      if x in lists && k0 < |lists[x]| && lists'[x][k] == lists[x][k0] {
        assert Refers(lists, x, k0, r);
        RefIsWell(chains, lists, root, x, k0, r);
      }
      if x' in lists && k1 < |lists[x']| && lists'[x'][k'] == lists[x'][k1] {
        assert Refers(lists, x', k1, r);
        RefIsWell(chains, lists, root, x', k1, r);
      }
    }
  }

  lemma MakeKeepsSizes(chains: Forest, chains': Forest, lists: Lists, lists': Lists, root: nat, d: nat, e: Dirent, i: nat,
                       inner: seq<Dirent>, size: nat)
    requires TreeOk(chains, lists, root) && ListsMade(chains, chains', lists, lists', d, e, i, inner)
    requires SizesFit(chains, lists, size) && OnlyGrew(chains, chains', lists, d) && FileSize(e.main) == 0
    ensures SizesFit(chains', lists', size)
  {
    hide FirstCluster, FileSize, IsDots, IsDirEntry, AddedAt, TreeOk, EntryFits, OnlyGrew;
    HeadsOf(chains, lists, root);
    forall x, k: nat | x in lists' && k < |lists'[x]|
      ensures EntryFits(chains', lists'[x][k], size)
    {
      if IsDots(lists'[x][k].name) {
        FitsAnyway(chains', lists'[x][k], size);
      } else {
        var k0 := MadeOrigin(chains, chains', lists, lists', d, e, i, inner, x, k);
        if x in lists && k0 < |lists[x]| && lists'[x][k] == lists[x][k0] {
          EntryStillFits(chains, chains', lists, root, d, size, x, k0);
        } else {
          EmptyFits(chains', e, size);
        }
      }
    }
  }

  lemma EmptyFits(chains: Forest, e: Dirent, size: nat)
    requires FileSize(e.main) == 0
    ensures EntryFits(chains, e, size)
  {
    hide Mul, FileSize;
  }

  // ---- removing an entry ----

  /** The listings after entry `j` of directory `d` was removed with its chain; a directory that is
      removed lists nothing but the dot entries. */
  ghost predicate ListsUnmade(chains: Forest, chains': Forest, lists: Lists, lists': Lists, d: nat, j: nat) {
    && d in lists && j < |lists[d]| && !IsDots(lists[d][j].name)
    && var e := lists[d][j];
       var c := FirstCluster(e.main);
       && chains'.Keys == chains.Keys - {c}
       && lists' == (if IsDirEntry(e) && c != 0 then lists - {c} else lists)[d := lists[d][..j] + lists[d][j + 1..]]
       && (IsDirEntry(e) && c in lists ==> forall k :: 0 <= k < |lists[c]| ==> IsDots(lists[c][k].name))
  }

  lemma UnmadeOrigin(chains: Forest, chains': Forest, lists: Lists, lists': Lists, d: nat, j: nat, x: nat, k: nat)
    returns (k0: nat)
    requires ListsUnmade(chains, chains', lists, lists', d, j) && x in lists' && k < |lists'[x]|
    ensures x in lists && k0 < |lists[x]| && lists'[x][k] == lists[x][k0] && (x == d ==> k0 != j)
    ensures k0 == if x == d && k >= j then k + 1 else k
  {
    hide FirstCluster, IsDots, IsDirEntry;
    if x == d {
      var es := lists[d];
      assert lists'[d] == es[..j] + es[j + 1..];
      k0 := if k < j then k else k + 1;
      assert lists'[d][k] == es[k0];
    } else {
      k0 := k;
    }
  }

  /** Where an entry that stays lies in the new listings. */
  lemma UnmadeMoves(chains: Forest, chains': Forest, lists: Lists, lists': Lists, d: nat, j: nat, x: nat, k: nat)
    returns (k': nat)
    requires ListsUnmade(chains, chains', lists, lists', d, j) && x in lists && k < |lists[x]| && (x == d ==> k != j)
    requires IsDirEntry(lists[d][j]) && x == FirstCluster(lists[d][j].main) ==> x == 0 || x == d
    ensures x in lists' && k' < |lists'[x]| && lists'[x][k'] == lists[x][k] && k' == if x == d && k > j then k - 1 else k
  {
    hide FirstCluster, IsDots, IsDirEntry;
    if x == d {
      k' := if k < j then k else k - 1;
      assert lists'[d] == lists[d][..j] + lists[d][j + 1..];
    } else {
      k' := k;
    }
  }

  /** The removed entry owns its chain, if any. */
  lemma RemovedHead(chains: Forest, lists: Lists, root: nat, d: nat, j: nat)
    requires TreeOk(chains, lists, root) && d in lists && j < |lists[d]| && !IsDots(lists[d][j].name)
    ensures var c := FirstCluster(lists[d][j].main);
      c == 0 || (c in chains && c != root && c != d && (IsDirEntry(lists[d][j]) <==> c in lists))
  {
    hide FirstCluster, IsDots, IsDirEntry, TreeOk;
    var c := FirstCluster(lists[d][j].main);
    assert Refers(lists, d, j, c);
    if c != 0 {
      RefIsWell(chains, lists, root, d, j, c);
    }
  }

  lemma RemoveKeepsTree(chains: Forest, chains': Forest, lists: Lists, lists': Lists, root: nat, d: nat, j: nat)
    requires TreeOk(chains, lists, root) && ListsUnmade(chains, chains', lists, lists', d, j)
    ensures TreeOk(chains', lists', root)
  {
    hide FirstCluster, IsDots, IsDirEntry, Unique, DotsPlain, SameName, Reached, TreeOk;
    RemovedHead(chains, lists, root, d, j);
    HeadsOf(chains, lists, root);
    ZeroNotIn(chains, lists, root);
    forall x: nat
      ensures DirectoryWell(chains', lists', root, x)
    {
      if x in lists' {
        RemoveKeepsDirectory(chains, chains', lists, lists', root, d, j, x);
      }
    }
    forall x, k: nat | x in lists' && k < |lists'[x]|
      ensures RefersWell(chains', lists', root, x, k)
    {
      forall r | Refers(lists', x, k, r) && r != 0
        ensures r in chains' && r != root && r != x && (IsDirEntry(lists'[x][k]) <==> r in lists')
      {
        var k0 := UnmadeOrigin(chains, chains', lists, lists', d, j, x, k);
        assert Refers(lists, x, k0, r);
        RefIsWell(chains, lists, root, x, k0, r);
        OtherOwner(chains, lists, root, d, j, x, k0, r);
      }
    }
    forall x: nat, k: nat, x': nat, k': nat, r: nat | Refers(lists', x, k, r) && Refers(lists', x', k', r) && r != 0
      ensures x == x' && k == k'
    {
      var k0 := UnmadeOrigin(chains, chains', lists, lists', d, j, x, k);
      var k1 := UnmadeOrigin(chains, chains', lists, lists', d, j, x', k');
      assert Refers(lists, x, k0, r) && Refers(lists, x', k1, r);
      SameOwner(chains, lists, root, x, k0, x', k1, r);
    }
    assert TreeOk(chains', lists', root) by {
      TreeFrom(chains', lists', root);
    }
  }

  lemma TreeFrom(chains: Forest, lists: Lists, root: nat)
    requires root in lists && 0 !in chains && forall d: nat :: DirectoryWell(chains, lists, root, d)
    requires forall d, j: nat :: d in lists && j < |lists[d]| ==> RefersWell(chains, lists, root, d, j)
    requires OneOwner(lists)
    ensures TreeOk(chains, lists, root)
  {
    hide DirectoryWell, RefersWell, OneOwner;
  }

  lemma SameOwner(chains: Forest, lists: Lists, root: nat, d: nat, j: nat, d': nat, j': nat, r: nat)
    requires TreeOk(chains, lists, root) && Refers(lists, d, j, r) && Refers(lists, d', j', r) && r != 0
    ensures d == d' && j == j'
  {
    hide Refers, DirectoryWell, RefersWell;
  }

  lemma OtherOwner(chains: Forest, lists: Lists, root: nat, d: nat, j: nat, x: nat, k: nat, r: nat)
    requires TreeOk(chains, lists, root) && d in lists && j < |lists[d]| && !IsDots(lists[d][j].name)
    requires Refers(lists, x, k, r) && r != 0 && (x != d || k != j)
    ensures r != FirstCluster(lists[d][j].main)
  {
    hide FirstCluster, IsDots, TreeOk;
    if r == FirstCluster(lists[d][j].main) {
      assert Refers(lists, d, j, r);
      SameOwner(chains, lists, root, d, j, x, k, r);
    }
  }

  lemma RemoveKeepsDirectory(chains: Forest, chains': Forest, lists: Lists, lists': Lists, root: nat, d: nat, j: nat, x: nat)
    requires TreeOk(chains, lists, root) && ListsUnmade(chains, chains', lists, lists', d, j) && x in lists'
    ensures x in chains' && Unique(lists'[x]) && DotsPlain(lists'[x]) && Reached(lists', root, x)
  {
    hide FirstCluster, IsDots, IsDirEntry, Unique, DotsPlain, Reached, TreeOk;
    RemovedHead(chains, lists, root, d, j);
    HeadsOf(chains, lists, root);
    TreeFacts(chains, lists, root, x);
    if x == d {
      RemoveUnique(lists[d], j);
      RemoveDots(lists[d], j);
    }
    var c := FirstCluster(lists[d][j].main);
    var gone := if IsDirEntry(lists[d][j]) then c else 0;
    forall y
      ensures !Child(lists, gone, y)
    {
    }
    forall p, y | Child(lists, p, y) && y in lists && y != gone
      ensures Child(lists', p, y)
    {
      var k :| Refers(lists, p, k, y);
      RefIsWell(chains, lists, root, p, k, y);
      var k' := UnmadeMoves(chains, chains', lists, lists', d, j, p, k);
      assert Refers(lists', p, k', y);
    }
    StillReached(lists, lists', root, x, gone);
  }

  lemma RemoveKeepsSizes(chains: Forest, chains': Forest, lists: Lists, lists': Lists, root: nat, d: nat, j: nat, size: nat)
    requires TreeOk(chains, lists, root) && ListsUnmade(chains, chains', lists, lists', d, j) && SizesFit(chains, lists, size)
    requires forall k :: k in chains' ==> chains'[k] == chains[k]
    ensures SizesFit(chains', lists', size)
  {
    hide FirstCluster, IsDots, IsDirEntry, TreeOk, EntryFits;
    forall x, k: nat | x in lists' && k < |lists'[x]|
      ensures EntryFits(chains', lists'[x][k], size)
    {
      var k0 := UnmadeOrigin(chains, chains', lists, lists', d, j, x, k);
      var e := lists[x][k0];
      assert EntryFits(chains, e, size);
      if IsDots(e.name) || IsDirEntry(e) {
        FitsAnyway(chains', e, size);
      } else {
        var r := FirstCluster(e.main);
        assert Refers(lists, x, k0, r);
        if r != 0 {
          RefIsWell(chains, lists, root, x, k0, r);
          OtherOwner(chains, lists, root, d, j, x, k0, r);
        } else {
          ZeroNotIn(chains, lists, root);
        }
        StillFits(chains, chains', e, size);
      }
    }
  }

  // ---- updating an entry ----

  /** No entry but number `j` of directory `d` refers to chain `c`, and it is no directory's. */
  ghost predicate Private(lists: Lists, d: nat, j: nat, c: nat) {
    c !in lists && forall d', j' :: Refers(lists, d', j', c) ==> d' == d && j' == j
  }

  /** The listings with the 8.3 slot of one entry replaced. */
  ghost function Adopted(lists: Lists, d: nat, j: nat, u: Slot): Lists
    requires d in lists && j < |lists[d]|
  {
    lists[d := lists[d][j := lists[d][j].(main := u)]]
  }

  /** The entry of a file takes over the file's chain; the chain `h` that the file had may be gone. */
  ghost predicate Adopts(chains: Forest, chains': Forest, lists: Lists, d: nat, j: nat, h: nat, u: Slot) {
    && d in lists && j < |lists[d]| && !IsDirEntry(lists[d][j]) && !Bit(Attr(u), DIRECTORY)
    && u[0] == lists[d][j].main[0] && (h == 0 || Private(lists, d, j, h))
    && 0 !in chains' && (forall k :: k in chains && k != h ==> k in chains' && chains'[k] == chains[k])
    && (FirstCluster(u) == 0 || (FirstCluster(u) in chains' && Private(lists, d, j, FirstCluster(u))))
  }

  lemma AdoptKeepsTree(chains: Forest, chains': Forest, lists: Lists, root: nat, d: nat, j: nat, h: nat, u: Slot)
    requires TreeOk(chains, lists, root) && Adopts(chains, chains', lists, d, j, h, u)
    ensures TreeOk(chains', Adopted(lists, d, j, u), root)
  {
    hide FirstCluster, IsDots, Unique, DotsPlain, Attr, Bit, Reached, TreeOk;
    var lists' := Adopted(lists, d, j, u);
    HeadsOf(chains, lists, root);
    forall x: nat
      ensures DirectoryWell(chains', lists', root, x)
    {
      if x in lists' {
        AdoptKeepsDirectory(chains, chains', lists, root, d, j, h, u, x);
      }
    }
    forall x, k: nat | x in lists' && k < |lists'[x]|
      ensures RefersWell(chains', lists', root, x, k)
    {
      forall r | Refers(lists', x, k, r) && r != 0
        ensures r in chains' && r != root && r != x && (IsDirEntry(lists'[x][k]) <==> r in lists')
      {
        if x != d || k != j {
          assert Refers(lists, x, k, r);
          RefIsWell(chains, lists, root, x, k, r);
        }
      }
    }
    forall x: nat, k: nat, x': nat, k': nat, r: nat | Refers(lists', x, k, r) && Refers(lists', x', k', r) && r != 0
      ensures x == x' && k == k'
    {
      assert (x != d || k != j) ==> Refers(lists, x, k, r);
      assert (x' != d || k' != j) ==> Refers(lists, x', k', r);
      if (x != d || k != j) && (x' != d || k' != j) {
        SameOwner(chains, lists, root, x, k, x', k', r);
      }
    }
    TreeFrom(chains', lists', root);
  }

  lemma AdoptKeepsDirectory(chains: Forest, chains': Forest, lists: Lists, root: nat, d: nat, j: nat, h: nat, u: Slot, x: nat)
    requires TreeOk(chains, lists, root) && Adopts(chains, chains', lists, d, j, h, u) && x in lists
    ensures var lists' := Adopted(lists, d, j, u);
      x in chains' && Unique(lists'[x]) && DotsPlain(lists'[x]) && Reached(lists', root, x)
  {
    hide FirstCluster, IsDots, Unique, Attr, Bit, Reached, TreeOk;
    var lists' := Adopted(lists, d, j, u);
    HeadsOf(chains, lists, root);
    TreeFacts(chains, lists, root, x);
    if x == d {
      UpdateKeepsNames(lists[d], j, u);
    }
    forall p, y | Child(lists, p, y) && y in lists
      ensures Child(lists', p, y)
    {
      var k :| Refers(lists, p, k, y);
      RefIsWell(chains, lists, root, p, k, y);
      assert Refers(lists', p, k, y);
    }
    StillReached(lists, lists', root, x, 0);
  }

  lemma AdoptKeepsSizes(chains: Forest, chains': Forest, lists: Lists, root: nat, d: nat, j: nat, h: nat, u: Slot, size: nat)
    requires TreeOk(chains, lists, root) && Adopts(chains, chains', lists, d, j, h, u) && SizesFit(chains, lists, size)
    requires FileSize(u) <= Mul(|ChainOf(chains', FirstCluster(u))|, size)
    ensures SizesFit(chains', Adopted(lists, d, j, u), size)
  {
    hide FirstCluster, FileSize, IsDots, Attr, Bit, TreeOk, Mul;
    var lists' := Adopted(lists, d, j, u);
    forall x, k: nat | x in lists' && k < |lists'[x]|
      ensures EntryFits(chains', lists'[x][k], size)
    {
      if x != d || k != j {
        var e := lists[x][k];
        assert lists'[x][k] == e && EntryFits(chains, e, size);
        if !IsDots(e.name) && !IsDirEntry(e) {
          var r := FirstCluster(e.main);
          assert Refers(lists, x, k, r);
          if r != 0 {
            RefIsWell(chains, lists, root, x, k, r);
          } else {
            ZeroNotIn(chains, lists, root);
          }
          StillFits(chains, chains', e, size);
        }
      }
    }
  }
}
