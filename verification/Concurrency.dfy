/** Threads that share the FAT.  `fat32_next_cluster` looks at an entry under the access lock and,
    at the end of a chain, allocates and links later under the update lock (fat32_cls.c); in
    between other threads may run.  Every thread works on a file whose vnode lock it holds. */
module Concurrency {
  import opened Layout
  import opened Volumes
  import opened Chains
  import opened Clusters

  type Thread = nat
  type File = nat

  /** Where a thread is: without a file, holding a file's lock, at a cluster of its chain, or
      having seen the end mark at a cluster. */
  datatype Pc = Idle | Holding(file: File) | Seeking(file: File, at: nat) | Ended(file: File, at: nat)

  /** `heads` gives the first cluster that each vnode knows, 0 for none. */
  datatype State = State(fat: seq<nat>, chains: Forest, heads: map<File, nat>, pcs: map<Thread, Pc>)

  /** The atomic steps: those on the FAT run under the lock of the mount. */
  datatype Action =
    | Acquire(t: Thread, f: File)
    | Release(t: Thread)
    | Begin(t: Thread)
    | Look(t: Thread)
    | Stop(t: Thread)
    | Birth(t: Thread, c: nat)
    | Link(t: Thread, c: nat)
    | Cut(t: Thread, n: nat)
    | FreeAllOf(t: Thread)

  predicate Holds(s: State, t: Thread, f: File) {
    t in s.pcs && s.pcs[t] != Idle && s.pcs[t].file == f
  }

  predicate FreeEntry(s: State, c: nat) {
    In(s.fat, c) && s.fat[c] == FREE
  }

  /** What a thread learns by looking at the entry of the cluster it is at. */
  function Looked(s: State, f: File, at: nat): Pc {
    var (e, n) := ReadNext(s.fat, at);
    if e == OK then Seeking(f, n) else if e == ENOSPC then Ended(f, at) else Holding(f)
  }

  /** Linking is what `fat32_allocate_cluster` does with a parent; it does not look at the parent
      again. */
  ghost predicate Next(s: State, a: Action, s': State) {
    match a
    case Acquire(t, f) =>
      && t in s.pcs && s.pcs[t] == Idle && f in s.heads && (forall u :: u in s.pcs ==> !Holds(s, u, f))
      && s' == s.(pcs := s.pcs[t := Holding(f)])
    case Release(t) =>
      t in s.pcs && s.pcs[t] != Idle && s' == s.(pcs := s.pcs[t := Idle])
    case Begin(t) =>
      && t in s.pcs && s.pcs[t].Holding? && s.pcs[t].file in s.heads && s.heads[s.pcs[t].file] != 0
      && s' == s.(pcs := s.pcs[t := Seeking(s.pcs[t].file, s.heads[s.pcs[t].file])])
    case Look(t) =>
      && t in s.pcs && s.pcs[t].Seeking?
      && s' == s.(pcs := s.pcs[t := Looked(s, s.pcs[t].file, s.pcs[t].at)])
    case Stop(t) =>
      t in s.pcs && s.pcs[t].Seeking? && s' == s.(pcs := s.pcs[t := Holding(s.pcs[t].file)])
    case Birth(t, c) =>
      && t in s.pcs && s.pcs[t].Holding? && s.pcs[t].file in s.heads && s.heads[s.pcs[t].file] == 0 && FreeEntry(s, c)
      && s' == s.(fat := Linked(s.fat, 0, c), chains := s.chains[c := [c]], heads := s.heads[s.pcs[t].file := c])
    case Link(t, c) =>
      && t in s.pcs && s.pcs[t].Ended? && FreeEntry(s, c) && In(s.fat, s.pcs[t].at)
      && s.pcs[t].file in s.heads && s.heads[s.pcs[t].file] in s.chains
      && var h := s.heads[s.pcs[t].file];
         s' == s.(fat := Linked(s.fat, s.pcs[t].at, c), chains := s.chains[h := s.chains[h] + [c]],
                  pcs := s.pcs[t := Seeking(s.pcs[t].file, c)])
    case Cut(t, n) =>
      && t in s.pcs && s.pcs[t].Holding? && s.pcs[t].file in s.heads && s.heads[s.pcs[t].file] in s.chains
      && var h := s.heads[s.pcs[t].file];
         && 0 < n <= |s.chains[h]| && In(s.fat, s.chains[h][n - 1])
         && s' == s.(fat := FreeEffect(s.fat, s.chains[h][n - 1], false).fat, chains := s.chains[h := s.chains[h][..n]])
    case FreeAllOf(t) =>
      && t in s.pcs && s.pcs[t].Holding? && s.pcs[t].file in s.heads
      && var h := s.heads[s.pcs[t].file];
         && h in s.chains && In(s.fat, h)
         && s' == s.(fat := FreeEffect(s.fat, h, true).fat, chains := s.chains - {h}, heads := s.heads[s.pcs[t].file := 0])
  }

  // ---- the invariant ----

  /** Every vnode knows an empty or an existing chain, and no chain is known to two vnodes. */
  ghost predicate OneVnodePerChain(s: State) {
    && (forall f :: f in s.heads ==> s.heads[f] == 0 || s.heads[f] in s.chains)
    && (forall f, g :: f in s.heads && g in s.heads && f != g && s.heads[f] != 0 ==> s.heads[f] != s.heads[g])
  }

  /** No file is locked by two threads. */
  ghost predicate Exclusive(s: State) {
    forall t, u, f :: Holds(s, t, f) && Holds(s, u, f) ==> t == u
  }

  /** A thread in the middle of an operation is on the chain of its file; if it has seen the end
      mark, it still is at the end. */
  ghost predicate Placed(s: State, t: Thread) {
    t in s.pcs && s.pcs[t] != Idle ==>
      && s.pcs[t].file in s.heads
      && (!s.pcs[t].Holding? ==>
            var h := s.heads[s.pcs[t].file];
            && h in s.chains && |s.chains[h]| > 0
            && (s.pcs[t].Seeking? ==> s.pcs[t].at in s.chains[h])
            && (s.pcs[t].Ended? ==> s.pcs[t].at == Last(s.chains[h])))
  }

  ghost predicate Safe(s: State) {
    && WellFormed(s.fat, s.chains) && 0 !in s.chains && OneVnodePerChain(s) && Exclusive(s)
    && forall t :: Placed(s, t)
  }

  /** The chains of other files are as before. */
  ghost predicate OthersSame(s: State, s': State, f: File) {
    && s'.heads.Keys == s.heads.Keys
    && forall g :: g in s.heads && g != f ==>
         && s'.heads[g] == s.heads[g]
         && (s.heads[g] in s.chains ==> s.heads[g] in s'.chains && s'.chains[s.heads[g]] == s.chains[s.heads[g]])
  }

  /** A step of thread `t` on its file leaves the other threads where they are. */
  lemma OthersPlaced(s: State, s': State, t: Thread, f: File, u: Thread)
    requires Exclusive(s) && Holds(s, t, f) && u != t && Placed(s, u)
    requires OthersSame(s, s', f) && t in s'.pcs && s'.pcs == s.pcs[t := s'.pcs[t]]
    ensures Placed(s', u)
  {
    if u in s.pcs && s.pcs[u] != Idle {
      assert Holds(s, u, s.pcs[u].file);
    }
  }

  lemma StillExclusive(s: State, s': State, t: Thread, f: File)
    requires Exclusive(s) && Holds(s, t, f) && t in s'.pcs && s'.pcs == s.pcs[t := s'.pcs[t]]
    requires s'.pcs[t] == Idle || s'.pcs[t].file == f
    ensures Exclusive(s')
  {
    forall a, b, g | Holds(s', a, g) && Holds(s', b, g)
      ensures a == b
    {
      assert a != t ==> Holds(s, a, g);
      assert b != t ==> Holds(s, b, g);
      assert a == t || b == t ==> g == f;
    }
  }

  // ---- one step ----

  lemma AcquireKeeps(s: State, t: Thread, f: File, s': State)
    requires Safe(s) && Next(s, Acquire(t, f), s')
    ensures Safe(s')
  {
    hide WellFormed;
    forall u
      ensures Placed(s', u)
    {
      assert Placed(s, u);
    }
    forall a, b, g | Holds(s', a, g) && Holds(s', b, g)
      ensures a == b
    {
      assert a != t ==> Holds(s, a, g);
      assert b != t ==> Holds(s, b, g);
    }
  }

  lemma LocalKeeps(s: State, a: Action, s': State)
    requires Safe(s) && Next(s, a, s') && (a.Release? || a.Begin? || a.Look? || a.Stop?)
    ensures Safe(s')
  {
    hide WellFormed, ReadNext;
    var t := a.t;
    var f := s.pcs[t].file;
    assert Holds(s, t, f) && Placed(s, t);
    StillExclusive(s, s', t, f);
    if a.Begin? || a.Look? {
      var h := s.heads[f];
      ForestChain(s.fat, s.chains, h);
      if a.Look? {
        LookStays(s, f, s.pcs[t].at);
      }
    }
    forall u
      ensures Placed(s', u)
    {
      if u != t {
        assert Placed(s, u);
        OthersPlaced(s, s', t, f, u);
      }
    }
  }

  /** A thread that holds the lock of its file never meets a broken link. */
  lemma LookStays(s: State, f: File, at: nat)
    requires WellFormed(s.fat, s.chains) && f in s.heads && s.heads[f] in s.chains && at in s.chains[s.heads[f]]
    ensures var chain := s.chains[s.heads[f]];
      && |chain| > 0 && ReadNext(s.fat, at).0 in {OK, ENOSPC}
      && (ReadNext(s.fat, at).0 == OK ==> ReadNext(s.fat, at).1 in chain)
      && (ReadNext(s.fat, at).0 == ENOSPC <==> at == Last(chain))
  {
    hide WellFormed;
    var h := s.heads[f];
    ForestChain(s.fat, s.chains, h);
    var i :| 0 <= i < |s.chains[h]| && s.chains[h][i] == at;
    OwnedIsUsed(s.fat, s.chains[h], i);
    if i + 1 < |s.chains[h]| {
      assert s.fat[at] == s.chains[h][i + 1] && In(s.fat, s.chains[h][i + 1]);
    }
  }

  lemma BirthKeeps(s: State, t: Thread, c: nat, s': State)
    requires Safe(s) && Next(s, Birth(t, c), s')
    ensures Safe(s')
  {
    hide WellFormed;
    var f := s.pcs[t].file;
    assert Holds(s, t, f) && Placed(s, t);
    FreeIsUnowned(s.fat, s.chains, c);
    BirthKeepsForest(s.fat, s.chains, c);
    StillExclusive(s, s', t, f);
    forall u
      ensures Placed(s', u)
    {
      assert Placed(s, u);
      if u != t {
        OthersPlaced(s, s', t, f, u);
      }
    }
  }

  /** The cluster to be linked is on no chain, and its parent still carries the end mark. */
  ghost predicate LinksAtEnd(s: State, t: Thread, c: nat) {
    && t in s.pcs && s.pcs[t].Ended? && In(s.fat, s.pcs[t].at)
    && s.fat[s.pcs[t].at] >= EOC_MIN && !IsOwned(s.chains, c)
  }

  lemma LinkIsSafe(s: State, t: Thread, c: nat, s': State)
    requires Safe(s) && Next(s, Link(t, c), s')
    ensures LinksAtEnd(s, t, c)
  {
    hide WellFormed, IsOwned;
    assert Placed(s, t);
    var h := s.heads[s.pcs[t].file];
    ForestChain(s.fat, s.chains, h);
    OwnedIsUsed(s.fat, s.chains[h], |s.chains[h]| - 1);
    FreeIsUnowned(s.fat, s.chains, c);
  }

  lemma LinkKeeps(s: State, t: Thread, c: nat, s': State)
    requires Safe(s) && Next(s, Link(t, c), s')
    ensures Safe(s')
  {
    hide WellFormed;
    var f := s.pcs[t].file;
    assert Holds(s, t, f) && Placed(s, t);
    LinkKeepsForest(s.fat, s.chains, s.heads[f], c);
    StillExclusive(s, s', t, f);
    forall u
      ensures Placed(s', u)
    {
      assert Placed(s, u);
      if u != t {
        OthersPlaced(s, s', t, f, u);
      }
    }
  }

  lemma CutKeeps(s: State, t: Thread, n: nat, s': State)
    requires Safe(s) && Next(s, Cut(t, n), s')
    ensures Safe(s')
  {
    hide WellFormed, FreeEffect, CutAt;
    var f := s.pcs[t].file;
    var h := s.heads[f];
    assert Holds(s, t, f) && Placed(s, t);
    ForestChain(s.fat, s.chains, h);
    CutEffect(s.fat, s.chains[h], n);
    CutKeepsForest(s.fat, s.chains, h, n);
    StillExclusive(s, s', t, f);
    forall u
      ensures Placed(s', u)
    {
      assert Placed(s, u);
      if u != t {
        OthersPlaced(s, s', t, f, u);
      }
    }
  }

  lemma FreeKeeps(s: State, t: Thread, s': State)
    requires Safe(s) && Next(s, FreeAllOf(t), s')
    ensures Safe(s')
  {
    hide WellFormed, FreeEffect, FreeAll;
    var f := s.pcs[t].file;
    var h := s.heads[f];
    assert Holds(s, t, f) && Placed(s, t);
    FreeWholeChain(s.fat, s.chains, h);
    StillExclusive(s, s', t, f);
    forall u
      ensures Placed(s', u)
    {
      assert Placed(s, u);
      if u != t {
        OthersPlaced(s, s', t, f, u);
      }
    }
  }

  lemma StepKeepsSafe(s: State, a: Action, s': State)
    requires Safe(s) && Next(s, a, s')
    ensures Safe(s')
  {
    hide Safe, Next;
    match a
    case Acquire(t, f) => AcquireKeeps(s, t, f, s');
    case Release(t) => LocalKeeps(s, a, s');
    case Begin(t) => LocalKeeps(s, a, s');
    case Look(t) => LocalKeeps(s, a, s');
    case Stop(t) => LocalKeeps(s, a, s');
    case Birth(t, c) => BirthKeeps(s, t, c, s');
    case Link(t, c) => LinkKeeps(s, t, c, s');
    case Cut(t, n) => CutKeeps(s, t, n, s');
    case FreeAllOf(t) => FreeKeeps(s, t, s');
  }

  // ---- runs ----

  ghost predicate Run(states: seq<State>, actions: seq<Action>) {
    && |states| == |actions| + 1
    && forall i :: 0 <= i < |actions| ==> Next(states[i], actions[i], states[i + 1])
  }

  /** However the steps of the threads are interleaved: the forest stays well formed, no cluster is
      given to two chains, and no link is overwritten. */
  lemma {:induction false} RunIsSafe(states: seq<State>, actions: seq<Action>)
    requires Run(states, actions) && Safe(states[0])
    ensures forall i :: 0 <= i < |states| ==> Safe(states[i])
    ensures forall i :: 0 <= i < |actions| && actions[i].Link? ==> LinksAtEnd(states[i], actions[i].t, actions[i].c)
    decreases |actions|
  {
    hide Safe, LinksAtEnd, Next;
    if actions != [] {
      var n := |actions| - 1;
      var s0, a0 := states[..n + 1], actions[..n];
      assert forall i :: 0 <= i < n ==> Next(s0[i], a0[i], s0[i + 1]);
      RunIsSafe(s0, a0);
      assert s0[n] == states[n] && Next(states[n], actions[n], states[n + 1]);
      StepKeepsSafe(states[n], actions[n], states[n + 1]);
      if actions[n].Link? {
        LinkIsSafe(states[n], actions[n].t, actions[n].c, states[n + 1]);
      }
      forall i | 0 <= i < |states|
        ensures Safe(states[i])
      {
        assert i <= n ==> states[i] == s0[i];
      }
    }
  }

  // ---- two vnodes for one chain ----

  /** Some run leads from `s` to `s'`. */
  ghost predicate Reaches(s: State, s': State) {
    exists states: seq<State>, actions: seq<Action> :: Run(states, actions) && states[0] == s && states[|actions|] == s'
  }

  lemma ReachesSelf(s: State)
    ensures Reaches(s, s)
  {
    var states, actions: seq<Action> := [s], [];
    assert Run(states, actions) && states[|actions|] == s;
  }

  lemma ReachesMore(s: State, s1: State, a: Action, s2: State)
    requires Reaches(s, s1) && Next(s1, a, s2)
    ensures Reaches(s, s2)
  {
    hide Next;
    var states: seq<State>, actions: seq<Action> :| Run(states, actions) && states[0] == s && states[|actions|] == s1;
    var states', actions' := states + [s2], actions + [a];
    forall i | 0 <= i < |actions'|
      ensures Next(states'[i], actions'[i], states'[i + 1])
    {
      if i < |actions| {
        assert Next(states[i], actions[i], states[i + 1]);
      }
    }
    assert Run(states', actions') && states'[|actions'|] == s2;
  }

  /** Where thread `t` is moved to. */
  function Moved(s: State, t: Thread, pc: Pc): State {
    s.(pcs := s.pcs[t := pc])
  }

  /** From any cluster of the chain a thread can look its way to the end. */
  lemma {:induction false} WalkToEnd(s0: State, s: State, t: Thread, f: File, h: nat, i: nat)
    requires WellFormed(s.fat, s.chains) && h in s.chains && i < |s.chains[h]| && t in s.pcs
    requires Reaches(s0, Moved(s, t, Seeking(f, s.chains[h][i])))
    ensures |s.chains[h]| > 0 && Reaches(s0, Moved(s, t, Ended(f, Last(s.chains[h]))))
    decreases |s.chains[h]| - i
  {
    hide WellFormed, Reaches;
    ForestChain(s.fat, s.chains, h);
    var chain := s.chains[h];
    var here := Moved(s, t, Seeking(f, chain[i]));
    OwnedIsUsed(s.fat, chain, i);
    if i + 1 < |chain| {
      assert s.fat[chain[i]] == chain[i + 1] && In(s.fat, chain[i + 1]);
      var there := Moved(s, t, Seeking(f, chain[i + 1]));
      assert there.pcs == here.pcs[t := Seeking(f, chain[i + 1])];
      ReachesMore(s0, here, Look(t), there);
      WalkToEnd(s0, s, t, f, h, i + 1);
    } else {
      var there := Moved(s, t, Ended(f, chain[i]));
      assert there.pcs == here.pcs[t := Ended(f, chain[i])];
      ReachesMore(s0, here, Look(t), there);
    }
  }

  /** An idle thread can take a file that nobody holds and see the end of its chain. */
  lemma GoToEnd(s0: State, s: State, t: Thread, f: File)
    requires WellFormed(s.fat, s.chains) && 0 !in s.chains && f in s.heads && s.heads[f] in s.chains
    requires Reaches(s0, s) && t in s.pcs && s.pcs[t] == Idle && forall u :: !Holds(s, u, f)
    ensures var chain := s.chains[s.heads[f]]; |chain| > 0 && Reaches(s0, Moved(s, t, Ended(f, Last(chain))))
  {
    hide WellFormed, Reaches;
    var h := s.heads[f];
    ForestChain(s.fat, s.chains, h);
    var s1, s2 := Moved(s, t, Holding(f)), Moved(s, t, Seeking(f, h));
    ReachesMore(s0, s, Acquire(t, f), s1);
    assert s2.pcs == s1.pcs[t := Seeking(f, h)];
    ReachesMore(s0, s1, Begin(t), s2);
    WalkToEnd(s0, s, t, f, h, 0);
  }

  /** A quiet state with two free clusters and two threads to run. */
  ghost predicate Quiet(s: State, t: Thread, u: Thread, a: nat, b: nat) {
    && WellFormed(s.fat, s.chains) && 0 !in s.chains && (forall f :: f in s.heads ==> s.heads[f] == 0 || s.heads[f] in s.chains)
    && (forall x :: x in s.pcs ==> s.pcs[x] == Idle) && t in s.pcs && u in s.pcs && t != u
    && FreeEntry(s, a) && FreeEntry(s, b) && a != b
  }

  /** The two links: both threads have seen the end mark at the last cluster of the chain. */
  lemma SecondLink(s: State, t: Thread, u: Thread, f: File, g: File, a: nat, b: nat) returns (s1: State, s2: State)
    requires WellFormed(s.fat, s.chains) && FreeEntry(s, a) && FreeEntry(s, b) && a != b && t != u
    requires f in s.heads && g in s.heads && s.heads[f] == s.heads[g] && s.heads[f] in s.chains
    requires |s.chains[s.heads[f]]| > 0 && t in s.pcs && u in s.pcs
    requires s.pcs[t] == Ended(f, Last(s.chains[s.heads[f]])) && s.pcs[u] == Ended(g, Last(s.chains[s.heads[f]]))
    ensures Next(s, Link(t, a), s1) && Next(s1, Link(u, b), s2) && !LinksAtEnd(s1, u, b)
    ensures IsChain(s2.fat, s.chains[s.heads[f]] + [b]) && In(s2.fat, a) && s2.fat[a] == EOC
    ensures a !in s.chains[s.heads[f]] + [b]
  {
    hide WellFormed;
    var h := s.heads[f];
    var chain := s.chains[h];
    var p := Last(chain);
    ForestChain(s.fat, s.chains, h);
    OwnedIsUsed(s.fat, chain, |chain| - 1);
    FreeIsUnowned(s.fat, s.chains, a);
    FreeIsUnowned(s.fat, s.chains, b);
    s1 := s.(fat := Linked(s.fat, p, a), chains := s.chains[h := chain + [a]], pcs := s.pcs[t := Seeking(f, a)]);
    s2 := s1.(fat := Linked(s1.fat, p, b), chains := s1.chains[h := chain + [a] + [b]], pcs := s1.pcs[u := Seeking(g, b)]);
    assert s1.fat[p] == a;
    LinkedChain(s.fat, chain, b);
    ChainElsewhere(s.fat[b := EOC][p := b], chain + [b], a, EOC);
    assert s2.fat == s.fat[b := EOC][p := b][a := EOC];
  }

  /** When two vnodes know the same chain, as two lookups of the same file give, some run overwrites
      a link: the lock of one vnode does not keep a thread that holds the other one away.  Cluster
      `a` is then marked as used but no longer on the chain. */
  lemma SharedChainBreaks(s: State, t: Thread, u: Thread, f: File, g: File, a: nat, b: nat) returns (s1: State, s2: State)
    requires Quiet(s, t, u, a, b) && f in s.heads && g in s.heads && f != g && s.heads[f] == s.heads[g] != 0
    ensures Reaches(s, s1) && Next(s1, Link(u, b), s2) && !LinksAtEnd(s1, u, b)
    ensures IsChain(s2.fat, s.chains[s.heads[f]] + [b]) && In(s2.fat, a) && s2.fat[a] != FREE && a !in s.chains[s.heads[f]] + [b]
  {
    hide WellFormed, Reaches, LinksAtEnd;
    var h := s.heads[f];
    ForestChain(s.fat, s.chains, h);
    var p := Last(s.chains[h]);
    ReachesSelf(s);
    GoToEnd(s, s, t, f);
    var one := Moved(s, t, Ended(f, p));
    GoToEnd(s, one, u, g);
    var two := Moved(one, u, Ended(g, p));
    s1, s2 := SecondLink(two, t, u, f, g, a, b);
    ReachesMore(s, two, Link(t, a), s1);
  }

  /** In no run from `s` is a link overwritten or a cluster given to two chains. */
  ghost predicate LinksSafely(s: State) {
    forall s1, t, c, s2 :: Reaches(s, s1) && Next(s1, Link(t, c), s2) ==> LinksAtEnd(s1, t, c)
  }

  /** The vnode locks protect the chains exactly if no chain is known to two vnodes. */
  lemma OneVnodeExact(s: State, t: Thread, u: Thread, a: nat, b: nat)
    requires Quiet(s, t, u, a, b)
    ensures LinksSafely(s) <==> OneVnodePerChain(s)
  {
    hide WellFormed, LinksAtEnd, Reaches, Next;
    if OneVnodePerChain(s) {
      QuietIsSafe(s, t, u, a, b);
      forall s1, x, c, s2 | Reaches(s, s1) && Next(s1, Link(x, c), s2)
        ensures LinksAtEnd(s1, x, c)
      {
        SafeIsReached(s, s1);
        LinkIsSafe(s1, x, c, s2);
      }
    } else {
      var f, g :| f in s.heads && g in s.heads && f != g && s.heads[f] != 0 && s.heads[f] == s.heads[g];
      var s1, s2 := SharedChainBreaks(s, t, u, f, g, a, b);
    }
  }

  lemma QuietIsSafe(s: State, t: Thread, u: Thread, a: nat, b: nat)
    requires Quiet(s, t, u, a, b) && OneVnodePerChain(s)
    ensures Safe(s)
  {
    hide WellFormed;
  }

  lemma SafeIsReached(s: State, s': State)
    requires Safe(s) && Reaches(s, s')
    ensures Safe(s')
  {
    hide Safe, Next;
    var states: seq<State>, actions: seq<Action> :| Run(states, actions) && states[0] == s && states[|actions|] == s';
    RunIsSafe(states, actions);
  }

  /** Two vnodes that know the chain of cluster 2; clusters 3 and 4 are free. */
  function SharedState(): State {
    State([0, 0, EOC, FREE, FREE], map[2 := [2]], map[0 := 2, 1 := 2], map[0 := Idle, 1 := Idle])
  }

  /** Such a state can come about, and then cluster 3 is lost to the file. */
  lemma TwoVnodesLoseCluster() returns (s1: State, s2: State)
    ensures Quiet(SharedState(), 0, 1, 3, 4) && !LinksSafely(SharedState())
    ensures Reaches(SharedState(), s1) && Next(s1, Link(1, 4), s2) && IsChain(s2.fat, [2, 4]) && In(s2.fat, 3) && s2.fat[3] != FREE
  {
    hide Reaches, LinksAtEnd, LinksSafely;
    var s := SharedState();
    assert s.chains[2] == [2] && IsChain(s.fat, [2]);
    assert IsOwned(s.chains, 2) by {
      assert 2 in s.chains && 2 in s.chains[2];
    }
    s1, s2 := SharedChainBreaks(s, 0, 1, 0, 1, 3, 4);
    assert [2] + [4] == [2, 4];
    assert !OneVnodePerChain(s) by {
      assert 0 in s.heads && 1 in s.heads && s.heads[0] == s.heads[1];
    }
    OneVnodeExact(s, 0, 1, 3, 4);
  }
}
