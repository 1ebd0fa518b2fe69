/** Inode numbers of listed entries and the resumable listing of a directory: `fat32_pack_ino`,
    `fat32_unpack_ino` (fat32_util.c) and `fat32_readdir` (fat32_vnode.c). */
module Readdir {
  import opened Bytes
  import opened Layout
  import opened Volumes
  import opened Clusters
  import opened Vnodes
  import opened Slots
  import opened Listings
  import opened DirectoryMap
  import opened DirReading
  import opened Lookups

  // ---- inode numbers ----

  const CLUSTER_BITS: nat := 0x1000_0000
  const COUNT_BITS: nat := 0x100

  /** `fat32_pack_ino`: cluster, slot and slot count, each cut to its field. */
  function PackIno(cluster: nat, offset: nat, count: nat): nat {
    (cluster % CLUSTER_BITS * CLUSTER_BITS + offset / SLOT % CLUSTER_BITS) * COUNT_BITS + count % COUNT_BITS
  }

  /** `fat32_unpack_ino`. */
  function UnpackIno(ino: nat): (nat, nat, nat) {
    (ino / COUNT_BITS / CLUSTER_BITS % CLUSTER_BITS, ino / COUNT_BITS % CLUSTER_BITS * SLOT, ino % COUNT_BITS)
  }

  /** An inode number gives back exactly the places whose parts fit their fields. */
  lemma InoRoundTrip(cluster: nat, offset: nat, count: nat)
    ensures UnpackIno(PackIno(cluster, offset, count)) == (cluster, offset, count)
       <==> cluster < CLUSTER_BITS && offset % SLOT == 0 && offset / SLOT < CLUSTER_BITS && count < COUNT_BITS
  {
    var c, k, n := cluster % CLUSTER_BITS, offset / SLOT % CLUSTER_BITS, count % COUNT_BITS;
    assert PackIno(cluster, offset, count) / COUNT_BITS == c * CLUSTER_BITS + k;
    assert (c * CLUSTER_BITS + k) / CLUSTER_BITS == c;
    assert UnpackIno(PackIno(cluster, offset, count)) == (c, k * SLOT, n);
  }

  // ---- what is listed ----

  /** A line handed to the caller: the name, the inode number, and the offset to go on from. */
  datatype Line = Line(name: seq<byte>, ino: nat, next: nat)

  function EntryLine(cluster: nat, e: Dirent): Line {
    Line(e.name, PackIno(cluster, SLOT * e.start, e.count), SLOT * (e.start + e.count))
  }

  function Lines(cluster: nat, es: seq<Dirent>): (lines: seq<Line>)
    ensures |lines| == |es|
  {
    seq(|es|, i requires 0 <= i < |es| => EntryLine(cluster, es[i]))
  }

  const DOT_LINE: Line := Line([DOT], 0, 1)
  const DOTDOT_LINE: Line := Line([DOT, DOT], 0, 2)

  /** The slot from which `offset` reads on: in the root directory the offsets below one slot
      stand for its start. */
  function DiskSlot(isRoot: bool, offset: nat): nat {
    if isRoot && offset < SLOT then 0 else offset / SLOT
  }

  /** What is still to be listed from `offset` on.  Only the root directory has no dot entries on
      disk, so there they are made up. */
  function Rest(slots: seq<Slot>, isRoot: bool, cluster: nat, offset: nat): seq<Line> {
    (if isRoot && offset == 0 then [DOT_LINE, DOTDOT_LINE] else if isRoot && offset == 1 then [DOTDOT_LINE] else [])
    + Lines(cluster, Listing(slots, DiskSlot(isRoot, offset), Zeros(256)))
  }

  /** Slot `k` does not lie inside an entry. */
  ghost predicate Boundary(slots: seq<Slot>, k: nat) {
    k <= |slots| && exists items, tail :: ItemsOk(items) && AllEnd(tail) && slots[k..] == Flat(items) + tail
  }

  /** The offsets from which a listing can be resumed. */
  ghost predicate Resumable(slots: seq<Slot>, isRoot: bool, offset: nat) {
    && Boundary(slots, DiskSlot(isRoot, offset))
    && (isRoot && offset < SLOT ==> offset <= 2)
    && (!isRoot || offset >= SLOT ==> offset % SLOT == 0)
  }

  lemma StartIsResumable(slots: seq<Slot>, isRoot: bool)
    requires DirOk(slots)
    ensures Resumable(slots, isRoot, 0)
  {
    hide ItemOk, Flat;
    var items, tail :| IsDir(slots, items, tail);
    assert slots[0..] == slots;
  }

  /** From a boundary the listing does not depend on left-over bytes, and the entry that is found
      ends at a boundary. */
  lemma NextEntry(slots: seq<Slot>, k: nat, before: seq<byte>, after: seq<byte>, err: Errno, next: nat, size: nat,
                  start: nat, count: nat, main: Slot)
    requires Boundary(slots, k) && |before| == NAME_BUFFER && before[0] == 0
    requires Reported(slots, k, before, after, err, next, size, start, count, main)
    ensures err == OK || err == ENOENT
    ensures err == ENOENT ==> Listing(slots, k, Zeros(256)) == []
    ensures err == OK ==>
              && |after| == NAME_BUFFER && size <= NAME_BUFFER && next == SLOT * (start + count)
              && k < start + count <= |slots| && Boundary(slots, start + count)
              && Listing(slots, k, Zeros(256))
                 == [Dirent(after[..size], start, count, main)] + Listing(slots, start + count, Zeros(256))
  {
    hide Listing, Entries, Flat, ItemOk, Reported, Zeros;
    ListingStep(slots, k, before, before, after, err, next, size, start, count, main) by {
      assert before[0 := 0] == before;
    }
    var items, tail :| ItemsOk(items) && AllEnd(tail) && slots[k..] == Flat(items) + tail;
    ListingIsEntries(slots, k, items, tail, before);
    ListingIsEntries(slots, k, items, tail, Zeros(256));
    if err == OK {
      var rest, k' := SplitAtFirst(items, k, tail, slots);
      assert Entries(items, k)[0] == Dirent(after[..size], start, count, main);
      ScanItems(slots, k, items, tail, before);
      NextPlace(slots, k, before, after, next, size, start, count, main, Entries(items, k));
      ListingIsEntries(slots, k', rest, tail, after);
      ListingIsEntries(slots, k', rest, tail, Zeros(256));
    }
  }

  lemma NextPlace(slots: seq<Slot>, k: nat, before: seq<byte>, after: seq<byte>, next: nat, size: nat,
                  start: nat, count: nat, main: Slot, es: seq<Dirent>)
    requires Reported(slots, k, before, after, OK, next, size, start, count, main)
    requires Finds(Scan(slots, k, Begin(before)), slots, es) && es != [] && es[0].start == start && es[0].count == count
    ensures next == SLOT * (start + count) && k < start + count
  {
    hide Scan;
    ScanAhead(slots, k, before);
  }

  // ---- one call ----

  /** `fat32_emit_dirent`: a line takes as much room as its name needs. */
  function Room(reclen: nat -> nat, lines: seq<Line>): nat {
    if lines == [] then 0 else Room(reclen, lines[..|lines| - 1]) + reclen(|lines[|lines| - 1].name|)
  }

  /** What one call of `fat32_readdir` with room `resid` hands out from `offset` on. */
  ghost predicate Call(slots: seq<Slot>, isRoot: bool, cluster: nat, reclen: nat -> nat, resid: nat,
                       offset: nat, offset': nat, out: seq<Line>, err: Errno, eof: bool)
  {
    && Resumable(slots, isRoot, offset')
    && Rest(slots, isRoot, cluster, offset) == out + Rest(slots, isRoot, cluster, offset')
    && Room(reclen, out) <= resid
    && (eof ==> Rest(slots, isRoot, cluster, offset') == [] && err == OK)
    && (!eof && Room(reclen, out) < resid ==>
          var rest := Rest(slots, isRoot, cluster, offset');
          rest != [] && Room(reclen, out) + reclen(|rest[0].name|) > resid)
    && (resid > 0 ==> err == if out == [] && !eof then EINVAL else OK)
    && (out == [] ==> offset' == offset)
  }

  /** The state in the middle of a call. */
  ghost predicate Listed(slots: seq<Slot>, isRoot: bool, cluster: nat, reclen: nat -> nat, resid0: nat, resid: nat,
                         offset0: nat, offset: nat, out: seq<Line>)
  {
    && Resumable(slots, isRoot, offset)
    && Rest(slots, isRoot, cluster, offset0) == out + Rest(slots, isRoot, cluster, offset)
    && Room(reclen, out) + resid == resid0
    && (out == [] ==> offset == offset0)
  }

  /** One more line is handed out. */
  lemma ListedMore(slots: seq<Slot>, isRoot: bool, cluster: nat, reclen: nat -> nat, resid0: nat, resid: nat,
                   offset0: nat, offset: nat, out: seq<Line>, line: Line, offset': nat)
    requires Listed(slots, isRoot, cluster, reclen, resid0, resid, offset0, offset, out)
    requires Rest(slots, isRoot, cluster, offset) == [line] + Rest(slots, isRoot, cluster, offset')
    requires Resumable(slots, isRoot, offset') && reclen(|line.name|) <= resid
    ensures Listed(slots, isRoot, cluster, reclen, resid0, resid - reclen(|line.name|), offset0, offset', out + [line])
  {
    hide Rest, Resumable;
    assert (out + [line])[..|out|] == out;
    assert out + ([line] + Rest(slots, isRoot, cluster, offset')) == out + [line] + Rest(slots, isRoot, cluster, offset');
  }

  /** The call ends because the next line does not fit. */
  lemma ListedFull(slots: seq<Slot>, isRoot: bool, cluster: nat, reclen: nat -> nat, resid0: nat, resid: nat,
                   offset0: nat, offset: nat, out: seq<Line>, line: Line, offset': nat)
    requires Listed(slots, isRoot, cluster, reclen, resid0, resid, offset0, offset, out)
    requires Rest(slots, isRoot, cluster, offset) == [line] + Rest(slots, isRoot, cluster, offset')
    requires reclen(|line.name|) > resid
    ensures Call(slots, isRoot, cluster, reclen, resid0, offset0, offset, out, if out == [] then EINVAL else OK, false)
  {
    hide Rest, Resumable;
  }

  /** The made-up lines of the root directory. */
  lemma DotLines(slots: seq<Slot>, cluster: nat)
    ensures Rest(slots, true, cluster, 0) == [DOT_LINE] + Rest(slots, true, cluster, 1)
    ensures Rest(slots, true, cluster, 1) == [DOTDOT_LINE] + Rest(slots, true, cluster, 2)
    ensures Resumable(slots, true, 0) ==> Resumable(slots, true, 1) && Resumable(slots, true, 2)
  {
    hide Listing, Boundary;
  }

  /** A line for an entry on disk. */
  lemma DiskLine(slots: seq<Slot>, isRoot: bool, cluster: nat, offset: nat, e: Dirent)
    requires isRoot ==> offset >= 2
    requires e.start + e.count > 0 && Boundary(slots, e.start + e.count)
    requires Listing(slots, DiskSlot(isRoot, offset), Zeros(256)) == [e] + Listing(slots, e.start + e.count, Zeros(256))
    ensures Rest(slots, isRoot, cluster, offset)
         == [EntryLine(cluster, e)] + Rest(slots, isRoot, cluster, SLOT * (e.start + e.count))
    ensures Resumable(slots, isRoot, SLOT * (e.start + e.count))
  {
    hide Listing, Boundary, PackIno;
    assert DiskSlot(isRoot, SLOT * (e.start + e.count)) == e.start + e.count;
  }

  lemma DiskEnd(slots: seq<Slot>, isRoot: bool, cluster: nat, offset: nat)
    requires (isRoot ==> offset >= 2) && Listing(slots, DiskSlot(isRoot, offset), Zeros(256)) == []
    ensures Rest(slots, isRoot, cluster, offset) == []
  {
    hide Listing;
  }

  /** What the next step of the listing finds: no line, or a line and the offset behind it. */
  method NextLine(v: Volume, dir: Vnode, offset: nat, dname: array<byte>, ghost slots: seq<Slot>)
    returns (end: bool, line: Line)
    requires dir.vtype == VDIR && DirReady(v, dir) && SlotsOf(v, dir) == slots
    requires dname.Length == NAME_BUFFER && dname != v.disk && offset < WORD && SLOT * |slots| < WORD
    requires Resumable(slots, IsRoot in dir.flags, offset)
    modifies v, v.disk, dir.cache, dname
    ensures Now(v) == old(Now(v)) && (old(Exact(v)) ==> Exact(v))
    ensures DirReady(v, dir) && SlotsOf(v, dir) == slots
    ensures end ==> Rest(slots, IsRoot in dir.flags, dir.cluster, offset) == []
    ensures !end ==>
              && Rest(slots, IsRoot in dir.flags, dir.cluster, offset)
                 == [line] + Rest(slots, IsRoot in dir.flags, dir.cluster, line.next)
              && Resumable(slots, IsRoot in dir.flags, line.next) && line.next < WORD
  {
    hide DirReady, SlotsOf, Exact, Rest, Listing, Boundary, Reported, Zeros;
    var isRoot := IsRoot in dir.flags;
    line := DOT_LINE;
    DotLines(slots, dir.cluster);
    if offset == 0 && isRoot {
      return false, DOT_LINE;
    }
    if offset == 1 && isRoot {
      return false, DOTDOT_LINE;
    }
    var diskOffset := if isRoot && offset < SLOT then 0 else offset;
    dname[0] := 0;
    ghost var before := dname[..];
    var err, next, size, start, count, main := GetDirent(v, dir, diskOffset, dname);
    NextEntry(slots, diskOffset / SLOT, before, dname[..], err, next, size, start, count, main);
    if err == ENOENT {
      DiskEnd(slots, isRoot, dir.cluster, offset);
      return true, DOT_LINE;
    }
    ghost var e := Dirent(dname[..size], start, count, main);
    DiskLine(slots, isRoot, dir.cluster, offset, e);
    return false, Line(dname[..size], PackIno(dir.cluster, SLOT * start, count), next);
  }

  /** `fat32_readdir`: lists from `offset0` on into `resid0` bytes of room. */
  method ReadDirectory(v: Volume, dir: Vnode, offset0: nat, resid0: nat, reclen: nat -> nat, ghost slots: seq<Slot>)
    returns (err: Errno, eof: bool, offset: nat, out: seq<Line>)
    requires dir.vtype == VDIR ==> DirReady(v, dir) && SlotsOf(v, dir) == slots && SLOT * |slots| < WORD
    requires dir.vtype == VDIR ==> offset0 < WORD && Resumable(slots, IsRoot in dir.flags, offset0)
    requires forall n: nat :: reclen(n) > 0
    modifies v, v.disk, dir.cache
    ensures Now(v) == old(Now(v)) && (old(Exact(v)) ==> Exact(v))
    ensures dir.vtype != VDIR ==> err == ENOTDIR && out == [] && offset == offset0
    ensures dir.vtype == VDIR ==> DirReady(v, dir) && SlotsOf(v, dir) == slots && offset < WORD
    ensures dir.vtype == VDIR ==>
              Call(slots, IsRoot in dir.flags, dir.cluster, reclen, resid0, offset0, offset, out, err, eof)
  {
    hide DirReady, SlotsOf, Exact, Rest, Resumable, Listed, Call, Room;
    offset, out, eof := offset0, [], false;
    if dir.vtype != VDIR {
      return ENOTDIR, false, offset0, [];
    }
    // The C variable has no initial value; without room it is returned as it is.
    err := *;
    var dname := new byte[NAME_BUFFER];
    var resid := resid0;
    ghost var isRoot := IsRoot in dir.flags;
    ListedNothing(slots, isRoot, dir.cluster, reclen, resid0, offset0);
    while resid > 0
      invariant DirReady(v, dir) && SlotsOf(v, dir) == slots && Now(v) == old(Now(v)) && (old(Exact(v)) ==> Exact(v))
      invariant offset < WORD && Resumable(slots, isRoot, offset)
      invariant Listed(slots, isRoot, dir.cluster, reclen, resid0, resid, offset0, offset, out)
      invariant out != [] ==> err == OK
      invariant out == [] ==> resid == resid0
    {
      var end, line := NextLine(v, dir, offset, dname, slots);
      if end {
        ListedAll(slots, isRoot, dir.cluster, reclen, resid0, resid, offset0, offset, out);
        return OK, true, offset, out;
      }
      var need := reclen(|line.name|);
      if need > resid {
        ListedFull(slots, isRoot, dir.cluster, reclen, resid0, resid, offset0, offset, out, line, line.next);
        return if out == [] then EINVAL else OK, false, offset, out;
      }
      ListedMore(slots, isRoot, dir.cluster, reclen, resid0, resid, offset0, offset, out, line, line.next);
      resid := resid - need;
      out := out + [line];
      offset := line.next;
      err := OK;
    }
    ListedOut(slots, isRoot, dir.cluster, reclen, resid0, offset0, offset, out, err);
  }

  lemma ListedNothing(slots: seq<Slot>, isRoot: bool, cluster: nat, reclen: nat -> nat, resid: nat, offset: nat)
    requires Resumable(slots, isRoot, offset)
    ensures Listed(slots, isRoot, cluster, reclen, resid, resid, offset, offset, [])
  {
    hide Rest, Resumable;
    assert [] + Rest(slots, isRoot, cluster, offset) == Rest(slots, isRoot, cluster, offset);
  }

  lemma ListedAll(slots: seq<Slot>, isRoot: bool, cluster: nat, reclen: nat -> nat, resid0: nat, resid: nat,
                  offset0: nat, offset: nat, out: seq<Line>)
    requires Listed(slots, isRoot, cluster, reclen, resid0, resid, offset0, offset, out)
    requires Rest(slots, isRoot, cluster, offset) == []
    ensures Call(slots, isRoot, cluster, reclen, resid0, offset0, offset, out, OK, true)
  {
    hide Rest, Resumable;
  }

  lemma ListedOut(slots: seq<Slot>, isRoot: bool, cluster: nat, reclen: nat -> nat, resid0: nat,
                  offset0: nat, offset: nat, out: seq<Line>, err: Errno)
    requires Listed(slots, isRoot, cluster, reclen, resid0, 0, offset0, offset, out)
    requires (out != [] ==> err == OK) && (out == [] ==> resid0 == 0)
    ensures Call(slots, isRoot, cluster, reclen, resid0, offset0, offset, out, err, false)
  {
    hide Rest, Resumable;
  }

  // ---- all calls ----

  datatype Reply = Reply(offset: nat, out: seq<Line>, err: Errno, eof: bool)

  function AllOut(replies: seq<Reply>): seq<Line> {
    if replies == [] then [] else AllOut(replies[..|replies| - 1]) + replies[|replies| - 1].out
  }

  /** Where call number `i` starts. */
  function StartOf(replies: seq<Reply>, i: nat): nat
    requires i <= |replies|
  {
    if i == 0 then 0 else replies[i - 1].offset
  }

  /** Each call goes on from the offset that the call before it returned.  What a call does is only
      known if its offset is one to resume from, as `ReadDirectory` asks. */
  ghost predicate Resumed(slots: seq<Slot>, isRoot: bool, cluster: nat, reclen: nat -> nat, resids: seq<nat>, replies: seq<Reply>) {
    && |resids| == |replies|
    && forall i :: 0 <= i < |replies| && StartOf(replies, i) < WORD && Resumable(slots, isRoot, StartOf(replies, i)) ==>
         && replies[i].offset < WORD
         && Call(slots, isRoot, cluster, reclen, resids[i], StartOf(replies, i), replies[i].offset, replies[i].out,
                 replies[i].err, replies[i].eof)
  }

  lemma ResumedPrefix(slots: seq<Slot>, isRoot: bool, cluster: nat, reclen: nat -> nat, resids: seq<nat>, replies: seq<Reply>, n: nat)
    requires Resumed(slots, isRoot, cluster, reclen, resids, replies) && n <= |replies|
    ensures |resids| == |replies| && Resumed(slots, isRoot, cluster, reclen, resids[..n], replies[..n])
    ensures forall i :: 0 <= i <= n ==> StartOf(replies[..n], i) == StartOf(replies, i)
  {
    hide Rest, Resumable, Call;
    assert forall i :: 0 <= i <= n ==> StartOf(replies[..n], i) == StartOf(replies, i);
  }

  /** In a well-formed directory every call of such a sequence starts where it may. */
  lemma {:induction false} CallsAreMet(slots: seq<Slot>, isRoot: bool, cluster: nat, reclen: nat -> nat,
                                       resids: seq<nat>, replies: seq<Reply>, i: nat)
    requires DirOk(slots) && Resumed(slots, isRoot, cluster, reclen, resids, replies) && i < |replies|
    ensures StartOf(replies, i) < WORD && Resumable(slots, isRoot, StartOf(replies, i))
    ensures Call(slots, isRoot, cluster, reclen, resids[i], StartOf(replies, i), replies[i].offset, replies[i].out,
                 replies[i].err, replies[i].eof)
    decreases i
  {
    hide Rest, Resumable, Room, DirOk;
    if i == 0 {
      StartIsResumable(slots, isRoot);
    } else {
      CallsAreMet(slots, isRoot, cluster, reclen, resids, replies, i - 1);
    }
  }

  /** Whatever room the calls have, together they list a prefix of the directory, and what remains
      is what the next call will see. */
  lemma {:induction false} CallsListPrefix(slots: seq<Slot>, isRoot: bool, cluster: nat, reclen: nat -> nat,
                                           resids: seq<nat>, replies: seq<Reply>)
    requires DirOk(slots) && Resumed(slots, isRoot, cluster, reclen, resids, replies)
    ensures Rest(slots, isRoot, cluster, 0)
         == AllOut(replies) + Rest(slots, isRoot, cluster, StartOf(replies, |replies|))
    decreases |replies|
  {
    hide Rest, Resumable, Room, DirOk, Resumed;
    if replies == [] {
      assert [] + Rest(slots, isRoot, cluster, 0) == Rest(slots, isRoot, cluster, 0);
    } else {
      var n := |replies| - 1;
      ResumedPrefix(slots, isRoot, cluster, reclen, resids, replies, n);
      var r0, q0 := replies[..n], resids[..n];
      CallsListPrefix(slots, isRoot, cluster, reclen, q0, r0);
      CallsAreMet(slots, isRoot, cluster, reclen, resids, replies, n);
      var rest := Rest(slots, isRoot, cluster, StartOf(replies, n + 1));
      assert Rest(slots, isRoot, cluster, StartOf(replies, n)) == replies[n].out + rest;
      assert AllOut(r0) + (replies[n].out + rest) == AllOut(r0) + replies[n].out + rest;
    }
  }

  /** The whole listing of a directory, for a caller of `fat32_readdir`. */
  function WholeListing(slots: seq<Slot>, isRoot: bool, cluster: nat): seq<Line> {
    (if isRoot then [DOT_LINE, DOTDOT_LINE] else []) + Lines(cluster, ListOf(slots))
  }

  /** Resumed calls up to the end of the directory list every entry exactly once and in order; in
      the root directory the two dot entries come first, once. */
  lemma ResumedListsAll(slots: seq<Slot>, isRoot: bool, cluster: nat, reclen: nat -> nat, resids: seq<nat>, replies: seq<Reply>)
    requires DirOk(slots) && Resumed(slots, isRoot, cluster, reclen, resids, replies)
    requires |replies| > 0 && replies[|replies| - 1].eof
    ensures AllOut(replies) == WholeListing(slots, isRoot, cluster)
  {
    hide Listing, Resumable, Room, AllOut, Lines, DirOk;
    CallsListPrefix(slots, isRoot, cluster, reclen, resids, replies);
    var n := |replies| - 1;
    CallsAreMet(slots, isRoot, cluster, reclen, resids, replies, n);
    assert Rest(slots, isRoot, cluster, replies[n].offset) == [];
    assert AllOut(replies) + [] == AllOut(replies);
  }

  /** A call with room for the next line makes progress, so the end is reached. */
  lemma CallProgress(slots: seq<Slot>, isRoot: bool, cluster: nat, reclen: nat -> nat, resid: nat,
                     offset: nat, offset': nat, out: seq<Line>, err: Errno, eof: bool)
    requires Call(slots, isRoot, cluster, reclen, resid, offset, offset', out, err, eof)
    requires resid > 0 && Rest(slots, isRoot, cluster, offset) != [] ==>
               reclen(|Rest(slots, isRoot, cluster, offset)[0].name|) <= resid
    requires resid > 0
    ensures eof || |Rest(slots, isRoot, cluster, offset')| < |Rest(slots, isRoot, cluster, offset)|
    ensures err == OK
  {
    hide Rest, Resumable;
    assert out == [] ==> Room(reclen, out) == 0;
  }

  /** Room for the line that a call begins with. */
  ghost predicate HasRoom(slots: seq<Slot>, isRoot: bool, cluster: nat, reclen: nat -> nat, resid: nat, offset: nat) {
    && resid > 0
    && (Rest(slots, isRoot, cluster, offset) != [] ==> reclen(|Rest(slots, isRoot, cluster, offset)[0].name|) <= resid)
  }

  /** If every call has room for at least one line, the end is reached after at most one call per
      line. */
  lemma {:induction false} CallsReachEnd(slots: seq<Slot>, isRoot: bool, cluster: nat, reclen: nat -> nat,
                                         resids: seq<nat>, replies: seq<Reply>)
    requires DirOk(slots) && Resumed(slots, isRoot, cluster, reclen, resids, replies)
    requires forall i :: 0 <= i < |replies| ==> HasRoom(slots, isRoot, cluster, reclen, resids[i], StartOf(replies, i))
    requires forall i :: 0 <= i < |replies| ==> !replies[i].eof
    ensures |Rest(slots, isRoot, cluster, StartOf(replies, |replies|))| + |replies| <= |WholeListing(slots, isRoot, cluster)|
    decreases |replies|
  {
    hide Rest, Call, HasRoom, WholeListing, DirOk, Resumable, Resumed;
    if replies == [] {
      WholeIsRest(slots, isRoot, cluster);
    } else {
      var n := |replies| - 1;
      ResumedPrefix(slots, isRoot, cluster, reclen, resids, replies, n);
      var r0, q0 := replies[..n], resids[..n];
      assert forall i :: 0 <= i < n ==> r0[i] == replies[i] && q0[i] == resids[i];
      CallsReachEnd(slots, isRoot, cluster, reclen, q0, r0);
      var r := replies[n];
      CallsAreMet(slots, isRoot, cluster, reclen, resids, replies, n);
      OneCall(slots, isRoot, cluster, reclen, resids[n], StartOf(replies, n), r);
    }
  }

  lemma WholeIsRest(slots: seq<Slot>, isRoot: bool, cluster: nat)
    ensures WholeListing(slots, isRoot, cluster) == Rest(slots, isRoot, cluster, 0)
  {
    hide Listing, Lines;
  }

  lemma OneCall(slots: seq<Slot>, isRoot: bool, cluster: nat, reclen: nat -> nat, resid: nat, offset: nat, r: Reply)
    requires Call(slots, isRoot, cluster, reclen, resid, offset, r.offset, r.out, r.err, r.eof) && !r.eof
    requires HasRoom(slots, isRoot, cluster, reclen, resid, offset)
    ensures |Rest(slots, isRoot, cluster, r.offset)| + 1 <= |Rest(slots, isRoot, cluster, offset)|
  {
    hide Rest, Call;
    CallProgress(slots, isRoot, cluster, reclen, resid, offset, r.offset, r.out, r.err, r.eof);
  }
}
