/** Rewriting the 8.3 slot of a listed entry in place: what the sync of a file's metadata means for
    the directory it is listed in. */
module Updating {
  import opened Bytes
  import opened Slots
  import opened Placing
  import opened DirectoryMap
  import opened Writeback

  /** An 8.3 slot with the same name that may stand in for the old one. */
  ghost predicate StandsIn(main: Slot, main': Slot) {
    ShortName(main') == ShortName(main) && !Bit(Attr(main'), VOLUME_ID) && DirectorySizeZero(main')
  }

  lemma StandsInKind(main: Slot, main': Slot)
    requires StandsIn(main, main') && IsMain(main)
    ensures IsMain(main')
  {
    assert main'[0] == ShortName(main')[0] == ShortName(main)[0] == main[0];
  }

  /** The name of an entry does not depend on the rest of its 8.3 slot. */
  lemma SameText(lfn: seq<Slot>, main: Slot, main': Slot, buf: NameBuffer)
    requires ShortName(main') == ShortName(main)
    ensures GroupText(lfn, main', buf) == GroupText(lfn, main, buf)
  {
    hide ReadGroup, ShortText;
  }

  lemma StandsInOk(lfn: seq<Slot>, main: Slot, main': Slot)
    requires ItemOk(Live(lfn, main)) && StandsIn(main, main')
    ensures ItemOk(Live(lfn, main'))
  {
    hide GroupText, ShortName, IsMain, DirectorySizeZero, IsLfn, Sequence, IsLast, LfnChecksum, Checksum;
    StandsInKind(main, main');
    assert GroupOk(lfn, main');
    forall b: NameBuffer, b': NameBuffer | b[0] == 0 && b'[0] == 0
      ensures GroupText(lfn, main', b) == GroupText(lfn, main', b')
    {
      SameText(lfn, main, main', b);
      SameText(lfn, main, main', b');
      assert Determined(lfn, main);
    }
  }

  /** The slots of an item whose 8.3 slot is replaced. */
  lemma ReplacedFlat(x: seq<Item>, lfn: seq<Slot>, main: Slot, main': Slot, b: seq<Item>, tail: seq<Slot>)
    ensures var slots, k := Flat(x + ([Live(lfn, main)] + b)) + tail, |Flat(x)| + |lfn|;
      k < |slots| && Flat(x + ([Live(lfn, main')] + b)) + tail == slots[k := main']
  {
    hide Flat;
    FlatConcat(x, [Live(lfn, main)] + b);
    FlatConcat([Live(lfn, main)], b);
    FlatConcat(x, [Live(lfn, main')] + b);
    FlatConcat([Live(lfn, main')], b);
    FlatOne(Live(lfn, main));
    FlatOne(Live(lfn, main'));
  }

  /** The listing of items of which one has its 8.3 slot replaced. */
  lemma ReplacedEntries(x: seq<Item>, lfn: seq<Slot>, main: Slot, main': Slot, b: seq<Item>)
    requires ShortName(main') == ShortName(main)
    ensures var es, j := Entries(x + ([Live(lfn, main)] + b), 0), |Entries(x, 0)|;
      && j < |es| && es[j].main == main
      && Entries(x + ([Live(lfn, main')] + b), 0) == es[j := es[j].(main := main')]
  {
    hide Flat, GroupText, Entries;
    var k := |Flat(x)|;
    EntriesConcat(x, [Live(lfn, main)] + b, 0);
    EntriesConcat([Live(lfn, main)], b, k);
    EntriesConcat(x, [Live(lfn, main')] + b, 0);
    EntriesConcat([Live(lfn, main')], b, k);
    EntriesOne(Live(lfn, main), k);
    EntriesOne(Live(lfn, main'), k);
    FlatOne(Live(lfn, main));
    FlatOne(Live(lfn, main'));
    SameText(lfn, main, main', Zeros(256));
  }

  lemma ReplacedOk(x: seq<Item>, lfn: seq<Slot>, main: Slot, main': Slot, b: seq<Item>)
    requires ItemsOk(x + ([Live(lfn, main)] + b)) && StandsIn(main, main')
    ensures ItemsOk(x + ([Live(lfn, main')] + b))
  {
    hide ItemOk, StandsIn;
    var items, items' := x + ([Live(lfn, main)] + b), x + ([Live(lfn, main')] + b);
    assert items[|x|] == Live(lfn, main);
    StandsInOk(lfn, main, main');
    forall i | 0 <= i < |items'|
      ensures ItemOk(items'[i])
    {
      assert i != |x| ==> items'[i] == items[i];
    }
  }

  /** Rewriting the last slot of a listed entry keeps the directory well formed and changes nothing
      in the listing but that slot. */
  lemma UpdateKeepsDirectory(slots: seq<Slot>, j: nat, main': Slot)
    requires DirOk(slots) && j < |ListOf(slots)| && StandsIn(ListOf(slots)[j].main, main')
    ensures var e := ListOf(slots)[j];
      && e.start + e.count <= |slots| && e.count > 0 && slots[e.start + e.count - 1] == e.main
      && DirOk(slots[e.start + e.count - 1 := main'])
      && ListOf(slots[e.start + e.count - 1 := main']) == ListOf(slots)[j := e.(main := main')]
  {
    hide ListOf, Entries, Flat, ItemOk, ItemsOk, GroupText, StandsIn, AllEnd;
    var items: seq<Item>, tail: seq<Slot> :| IsDir(slots, items, tail);
    ListOfDir(slots, items, tail);
    var a := EntryItem(items, 0, j);
    var x, it, b := items[..a], items[a], items[a + 1..];
    var main := items[a].main;
    assert items == x + ([it] + b) && it == Live(it.lfn, main);
    ReplacedFlat(x, it.lfn, main, main', b, tail);
    ReplacedFlat(x, it.lfn, main, main, b, tail);
    ReplacedEntries(x, it.lfn, main, main', b) by {
      SameShort(main, main');
    }
    ReplacedOk(x, it.lfn, main, main', b);
    var items' := x + ([Live(it.lfn, main')] + b);
    var slots' := slots[|Flat(x)| + |it.lfn| := main'];
    assert IsDir(slots', items', tail);
    ListOfDir(slots', items', tail);
  }

  lemma SameShort(main: Slot, main': Slot)
    requires StandsIn(main, main')
    ensures ShortName(main') == ShortName(main)
  {
  }

  /** The names of a directory stay unique when one of its files is synced. */
  lemma UpdateKeepsNames(es: seq<Dirent>, j: nat, main': Slot)
    requires j < |es| && Unique(es)
    ensures Unique(es[j := es[j].(main := main')])
  {
    hide SameName;
    var es' := es[j := es[j].(main := main')];
    assert forall i :: 0 <= i < |es| ==> es'[i].name == es[i].name;
  }

  /** What a file may write back: the attributes differ from those on disk at most in the read-only
      bit, and a directory has size 0. */
  ghost predicate Proper(m: Meta, main: Slot) {
    && m.attr / 2 == Attr(main) / 2
    && (Bit(Attr(main), DIRECTORY) ==> m.size == 0)
  }

  /** The sync of a coherent file whose attributes are proper keeps its directory well formed, and
      every entry keeps its name and place. */
  lemma SyncKeepsDirectory(slots: seq<Slot>, j: nat, m: Meta)
    requires DirOk(slots) && j < |ListOf(slots)| && Proper(m, ListOf(slots)[j].main)
    ensures var e := ListOf(slots)[j];
      && e.start + e.count <= |slots| && e.count > 0 && slots[e.start + e.count - 1] == e.main
      && var u := UpdatedSlot(e.main, m);
         && DirOk(slots[e.start + e.count - 1 := u])
         && ListOf(slots[e.start + e.count - 1 := u]) == ListOf(slots)[j := e.(main := u)]
         && (Unique(ListOf(slots)) ==> Unique(ListOf(slots[e.start + e.count - 1 := u])))
  {
    hide ListOf, UpdatedSlot, Unique, DirOk, StandsIn;
    var e := ListOf(slots)[j];
    var u := UpdatedSlot(e.main, m);
    ListedKind(slots, j);
    StandsInUpdated(e.main, m);
    UpdateKeepsDirectory(slots, j, u);
    if Unique(ListOf(slots)) {
      UpdateKeepsNames(ListOf(slots), j, u);
    }
  }

  lemma ListedKind(slots: seq<Slot>, j: nat)
    requires DirOk(slots) && j < |ListOf(slots)|
    ensures IsMain(ListOf(slots)[j].main) && DirectorySizeZero(ListOf(slots)[j].main)
  {
    hide ListOf, Entries, Flat, GroupOk, Determined, GroupText;
    var items: seq<Item>, tail: seq<Slot> :| IsDir(slots, items, tail);
    ListOfDir(slots, items, tail);
    var a := EntryItem(items, 0, j);
    assert ItemOk(items[a]);
  }

  lemma StandsInUpdated(main: Slot, m: Meta)
    requires IsMain(main) && DirectorySizeZero(main) && Proper(m, main)
    ensures StandsIn(main, UpdatedSlot(main, m))
  {
    hide UpdatedSlot, FileSize, FirstCluster, ShortName;
    UpdatedFields(main, m);
    HighBits(m.attr, Attr(main));
  }

  lemma HighBits(a: byte, b: byte)
    requires a / 2 == b / 2
    ensures Bit(a, VOLUME_ID) == Bit(b, VOLUME_ID) && Bit(a, DIRECTORY) == Bit(b, DIRECTORY)
  {
    assert a / 8 == a / 2 / 4 && b / 8 == b / 2 / 4 && a / 16 == a / 2 / 8 && b / 16 == b / 2 / 8;
  }
}
