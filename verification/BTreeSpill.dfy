/** Building an index with bounded memory: BTreeBuilder.add_node and its spilling in
    bzrlib/btree_index.py.

    Full memory is written out as an index of its own and combined with the indices there are, so
    that the sizes of the backing indices behave like the bits of a binary counter. */
module BTreeSpill {
  import opened Basics
  import opened BTreePages
  import opened BTreePacking
  import opened BTreeBuild
  import opened BTreeMerge
  import opened BTreeSearch

  type Slot = Option<BTreeGraphIndex>

  // ---------------------------------------------------------------------------
  // The file for a set of entries
  // ---------------------------------------------------------------------------

  /** The file holds the search tree, packed as full as it can be, for the entries in key order. */
  ghost predicate IsFileFor(room: Room, refLists: nat, entries: set<Entry>, file: TreeFile) {
    && file.refLists == refLists
    && exists list :: Sorted(list) && SetOf(list) == entries && IsPackedIndex(room, true, file, list)
  }

  lemma FinishedIsFile(room: Room, refLists: nat, list: seq<Entry>, file: TreeFile)
    requires Sorted(list) && IsPackedIndex(room, true, file, list) && file.refLists == refLists
    ensures IsFileFor(room, refLists, SetOf(list), file)
  {
  }

  lemma {:induction false} OneSortedList(a: seq<Entry>, b: seq<Entry>)
    requires Sorted(a) && Sorted(b) && SetOf(a) == SetOf(b)
    ensures a == b
  {
    assert a != [] ==> a[0] in SetOf(a);
    assert b != [] ==> b[0] in SetOf(b);
    if a != [] && b != [] {
      var e, f := a[|a| - 1], b[|b| - 1];
      assert e in SetOf(a) && f in SetOf(b);
      var i :| 0 <= i < |b| && b[i] == e;
      var j :| 0 <= j < |a| && a[j] == f;
      assert e == f;
      SetWithoutLast(a);
      SetWithoutLast(b);
      OneSortedList(a[..|a| - 1], b[..|b| - 1]);
    }
  }

  lemma SetWithoutLast(a: seq<Entry>)
    requires Sorted(a) && a != []
    ensures SetOf(a[..|a| - 1]) == SetOf(a) - {a[|a| - 1]}
  {
  }

  /** The order of additions, spills and combined indices leave no trace: for given entries there is
      only one file. */
  lemma FileLeavesNoTrace(room: Room, refLists: nat, entries: set<Entry>, file: TreeFile, file': TreeFile)
    requires IsFileFor(room, refLists, entries, file) && IsFileFor(room, refLists, entries, file')
    ensures file == file'
  {
    hide Sorted, IsPackedIndex;
    var list :| Sorted(list) && SetOf(list) == entries && IsPackedIndex(room, true, file, list);
    var list' :| Sorted(list') && SetOf(list') == entries && IsPackedIndex(room, true, file', list');
    OneSortedList(list, list');
    FileIsUnique(room, true, file, file', list);
  }

  // ---------------------------------------------------------------------------
  // The binary counter
  // ---------------------------------------------------------------------------

  ghost predicate Bit(slot: Slot, occupied: bool, size: nat) {
    (slot.Some? <==> occupied) && (slot.Some? ==> |slot.value.entries| == size)
  }

  /** Slot i is occupied exactly if bit i of n is set, and then holds size * 2^i entries. */
  ghost predicate IsCounter(slots: seq<Slot>, n: nat, size: nat) {
    if slots == [] then n == 0 else Bit(slots[0], n % 2 == 1, size) && IsCounter(slots[1..], n / 2, 2 * size)
  }

  function Power2(i: nat): nat {
    if i == 0 then 1 else 2 * Power2(i - 1)
  }

  function Shifted(n: nat, i: nat): nat {
    if i == 0 then n else Shifted(n / 2, i - 1)
  }

  lemma {:induction false} CounterAt(slots: seq<Slot>, n: nat, size: nat, i: nat)
    requires IsCounter(slots, n, size)
    ensures i < |slots| ==> Bit(slots[i], Shifted(n, i) % 2 == 1, size * Power2(i))
    ensures i >= |slots| ==> Shifted(n, i) == 0
    decreases i
  {
    if slots == [] {
      ShiftedZero(i);
    } else if i > 0 {
      CounterAt(slots[1..], n / 2, 2 * size, i - 1);
      assert (2 * size) * Power2(i - 1) == size * Power2(i) by { Doubled(size, Power2(i - 1)); }
    }
  }

  lemma Doubled(a: nat, b: nat)
    ensures (2 * a) * b == a * (2 * b)
  {
  }

  lemma {:induction false} ShiftedZero(i: nat)
    ensures Shifted(0, i) == 0
  {
    if i > 0 { ShiftedZero(i - 1); }
  }

  /** What the backing indices are after n spills of size entries each. */
  ghost predicate HoldsSpills(combine: bool, slots: seq<Slot>, n: nat, size: nat) {
    if combine then IsCounter(slots, n, size) else |slots| == n && forall i :: 0 <= i < n ==> Bit(slots[i], true, size)
  }

  ghost function SizeOfFirst(slots: seq<Slot>, pos: nat): nat
    requires pos <= |slots|
  {
    if pos == 0 then 0 else (if slots[0].Some? then |slots[0].value.entries| else 0) + SizeOfFirst(slots[1..], pos - 1)
  }

  /** The slots before pos are emptied into slot pos. */
  function Carried(slots: seq<Slot>, pos: nat, index: BTreeGraphIndex): seq<Slot>
    requires pos <= |slots|
  {
    if pos == 0 then [Some(index)] + (if slots == [] then [] else slots[1..])
    else [None] + Carried(slots[1..], pos - 1, index)
  }

  /** The first pos slots are occupied, the next is not. */
  ghost predicate FirstFree(slots: seq<Slot>, pos: nat) {
    && pos <= |slots|
    && (forall i :: 0 <= i < pos ==> slots[i].Some?)
    && (pos < |slots| ==> slots[pos].None?)
  }

  lemma FirstFreeRest(slots: seq<Slot>, pos: nat)
    requires FirstFree(slots, pos) && pos > 0
    ensures slots != [] && slots[0].Some? && FirstFree(slots[1..], pos - 1)
  {
  }

  lemma FirstIsFree(slots: seq<Slot>)
    requires FirstFree(slots, 0)
    ensures slots != [] ==> slots[0].None?
  {
  }

  /** Combining adds one to the counter. */
  lemma {:induction false} CarryCounts(slots: seq<Slot>, n: nat, size: nat, pos: nat, index: BTreeGraphIndex)
    requires pos <= |slots| && IsCounter(slots, n, size) && FirstFree(slots, pos)
    requires |index.entries| == size + SizeOfFirst(slots, pos)
    ensures IsCounter(Carried(slots, pos, index), n + 1, size)
    decreases pos
  {
    hide FirstFree;
    var after := Carried(slots, pos, index);
    if pos == 0 {
      FirstIsFree(slots);
      assert after[1..] == if slots == [] then [] else slots[1..];
    } else {
      FirstFreeRest(slots, pos);
      assert n % 2 == 1 && (n + 1) / 2 == n / 2 + 1;
      CarryCounts(slots[1..], n / 2, 2 * size, pos - 1, index);
      assert after[1..] == Carried(slots[1..], pos - 1, index);
    }
  }

  lemma HoldsOneMore(combine: bool, slots: seq<Slot>, n: nat, size: nat, pos: nat, index: BTreeGraphIndex)
    requires pos <= |slots| && HoldsSpills(combine, slots, n, size)
    requires if combine then FirstFree(slots, pos) else pos == 0
    requires |index.entries| == size + SizeOfFirst(slots, pos)
    ensures HoldsSpills(combine, if combine then Carried(slots, pos, index) else slots + [Some(index)], n + 1, size)
  {
    hide FirstFree, Carried;
    if combine { CarryCounts(slots, n, size, pos, index); }
  }

  /** A spill moves entries but keeps their number. */
  lemma {:induction false} SizeAfterCarry(slots: seq<Slot>, pos: nat, index: BTreeGraphIndex, size: nat)
    requires pos <= |slots| && FirstFree(slots, pos) && |index.entries| == size + SizeOfFirst(slots, pos)
    ensures SizeOfFirst(Carried(slots, pos, index), |Carried(slots, pos, index)|) == size + SizeOfFirst(slots, |slots|)
    decreases pos
  {
    hide FirstFree;
    var after := Carried(slots, pos, index);
    if pos == 0 {
      FirstIsFree(slots);
      assert after[1..] == if slots == [] then [] else slots[1..];
    } else {
      FirstFreeRest(slots, pos);
      SizeAfterCarry(slots[1..], pos - 1, index, size + |slots[0].value.entries|);
      assert after[1..] == Carried(slots[1..], pos - 1, index);
    }
  }

  lemma {:induction false} SizeAfterAppend(slots: seq<Slot>, index: BTreeGraphIndex)
    ensures SizeOfFirst(slots + [Some(index)], |slots| + 1) == SizeOfFirst(slots, |slots|) + |index.entries|
  {
    var after := slots + [Some(index)];
    if slots == [] {
      assert after[1..] == [];
    } else {
      SizeAfterAppend(slots[1..], index);
      assert after[1..] == slots[1..] + [Some(index)];
    }
  }

  lemma {:induction false} CarriedAt(slots: seq<Slot>, pos: nat, index: BTreeGraphIndex)
    requires pos <= |slots|
    ensures |Carried(slots, pos, index)| == if pos == |slots| then pos + 1 else |slots|
    ensures forall i :: 0 <= i < |Carried(slots, pos, index)| ==>
              Carried(slots, pos, index)[i] == if i < pos then None else if i == pos then Some(index) else slots[i]
  {
    if pos > 0 {
      CarriedAt(slots[1..], pos - 1, index);
    }
  }

  // ---------------------------------------------------------------------------
  // What a builder holds
  // ---------------------------------------------------------------------------

  ghost function SetOf(list: seq<Entry>): set<Entry> {
    set e | e in list
  }

  ghost function KeysIn(entries: set<Entry>): set<Key> {
    set e | e in entries :: e.key
  }

  /** The memory and each backing index, as sets. */
  ghost function PartOf(slot: Slot): set<Entry> {
    if slot.Some? then SetOf(slot.value.entries) else {}
  }

  ghost function ValuesOf(mem: map<Key, Entry>): set<Entry> {
    set k | k in mem :: mem[k]
  }

  ghost function ContentFirst(mem: map<Key, Entry>, slots: seq<Slot>, pos: nat): set<Entry>
    requires pos <= |slots|
  {
    if pos == 0 then ValuesOf(mem) else ContentFirst(mem, slots, pos - 1) + PartOf(slots[pos - 1])
  }

  ghost function Content(mem: map<Key, Entry>, slots: seq<Slot>): set<Entry> {
    ContentFirst(mem, slots, |slots|)
  }

  ghost predicate Apart(a: set<Entry>, b: set<Entry>) {
    forall e, f :: e in a && f in b ==> e.key != f.key
  }

  /** No key is in two parts. */
  ghost predicate KeysApartFirst(mem: map<Key, Entry>, slots: seq<Slot>, pos: nat)
    requires pos <= |slots|
  {
    && (forall i :: 0 <= i < pos ==> Apart(ValuesOf(mem), PartOf(slots[i])))
    && forall i, j :: 0 <= i < j < pos ==> Apart(PartOf(slots[i]), PartOf(slots[j]))
  }

  ghost predicate KeysApart(mem: map<Key, Entry>, slots: seq<Slot>) {
    KeysApartFirst(mem, slots, |slots|)
  }

  ghost predicate ValidSlot(slot: Slot, refLists: nat) {
    slot.Some? ==> slot.value.Valid() && slot.value.file.refLists == refLists
  }

  ghost predicate ValidParts(mem: map<Key, Entry>, slots: seq<Slot>, refLists: nat) {
    && KeysMatch(mem)
    && (forall k :: k in mem ==> |mem[k].refs| == refLists)
    && forall i :: 0 <= i < |slots| ==> ValidSlot(slots[i], refLists)
  }

  lemma {:induction false} ContentIs(mem: map<Key, Entry>, slots: seq<Slot>, pos: nat, e: Entry)
    requires pos <= |slots|
    ensures e in ContentFirst(mem, slots, pos) <==> e in ValuesOf(mem) || exists i :: 0 <= i < pos && e in PartOf(slots[i])
  {
    hide PartOf;
    if pos > 0 {
      ContentIs(mem, slots, pos - 1, e);
      if i :| 0 <= i < pos && e in PartOf(slots[i]) {
        assert i == pos - 1 || i < pos - 1;
      }
    }
  }

  lemma {:induction false} ContentApart(mem: map<Key, Entry>, slots: seq<Slot>, pos: nat, part: set<Entry>)
    requires pos <= |slots| && Apart(ValuesOf(mem), part) && forall i :: 0 <= i < pos ==> Apart(PartOf(slots[i]), part)
    ensures Apart(ContentFirst(mem, slots, pos), part)
  {
    hide PartOf;
    if pos > 0 { ContentApart(mem, slots, pos - 1, part); }
  }

  // ---------------------------------------------------------------------------
  // Sizes
  // ---------------------------------------------------------------------------

  lemma {:induction false} SizeFromBack(slots: seq<Slot>, pos: nat)
    requires pos < |slots|
    ensures SizeOfFirst(slots, pos + 1)
         == SizeOfFirst(slots, pos) + if slots[pos].Some? then |slots[pos].value.entries| else 0
    decreases pos
  {
    if pos > 0 { SizeFromBack(slots[1..], pos - 1); }
  }

  lemma {:induction false} SizeOfSorted(list: seq<Entry>)
    requires Sorted(list)
    ensures |SetOf(list)| == |list|
  {
    if list != [] {
      var init, last := list[..|list| - 1], list[|list| - 1];
      SizeOfSorted(init);
      forall i | 0 <= i < |init| ensures init[i] != last { assert list[i].key < last.key; }
      assert last !in SetOf(init);
      assert list == init + [last];
      assert SetOf(list) == SetOf(init) + {last};
    } else {
      assert SetOf(list) == {};
    }
  }

  lemma {:induction false} SizeOfValues(mem: map<Key, Entry>)
    requires forall k :: k in mem ==> mem[k].key == k
    ensures |ValuesOf(mem)| == |mem|
    decreases |mem|
  {
    if k :| k in mem {
      var rest := mem - {k};
      SizeOfValues(rest);
      assert mem == rest[k := mem[k]];
      assert mem[k] !in ValuesOf(rest);
      assert ValuesOf(mem) == ValuesOf(rest) + {mem[k]};
    } else {
      NoKeys(mem);
    }
  }

  lemma NoKeys(mem: map<Key, Entry>)
    requires forall k :: k !in mem
    ensures mem == map[] && ValuesOf(mem) == {}
  {
    assert forall k :: k !in mem;
    assert mem.Keys == {};
  }

  lemma SizeOfBoth(a: set<Entry>, b: set<Entry>)
    requires Apart(a, b)
    ensures |a + b| == |a| + |b|
  {
    assert a * b == {} by {
      assert forall e :: e in a ==> e !in b;
    }
  }

  ghost predicate MemStream(mem: map<Key, Entry>, list: seq<Entry>) {
    Sorted(list) && SetOf(list) == ValuesOf(mem) && |list| == |mem|
  }

  ghost predicate SlotsSorted(slots: seq<Slot>) {
    forall i :: 0 <= i < |slots| && slots[i].Some? ==> Sorted(slots[i].value.entries)
  }

  lemma ContentStart(mem: map<Key, Entry>, slots: seq<Slot>)
    ensures ContentFirst(mem, slots, 0) == ValuesOf(mem) && SizeOfFirst(slots, 0) == 0
  {
  }

  lemma ContentStep(mem: map<Key, Entry>, slots: seq<Slot>, pos: nat)
    requires 0 < pos <= |slots|
    ensures ContentFirst(mem, slots, pos) == ContentFirst(mem, slots, pos - 1) + PartOf(slots[pos - 1])
  {
  }

  lemma SizeOfPart(slots: seq<Slot>, pos: nat)
    requires pos < |slots| && SlotsSorted(slots)
    ensures |PartOf(slots[pos])| == if slots[pos].Some? then |slots[pos].value.entries| else 0
  {
    hide Sorted;
    if slots[pos].Some? { SizeOfSorted(slots[pos].value.entries); }
  }

  ghost predicate KeysMatch(mem: map<Key, Entry>) {
    forall k :: k in mem ==> mem[k].key == k
  }

  lemma SizeOfMemory(mem: map<Key, Entry>)
    requires KeysMatch(mem)
    ensures |ValuesOf(mem)| == |mem|
  {
    assert forall k :: k in mem ==> mem[k].key == k;
    SizeOfValues(mem);
  }

  /** Without duplicates the sizes of the parts add up to the number of entries. */
  lemma {:induction false} ContentSize(mem: map<Key, Entry>, slots: seq<Slot>, pos: nat)
    requires pos <= |slots| && KeysApartFirst(mem, slots, pos) && KeysMatch(mem) && SlotsSorted(slots)
    ensures |ContentFirst(mem, slots, pos)| == |mem| + SizeOfFirst(slots, pos)
  {
    hide *;
    if pos == 0 {
      SizeOfMemory(mem);
      ContentStart(mem, slots);
    } else {
      DistinctMore(mem, slots, pos);
      ContentSize(mem, slots, pos - 1);
      SizeFromBack(slots, pos - 1);
      ContentStep(mem, slots, pos);
      SizeOfPart(slots, pos - 1);
      SizeOfBoth(ContentFirst(mem, slots, pos - 1), PartOf(slots[pos - 1]));
    }
  }

  // ---------------------------------------------------------------------------
  // The streams that are merged: memory, then the occupied slots before pos
  // ---------------------------------------------------------------------------

  ghost function Streams(mem: seq<Entry>, slots: seq<Slot>, pos: nat): seq<seq<Entry>>
    requires pos <= |slots|
  {
    if pos == 0 then [mem]
    else Streams(mem, slots, pos - 1) + if slots[pos - 1].Some? then [slots[pos - 1].value.entries] else []
  }

  ghost predicate StreamsAre(mem: map<Key, Entry>, list: seq<Entry>, slots: seq<Slot>, pos: nat)
    requires pos <= |slots|
  {
    && AllSorted(Streams(list, slots, pos)) && Streams(list, slots, pos) != []
    && TotalLength(Streams(list, slots, pos)) == |mem| + SizeOfFirst(slots, pos)
    && forall e :: InSome(Streams(list, slots, pos), e) <==> e in ContentFirst(mem, slots, pos)
  }

  lemma StreamsStart(mem: map<Key, Entry>, list: seq<Entry>, slots: seq<Slot>)
    requires MemStream(mem, list)
    ensures StreamsAre(mem, list, slots, 0)
  {
    assert [list][..0] == [];
    forall e ensures InSome([list], e) <==> e in ValuesOf(mem) {
      assert e in SetOf(list) <==> e in list;
      assert e in list ==> e in [list][0];
    }
  }

  lemma StreamsStep(mem: map<Key, Entry>, list: seq<Entry>, slots: seq<Slot>, pos: nat)
    requires pos < |slots| && StreamsAre(mem, list, slots, pos) && SlotsSorted(slots)
    ensures StreamsAre(mem, list, slots, pos + 1)
  {
    hide Sorted;
    SizeFromBack(slots, pos);
    var before := Streams(list, slots, pos);
    if slots[pos].Some? {
      var more := slots[pos].value.entries;
      assert (before + [more])[..|before|] == before;
      forall e ensures InSome(before + [more], e) <==> InSome(before, e) || e in more { InSomeMore(before, more, e); }
    } else {
      assert before + [] == before;
    }
  }

  lemma {:induction false} StreamsHold(mem: map<Key, Entry>, list: seq<Entry>, slots: seq<Slot>, pos: nat)
    requires pos <= |slots| && MemStream(mem, list) && SlotsSorted(slots)
    ensures StreamsAre(mem, list, slots, pos)
  {
    hide StreamsAre, MemStream, SlotsSorted;
    if pos == 0 {
      StreamsStart(mem, list, slots);
    } else {
      StreamsHold(mem, list, slots, pos - 1);
      StreamsStep(mem, list, slots, pos - 1);
    }
  }

  lemma InSomeMore(lists: seq<seq<Entry>>, more: seq<Entry>, e: Entry)
    ensures InSome(lists + [more], e) <==> InSome(lists, e) || e in more
  {
    var all := lists + [more];
    if InSome(lists, e) {
      var i :| 0 <= i < |lists| && e in lists[i];
      assert e in all[i];
    }
    if e in more { assert e in all[|lists|]; }
  }

  /** The merge meets a duplicate exactly if two of the parts have a key in common. */
  lemma {:induction false} StreamsDistinct(mem: map<Key, Entry>, list: seq<Entry>, slots: seq<Slot>, pos: nat)
    requires pos <= |slots| && MemStream(mem, list) && SlotsSorted(slots)
    ensures NoDuplicates(Streams(list, slots, pos)) <==> KeysApartFirst(mem, slots, pos)
  {
    hide Sorted, Apart, MemStream, SlotsSorted, KeysApartFirst, NoDuplicates, ContentFirst, StreamsAre, PartOf;
    if pos == 0 {
      NoPartsAreDistinct(mem, list, slots);
    } else {
      StreamsDistinct(mem, list, slots, pos - 1);
      StreamsHold(mem, list, slots, pos - 1);
      DistinctMore(mem, slots, pos);
      SlotStep(mem, list, slots, pos - 1);
    }
  }

  lemma NoPartsAreDistinct(mem: map<Key, Entry>, list: seq<Entry>, slots: seq<Slot>)
    ensures NoDuplicates(Streams(list, slots, 0)) && KeysApartFirst(mem, slots, 0)
  {
  }

  lemma SlotStep(mem: map<Key, Entry>, list: seq<Entry>, slots: seq<Slot>, pos: nat)
    requires pos < |slots| && StreamsAre(mem, list, slots, pos)
    ensures NoDuplicates(Streams(list, slots, pos + 1)) <==>
              NoDuplicates(Streams(list, slots, pos)) && Apart(ContentFirst(mem, slots, pos), PartOf(slots[pos]))
  {
    hide NoDuplicates, Apart, ContentFirst;
    if slots[pos].Some? {
      NoDuplicatesMore(Streams(list, slots, pos), slots[pos].value.entries, ContentFirst(mem, slots, pos));
    } else {
      assert Streams(list, slots, pos + 1) == Streams(list, slots, pos);
      NothingIsApart(ContentFirst(mem, slots, pos));
    }
  }

  lemma NothingIsApart(a: set<Entry>)
    ensures Apart(a, {})
  {
  }

  lemma DistinctMore(mem: map<Key, Entry>, slots: seq<Slot>, pos: nat)
    requires 0 < pos <= |slots|
    ensures KeysApartFirst(mem, slots, pos) <==>
              KeysApartFirst(mem, slots, pos - 1) && Apart(ContentFirst(mem, slots, pos - 1), PartOf(slots[pos - 1]))
  {
    hide PartOf;
    var part, before := PartOf(slots[pos - 1]), ContentFirst(mem, slots, pos - 1);
    if KeysApartFirst(mem, slots, pos) {
      ContentApart(mem, slots, pos - 1, part);
    }
    if Apart(before, part) {
      forall e | e in ValuesOf(mem) ensures e in before { ContentIs(mem, slots, pos - 1, e); }
      forall i, e | 0 <= i < pos - 1 && e in PartOf(slots[i]) ensures e in before { ContentIs(mem, slots, pos - 1, e); }
    }
  }

  lemma NoDuplicatesMore(lists: seq<seq<Entry>>, more: seq<Entry>, all: set<Entry>)
    requires forall e :: InSome(lists, e) <==> e in all
    ensures NoDuplicates(lists + [more]) <==> NoDuplicates(lists) && Apart(all, SetOf(more))
  {
    var lists' := lists + [more];
    if NoDuplicates(lists') {
      forall e, f | e in all && f in SetOf(more) ensures e.key != f.key {
        assert InSome(lists, e);
        var i :| 0 <= i < |lists| && e in lists[i];
        assert e in lists'[i] && f in lists'[|lists|];
      }
      forall i, j, e: Entry, f: Entry | 0 <= i < j < |lists| && e in lists[i] && f in lists[j] ensures e.key != f.key {
        assert e in lists'[i] && f in lists'[j];
      }
    }
    if NoDuplicates(lists) && Apart(all, SetOf(more)) {
      forall i, j, e: Entry, f: Entry | 0 <= i < j < |lists'| && e in lists'[i] && f in lists'[j] ensures e.key != f.key {
        assert e in lists[i] && InSome(lists, e);
        if j == |lists| { assert f in SetOf(more); }
      }
    }
  }

  // ---------------------------------------------------------------------------
  // Why writing or merging the parts can fail
  // ---------------------------------------------------------------------------

  /** The memory is part -1. */
  ghost function PartAt(mem: map<Key, Entry>, slots: seq<Slot>, n: int): set<Entry>
    requires -1 <= n < |slots|
  {
    if n < 0 then ValuesOf(mem) else PartOf(slots[n])
  }

  ghost predicate KeyTwice(mem: map<Key, Entry>, slots: seq<Slot>, pos: nat, k: Key)
    requires pos <= |slots|
  {
    exists m, n :: -1 <= m < n < pos && k in KeysIn(PartAt(mem, slots, m)) && k in KeysIn(PartAt(mem, slots, n))
  }

  ghost predicate Misfit(entries: set<Entry>, k: Key, room: Room) {
    exists e :: e in entries && e.key == k && !room.FitsAlone(e)
  }

  /** The error names a key that two of the parts hold, or an entry of theirs that may not fit a page of its own. */
  ghost predicate Justified(error: Error, mem: map<Key, Entry>, slots: seq<Slot>, pos: nat, room: Room)
    requires pos <= |slots|
  {
    match error
    case BadIndexDuplicateKey(k) => KeyTwice(mem, slots, pos, k)
    case BadIndexKey(k) => Misfit(ContentFirst(mem, slots, pos), k, room)
    case BadIndexValue => false
  }

  lemma JustifiedInAll(error: Error, mem: map<Key, Entry>, slots: seq<Slot>, pos: nat, room: Room)
    requires pos <= |slots| && Justified(error, mem, slots, pos, room)
    ensures Justified(error, mem, slots, |slots|, room)
  {
    hide PartOf, KeysIn, ValuesOf;
    if error.BadIndexKey? {
      var e :| e in ContentFirst(mem, slots, pos) && e.key == error.key && !room.FitsAlone(e);
      ContentIs(mem, slots, pos, e);
      ContentIs(mem, slots, |slots|, e);
    }
  }

  lemma OnlyMisfits(error: Error, mem: map<Key, Entry>, slots: seq<Slot>, room: Room)
    requires Justified(error, mem, slots, |slots|, room) && KeysApart(mem, slots)
    ensures error.BadIndexKey? && exists e :: e in Content(mem, slots) && e.key == error.key && !room.FitsAlone(e)
  {
    hide KeyTwice, ContentFirst, KeysApartFirst;
    forall k ensures !KeyTwice(mem, slots, |slots|, k) { DistinctIsOnce(mem, slots, |slots|, k); }
  }

  lemma DistinctIsOnce(mem: map<Key, Entry>, slots: seq<Slot>, pos: nat, k: Key)
    requires pos <= |slots|
    ensures KeyTwice(mem, slots, pos, k) ==> !KeysApartFirst(mem, slots, pos)
  {
    hide PartOf, ValuesOf;
    if m, n :| -1 <= m < n < pos && k in KeysIn(PartAt(mem, slots, m)) && k in KeysIn(PartAt(mem, slots, n)) {
      assert !Apart(PartAt(mem, slots, m), PartAt(mem, slots, n));
    }
  }

  /** A key that is in two of the streams is in two of the parts. */
  lemma {:induction false} TwiceInParts(mem: map<Key, Entry>, list: seq<Entry>, slots: seq<Slot>, pos: nat, k: Key)
    requires pos <= |slots| && MemStream(mem, list) && SlotsSorted(slots) && InTwo(Streams(list, slots, pos), k)
    ensures KeyTwice(mem, slots, pos, k)
  {
    hide PartOf, ValuesOf, MemStream, SlotsSorted, KeysIn, StreamsAre, InTwo, InSome, KeyTwice;
    if pos == 0 {
      OnceInOne(list, k);
    } else {
      StreamsHold(mem, list, slots, pos - 1);
      if InTwo(Streams(list, slots, pos - 1), k) {
        TwiceInParts(mem, list, slots, pos - 1, k);
        TwiceStays(mem, slots, pos, k);
      } else {
        TwiceInLast(mem, list, slots, pos, k);
      }
    }
  }

  lemma OnceInOne(list: seq<Entry>, k: Key)
    ensures !InTwo([list], k)
  {
  }

  lemma TwiceStays(mem: map<Key, Entry>, slots: seq<Slot>, pos: nat, k: Key)
    requires 0 < pos <= |slots| && KeyTwice(mem, slots, pos - 1, k)
    ensures KeyTwice(mem, slots, pos, k)
  {
    hide PartOf, ValuesOf, KeysIn;
  }

  lemma TwiceInLast(mem: map<Key, Entry>, list: seq<Entry>, slots: seq<Slot>, pos: nat, k: Key)
    requires 0 < pos <= |slots| && StreamsAre(mem, list, slots, pos - 1)
    requires InTwo(Streams(list, slots, pos), k) && !InTwo(Streams(list, slots, pos - 1), k)
    ensures KeyTwice(mem, slots, pos, k)
  {
    hide StreamsAre, KeyTwice, KeysIn, ContentFirst, AllSorted, Streams, PartOf;
    var before := Streams(list, slots, pos - 1);
    var e, f := TwiceLast(list, slots, pos, k);
    StreamContent(mem, list, slots, pos - 1, e);
    TwiceFound(mem, slots, pos, e, f);
  }

  lemma TwiceLast(list: seq<Entry>, slots: seq<Slot>, pos: nat, k: Key) returns (e: Entry, f: Entry)
    requires 0 < pos <= |slots|
    requires InTwo(Streams(list, slots, pos), k) && !InTwo(Streams(list, slots, pos - 1), k)
    ensures InSome(Streams(list, slots, pos - 1), e) && f in PartOf(slots[pos - 1]) && e.key == f.key == k
  {
    var before, all := Streams(list, slots, pos - 1), Streams(list, slots, pos);
    hide Streams, PartOf, InSome, InTwo;
    LastStream(list, slots, pos);
    SomeStream(before);
    var i, j;
    i, j, e, f := WhichTwo(all, k);
    TwiceAlready(before, all, i, j, e, f);
  }

  lemma WhichTwo(lists: seq<seq<Entry>>, k: Key) returns (i: nat, j: nat, e: Entry, f: Entry)
    requires InTwo(lists, k)
    ensures i < j < |lists| && e in lists[i] && f in lists[j] && e.key == f.key == k
  {
    var m, n, x: Entry, y: Entry :| 0 <= m < n < |lists| && x in lists[m] && y in lists[n] && x.key == y.key == k;
    i, j, e, f := m, n, x, y;
  }

  lemma SomeStream(lists: seq<seq<Entry>>)
    ensures forall i: nat, e :: i < |lists| && e in lists[i] ==> InSome(lists, e)
  {
  }

  lemma TwiceAlready(before: seq<seq<Entry>>, all: seq<seq<Entry>>, i: nat, j: nat, x: Entry, y: Entry)
    requires |before| <= |all| && i < j < |all| && x in all[i] && y in all[j] && x.key == y.key
    requires forall n :: 0 <= n < |before| ==> all[n] == before[n]
    ensures j < |before| ==> InTwo(before, x.key)
  {
  }

  lemma LastStream(list: seq<Entry>, slots: seq<Slot>, pos: nat)
    requires 0 < pos <= |slots|
    ensures var before, all := Streams(list, slots, pos - 1), Streams(list, slots, pos);
            && (slots[pos - 1].None? ==> all == before)
            && (slots[pos - 1].Some? ==>
                  |all| == |before| + 1 && (forall i :: 0 <= i < |before| ==> all[i] == before[i])
                  && forall f :: f in all[|before|] ==> f in PartOf(slots[pos - 1]))
  {
  }

  lemma StreamContent(mem: map<Key, Entry>, list: seq<Entry>, slots: seq<Slot>, pos: nat, e: Entry)
    requires pos <= |slots| && StreamsAre(mem, list, slots, pos)
    ensures InSome(Streams(list, slots, pos), e) <==> e in ContentFirst(mem, slots, pos)
  {
    hide InSome, ContentFirst;
  }

  lemma TwiceFound(mem: map<Key, Entry>, slots: seq<Slot>, pos: nat, e: Entry, f: Entry)
    requires 0 < pos <= |slots| && e in ContentFirst(mem, slots, pos - 1) && f in PartOf(slots[pos - 1]) && e.key == f.key
    ensures KeyTwice(mem, slots, pos, e.key)
  {
    hide PartOf, ValuesOf, ContentFirst;
    ContentIs(mem, slots, pos - 1, e);
    var m: int := -1;
    if e !in ValuesOf(mem) { m :| 0 <= m < pos - 1 && e in PartOf(slots[m]); }
    assert e in PartAt(mem, slots, m) && f in PartAt(mem, slots, pos - 1);
    assert e.key in KeysIn(PartAt(mem, slots, m)) && e.key in KeysIn(PartAt(mem, slots, pos - 1));
  }

  // ---------------------------------------------------------------------------
  // After a spill
  // ---------------------------------------------------------------------------

  /** The new index has taken over the memory and the slots before pos. */
  ghost predicate TakesOver(mem: map<Key, Entry>, slots: seq<Slot>, pos: nat, index: BTreeGraphIndex) {
    pos <= |slots| && SetOf(index.entries) == ContentFirst(mem, slots, pos)
  }

  lemma ContentAfterCarry(mem: map<Key, Entry>, slots: seq<Slot>, pos: nat, index: BTreeGraphIndex)
    requires TakesOver(mem, slots, pos, index) && FirstFree(slots, pos)
    ensures Content(map[], Carried(slots, pos, index)) == Content(mem, slots)
  {
    hide FirstFree;
    var after := Carried(slots, pos, index);
    CarriedAt(slots, pos, index);
    FirstFreeIs(slots, pos);
    var none: map<Key, Entry> := map[];
    forall e ensures e in Content(none, after) <==> e in Content(mem, slots) {
      ContentIs(mem, slots, pos, e);
      ContentIs(mem, slots, |slots|, e);
      ContentIs(none, after, |after|, e);
      assert e in ValuesOf(none) <==> false;
      if i :| 0 <= i < |after| && e in PartOf(after[i]) {
        assert i >= pos;
        if i == pos { assert e in SetOf(index.entries); } else { assert e in PartOf(slots[i]); }
      }
      if e in Content(mem, slots) {
        if e in ContentFirst(mem, slots, pos) {
          assert e in PartOf(after[pos]);
        } else {
          var i :| 0 <= i < |slots| && e in PartOf(slots[i]);
          assert i != pos && i > pos && after[i] == slots[i];
        }
      }
    }
  }

  lemma FirstFreeIs(slots: seq<Slot>, pos: nat)
    requires FirstFree(slots, pos)
    ensures pos <= |slots| && (pos < |slots| ==> slots[pos].None?)
  {
  }

  lemma DistinctAfterCarry(mem: map<Key, Entry>, slots: seq<Slot>, pos: nat, index: BTreeGraphIndex)
    requires TakesOver(mem, slots, pos, index) && FirstFree(slots, pos) && KeysApart(mem, slots)
    ensures KeysApart(map[], Carried(slots, pos, index))
  {
    hide FirstFree, PartOf;
    var after := Carried(slots, pos, index);
    CarriedAt(slots, pos, index);
    var none: map<Key, Entry> := map[];
    assert ValuesOf(none) == {};
    EmptyParts(index);
    forall i, j | 0 <= i < j < |after| ensures Apart(PartOf(after[i]), PartOf(after[j])) {
      if i == pos {
        ContentApart(mem, slots, pos, PartOf(slots[j]));
      } else if i > pos {
        assert Apart(PartOf(slots[i]), PartOf(slots[j]));
      }
    }
  }

  lemma EmptyParts(index: BTreeGraphIndex)
    ensures PartOf(None) == {} && PartOf(Some(index)) == SetOf(index.entries)
  {
  }

  /** Without combining, the memory becomes one more index. */
  lemma AppendedContent(mem: map<Key, Entry>, slots: seq<Slot>, index: BTreeGraphIndex)
    requires SetOf(index.entries) == ValuesOf(mem)
    ensures Content(map[], slots + [Some(index)]) == Content(mem, slots)
    ensures KeysApart(mem, slots) ==> KeysApart(map[], slots + [Some(index)])
  {
    hide PartOf;
    var after, none: map<Key, Entry> := slots + [Some(index)], map[];
    EmptyParts(index);
    assert ValuesOf(none) == {};
    forall e ensures e in Content(none, after) <==> e in Content(mem, slots) {
      ContentIs(mem, slots, |slots|, e);
      ContentIs(none, after, |after|, e);
      if e in ValuesOf(mem) { assert e in PartOf(after[|slots|]); }
      if i :| 0 <= i < |slots| && e in PartOf(slots[i]) { assert e in PartOf(after[i]); }
    }
    if KeysApart(mem, slots) {
      forall i, j | 0 <= i < j < |after| ensures Apart(PartOf(after[i]), PartOf(after[j])) {
        if j == |slots| { assert Apart(ValuesOf(mem), PartOf(slots[i])); } else { assert Apart(PartOf(slots[i]), PartOf(slots[j])); }
      }
    }
  }

  // ---------------------------------------------------------------------------
  // The builder
  // ---------------------------------------------------------------------------

  lemma EntriesOfMemory(mem: map<Key, Entry>, keys: seq<Key>, list: seq<Entry>)
    requires KeysMatch(mem) && Ascending(keys) && Lists(keys, mem.Keys) && |list| == |keys|
    requires forall i :: 0 <= i < |keys| ==> keys[i] in mem && list[i] == mem[keys[i]]
    ensures MemStream(mem, list)
  {
    assert forall i :: 0 <= i < |list| ==> list[i].key == keys[i];
    SizeOfSorted(list);
    SizeOfMemory(mem);
    forall e ensures e in SetOf(list) <==> e in ValuesOf(mem) {
      if e in ValuesOf(mem) {
        var k :| k in mem && mem[k] == e;
        assert k in keys;
        var i :| 0 <= i < |keys| && keys[i] == k;
      }
    }
  }

  class BTreeBuilder {
    const referenceLists: nat
    const spillAt: nat
    const combineBackingIndices: bool
    /** The entries that fit any empty leaf, the first of the file with its header included. */
    const room: Room
    var nodes: map<Key, Entry>
    var backingIndices: seq<Slot>

    ghost predicate Valid()
      reads this
    {
      ValidParts(nodes, backingIndices, referenceLists)
    }

    /** All entries, in memory or spilled. */
    ghost function Entries(): set<Entry>
      reads this
    {
      Content(nodes, backingIndices)
    }

    /** No key was added twice. */
    ghost predicate NoKeyTwice()
      reads this
    {
      KeysApart(nodes, backingIndices)
    }

    ghost predicate AllFit()
      reads this
    {
      forall e :: e in Entries() ==> room.FitsAlone(e)
    }

    ghost predicate MayFail(error: Error)
      reads this
    {
      Justified(error, nodes, backingIndices, |backingIndices|, room)
    }

    lemma MayFailIf(error: Error)
      requires MayFail(error)
      ensures NoKeyTwice() ==> error.BadIndexKey? && !AllFit()
    {
      hide KeysApart, Content, Justified;
      if NoKeyTwice() { OnlyMisfits(error, nodes, backingIndices, room); }
    }

    constructor (referenceLists: nat, spillAt: nat, combineBackingIndices: bool, room: Room)
      ensures Valid() && Entries() == {} && NoKeyTwice() && nodes == map[] && backingIndices == []
      ensures this.referenceLists == referenceLists && this.spillAt == spillAt
      ensures this.combineBackingIndices == combineBackingIndices && this.room == room
      ensures InRun()
    {
      this.room := room;
      this.referenceLists := referenceLists;
      this.spillAt := spillAt;
      this.combineBackingIndices := combineBackingIndices;
      nodes := map[];
      backingIndices := [];
      new;
      assert ValuesOf(nodes) == {};
    }

    method IterMemNodes() returns (list: seq<Entry>)
      requires Valid()
      ensures MemStream(nodes, list)
    {
      hide Ascending, Lists;
      var keys := SortedKeys(nodes.Keys);
      list := [];
      for i := 0 to |keys|
        invariant |list| == i && forall j :: 0 <= j < i ==> keys[j] in nodes && list[j] == nodes[keys[j]]
      {
        ListedKey(keys, nodes.Keys, i);
        list := list + [nodes[keys[i]]];
      }
      EntriesOfMemory(nodes, keys, list);
    }

    lemma SlotsAreSorted()
      requires Valid()
      ensures SlotsSorted(backingIndices)
    {
      forall i | 0 <= i < |backingIndices| && backingIndices[i].Some? ensures Sorted(backingIndices[i].value.entries) {
        assert ValidSlot(backingIndices[i], referenceLists);
      }
    }

    /** The streams to merge: memory, and the occupied slots before pos. */
    method CollectStreams(pos: nat) returns (lists: seq<seq<Entry>>, ghost mem: seq<Entry>)
      requires Valid() && pos <= |backingIndices|
      ensures MemStream(nodes, mem) && lists == Streams(mem, backingIndices, pos)
      ensures StreamsAre(nodes, mem, backingIndices, pos)
      ensures NoDuplicates(lists) <==> KeysApartFirst(nodes, backingIndices, pos)
      ensures SlotsSorted(backingIndices)
    {
      hide MemStream, StreamsAre, NoDuplicates, KeysApartFirst, SlotsSorted;
      var list := IterMemNodes();
      mem := list;
      lists := [list];
      for i := 0 to pos
        invariant lists == Streams(mem, backingIndices, i)
      {
        if backingIndices[i].Some? {
          assert ValidSlot(backingIndices[i], referenceLists);
          var more := backingIndices[i].value.IterAllEntries();
          lists := lists + [more];
        } else {
          assert lists + [] == lists;
        }
      }
      SlotsAreSorted();
      StreamsHold(nodes, mem, backingIndices, pos);
      StreamsDistinct(nodes, mem, backingIndices, pos);
    }

    /** Yields every entry once, in key order; an error exactly if some key was added twice. */
    method IterAllEntries() returns (r: Result<seq<Entry>, Error>)
      requires Valid()
      ensures r.Ok? <==> NoKeyTwice()
      ensures r.Ok? ==> Sorted(r.value) && SetOf(r.value) == Entries()
      ensures r.Err? ==> r.error.BadIndexDuplicateKey? && MayFail(r.error)
    {
      hide *;
      var lists, mem := CollectStreams(|backingIndices|);
      StreamsSorted(nodes, mem, backingIndices, |backingIndices|);
      r := IterSmallest(lists);
      if r.Err? {
        TwiceInParts(nodes, mem, backingIndices, |backingIndices|, r.error.key);
        TwiceMayFail(|backingIndices|, r.error);
      }
      if r.Ok? { MergedIsContent(nodes, mem, backingIndices, |backingIndices|, r.value); }
      DistinctMeans();
    }

    lemma TwiceMayFail(pos: nat, error: Error)
      requires pos <= |backingIndices| && error.BadIndexDuplicateKey? && KeyTwice(nodes, backingIndices, pos, error.key)
      ensures Justified(error, nodes, backingIndices, pos, room)
      ensures pos == |backingIndices| ==> MayFail(error)
    {
    }

    lemma MisfitMayFail(pos: nat, list: seq<Entry>, error: Error)
      requires pos <= |backingIndices| && SetOf(list) == ContentFirst(nodes, backingIndices, pos)
      requires TooLarge(error, list, room)
      ensures Justified(error, nodes, backingIndices, pos, room)
      ensures pos == |backingIndices| ==> MayFail(error)
    {
      var i :| 0 <= i < |list| && error.key == list[i].key && !room.FitsAlone(list[i]);
      assert list[i] in SetOf(list);
    }

    lemma DistinctMeans()
      ensures NoKeyTwice() <==> KeysApartFirst(nodes, backingIndices, |backingIndices|)
      ensures Entries() == ContentFirst(nodes, backingIndices, |backingIndices|)
    {
    }

    /** How many entries were kept, repeated keys included. */
    ghost function Kept(): nat
      reads this
    {
      |nodes| + SizeOfFirst(backingIndices, |backingIndices|)
    }

    method KeyCount() returns (count: nat)
      requires Valid()
      ensures count == Kept()
      ensures NoKeyTwice() ==> count == |Entries()|
    {
      hide Apart, Sorted, SlotsSorted;
      count := |nodes|;
      for i := 0 to |backingIndices|
        invariant count == |nodes| + SizeOfFirst(backingIndices, i)
      {
        SizeFromBack(backingIndices, i);
        if backingIndices[i].Some? {
          assert ValidSlot(backingIndices[i], referenceLists);
          count := count + backingIndices[i].value.KeyCount();
        }
      }
      SlotsAreSorted();
      if NoKeyTwice() { ContentSize(nodes, backingIndices, |backingIndices|); }
    }

    /** The index for all that was added. */
    method Finish() returns (r: Result<TreeFile, Error>)
      requires Valid()
      ensures r.Ok? ==> NoKeyTwice() && exists entries :: IsIndex(r.value, entries) && Sorted(entries) && SetOf(entries) == Entries()
      ensures r.Ok? ==> IsFileFor(room, referenceLists, Entries(), r.value)
      ensures r.Err? ==> MayFail(r.error)
      ensures NoKeyTwice() && AllFit() ==> r.Ok?
    {
      hide *;
      var all := IterAllEntries();
      if all.Err? {
        MayFailIf(all.error);
        return Err(all.error);
      }
      RefsOfContent(all.value);
      r := WriteNodes(all.value, referenceLists, room, true);
      if r.Ok? {
        FinishedIsFile(room, referenceLists, all.value, r.value);
      } else {
        DistinctMeans();
        MisfitMayFail(|backingIndices|, all.value, r.error);
        MayFailIf(r.error);
      }
    }

    lemma RefsOfContent(list: seq<Entry>)
      requires Valid() && SetOf(list) == Entries()
      ensures forall i :: 0 <= i < |list| ==> |list[i].refs| == referenceLists
    {
      forall i | 0 <= i < |list| ensures |list[i].refs| == referenceLists {
        assert list[i] in SetOf(list);
        RefsInside(list[i]);
      }
    }

    lemma RefsInside(e: Entry)
      requires Valid() && e in Entries()
      ensures |e.refs| == referenceLists
    {
      ContentIs(nodes, backingIndices, |backingIndices|, e);
      if i :| 0 <= i < |backingIndices| && e in PartOf(backingIndices[i]) {
        assert ValidSlot(backingIndices[i], referenceLists);
        var index := backingIndices[i].value;
        var n :| 0 <= n < |index.entries| && index.entries[n] == e;
      } else {
        var k :| k in nodes && nodes[k] == e;
      }
    }

    // -------------------------------------------------------------------------
    // Spilling
    // -------------------------------------------------------------------------

    /** How many entries one spill writes. */
    function Chunk(): (size: nat)
      ensures size > 0
    {
      if spillAt == 0 then 1 else spillAt
    }

    /** The state after n spills none of which failed. */
    ghost predicate Spilled(n: nat)
      reads this
    {
      |nodes| < Chunk() && HoldsSpills(combineBackingIndices, backingIndices, n, Chunk())
    }

    ghost function Spills(n: nat): nat {
      n / Chunk()
    }

    ghost function Unspilled(n: nat): nat {
      n % Chunk()
    }

    /** No failure so far: all entries have keys of their own and fit, each full chunk of them was spilled
        and the rest is in memory. */
    ghost predicate InRun()
      reads this
    {
      && Valid() && NoKeyTwice() && AllFit()
      && |nodes| == Unspilled(|Entries()|) && Spilled(Spills(|Entries()|))
    }

    /** What a run without failure looks like, in terms of the limit alone: the memory holds what is left of
        the entries, and with combining slot i is occupied exactly if bit i of the number of full chunks is set. */
    lemma RunIs()
      requires InRun()
      ensures spillAt > 0 ==> |nodes| == |Entries()| % spillAt
      ensures spillAt > 0 && combineBackingIndices ==>
                forall i: nat :: i < |backingIndices| ==>
                  && (backingIndices[i].Some? <==> Shifted(|Entries()| / spillAt, i) % 2 == 1)
                  && (backingIndices[i].Some? ==> |backingIndices[i].value.entries| == spillAt * Power2(i))
      ensures spillAt > 0 && !combineBackingIndices ==>
                && |backingIndices| == |Entries()| / spillAt
                && forall i :: 0 <= i < |backingIndices| ==>
                     backingIndices[i].Some? && |backingIndices[i].value.entries| == spillAt
      ensures spillAt == 0 ==> nodes == map[]
    {
      hide Entries, Valid, NoKeyTwice, AllFit, IsCounter, Shifted, Power2;
      if combineBackingIndices && spillAt > 0 {
        forall i: nat | i < |backingIndices|
          ensures Bit(backingIndices[i], Shifted(|Entries()| / spillAt, i) % 2 == 1, spillAt * Power2(i))
        {
          CounterAt(backingIndices, |Entries()| / spillAt, spillAt, i);
        }
      }
    }

    method FirstFreeSlot() returns (pos: nat)
      ensures FirstFree(backingIndices, pos)
    {
      pos := 0;
      while pos < |backingIndices| && backingIndices[pos].Some?
        invariant pos <= |backingIndices| && forall i :: 0 <= i < pos ==> backingIndices[i].Some?
      {
        pos := pos + 1;
      }
    }

    /** Memory and the slots before pos written out as one index. */
    method WriteMerged(pos: nat) returns (r: Result<BTreeGraphIndex, Error>)
      requires Valid() && pos <= |backingIndices|
      ensures r.Ok? ==> ValidSlot(Some(r.value), referenceLists) && TakesOver(nodes, backingIndices, pos, r.value)
      ensures r.Ok? ==> |r.value.entries| == |nodes| + SizeOfFirst(backingIndices, pos)
      ensures r.Err? ==> Justified(r.error, nodes, backingIndices, pos, room)
    {
      hide *;
      var lists, mem := CollectStreams(pos);
      StreamsSorted(nodes, mem, backingIndices, pos);
      var merged := IterSmallest(lists);
      if merged.Err? {
        TwiceInParts(nodes, mem, backingIndices, pos, merged.error.key);
        TwiceMayFail(pos, merged.error);
        return Err(merged.error);
      }
      MergedIsContent(nodes, mem, backingIndices, pos, merged.value);
      RefsOfPart(merged.value, pos);
      var file := WriteNodes(merged.value, referenceLists, room, false);
      if file.Err? {
        MisfitMayFail(pos, merged.value, file.error);
        return Err(file.error);
      }
      var index := new BTreeGraphIndex(file.value, merged.value);
      TakenOver(nodes, backingIndices, pos, index);
      NewSlotIsValid(index, referenceLists);
      return Ok(index);
    }

    lemma RefsOfPart(list: seq<Entry>, pos: nat)
      requires Valid() && pos <= |backingIndices| && SetOf(list) == ContentFirst(nodes, backingIndices, pos)
      ensures forall i :: 0 <= i < |list| ==> |list[i].refs| == referenceLists
    {
      forall i | 0 <= i < |list| ensures |list[i].refs| == referenceLists {
        assert list[i] in SetOf(list);
        ContentIs(nodes, backingIndices, pos, list[i]);
        ContentIs(nodes, backingIndices, |backingIndices|, list[i]);
        RefsInside(list[i]);
      }
    }

    /** Empties the memory into a backing index, combining it with the first indices there are. */
    method SpillMemKeysToDisk() returns (r: Result<(), Error>)
      requires Valid()
      modifies this`nodes, this`backingIndices
      ensures Valid()
      ensures r.Ok? ==> nodes == map[] && Entries() == old(Entries()) && (old(NoKeyTwice()) ==> NoKeyTwice())
      ensures r.Ok? ==> Kept() == old(Kept())
      ensures r.Ok? ==>
                forall n: nat :: HoldsSpills(combineBackingIndices, old(backingIndices), n, |old(nodes)|) ==>
                HoldsSpills(combineBackingIndices, backingIndices, n + 1, |old(nodes)|)
      ensures r.Err? ==> nodes == old(nodes) && backingIndices == old(backingIndices) && MayFail(r.error)
      ensures old(NoKeyTwice() && AllFit()) ==> r.Ok?
    {
      hide Content, KeysApart, HoldsSpills, ValidParts, Carried, FirstFree, TakesOver, SizeOfFirst, ValuesOf, ValidSlot, ContentFirst, Justified, MayFail, AllFit;
      ghost var mem, slots := nodes, backingIndices;
      var pos: nat := 0;
      if combineBackingIndices {
        pos := FirstFreeSlot();
        FirstFreeIs(backingIndices, pos);
      }
      var written := WriteMerged(pos);
      if written.Err? {
        JustifiedInAll(written.error, nodes, backingIndices, pos, room);
        MeansMayFail(written.error);
        MayFailIf(written.error);
        return Err(written.error);
      }
      var index := written.value;
      forall n: nat | HoldsSpills(combineBackingIndices, slots, n, |mem|)
        ensures HoldsSpills(combineBackingIndices, if combineBackingIndices then Carried(slots, pos, index) else slots + [Some(index)], n + 1, |mem|)
      {
        HoldsOneMore(combineBackingIndices, slots, n, |mem|, pos, index);
      }
      AfterSpill(pos, index);
      backingIndices := if combineBackingIndices then Carried(backingIndices, pos, index) else backingIndices + [Some(index)];
      nodes := map[];
      return Ok(());
    }

    lemma MeansMayFail(error: Error)
      requires Justified(error, nodes, backingIndices, |backingIndices|, room)
      ensures MayFail(error)
    {
    }

    /** Nothing is lost or doubled when the index replaces the memory and the first indices. */
    lemma AfterSpill(pos: nat, index: BTreeGraphIndex)
      requires pos <= |backingIndices| && Valid() && ValidSlot(Some(index), referenceLists) && TakesOver(nodes, backingIndices, pos, index)
      requires if combineBackingIndices then FirstFree(backingIndices, pos) else pos == 0
      ensures var slots := if combineBackingIndices then Carried(backingIndices, pos, index) else backingIndices + [Some(index)];
              && ValidParts(map[], slots, referenceLists) && Content(map[], slots) == Entries()
              && (NoKeyTwice() ==> KeysApart(map[], slots))
              && (|index.entries| == |nodes| + SizeOfFirst(backingIndices, pos) ==> SizeOfFirst(slots, |slots|) == Kept())
    {
      hide Content, KeysApart, ValidParts, Carried, FirstFree, TakesOver, ValuesOf, ValidSlot, ContentFirst;
      var fits := |index.entries| == |nodes| + SizeOfFirst(backingIndices, pos);
      if combineBackingIndices {
        FirstFreeIs(backingIndices, pos);
        ContentAfterCarry(nodes, backingIndices, pos, index);
        if NoKeyTwice() { DistinctAfterCarry(nodes, backingIndices, pos, index); }
        StillValidCarried(nodes, backingIndices, pos, index, referenceLists);
        if fits { SizeAfterCarry(backingIndices, pos, index, |nodes|); }
      } else {
        SizeAfterAppend(backingIndices, index);
        TakenMemory(nodes, backingIndices, index);
        AppendedContent(nodes, backingIndices, index);
        StillValidAppended(nodes, backingIndices, index, referenceLists);
      }
    }

    // -------------------------------------------------------------------------
    // Adding and finding
    // -------------------------------------------------------------------------

    /** A key that is in memory is refused; a key that was spilled is not noticed until a merge meets it.
        The entry is kept; the memory is spilled when it has reached its limit.  An entry with a new key
        that fits, after others like it, never fails. */
    method AddNode(key: Key, value: string, refs: seq<seq<Key>>) returns (r: Result<(), Error>)
      requires Valid()
      modifies this`nodes, this`backingIndices
      ensures Valid()
      ensures |refs| != referenceLists ==> r == Err(BadIndexValue)
      ensures |refs| == referenceLists && key in old(nodes) ==> r == Err(BadIndexDuplicateKey(key))
      ensures |refs| != referenceLists || key in old(nodes) ==> nodes == old(nodes) && backingIndices == old(backingIndices)
      ensures |refs| == referenceLists && key !in old(nodes) ==>
                Entries() == old(Entries()) + {Entry(key, value, refs)} && Kept() == old(Kept()) + 1
      ensures r.Err? && |refs| == referenceLists && key !in old(nodes) ==>
                nodes == old(nodes)[key := Entry(key, value, refs)] && backingIndices == old(backingIndices) && MayFail(r.error)
      ensures old(NoKeyTwice() && key !in KeysIn(Entries())) ==> NoKeyTwice() && (r.Err? ==> r.error.BadIndexKey? || r.error == BadIndexValue)
      ensures r.Ok? && |old(nodes)| + 1 >= spillAt ==> nodes == map[]
      ensures r.Ok? && |old(nodes)| + 1 < spillAt ==>
                nodes == old(nodes)[key := Entry(key, value, refs)] && backingIndices == old(backingIndices)
      ensures r.Ok? ==> forall n: nat :: old(Spilled(n)) ==> Spilled(if |old(nodes)| + 1 < Chunk() then n else n + 1)
      ensures old(InRun() && IsNew(Entry(key, value, refs))) ==> r.Ok? && InRun()
    {
      hide *;
      var e := Entry(key, value, refs);
      NewMeans(e);
      if |refs| != referenceLists {
        return Err(BadIndexValue);
      }
      if key in nodes {
        KeyTaken(key);
        return Err(BadIndexDuplicateKey(key));
      }
      ghost var run, had := InRun() && IsNew(e), Entries();
      if run { NewInRun(e); }
      r := KeepNode(e);
      if run { RunGoesOn(had, e); }
    }

    /** Keeps a new entry and spills the memory if it has reached its limit. */
    method KeepNode(e: Entry) returns (r: Result<(), Error>)
      requires Valid() && e.key !in nodes && |e.refs| == referenceLists
      modifies this`nodes, this`backingIndices
      ensures Valid() && Entries() == old(Entries()) + {e} && Kept() == old(Kept()) + 1
      ensures r.Err? ==> MayFail(r.error)
      ensures r.Err? || |old(nodes)| + 1 < spillAt ==> nodes == old(nodes)[e.key := e] && backingIndices == old(backingIndices)
      ensures r.Ok? && |old(nodes)| + 1 >= spillAt ==> nodes == map[]
      ensures r.Ok? ==> |nodes| == if |old(nodes)| + 1 < Chunk() then |old(nodes)| + 1 else 0
      ensures old(NoKeyTwice() && e.key !in KeysIn(Entries())) ==> NoKeyTwice() && (r.Err? ==> r.error.BadIndexKey?)
      ensures old(NoKeyTwice() && AllFit() && IsNew(e)) ==> r.Ok? && AllFit()
      ensures r.Ok? ==> forall n: nat :: old(Spilled(n)) ==> Spilled(if |old(nodes)| + 1 < Chunk() then n else n + 1)
    {
      hide *;
      SpilledIs();
      NewMeans(e);
      nodes := nodes[e.key := e];
      Entered(e);
      StillFitting(e);
      r := SpillIfFull();
      StillFitting(e);
    }

    lemma KeyTaken(key: Key)
      requires Valid() && key in nodes
      ensures key in KeysIn(Entries())
    {
      hide KeysIn, Content, ValidParts;
      OldKeyIsIn(nodes, backingIndices, referenceLists, key);
    }

    lemma SpilledIs()
      ensures forall n: nat :: Spilled(n) <==> |nodes| < Chunk() && HoldsSpills(combineBackingIndices, backingIndices, n, Chunk())
    {
    }

    twostate lemma Entered(e: Entry)
      requires old(Valid()) && e.key !in old(nodes) && |e.refs| == referenceLists
      requires nodes == old(nodes)[e.key := e] && backingIndices == old(backingIndices)
      ensures Valid() && Entries() == old(Entries()) + {e} && Kept() == old(Kept()) + 1 && |nodes| == |old(nodes)| + 1
      ensures old(NoKeyTwice() && e.key !in KeysIn(Entries())) ==> NoKeyTwice()
    {
      hide KeysIn, Content, KeysApart, ValidParts;
      OneMoreEntry(old(nodes), backingIndices, referenceLists, e);
    }

    /** Spills the memory if it has reached its limit. */
    method SpillIfFull() returns (r: Result<(), Error>)
      requires Valid() && nodes != map[]
      modifies this`nodes, this`backingIndices
      ensures Valid() && Entries() == old(Entries()) && Kept() == old(Kept()) && (old(NoKeyTwice()) ==> NoKeyTwice())
      ensures r.Ok? && |old(nodes)| >= spillAt ==> nodes == map[]
      ensures |old(nodes)| < spillAt ==> r.Ok?
      ensures r.Ok? ==> |nodes| == if |old(nodes)| < Chunk() then |old(nodes)| else 0
      ensures r.Err? || |old(nodes)| < spillAt ==> nodes == old(nodes) && backingIndices == old(backingIndices)
      ensures r.Err? ==> MayFail(r.error) && (old(NoKeyTwice()) ==> r.error.BadIndexKey?)
      ensures old(NoKeyTwice() && AllFit()) ==> r.Ok?
      ensures r.Ok? && |old(nodes)| <= Chunk() ==>
                forall n: nat :: HoldsSpills(combineBackingIndices, old(backingIndices), n, Chunk()) ==>
                Spilled(if |old(nodes)| < Chunk() then n else n + 1)
    {
      hide Content, KeysApart, HoldsSpills, ValidParts, Justified, AllFit, SizeOfFirst;
      if |nodes| < spillAt {
        return Ok(());
      }
      r := SpillMemKeysToDisk();
      if r.Err? { MayFailIf(r.error); }
    }

    lemma NewMeans(e: Entry)
      ensures IsNew(e) ==> |e.refs| == referenceLists && e.key !in KeysIn(Entries())
    {
    }

    ghost predicate IsNewTo(had: set<Entry>, e: Entry) {
      |e.refs| == referenceLists && room.FitsAlone(e) && e.key !in KeysIn(had)
    }

    ghost predicate IsNew(e: Entry)
      reads this
    {
      IsNewTo(Entries(), e)
    }

    twostate lemma StillFitting(e: Entry)
      requires Entries() == old(Entries()) + {e}
      ensures old(AllFit() && IsNew(e)) ==> AllFit()
    {
      hide Content;
    }

    lemma NewInRun(e: Entry)
      requires InRun() && IsNew(e)
      ensures NoKeyTwice() && AllFit() && e.key !in KeysIn(Entries()) && IsNewTo(Entries(), e)
      ensures |nodes| == Unspilled(|Entries()|) && Spilled(Spills(|Entries()|)) && Unspilled(|Entries()|) < Chunk()
    {
      hide AllFit, NoKeyTwice, KeysIn, Spills;
    }

    lemma RunGoesOn(had: set<Entry>, e: Entry)
      requires Valid() && NoKeyTwice() && AllFit() && Entries() == had + {e} && IsNewTo(had, e)
      requires var rest := Unspilled(|had|) + 1;
               && |nodes| == (if rest < Chunk() then rest else 0)
               && Spilled(if rest < Chunk() then Spills(|had|) else Spills(|had|) + 1)
      ensures InRun()
    {
      hide Entries, NoKeyTwice, Spilled, Valid, AllFit, KeysIn, Unspilled, Spills;
      KeyIsNew(had, e);
      NextSpill(|had|);
    }

    lemma NextSpill(n: nat)
      ensures var rest := Unspilled(n) + 1;
              && rest <= Chunk()
              && Unspilled(n + 1) == (if rest < Chunk() then rest else 0)
              && Spills(n + 1) == (if rest < Chunk() then Spills(n) else Spills(n) + 1)
    {
      NextQuotient(n, Chunk());
    }

    /** Adds many entries and stops at the first that is refused or cannot be written. */
    method AddNodes(list: seq<Entry>) returns (r: Result<(), Error>)
      requires Valid()
      modifies this`nodes, this`backingIndices
      ensures Valid()
      ensures r.Ok? ==> Entries() == old(Entries()) + SetOf(list)
      ensures r.Err? ==> exists i :: 0 <= i <= |list| && Entries() == old(Entries()) + SetOf(list[..i])
      ensures old(InRun()) && AllNewTo(old(Entries()), list) ==> r.Ok? && InRun() && |Entries()| == old(|Entries()|) + |list|
    {
      hide *;
      ghost var had, run := Entries(), InRun();
      NothingAdded(had, list, run);
      for i := 0 to |list|
        invariant Valid() && Added(had, list, run, i)
      {
        ghost var before := Entries();
        BeforeNext(had, list, run, i);
        r := AddNode(list[i].key, list[i].value, list[i].refs);
        if r.Err? {
          StoppedAt(had, list, run, i, before);
          return;
        }
        AfterNext(had, list, run, i, before);
      }
      AllAdded(had, list, run);
      return Ok(());
    }

    /** The first i entries of the list were added to those there were. */
    ghost predicate Added(had: set<Entry>, list: seq<Entry>, run: bool, i: nat)
      reads this
    {
      && i <= |list| && Entries() == had + SetOf(list[..i])
      && (run && AllNewTo(had, list) ==> InRun() && |Entries()| == |had| + i)
    }

    lemma NothingAdded(had: set<Entry>, list: seq<Entry>, run: bool)
      requires had == Entries() && run == InRun()
      ensures Added(had, list, run, 0)
    {
      hide Entries, InRun, AllNewTo;
      assert list[..0] == [];
      SetOfMore([], []);
    }

    lemma BeforeNext(had: set<Entry>, list: seq<Entry>, run: bool, i: nat)
      requires Added(had, list, run, i) && i < |list|
      ensures Entries() == had + SetOf(list[..i]) && list[i] == Entry(list[i].key, list[i].value, list[i].refs)
      ensures run && AllNewTo(had, list) ==>
                InRun() && IsNew(list[i]) && IsNewTo(Entries(), list[i]) && |Entries()| == |had| + i
    {
      hide Entries, InRun, AllNewTo, IsNewTo;
      if AllNewTo(had, list) { NextIsNew(had, list, i); }
    }

    lemma AfterNext(had: set<Entry>, list: seq<Entry>, run: bool, i: nat, before: set<Entry>)
      requires i < |list| && before == had + SetOf(list[..i]) && Entries() == before + {list[i]}
      requires run && AllNewTo(had, list) ==> InRun() && |before| == |had| + i && IsNewTo(before, list[i])
      ensures Added(had, list, run, i + 1)
    {
      hide Entries, InRun, AllNewTo, KeysIn;
      assert list[..i + 1] == list[..i] + [list[i]];
      SetOfMore(list[..i], [list[i]]);
      if run && AllNewTo(had, list) { KeyIsNew(before, list[i]); }
    }

    lemma StoppedAt(had: set<Entry>, list: seq<Entry>, run: bool, i: nat, before: set<Entry>)
      requires i < |list| && before == had + SetOf(list[..i])
      requires Entries() == before || Entries() == before + {list[i]}
      ensures exists n :: 0 <= n <= |list| && Entries() == had + SetOf(list[..n])
    {
      hide Entries, SetOf;
      assert list[..i + 1] == list[..i] + [list[i]];
      SetOfMore(list[..i], [list[i]]);
      assert Entries() == had + SetOf(list[..i]) || Entries() == had + SetOf(list[..i + 1]);
    }

    lemma AllAdded(had: set<Entry>, list: seq<Entry>, run: bool)
      requires Added(had, list, run, |list|)
      ensures Entries() == had + SetOf(list)
      ensures run && AllNewTo(had, list) ==> InRun() && |Entries()| == |had| + |list|
    {
      hide Entries, InRun, AllNewTo, SetOf;
      assert list[..|list|] == list;
    }

    /** Every entry of the list is new, also to the others. */
    ghost predicate AllNewTo(had: set<Entry>, list: seq<Entry>) {
      && (forall i :: 0 <= i < |list| ==> IsNewTo(had, list[i]))
      && forall i, j :: 0 <= i < j < |list| ==> list[i].key != list[j].key
    }

    lemma NextIsNew(had: set<Entry>, list: seq<Entry>, i: nat)
      requires i < |list| && AllNewTo(had, list) && Entries() == had + SetOf(list[..i])
      ensures IsNew(list[i])
    {
      hide Entries;
      assert IsNewTo(had, list[i]);
    }

    /** The stored entries for these keys: memory first, then the backing indices. */
    method IterEntries(keys: set<Key>) returns (found: seq<Entry>)
      requires Valid()
      ensures forall e :: e in found ==> e in Entries() && e.key in keys
      ensures forall i, j :: 0 <= i < j < |found| ==> found[i].key != found[j].key
      ensures forall e :: e in Entries() && e.key in keys ==> HasKey(found, e.key)
      ensures NoKeyTwice() ==> forall e :: e in found <==> e in Entries() && e.key in keys
    {
      hide *;
      var left: set<Key>;
      found, left := FindInMemory(keys);
      for i := 0 to |backingIndices|
        invariant FoundUpTo(i, keys, found, left)
      {
        var more: seq<Entry> := [];
        if backingIndices[i].Some? && left != {} {
          SlotIsValid(i);
          more := backingIndices[i].value.IterEntries(left);
        } else {
          NothingMore(backingIndices[i], left);
        }
        FoundMore(i, keys, found, left, more);
        found := found + more;
        left := left - set e | e in more :: e.key;
      }
      FoundAll(keys, found, left);
    }

    method FindInMemory(keys: set<Key>) returns (found: seq<Entry>, left: set<Key>)
      requires Valid()
      ensures FoundUpTo(0, keys, found, left)
    {
      hide *;
      found, left := [], keys;
      var rest := keys;
      NothingLookedUp(keys);
      while rest != {}
        invariant LookedUp(keys, rest, found, left)
      {
        ghost var some := AnyOf(rest);
        var k: Key :| k in rest;
        LookUpOne(keys, rest, found, left, k);
        if k in nodes {
          found := found + [nodes[k]];
          left := left - {k};
        }
        rest := rest - {k};
      }
      AllLookedUp(keys, rest, found, left);
    }

    /** Looking up the keys in memory one by one; rest are still to come. */
    ghost predicate LookedUp(keys: set<Key>, rest: set<Key>, found: seq<Entry>, left: set<Key>)
      reads this
    {
      && rest <= keys && KeysMatch(nodes)
      && left == (set k | k in keys && (k in rest || k !in nodes))
      && (forall e :: e in found <==> exists k :: k in keys && k !in rest && k in nodes && nodes[k] == e)
      && forall i, j :: 0 <= i < j < |found| ==> found[i].key != found[j].key
    }

    lemma NothingLookedUp(keys: set<Key>)
      requires Valid()
      ensures LookedUp(keys, keys, [], keys)
    {
    }

    lemma LookUpOne(keys: set<Key>, rest: set<Key>, found: seq<Entry>, left: set<Key>, k: Key)
      requires LookedUp(keys, rest, found, left) && k in rest
      ensures k in nodes ==> LookedUp(keys, rest - {k}, found + [nodes[k]], left - {k})
      ensures k !in nodes ==> LookedUp(keys, rest - {k}, found, left)
    {
      if k in nodes {
        var found' := found + [nodes[k]];
        forall i | 0 <= i < |found| ensures found[i].key != k {
          assert found[i] in found;
          var x :| x in keys && x !in rest && x in nodes && nodes[x] == found[i];
        }
        forall e ensures e in found' <==> exists x :: x in keys && x !in rest - {k} && x in nodes && nodes[x] == e {
          if e in found {
            var x :| x in keys && x !in rest && x in nodes && nodes[x] == e;
            assert x !in rest - {k};
          }
          if x :| x in keys && x !in rest - {k} && x in nodes && nodes[x] == e {
            assert x == k || x !in rest;
          }
        }
      } else {
        forall e ensures e in found <==> exists x :: x in keys && x !in rest - {k} && x in nodes && nodes[x] == e {
          if e in found {
            var x :| x in keys && x !in rest && x in nodes && nodes[x] == e;
            assert x !in rest - {k};
          }
        }
      }
    }

    lemma AllLookedUp(keys: set<Key>, rest: set<Key>, found: seq<Entry>, left: set<Key>)
      requires LookedUp(keys, rest, found, left) && rest == {}
      ensures FoundUpTo(0, keys, found, left)
    {
      forall e | e in found ensures e in ValuesOf(nodes) && e.key in keys && e.key !in left {
        var k :| k in keys && k !in rest && k in nodes && nodes[k] == e;
      }
      forall k | k in keys && k !in left ensures HasKey(found, k) {
        assert nodes[k] in found;
      }
      forall e | e in ValuesOf(nodes) && e.key in keys ensures e.key !in left {
        var k :| k in nodes && nodes[k] == e;
      }
    }

    /** After memory and the first i slots: left are the keys that none of them holds. */
    ghost predicate FoundUpTo(i: nat, keys: set<Key>, found: seq<Entry>, left: set<Key>)
      reads this
    {
      && i <= |backingIndices| && left <= keys
      && (forall e :: e in found ==> e in ContentFirst(nodes, backingIndices, i) && e.key in keys && e.key !in left)
      && (forall i, j :: 0 <= i < j < |found| ==> found[i].key != found[j].key)
      && (forall k :: k in keys && k !in left ==> HasKey(found, k))
      && forall e :: e in ContentFirst(nodes, backingIndices, i) && e.key in keys ==> e.key !in left
    }

    lemma FoundMore(i: nat, keys: set<Key>, found: seq<Entry>, left: set<Key>, more: seq<Entry>)
      requires i < |backingIndices| && FoundUpTo(i, keys, found, left) && Sorted(more)
      requires forall e :: e in more <==> e in PartOf(backingIndices[i]) && e.key in left
      ensures FoundUpTo(i + 1, keys, found + more, left - set e | e in more :: e.key)
    {
      hide PartOf;
      var found', gone := found + more, set e | e in more :: e.key;
      ContentStep(nodes, backingIndices, i + 1);
      forall e | e in found' ensures e in ContentFirst(nodes, backingIndices, i + 1) && e.key in keys && e.key !in left - gone {
        if e in more { assert e.key in gone; }
      }
      forall m, n | 0 <= m < n < |found'| ensures found'[m].key != found'[n].key {
        if m < |found| <= n {
          assert found[m] in found && found'[n] in more;
        }
      }
      forall k | k in keys && k !in left - gone ensures HasKey(found', k) {
        if k in gone {
          var e :| e in more && e.key == k;
          assert e in found';
        } else {
          var e :| e in found && e.key == k;
          assert e in found';
        }
      }
      forall e | e in ContentFirst(nodes, backingIndices, i + 1) && e.key in keys ensures e.key !in left - gone {
        if e.key in left { assert e in more && e.key in gone; }
      }
    }

    lemma FoundAll(keys: set<Key>, found: seq<Entry>, left: set<Key>)
      requires Valid() && FoundUpTo(|backingIndices|, keys, found, left)
      ensures forall e :: e in found ==> e in Entries() && e.key in keys
      ensures forall i, j :: 0 <= i < j < |found| ==> found[i].key != found[j].key
      ensures forall e :: e in Entries() && e.key in keys ==> HasKey(found, e.key)
      ensures NoKeyTwice() ==> forall e :: e in found <==> e in Entries() && e.key in keys
    {
      hide ContentFirst, KeysApartFirst, ValidParts;
      if NoKeyTwice() {
        forall e | e in Entries() && e.key in keys ensures e in found {
          assert HasKey(found, e.key);
          var f :| f in found && f.key == e.key;
          OneEntryPerKey(nodes, backingIndices, referenceLists, e, f);
        }
      }
    }

    lemma SlotIsValid(i: nat)
      requires Valid() && i < |backingIndices| && backingIndices[i].Some?
      ensures backingIndices[i].value.Valid()
      ensures forall e :: e in PartOf(backingIndices[i]) <==> e in backingIndices[i].value.entries
    {
      assert ValidSlot(backingIndices[i], referenceLists);
    }
  }

  lemma SetOfMore(list: seq<Entry>, more: seq<Entry>)
    ensures SetOf(list + more) == SetOf(list) + SetOf(more) && SetOf([]) == {}
    ensures forall e :: SetOf([e]) == {e}
  {
  }

  lemma KeyIsNew(entries: set<Entry>, e: Entry)
    requires e.key !in KeysIn(entries)
    ensures e !in entries && |entries + {e}| == |entries| + 1
  {
  }

  lemma NextQuotient(n: nat, size: nat)
    requires size > 0
    ensures n % size < size
    ensures n % size + 1 < size ==> (n + 1) % size == n % size + 1 && (n + 1) / size == n / size
    ensures n % size + 1 == size ==> (n + 1) % size == 0 && (n + 1) / size == n / size + 1
  {
    var q, m := n / size, n % size;
    assert n == size * q + m;
    if m + 1 < size {
      DivisionIsUnique(n + 1, size, q, m + 1);
    } else {
      assert n + 1 == size * (q + 1);
      DivisionIsUnique(n + 1, size, q + 1, 0);
    }
  }

  lemma ListedKey(keys: seq<Key>, s: set<Key>, i: nat)
    requires Lists(keys, s) && i < |keys|
    ensures keys[i] in s
  {
    assert keys[i] in keys;
    assert forall k :: k in keys ==> k in s;
  }

  lemma StreamsSorted(mem: map<Key, Entry>, list: seq<Entry>, slots: seq<Slot>, pos: nat)
    requires pos <= |slots| && StreamsAre(mem, list, slots, pos)
    ensures AllSorted(Streams(list, slots, pos)) && Streams(list, slots, pos) != []
  {
  }

  lemma MergedIsContent(mem: map<Key, Entry>, list: seq<Entry>, slots: seq<Slot>, pos: nat, merged: seq<Entry>)
    requires pos <= |slots| && StreamsAre(mem, list, slots, pos)
    requires |merged| == TotalLength(Streams(list, slots, pos))
    requires forall e :: e in merged <==> InSome(Streams(list, slots, pos), e)
    ensures SetOf(merged) == ContentFirst(mem, slots, pos) && |merged| == |mem| + SizeOfFirst(slots, pos)
  {
    hide InSome, ContentFirst;
    assert forall e :: e in SetOf(merged) <==> e in ContentFirst(mem, slots, pos);
  }

  lemma TakenOver(mem: map<Key, Entry>, slots: seq<Slot>, pos: nat, index: BTreeGraphIndex)
    requires pos <= |slots| && SetOf(index.entries) == ContentFirst(mem, slots, pos)
    ensures TakesOver(mem, slots, pos, index)
  {
  }

  lemma TakenMemory(mem: map<Key, Entry>, slots: seq<Slot>, index: BTreeGraphIndex)
    requires TakesOver(mem, slots, 0, index)
    ensures SetOf(index.entries) == ValuesOf(mem)
  {
  }

  lemma NewSlotIsValid(index: BTreeGraphIndex, refLists: nat)
    requires index.Valid() && index.file.refLists == refLists
    ensures ValidSlot(Some(index), refLists)
  {
  }

  ghost predicate HasKey(found: seq<Entry>, k: Key) {
    exists e :: e in found && e.key == k
  }

  lemma NothingMore(slot: Slot, left: set<Key>)
    requires slot.None? || left == {}
    ensures forall e :: e in PartOf(slot) ==> e.key !in left
    ensures Sorted([])
  {
  }

  lemma StillValidCarried(mem: map<Key, Entry>, slots: seq<Slot>, pos: nat, index: BTreeGraphIndex, refLists: nat)
    requires ValidParts(mem, slots, refLists) && ValidSlot(Some(index), refLists) && pos <= |slots|
    ensures ValidParts(map[], Carried(slots, pos, index), refLists)
  {
    hide ValidSlot;
    var after := Carried(slots, pos, index);
    CarriedAt(slots, pos, index);
    NoSlotIsValid(refLists);
    forall i | 0 <= i < |after| ensures ValidSlot(after[i], refLists) {
    }
  }

  lemma NoSlotIsValid(refLists: nat)
    ensures ValidSlot(None, refLists)
  {
  }

  lemma StillValidAppended(mem: map<Key, Entry>, slots: seq<Slot>, index: BTreeGraphIndex, refLists: nat)
    requires ValidParts(mem, slots, refLists) && ValidSlot(Some(index), refLists)
    ensures ValidParts(map[], slots + [Some(index)], refLists)
  {
    hide ValidSlot;
  }

  lemma OldKeyIsIn(mem: map<Key, Entry>, slots: seq<Slot>, refLists: nat, k: Key)
    requires ValidParts(mem, slots, refLists) && k in mem
    ensures k in KeysIn(Content(mem, slots))
  {
    ContentIs(mem, slots, |slots|, mem[k]);
    assert mem[k] in ValuesOf(mem);
  }

  lemma OneMoreEntry(mem: map<Key, Entry>, slots: seq<Slot>, refLists: nat, e: Entry)
    requires ValidParts(mem, slots, refLists) && e.key !in mem && |e.refs| == refLists
    ensures ValidParts(mem[e.key := e], slots, refLists) && |mem[e.key := e]| == |mem| + 1
    ensures Content(mem[e.key := e], slots) == Content(mem, slots) + {e}
    ensures e.key !in KeysIn(Content(mem, slots)) && KeysApart(mem, slots) ==> KeysApart(mem[e.key := e], slots)
  {
    hide PartOf, ValidSlot;
    var mem' := mem[e.key := e];
    assert ValuesOf(mem') == ValuesOf(mem) + {e} by {
      forall x ensures x in ValuesOf(mem') <==> x in ValuesOf(mem) + {e} {
        if x in ValuesOf(mem) {
          var k :| k in mem && mem[k] == x;
          assert k in mem' && mem'[k] == x;
        }
        if x == e { assert e.key in mem' && mem'[e.key] == e; }
      }
    }
    forall x ensures x in Content(mem', slots) <==> x in Content(mem, slots) + {e} {
      ContentIs(mem, slots, |slots|, x);
      ContentIs(mem', slots, |slots|, x);
    }
    if e.key !in KeysIn(Content(mem, slots)) && KeysApart(mem, slots) {
      forall i | 0 <= i < |slots| ensures Apart(ValuesOf(mem'), PartOf(slots[i])) {
        forall f | f in PartOf(slots[i]) ensures f.key != e.key {
          ContentIs(mem, slots, |slots|, f);
          assert f.key in KeysIn(Content(mem, slots));
        }
        assert Apart(ValuesOf(mem), PartOf(slots[i]));
      }
    }
  }

  /** The entry is in memory (-1) or in slot n. */
  ghost predicate IsIn(mem: map<Key, Entry>, slots: seq<Slot>, e: Entry, n: int) {
    -1 <= n < |slots| && if n < 0 then e in ValuesOf(mem) else e in PartOf(slots[n])
  }

  lemma IsInSome(mem: map<Key, Entry>, slots: seq<Slot>, e: Entry) returns (n: int)
    requires e in Content(mem, slots)
    ensures IsIn(mem, slots, e, n)
  {
    ContentIs(mem, slots, |slots|, e);
    if e in ValuesOf(mem) {
      n := -1;
    } else {
      var i: int :| 0 <= i < |slots| && e in PartOf(slots[i]);
      n := i;
    }
  }

  lemma OtherPartOtherKey(mem: map<Key, Entry>, slots: seq<Slot>, e: Entry, f: Entry, m: int, n: int)
    requires KeysApart(mem, slots) && IsIn(mem, slots, e, m) && IsIn(mem, slots, f, n)
    ensures m < n ==> e.key != f.key
  {
    hide PartOf;
    if m < n {
      assert Apart(if m < 0 then ValuesOf(mem) else PartOf(slots[m]), PartOf(slots[n]));
    }
  }

  /** Without duplicates a key has one entry. */
  lemma OneEntryPerKey(mem: map<Key, Entry>, slots: seq<Slot>, refLists: nat, e: Entry, f: Entry)
    requires ValidParts(mem, slots, refLists) && KeysApart(mem, slots)
    requires e in Content(mem, slots) && f in Content(mem, slots) && e.key == f.key
    ensures e == f
  {
    hide PartOf, ValidSlot, KeysApart, Content;
    var m := IsInSome(mem, slots, e);
    var n := IsInSome(mem, slots, f);
    OtherPartOtherKey(mem, slots, e, f, m, n);
    OtherPartOtherKey(mem, slots, f, e, n, m);
    assert m == n;
    if m >= 0 { OneEntryInSlot(slots[m], refLists, e, f); }
  }

  lemma OneEntryInSlot(slot: Slot, refLists: nat, e: Entry, f: Entry)
    requires ValidSlot(slot, refLists) && e in PartOf(slot) && f in PartOf(slot) && e.key == f.key
    ensures e == f
  {
    var list := slot.value.entries;
    assert Sorted(list);
    var i :| 0 <= i < |list| && list[i] == e;
    var j :| 0 <= j < |list| && list[j] == f;
  }
}
