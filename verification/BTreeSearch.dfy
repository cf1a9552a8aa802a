/** Reading a B+Tree index: BTreeGraphIndex of bzrlib/btree_index.py.

    A sorted batch of keys is led down row by row; on each page the batch is split at the
    separators.  What it must agree with is the plain list of entries. */
module BTreeSearch {
  import opened Basics
  import opened BTreePages

  // ---------------------------------------------------------------------------
  // Specification: looking up keys in a list of entries
  // ---------------------------------------------------------------------------

  ghost function Find(entries: seq<Entry>, k: Key): seq<Entry> {
    if i :| 0 <= i < |entries| && entries[i].key == k then [entries[i]] else []
  }

  /** The entries for a list of keys, in the order of the keys. */
  ghost function Lookup(entries: seq<Entry>, keys: seq<Key>): seq<Entry> {
    if keys == [] then [] else Lookup(entries, keys[..|keys| - 1]) + Find(entries, keys[|keys| - 1])
  }

  lemma FindIs(entries: seq<Entry>, i: nat)
    requires Sorted(entries) && i < |entries|
    ensures Find(entries, entries[i].key) == [entries[i]]
  {
    var k := entries[i].key;
    assert entries[i].key == k;
    assert forall j :: 0 <= j < |entries| && entries[j].key == k ==> j == i;
  }

  /** A sorted batch finds each stored entry whose key is asked for once, and no other, in key order. */
  lemma {:induction false} LookupIsExact(entries: seq<Entry>, keys: seq<Key>)
    requires Sorted(entries) && Ascending(keys)
    ensures Sorted(Lookup(entries, keys))
    ensures forall e :: e in Lookup(entries, keys) <==> e in entries && e.key in keys
  {
    if keys != [] {
      var init, k := keys[..|keys| - 1], keys[|keys| - 1];
      LookupIsExact(entries, init);
      var found := Lookup(entries, init);
      assert forall x :: x in keys <==> x in init || x == k;
      assert forall x :: x in init ==> x < k;
      forall e | e in entries && e.key == k ensures Find(entries, k) == [e] {
        var i :| 0 <= i < |entries| && entries[i] == e;
        FindIs(entries, i);
      }
      forall e ensures e in Lookup(entries, keys) <==> e in entries && e.key in keys {
        assert e in Find(entries, k) ==> e in entries && e.key == k;
      }
      SortedBehind(found, Find(entries, k), k);
    }
  }

  lemma SortedBehind(found: seq<Entry>, more: seq<Entry>, k: Key)
    requires Sorted(found) && (forall e :: e in found ==> e.key < k) && |more| <= 1 && (more != [] ==> more[0].key == k)
    ensures Sorted(found + more)
  {
    forall i | 0 <= i < |found| ensures found[i].key < k { assert found[i] in found; }
  }

  // ---------------------------------------------------------------------------
  // Leaf rows are sorted across pages
  // ---------------------------------------------------------------------------

  ghost predicate IsOn(pages: seq<Page>, c: int, e: Entry) {
    0 <= c < |pages| && pages[c].Leaf? && e in pages[c].entries
  }

  lemma {:induction false} EntryOnPage(pages: seq<Page>, e: Entry)
    ensures e in EntriesOf(pages) <==> exists c :: IsOn(pages, c, e)
  {
    hide EntriesOf, IsOn;
    if pages == [] {
      NothingOnPages(e);
    } else {
      var init := pages[..|pages| - 1];
      EntryOnPage(init, e);
      OnInitOrLast(pages, init, e);
    }
  }

  lemma NothingOnPages(e: Entry)
    ensures e !in EntriesOf([]) && forall c :: !IsOn([], c, e)
  {
  }

  lemma OnInitOrLast(pages: seq<Page>, init: seq<Page>, e: Entry)
    requires pages != [] && init == pages[..|pages| - 1]
    ensures (exists c :: IsOn(pages, c, e)) <==> (exists c :: IsOn(init, c, e)) || IsOn(pages, |pages| - 1, e)
    ensures e in EntriesOf(pages) <==> e in EntriesOf(init) || IsOn(pages, |pages| - 1, e)
  {
    if c :| IsOn(pages, c, e) {
      assert c < |init| ==> IsOn(init, c, e);
    }
    if c :| IsOn(init, c, e) {
      assert IsOn(pages, c, e);
    }
  }

  lemma SortedSplit(a: seq<Entry>, b: seq<Entry>)
    requires Sorted(a + b)
    ensures Sorted(a) && Sorted(b) && forall x, y :: x in a && y in b ==> x.key < y.key
  {
    var both := a + b;
    forall i, j | 0 <= i < j < |a| ensures a[i].key < a[j].key { assert both[i] == a[i] && both[j] == a[j]; }
    forall i, j | 0 <= i < j < |b| ensures b[i].key < b[j].key { assert both[|a| + i] == b[i] && both[|a| + j] == b[j]; }
    forall x, y | x in a && y in b ensures x.key < y.key {
      var i :| 0 <= i < |a| && a[i] == x;
      var j :| 0 <= j < |b| && b[j] == y;
      assert both[i] == x && both[|a| + j] == y;
    }
  }

  /** Every page is sorted, and the keys of a page are below those of the pages after it. */
  lemma {:induction false} PagesSorted(pages: seq<Page>, c: nat, d: nat, e: Entry, f: Entry)
    requires Sorted(EntriesOf(pages)) && c <= d < |pages| && pages[c].Leaf? && pages[d].Leaf?
    requires e in pages[c].entries && f in pages[d].entries
    ensures Sorted(pages[c].entries) && (c < d ==> e.key < f.key)
    decreases |pages|
  {
    var init, last := pages[..|pages| - 1], pages[|pages| - 1];
    assert EntriesOf(pages) == EntriesOf(init) + if last.Leaf? then last.entries else [];
    SortedSplit(EntriesOf(init), if last.Leaf? then last.entries else []);
    if d < |init| {
      assert init[c] == pages[c] && init[d] == pages[d];
      PagesSorted(init, c, d, e, f);
    } else if c < d {
      assert init[c] == pages[c] && IsOn(init, c, e);
      EntryOnPage(init, e);
      PagesSorted(init, c, c, e, e);
    }
  }

  // ---------------------------------------------------------------------------
  // Routing
  // ---------------------------------------------------------------------------

  /** If k is stored at all, it is below page c of a row with these first keys. */
  ghost predicate Routes(lows: seq<Key>, c: nat, k: Key) {
    && c < |lows|
    && (c > 0 ==> lows[c] <= k)
    && forall d :: d == c + 1 && d < |lows| ==> k < lows[d]
  }

  /** bisect.bisect_right */
  ghost predicate IsBisect(keys: seq<Key>, k: Key, pos: nat) {
    && pos <= |keys|
    && (forall t :: 0 <= t < pos ==> keys[t] <= k)
    && forall t :: pos <= t < |keys| ==> k < keys[t]
  }

  lemma RouteDown(pages: seq<Page>, below: seq<Key>, lows: seq<Key>, j: nat, k: Key, pos: nat)
    requires Layer(pages, below, lows) && Routes(lows, j, k)
    requires Directs(pages[j], below, lows[j]) && IsBisect(pages[j].keys, k, pos)
    ensures Routes(below, pages[j].offset + pos, k)
  {
    var child := pages[j].offset + pos;
    if pos > 0 {
      assert pages[j].keys[pos - 1] == below[pages[j].offset + 1 + (pos - 1)];
    } else if j > 0 {
      assert lows[j] == below[pages[j].offset];
    }
    forall d | d == child + 1 && d < |below| ensures k < below[d] {
      if pos < |pages[j].keys| {
        assert pages[j].keys[pos] == below[pages[j].offset + 1 + pos];
      } else if j + 1 < |pages| {
        var n := j + 1;
        assert Consecutive(pages[j], pages[n]) && Directs(pages[n], below, lows[n]);
      }
    }
  }

  /** The leaf a key is routed to holds its entry, if there is one. */
  lemma RouteEnds(pages: seq<Page>, lows: seq<Key>, c: nat, k: Key)
    requires LeafRow(pages, lows) && Sorted(EntriesOf(pages)) && Routes(lows, c, k)
    ensures pages[c].Leaf? && Sorted(pages[c].entries)
    ensures Find(EntriesOf(pages), k) == Find(pages[c].entries, k)
  {
    hide Sorted, EntriesOf, Find;
    var first := pages[c].entries[0];
    assert first in pages[c].entries;
    PagesSorted(pages, c, c, first, first);
    forall e | e in EntriesOf(pages) && e.key == k ensures e in pages[c].entries {
      EntryOnPage(pages, e);
      var d :| IsOn(pages, d, e);
      if d < c {
        PagesSorted(pages, d, c, e, first);
      } else if d > c {
        var next := c + 1;
        var low := pages[next].entries[0];
        assert low in pages[next].entries;
        if next < d {
          PagesSorted(pages, next, d, low, e);
        } else {
          AtLeastFirst(pages[next].entries, e, pages, next);
        }
      }
    }
    forall e | e in pages[c].entries ensures e in EntriesOf(pages) {
      assert IsOn(pages, c, e);
      EntryOnPage(pages, e);
    }
    SameFind(EntriesOf(pages), pages[c].entries, k);
  }

  lemma AtLeastFirst(entries: seq<Entry>, e: Entry, pages: seq<Page>, c: nat)
    requires c < |pages| && pages[c].Leaf? && pages[c].entries == entries && Sorted(EntriesOf(pages)) && e in entries
    ensures entries[0].key <= e.key
  {
    PagesSorted(pages, c, c, e, e);
    var i :| 0 <= i < |entries| && entries[i] == e;
  }

  lemma SameFind(all: seq<Entry>, some: seq<Entry>, k: Key)
    requires Sorted(all) && Sorted(some)
    requires forall e :: e in some ==> e in all
    requires forall e :: e in all && e.key == k ==> e in some
    ensures Find(all, k) == Find(some, k)
  {
    if i :| 0 <= i < |all| && all[i].key == k {
      FindIs(all, i);
      assert all[i] in some;
      var j :| 0 <= j < |some| && some[j] == all[i];
      FindIs(some, j);
    } else {
      forall j | 0 <= j < |some| ensures some[j].key != k { assert some[j] in all; }
    }
  }

  /** First keys increase in every row, so separators are sorted on every page. */
  lemma LeafLowsIncrease(pages: seq<Page>, lows: seq<Key>)
    requires LeafRow(pages, lows) && Sorted(EntriesOf(pages))
    ensures Ascending(lows)
  {
    hide Sorted, EntriesOf;
    forall c, d | 0 <= c < d < |lows| ensures lows[c] < lows[d] {
      assert pages[c].entries[0] in pages[c].entries && pages[d].entries[0] in pages[d].entries;
      PagesSorted(pages, c, d, pages[c].entries[0], pages[d].entries[0]);
    }
  }

  lemma {:induction false} OffsetsIncrease(pages: seq<Page>, below: seq<Key>, lows: seq<Key>, j: nat, k: nat)
    requires Layer(pages, below, lows) && j < k < |pages|
    ensures pages[j].Internal? && pages[k].Internal? && pages[j].offset < pages[k].offset < |below|
    decreases k
  {
    var p := k - 1;
    assert Consecutive(pages[p], pages[k]) && Directs(pages[p], below, lows[p]) && Directs(pages[k], below, lows[k]);
    if j < p { OffsetsIncrease(pages, below, lows, j, p); }
  }

  lemma LowsIncrease(pages: seq<Page>, below: seq<Key>, lows: seq<Key>)
    requires Layer(pages, below, lows) && Ascending(below)
    ensures Ascending(lows)
    ensures forall j :: 0 <= j < |pages| ==> pages[j].Internal? && Ascending(pages[j].keys)
  {
    forall j, k | 0 <= j < k < |lows| ensures lows[j] < lows[k] {
      OffsetsIncrease(pages, below, lows, j, k);
      assert Directs(pages[j], below, lows[j]) && Directs(pages[k], below, lows[k]);
    }
    forall j | 0 <= j < |pages| ensures pages[j].Internal? && Ascending(pages[j].keys) {
      assert Directs(pages[j], below, lows[j]);
    }
  }

  lemma {:induction false} AllLowsIncrease(rows: Rows, lows: seq<seq<Key>>, entries: seq<Entry>, q: nat)
    requires Tree(rows, lows, entries) && q < |rows|
    ensures Ascending(lows[q])
    ensures q + 1 < |rows| ==> forall j :: 0 <= j < |rows[q]| ==> rows[q][j].Internal? && Ascending(rows[q][j].keys)
    decreases |rows| - q
  {
    hide Ascending, Layer, LeafRow;
    if q + 1 == |rows| {
      LeafLowsIncrease(rows[q], lows[q]);
    } else {
      var r := q + 1;
      AllLowsIncrease(rows, lows, entries, r);
      assert Layer(rows[q], lows[r], lows[q]);
      LowsIncrease(rows[q], lows[r], lows[q]);
    }
  }

  // ---------------------------------------------------------------------------
  // _multi_bisect_right
  // ---------------------------------------------------------------------------

  /** Keys that go to the same page. */
  datatype Batch = Batch(page: nat, keys: seq<Key>)

  ghost function KeysOf(batches: seq<Batch>): seq<Key> {
    if batches == [] then [] else KeysOf(batches[..|batches| - 1]) + batches[|batches| - 1].keys
  }

  lemma KeysOfMore(batches: seq<Batch>, b: Batch)
    ensures KeysOf(batches + [b]) == KeysOf(batches) + b.keys
  {
    assert (batches + [b])[..|batches|] == batches;
  }

  lemma {:induction false} KeysOfBoth(first: seq<Batch>, second: seq<Batch>)
    ensures KeysOf(first + second) == KeysOf(first) + KeysOf(second)
  {
    if second == [] {
      assert first + second == first;
    } else {
      var init, last := second[..|second| - 1], second[|second| - 1];
      KeysOfBoth(first, init);
      assert first + second == (first + init) + [last];
      KeysOfMore(first + init, last);
      assert KeysOf(first) + (KeysOf(init) + last.keys) == (KeysOf(first) + KeysOf(init)) + last.keys;
    }
  }

  ghost predicate AllBisect(fixed: seq<Key>, b: Batch) {
    forall k :: k in b.keys ==> IsBisect(fixed, k, b.page)
  }

  ghost predicate Nondecreasing(keys: seq<Key>) {
    forall i, j :: 0 <= i < j < |keys| ==> keys[i] <= keys[j]
  }

  method BisectRight(keys: seq<Key>, k: Key) returns (pos: nat)
    requires Nondecreasing(keys)
    ensures IsBisect(keys, k, pos)
  {
    var lo, hi := 0, |keys|;
    while lo < hi
      invariant 0 <= lo <= hi <= |keys|
      invariant forall t :: 0 <= t < lo ==> keys[t] <= k
      invariant forall t :: hi <= t < |keys| ==> k < keys[t]
    {
      var mid := (lo + hi) / 2;
      if k < keys[mid] {
        hi := mid;
      } else {
        lo := mid + 1;
      }
    }
    pos := lo;
  }

  /** The first i keys of the batch have been placed. */
  ghost predicate Cut(inKeys: seq<Key>, fixedKeys: seq<Key>, i: nat, output: seq<Batch>) {
    && i <= |inKeys| && KeysOf(output) == inKeys[..i]
    && forall b :: b in output ==> b.keys != [] && AllBisect(fixedKeys, b)
  }

  lemma CutMore(inKeys: seq<Key>, fixedKeys: seq<Key>, i: nat, output: seq<Batch>, j: nat, b: Batch)
    requires Cut(inKeys, fixedKeys, i, output) && i < j <= |inKeys| && b.keys == inKeys[i..j] && AllBisect(fixedKeys, b)
    ensures Cut(inKeys, fixedKeys, j, output + [b])
  {
    hide AllBisect;
    KeysOfMore(output, b);
    assert inKeys[..i] + inKeys[i..j] == inKeys[..j];
  }

  lemma CutAll(inKeys: seq<Key>, fixedKeys: seq<Key>, output: seq<Batch>)
    requires Cut(inKeys, fixedKeys, |inKeys|, output)
    ensures KeysOf(output) == inKeys && forall b :: b in output ==> b.keys != [] && AllBisect(fixedKeys, b)
  {
    assert inKeys[..|inKeys|] == inKeys;
  }

  lemma CutNone(inKeys: seq<Key>, fixedKeys: seq<Key>)
    ensures Cut(inKeys, fixedKeys, 0, [])
  {
  }

  /** The separators before f are not above the key. */
  ghost predicate Passed(fixedKeys: seq<Key>, f: nat, k: Key) {
    f <= |fixedKeys| && forall t :: 0 <= t < f ==> fixedKeys[t] <= k
  }

  /** The batch in order, cut up by the position bisect_right gives each key. */
  method MultiBisectRight(inKeys: seq<Key>, fixedKeys: seq<Key>) returns (output: seq<Batch>)
    requires Nondecreasing(inKeys) && Nondecreasing(fixedKeys)
    ensures KeysOf(output) == inKeys
    ensures forall b :: b in output ==> b.keys != [] && AllBisect(fixedKeys, b)
  {
    hide Nondecreasing, KeysOf, IsBisect;
    CutNone(inKeys, fixedKeys);
    output := [];
    if inKeys == [] {
      CutAll(inKeys, fixedKeys, output);
      return;
    }
    if fixedKeys == [] || |inKeys| == 1 {
      var pos := BisectRight(fixedKeys, inKeys[0]);
      OneBatch(inKeys, fixedKeys, pos);
      CutMore(inKeys, fixedKeys, 0, [], |inKeys|, Batch(pos, inKeys));
      output := [Batch(pos, inKeys)];
      assert [] + output == output;
    } else {
      output := MergeBisect(inKeys, fixedKeys);
    }
    CutAll(inKeys, fixedKeys, output);
  }

  /** No separators: everything falls to the left. */
  lemma OneBatch(inKeys: seq<Key>, fixedKeys: seq<Key>, pos: nat)
    requires inKeys != [] && IsBisect(fixedKeys, inKeys[0], pos) && (fixedKeys == [] || |inKeys| == 1)
    ensures AllBisect(fixedKeys, Batch(pos, inKeys)) && inKeys[0..|inKeys|] == inKeys
    ensures fixedKeys == [] ==> pos == 0
  {
  }

  method MergeBisect(inKeys: seq<Key>, fixedKeys: seq<Key>) returns (output: seq<Batch>)
    requires Nondecreasing(inKeys) && Nondecreasing(fixedKeys) && inKeys != [] && fixedKeys != []
    ensures Cut(inKeys, fixedKeys, |inKeys|, output)
  {
    hide Nondecreasing, AllBisect, IsBisect, Cut, Passed;
    output := [];
    var i, f: nat := 0, 0;
    CutNone(inKeys, fixedKeys);
    NonePassed(fixedKeys, inKeys[0]);
    while true
      invariant i < |inKeys| && f < |fixedKeys|
      invariant Cut(inKeys, fixedKeys, i, output) && Passed(fixedKeys, f, inKeys[i])
      decreases |inKeys| - i, |fixedKeys| - f
    {
      if inKeys[i] < fixedKeys[f] {
        ghost var start := i;
        var curKeys: seq<Key>;
        curKeys, i := TakeBelow(inKeys, i, fixedKeys, f);
        CutMore(inKeys, fixedKeys, start, output, i, Batch(f, curKeys));
        output := output + [Batch(f, curKeys)];
        if i == |inKeys| {
          return;
        }
      }
      f := SkipPassed(inKeys[i], fixedKeys, f);
      if f == |fixedKeys| {
        RestIsAbove(inKeys, i, fixedKeys);
        CutMore(inKeys, fixedKeys, i, output, |inKeys|, Batch(f, inKeys[i..]));
        return output + [Batch(f, inKeys[i..])];
      }
    }
  }

  lemma NonePassed(fixedKeys: seq<Key>, k: Key)
    ensures Passed(fixedKeys, 0, k)
  {
  }

  /** Steps over the separators the key has passed. */
  method SkipPassed(k: Key, fixedKeys: seq<Key>, f0: nat) returns (f: nat)
    requires f0 < |fixedKeys| && Passed(fixedKeys, f0, k)
    ensures f0 <= f <= |fixedKeys| && Passed(fixedKeys, f, k)
    ensures f < |fixedKeys| ==> k < fixedKeys[f]
  {
    f := f0;
    while f < |fixedKeys| && k >= fixedKeys[f]
      invariant f0 <= f <= |fixedKeys| && Passed(fixedKeys, f, k)
    {
      f := f + 1;
    }
  }

  lemma RestIsAbove(inKeys: seq<Key>, i: nat, fixedKeys: seq<Key>)
    requires Nondecreasing(inKeys) && i < |inKeys| && Passed(fixedKeys, |fixedKeys|, inKeys[i])
    ensures AllBisect(fixedKeys, Batch(|fixedKeys|, inKeys[i..]))
  {
    forall k | k in inKeys[i..] ensures IsBisect(fixedKeys, k, |fixedKeys|) {
      var n :| 0 <= n < |inKeys[i..]| && inKeys[i..][n] == k;
      assert n > 0 ==> inKeys[i] <= inKeys[i + n];
    }
  }

  /** The keys from i on that are below the separator f. */
  method TakeBelow(inKeys: seq<Key>, i0: nat, fixedKeys: seq<Key>, f: nat) returns (curKeys: seq<Key>, i: nat)
    requires Nondecreasing(inKeys) && Nondecreasing(fixedKeys) && i0 < |inKeys| && f < |fixedKeys|
    requires inKeys[i0] < fixedKeys[f] && Passed(fixedKeys, f, inKeys[i0])
    ensures i0 < i <= |inKeys| && curKeys == inKeys[i0..i] && AllBisect(fixedKeys, Batch(f, curKeys))
    ensures i < |inKeys| ==> Passed(fixedKeys, f, inKeys[i]) && inKeys[i] >= fixedKeys[f]
  {
    i := i0;
    curKeys := [];
    while i < |inKeys| && inKeys[i] < fixedKeys[f]
      invariant i0 <= i <= |inKeys| && curKeys == inKeys[i0..i]
      invariant forall k :: k in curKeys ==> inKeys[i0] <= k < fixedKeys[f]
    {
      assert i0 < i ==> inKeys[i0] <= inKeys[i];
      curKeys := curKeys + [inKeys[i]];
      i := i + 1;
    }
    assert i < |inKeys| ==> inKeys[i0] <= inKeys[i];
    forall k | k in curKeys ensures IsBisect(fixedKeys, k, f) {
      forall t | f <= t < |fixedKeys| ensures k < fixedKeys[t] {
        assert f < t ==> fixedKeys[f] <= fixedKeys[t];
      }
    }
  }

  // ---------------------------------------------------------------------------
  // Where pages are in the file
  // ---------------------------------------------------------------------------

  ghost function OffsetOf(lengths: seq<nat>, q: nat): nat
    requires q <= |lengths|
  {
    if q == 0 then 0 else OffsetOf(lengths, q - 1) + lengths[q - 1]
  }

  lemma {:induction false} FlatAt(rows: Rows, q: nat, c: nat)
    requires q < |rows| && c < |rows[q]|
    ensures OffsetOf(Lengths(rows), q) + c < |Flat(rows)| && Flat(rows)[OffsetOf(Lengths(rows), q) + c] == rows[q][c]
    ensures |Flat(rows)| == OffsetOf(Lengths(rows), |rows|)
    decreases |rows|
  {
    var init, last := rows[..|rows| - 1], rows[|rows| - 1];
    FlatLength(rows);
    FlatLength(init);
    OffsetSame(rows, |init|);
    if q < |init| {
      assert init[q] == rows[q];
      FlatAt(init, q, c);
      OffsetSame(rows, q);
    }
  }

  lemma {:induction false} OffsetSame(rows: Rows, q: nat)
    requires rows != [] && q < |rows|
    ensures OffsetOf(Lengths(rows), q) == OffsetOf(Lengths(rows[..|rows| - 1]), q)
  {
    if q > 0 { OffsetSame(rows, q - 1); }
  }

  lemma {:induction false} FlatLength(rows: Rows)
    ensures |Flat(rows)| == OffsetOf(Lengths(rows), |rows|)
  {
    if rows != [] {
      FlatLength(rows[..|rows| - 1]);
      OffsetSame(rows, |rows| - 1);
    }
  }

  // ---------------------------------------------------------------------------
  // One step down
  // ---------------------------------------------------------------------------

  /** A batch for row q: each key is routed to the page the batch names. */
  ghost predicate RoutedTo(lows: seq<Key>, offset: nat, b: Batch) {
    b.page >= offset && b.page - offset < |lows| && forall k :: k in b.keys ==> Routes(lows, b.page - offset, k)
  }

  ghost predicate Routed(lows: seq<Key>, offset: nat, batches: seq<Batch>) {
    forall b :: b in batches ==> RoutedTo(lows, offset, b)
  }

  lemma RoutedMore(lows: seq<Key>, offset: nat, batches: seq<Batch>, b: Batch)
    requires Routed(lows, offset, batches) && RoutedTo(lows, offset, b)
    ensures Routed(lows, offset, batches + [b])
  {
  }

  /** The children of a page at which a batch arrives. */
  lemma BatchGoesDown(pages: seq<Page>, below: seq<Key>, lows: seq<Key>, offset: nat, nextOffset: nat, from: Batch, to: Batch)
    requires Layer(pages, below, lows) && RoutedTo(lows, offset, from)
    requires pages[from.page - offset].Internal? && AllBisect(pages[from.page - offset].keys, to) && to.keys != []
    requires forall k :: k in to.keys ==> k in from.keys
    ensures RoutedTo(below, nextOffset, Batch(nextOffset + pages[from.page - offset].offset + to.page, to.keys))
  {
    hide Layer, IsBisect;
    var j := from.page - offset;
    LayerAt(pages, below, lows, j);
    forall k | k in to.keys ensures Routes(below, pages[j].offset + to.page, k) {
      RouteDown(pages, below, lows, j, k, to.page);
    }
    assert to.keys[0] in to.keys;
  }

  lemma LayerAt(pages: seq<Page>, below: seq<Key>, lows: seq<Key>, j: nat)
    requires Layer(pages, below, lows) && j < |lows|
    ensures |pages| == |lows| && Directs(pages[j], below, lows[j])
  {
  }

  lemma {:induction false} KeysOfBatch(batches: seq<Batch>, b: Batch, k: Key)
    requires b in batches && k in b.keys
    ensures k in KeysOf(batches)
  {
    var init, last := batches[..|batches| - 1], batches[|batches| - 1];
    if b in init {
      KeysOfBatch(init, b, k);
    } else {
      assert batches == init + [last];
    }
  }

  // ---------------------------------------------------------------------------
  // The index
  // ---------------------------------------------------------------------------

  lemma HasMin(s: set<Key>, k: Key) returns (m: Key)
    requires k in s
    ensures m in s && forall x :: x in s ==> m <= x
    decreases |s|
  {
    if other :| other in s - {k} {
      m := HasMin(s - {k}, other);
      assert forall x :: x in s ==> x == k || x in s - {k};
      if k < m { m := k; }
    } else {
      assert forall x :: x in s ==> x == k || x in s - {k};
      m := k;
    }
  }

  lemma AnyMin(s: set<Key>)
    requires s != {}
    ensures exists m :: m in s && forall x :: x in s ==> m <= x
  {
    if k :| k in s {
      var m := HasMin(s, k);
    } else {
      NothingIn(s);
    }
  }

  /** sorted(keys) */
  method SortedKeys(keys: set<Key>) returns (sorted: seq<Key>)
    ensures Ascending(sorted) && Lists(sorted, keys)
  {
    sorted := [];
    var rest := keys;
    while rest != {}
      invariant Ascending(sorted) && rest <= keys
      invariant forall k :: k in sorted <==> k in keys && k !in rest
      invariant forall k, x :: k in sorted && x in rest ==> k < x
    {
      AnyMin(rest);
      var m: Key :| m in rest && forall x :: x in rest ==> m <= x;
      forall i | 0 <= i < |sorted| ensures sorted[i] < m { assert sorted[i] in sorted; }
      sorted := sorted + [m];
      rest := rest - {m};
    }
  }

  lemma IncreasingIsSorted(keys: seq<Key>)
    requires Ascending(keys)
    ensures Nondecreasing(keys)
  {
  }

  class BTreeGraphIndex {
    const file: TreeFile
    const rowOffsets: seq<nat>
    ghost const rows: Rows
    ghost const lows: seq<seq<Key>>
    ghost const entries: seq<Entry>

    ghost predicate Valid() {
      && IsIndexOf(file, rows, lows, entries)
      && |rowOffsets| == |file.rowLengths| + 1
      && forall q :: 0 <= q < |rowOffsets| ==> rowOffsets[q] == OffsetOf(file.rowLengths, q)
    }

    constructor (file: TreeFile, ghost entries: seq<Entry>)
      requires IsIndex(file, entries)
      ensures Valid() && this.file == file && this.entries == entries
    {
      ghost var rows: Rows, lows: seq<seq<Key>> :| IsIndexOf(file, rows, lows, entries);
      var offsets := ComputeRowOffsets(file.rowLengths);
      this.file := file;
      this.rowOffsets := offsets;
      this.rows := rows;
      this.lows := lows;
      this.entries := entries;
    }

    static method ComputeRowOffsets(rowLengths: seq<nat>) returns (offsets: seq<nat>)
      ensures |offsets| == |rowLengths| + 1
      ensures forall q :: 0 <= q < |offsets| ==> offsets[q] == OffsetOf(rowLengths, q)
    {
      offsets := [];
      var rowOffset: nat := 0;
      for q := 0 to |rowLengths|
        invariant |offsets| == q && rowOffset == OffsetOf(rowLengths, q)
        invariant forall p :: 0 <= p < q ==> offsets[p] == OffsetOf(rowLengths, p)
      {
        offsets := offsets + [rowOffset];
        rowOffset := rowOffset + rowLengths[q];
      }
      offsets := offsets + [rowOffset];
    }

    function KeyCount(): (count: nat)
      requires Valid()
      ensures count == |entries|
    {
      file.keyCount
    }

    lemma RowFacts(q: nat, c: nat)
      requires Valid() && entries != [] && q < |rows| && c < |rows[q]|
      ensures |rows| + 1 == |rowOffsets| && rowOffsets[q] + c < |file.pages| && file.pages[rowOffsets[q] + c] == rows[q][c]
      ensures |lows| == |rows| && |lows[q]| == |rows[q]|
    {
      FlatAt(rows, q, c);
      RowLength(rows, lows, entries, q);
    }

    lemma TreeFacts()
      requires Valid() && entries != []
      ensures Tree(rows, lows, entries) && |rows| == |lows| > 0 && |rows| + 1 == |rowOffsets| && rowOffsets[0] == 0
      ensures |rows[0]| == 1 == |lows[0]|
      ensures forall q, r :: 0 <= q && q + 1 == r < |rows| ==> Layer(rows[q], lows[r], lows[q])
      ensures LeafRow(rows[|rows| - 1], lows[|rows| - 1]) && EntriesOf(rows[|rows| - 1]) == entries && Sorted(entries)
    {
      RowLength(rows, lows, entries, 0);
    }

    /** All batches of one row step down to the next. */
    method StepDown(q: nat, batches: seq<Batch>) returns (next: seq<Batch>)
      requires Valid() && entries != [] && q + 1 < |rows| == |lows| && q + 2 < |rowOffsets|
      requires Routed(lows[q], rowOffsets[q], batches) && Nondecreasing(KeysOf(batches))
      ensures KeysOf(next) == KeysOf(batches)
      ensures Routed(lows[q + 1], rowOffsets[q + 1], next)
    {
      hide Nondecreasing, KeysOf, Valid, RoutedTo;
      next := [];
      assert batches[..0] == [];
      for i := 0 to |batches|
        invariant KeysOf(next) == KeysOf(batches[..i])
        invariant Routed(lows[q + 1], rowOffsets[q + 1], next)
      {
        var more := StepBatch(q, batches, i);
        KeysOfBoth(next, more);
        assert batches[..i + 1] == batches[..i] + [batches[i]];
        KeysOfMore(batches[..i], batches[i]);
        next := next + more;
      }
      assert batches[..|batches|] == batches;
    }

    method StepBatch(q: nat, batches: seq<Batch>, i: nat) returns (next: seq<Batch>)
      requires Valid() && entries != [] && q + 1 < |rows| == |lows| && q + 2 < |rowOffsets| && i < |batches|
      requires Routed(lows[q], rowOffsets[q], batches) && Nondecreasing(KeysOf(batches))
      ensures KeysOf(next) == batches[i].keys
      ensures Routed(lows[q + 1], rowOffsets[q + 1], next)
    {
      hide Nondecreasing, KeysOf, Valid, AllBisect;
      var batch := batches[i];
      ghost var j := batch.page - rowOffsets[q];
      BatchIsSorted(batches, i);
      assert RoutedTo(lows[q], rowOffsets[q], batch);
      PageAt(q, j);
      var node := file.pages[batch.page];
      IncreasingIsSorted(node.keys);
      var positions := MultiBisectRight(batch.keys, node.keys);
      next := [];
      assert positions[..0] == [];
      for n := 0 to |positions|
        invariant KeysOf(next) == KeysOf(positions[..n])
        invariant Routed(lows[q + 1], rowOffsets[q + 1], next)
      {
        assert positions[..n + 1] == positions[..n] + [positions[n]];
        var to := Batch(rowOffsets[q + 1] + node.offset + positions[n].page, positions[n].keys);
        KeysOfMore(positions[..n], positions[n]);
        forall k | k in to.keys ensures k in batch.keys { KeysOfBatch(positions, positions[n], k); }
        BatchGoesDown(rows[q], lows[q + 1], lows[q], rowOffsets[q], rowOffsets[q + 1], batch, positions[n]);
        RoutedMore(lows[q + 1], rowOffsets[q + 1], next, to);
        KeysOfMore(next, to);
        next := next + [to];
      }
      assert positions[..|positions|] == positions;
    }

    /** The leaves for a set of keys, with the keys that belong on each. */
    method WalkThroughInternalNodes(keys: set<Key>) returns (keysAtIndex: seq<Batch>, ghost sorted: seq<Key>)
      requires Valid() && entries != []
      ensures Ascending(sorted) && Lists(sorted, keys) && KeysOf(keysAtIndex) == sorted
      ensures |rows| == |lows| > 0 && |rowOffsets| == |rows| + 1
      ensures Routed(lows[|rows| - 1], rowOffsets[|rows| - 1], keysAtIndex)
    {
      hide Valid, Ascending, Nondecreasing, Lists, KeysOf, Routed, Layer, LeafRow, Sorted, EntriesOf;
      TreeFacts();
      var list := SortedKeys(keys);
      sorted := list;
      keysAtIndex := [Batch(0, list)];
      StartAtRoot(lows[0], list);
      IncreasingIsSorted(list);
      for q := 0 to |rowOffsets| - 2
        invariant KeysOf(keysAtIndex) == sorted
        invariant Routed(lows[q], rowOffsets[q], keysAtIndex)
      {
        keysAtIndex := StepDown(q, keysAtIndex);
      }
    }

    /** Exactly the stored entries for these keys, each once and in key order. */
    method IterEntries(keys: set<Key>) returns (found: seq<Entry>)
      requires Valid()
      ensures Sorted(found) && forall e :: e in found <==> e in entries && e.key in keys
    {
      hide Valid, Ascending, Lists, KeysOf, Layer, LeafRow, Sorted, EntriesOf, Find, Routes, Lookup;
      if keys == {} || KeyCount() == 0 {
        NothingFound(entries, keys);
        return [];
      }
      TreeFacts();
      var batches: seq<Batch>;
      ghost var sorted: seq<Key>;
      batches, sorted := WalkThroughInternalNodes(keys);
      ghost var h := |rows| - 1;
      found := [];
      assert batches[..0] == [];
      NothingToFind(entries);
      for i := 0 to |batches|
        invariant found == Lookup(entries, KeysOf(batches[..i]))
      {
        assert batches[..i + 1] == batches[..i] + [batches[i]];
        KeysOfMore(batches[..i], batches[i]);
        assert RoutedTo(lows[h], rowOffsets[h], batches[i]);
        var more := LookOnLeaf(batches[i]);
        LookupBoth(entries, KeysOf(batches[..i]), batches[i].keys);
        found := found + more;
      }
      assert batches[..|batches|] == batches;
      LookupIsExact(entries, sorted);
      ListsKeys(sorted, keys);
    }

    method LookOnLeaf(batch: Batch) returns (found: seq<Entry>)
      requires Valid() && entries != [] && |rows| == |lows| > 0 && |rowOffsets| == |rows| + 1
      requires RoutedTo(lows[|rows| - 1], rowOffsets[|rows| - 1], batch)
      ensures found == Lookup(entries, batch.keys)
    {
      hide Valid, Layer, Sorted, EntriesOf, Find, Routes, Lookup, LeafRow;
      found := [];
      NothingToFind(entries);
      assert batch.keys[..0] == [];
      for i := 0 to |batch.keys|
        invariant found == Lookup(entries, batch.keys[..i])
      {
        assert batch.keys[i] in batch.keys;
        LeafFacts(batch.page - rowOffsets[|rows| - 1], batch.keys[i]);
        var more := FindOnPage(file.pages[batch.page].entries, batch.keys[i]);
        LookupMore(entries, batch.keys, i);
        found := found + more;
      }
      assert batch.keys[..|batch.keys|] == batch.keys;
    }

    lemma LeafFacts(c: nat, k: Key)
      requires Valid() && entries != [] && |rows| == |lows| > 0 && |rowOffsets| == |rows| + 1
      requires c < |lows[|rows| - 1]| && Routes(lows[|rows| - 1], c, k)
      ensures rowOffsets[|rows| - 1] + c < |file.pages| && file.pages[rowOffsets[|rows| - 1] + c].Leaf?
      ensures Sorted(file.pages[rowOffsets[|rows| - 1] + c].entries)
      ensures Find(entries, k) == Find(file.pages[rowOffsets[|rows| - 1] + c].entries, k)
    {
      hide Routes, Find, Sorted, EntriesOf, LeafRow, Layer;
      TreeFacts();
      RowLength(rows, lows, entries, |rows| - 1);
      RowFacts(|rows| - 1, c);
      RouteEnds(rows[|rows| - 1], lows[|rows| - 1], c, k);
    }

    /** All entries in key order, from the leaf row alone. */
    method IterAllEntries() returns (all: seq<Entry>)
      requires Valid()
      ensures all == entries
    {
      hide Layer, LeafRow, Sorted, EntriesOf, OffsetOf;
      all := [];
      if KeyCount() == 0 {
        return;
      }
      TreeFacts();
      var h := |rowOffsets| - 2;
      if rowOffsets[|rowOffsets| - 1] == 1 {
        OnlyRoot();
        return file.pages[0].entries;
      }
      LeafRowLength();
      assert rows[h][..0] == [];
      NoEntries();
      for n := rowOffsets[h] to rowOffsets[h + 1]
        invariant all == EntriesOf(rows[h][..n - rowOffsets[h]])
      {
        ghost var c := n - rowOffsets[h];
        LeafAt(c);
        EntriesOfMore(rows[h], c);
        all := all + file.pages[n].entries;
      }
      assert rows[h][..|rows[h]|] == rows[h];
    }

    lemma LeafRowLength()
      requires Valid() && entries != [] && |rows| > 0 && |rowOffsets| == |rows| + 1
      ensures rowOffsets[|rows|] == rowOffsets[|rows| - 1] + |rows[|rows| - 1]|
    {
    }

    lemma LeafAt(c: nat)
      requires Valid() && entries != [] && |rows| > 0 && |rowOffsets| == |rows| + 1 && c < |rows[|rows| - 1]|
      ensures rows[|rows| - 1][c].Leaf?
      ensures rowOffsets[|rows| - 1] + c < |file.pages| && file.pages[rowOffsets[|rows| - 1] + c] == rows[|rows| - 1][c]
    {
      TreeFacts();
      RowFacts(|rows| - 1, c);
    }

    /** One page in all: it is root and leaf. */
    lemma OnlyRoot()
      requires Valid() && entries != [] && |rowOffsets| > 1 && rowOffsets[|rowOffsets| - 1] == 1
      ensures |file.pages| > 0 && file.pages[0].Leaf? && file.pages[0].entries == entries
    {
      TreeFacts();
      RowLength(rows, lows, entries, |rows| - 1);
      LeafRowLength();
      if |rows| > 1 {
        OffsetGrows(file.rowLengths, |rows| - 1);
        LongerThanRoot();
      }
      RowFacts(0, 0);
      LeafAt(0);
      assert rows[0] == [rows[0][0]];
      EntriesOfMore(rows[0], 0);
      NoEntries();
      assert rows[0][..0] == [] && rows[0][..1] == rows[0];
    }

    lemma LongerThanRoot()
      requires Valid() && entries != [] && |rows| > 1
      ensures OffsetOf(file.rowLengths, |rows| - 1) >= 1
    {
      OffsetGrows(file.rowLengths, |rows| - 1);
      assert file.rowLengths[0] == |rows[0]| == 1;
    }

    lemma PageAt(q: nat, j: nat)
      requires Valid() && entries != [] && q + 1 < |rows| == |lows| && q + 2 < |rowOffsets| && j < |lows[q]|
      ensures |rows[q]| == |lows[q]| && rowOffsets[q] + j < |file.pages| && file.pages[rowOffsets[q] + j] == rows[q][j]
      ensures rows[q][j].Internal? && Ascending(rows[q][j].keys) && Layer(rows[q], lows[q + 1], lows[q])
    {
      hide OffsetOf, Layer, Ascending;
      RowLength(rows, lows, entries, q);
      RowFacts(q, j);
      AllLowsIncrease(rows, lows, entries, q);
      var r := q + 1;
      assert Layer(rows[q], lows[r], lows[q]);
    }
  }

  lemma StartAtRoot(low: seq<Key>, list: seq<Key>)
    requires |low| == 1
    ensures Routed(low, 0, [Batch(0, list)]) && KeysOf([Batch(0, list)]) == list
  {
    KeysOfMore([], Batch(0, list));
    assert [] + [Batch(0, list)] == [Batch(0, list)];
  }

  lemma {:induction false} OffsetGrows(lengths: seq<nat>, q: nat)
    requires 0 < q <= |lengths|
    ensures OffsetOf(lengths, q) >= lengths[0]
  {
    if q > 1 { OffsetGrows(lengths, q - 1); }
  }

  lemma NoEntries()
    ensures EntriesOf([]) == []
  {
  }

  lemma EntriesOfMore(pages: seq<Page>, c: nat)
    requires c < |pages| && pages[c].Leaf?
    ensures EntriesOf(pages[..c + 1]) == EntriesOf(pages[..c]) + pages[c].entries
  {
    assert pages[..c + 1][..c] == pages[..c];
  }

  lemma NothingToFind(entries: seq<Entry>)
    ensures Lookup(entries, []) == [] && KeysOf([]) == []
  {
  }

  lemma NothingFound(entries: seq<Entry>, keys: set<Key>)
    requires keys == {} || entries == []
    ensures Sorted([]) && forall e :: e in entries ==> e.key !in keys
  {
  }

  lemma ListsKeys(list: seq<Key>, keys: set<Key>)
    requires Lists(list, keys)
    ensures forall k :: k in list <==> k in keys
  {
  }

  lemma LookupMore(entries: seq<Entry>, keys: seq<Key>, i: nat)
    requires i < |keys|
    ensures Lookup(entries, keys[..i + 1]) == Lookup(entries, keys[..i]) + Find(entries, keys[i])
  {
    hide Find;
    assert keys[..i + 1][..i] == keys[..i];
  }

  lemma {:induction false} LookupBoth(entries: seq<Entry>, first: seq<Key>, second: seq<Key>)
    ensures Lookup(entries, first + second) == Lookup(entries, first) + Lookup(entries, second)
  {
    hide Find;
    if second == [] {
      assert first + second == first;
    } else {
      var init, k := second[..|second| - 1], second[|second| - 1];
      LookupBoth(entries, first, init);
      var both := first + second;
      assert both[..|both| - 1] == first + init && both[|both| - 1] == k;
      assert Lookup(entries, first) + (Lookup(entries, init) + Find(entries, k))
          == (Lookup(entries, first) + Lookup(entries, init)) + Find(entries, k);
    }
  }

  /** A leaf page is a dictionary. */
  method FindOnPage(page: seq<Entry>, k: Key) returns (found: seq<Entry>)
    requires Sorted(page)
    ensures found == Find(page, k)
  {
    if i :| 0 <= i < |page| && page[i].key == k {
      FindIs(page, i);
      return [page[i]];
    }
    return [];
  }

  lemma BatchIsSorted(batches: seq<Batch>, i: nat)
    requires i < |batches| && Nondecreasing(KeysOf(batches))
    ensures Nondecreasing(batches[i].keys)
  {
    hide Nondecreasing, KeysOf;
    var before, after := batches[..i], batches[i + 1..];
    assert batches == (before + [batches[i]]) + after;
    KeysOfBoth(before + [batches[i]], after);
    KeysOfMore(before, batches[i]);
    PartIsSorted(KeysOf(before), batches[i].keys, KeysOf(after));
  }

  lemma PartIsSorted(before: seq<Key>, part: seq<Key>, after: seq<Key>)
    requires Nondecreasing((before + part) + after)
    ensures Nondecreasing(part)
  {
    var all := (before + part) + after;
    forall m, n | 0 <= m < n < |part| ensures part[m] <= part[n] {
      assert all[|before| + m] == part[m] && all[|before| + n] == part[n];
    }
  }
}
