/** B+Tree indices as values: pages, rows of pages, and what makes rows a search tree for a list of
    entries (bzrlib/btree_index.py). */
module BTreePages {
  import opened Basics

  /** A node of the graph index: key, value and reference lists. */
  datatype Entry = Entry(key: Key, value: string, refs: seq<seq<Key>>)

  /** An internal page points at |keys| + 1 children, the first of which is number offset of the row below. */
  datatype Page = Leaf(entries: seq<Entry>) | Internal(offset: nat, keys: seq<Key>)

  type Rows = seq<seq<Page>>

  /** What is written out: all rows one after the other, root first. */
  datatype TreeFile = TreeFile(pages: seq<Page>, rowLengths: seq<nat>, keyCount: nat, refLists: nat)

  ghost predicate Sorted(entries: seq<Entry>) {
    forall i, j :: 0 <= i < j < |entries| ==> entries[i].key < entries[j].key
  }

  // ---------------------------------------------------------------------------
  // Rows that are a tree
  // ---------------------------------------------------------------------------

  ghost function EntriesOf(pages: seq<Page>): seq<Entry> {
    if pages == [] then []
    else
      var last := pages[|pages| - 1];
      EntriesOf(pages[..|pages| - 1]) + if last.Leaf? then last.entries else []
  }

  /** lows[c] is the first key on page c. */
  ghost predicate LeafRow(pages: seq<Page>, lows: seq<Key>) {
    && |lows| == |pages|
    && forall c :: 0 <= c < |pages| ==> pages[c].Leaf? && pages[c].entries != [] && lows[c] == pages[c].entries[0].key
  }

  function NextChild(page: Page): nat
    requires page.Internal?
  {
    page.offset + |page.keys| + 1
  }

  /** A page of the row above whose children have the given first keys: its separators are those of
      all its children but the first. */
  ghost predicate Directs(page: Page, below: seq<Key>, low: Key) {
    && page.Internal? && NextChild(page) <= |below| && low == below[page.offset]
    && forall t :: 0 <= t < |page.keys| ==> page.keys[t] == below[page.offset + 1 + t]
  }

  ghost predicate Consecutive(first: Page, second: Page) {
    first.Internal? && second.Internal? && second.offset == NextChild(first)
  }

  /** The pages of one row share out the pages of the row below, in order and without gaps. */
  ghost predicate Layer(pages: seq<Page>, below: seq<Key>, lows: seq<Key>) {
    && |pages| == |lows| > 0
    && (forall j :: 0 <= j < |pages| ==> Directs(pages[j], below, lows[j]))
    && (forall j, k :: 0 <= j && j + 1 == k < |pages| ==> Consecutive(pages[j], pages[k]))
    && pages[0].offset == 0
    && NextChild(pages[|pages| - 1]) == |below|
  }

  /** lows[q][c] is the first key below page c of row q. */
  ghost predicate Tree(rows: Rows, lows: seq<seq<Key>>, entries: seq<Entry>) {
    && |rows| == |lows| > 0 && |rows[0]| == 1
    && (forall q, r :: 0 <= q && q + 1 == r < |rows| ==> Layer(rows[q], lows[r], lows[q]))
    && LeafRow(rows[|rows| - 1], lows[|rows| - 1])
    && EntriesOf(rows[|rows| - 1]) == entries && Sorted(entries)
  }

  // ---------------------------------------------------------------------------
  // Adding one entry: the row p that takes the separator decides what the rows become
  // ---------------------------------------------------------------------------

  function WithLastKey(pages: seq<Page>, key: Key): seq<Page>
    requires pages != [] && pages[|pages| - 1].Internal?
  {
    var last := pages[|pages| - 1];
    pages[..|pages| - 1] + [Internal(last.offset, last.keys + [key])]
  }

  function WithLastEntry(pages: seq<Page>, e: Entry): seq<Page>
    requires pages != [] && pages[|pages| - 1].Leaf?
  {
    pages[..|pages| - 1] + [Leaf(pages[|pages| - 1].entries + [e])]
  }

  /** The page opened in a row: an internal page starts at the next child to come. */
  function NewPage(rows: Rows, q: nat, e: Entry): Page
    requires q < |rows|
  {
    if q == |rows| - 1 then Leaf([e]) else Internal(|rows[q + 1]|, [])
  }

  /** The leaf took the entry. */
  ghost predicate InLeaf(rows: Rows, rows': Rows, e: Entry) {
    && |rows| == |rows'| > 0
    && (forall q :: 0 <= q < |rows| - 1 ==> rows'[q] == rows[q])
    && var leaves := rows[|rows| - 1];
       leaves != [] && leaves[|leaves| - 1].Leaf? && rows'[|rows| - 1] == WithLastEntry(leaves, e)
  }

  /** Row p took the key as a separator; every row below it got a new page. */
  ghost predicate BelowRow(rows: Rows, rows': Rows, e: Entry, p: nat) {
    && |rows| == |rows'| && p < |rows| - 1
    && (forall q :: 0 <= q < p ==> rows'[q] == rows[q])
    && rows[p] != [] && rows[p][|rows[p]| - 1].Internal? && rows'[p] == WithLastKey(rows[p], e.key)
    && forall q :: p < q < |rows| ==> rows'[q] == rows[q] + [NewPage(rows, q, e)]
  }

  /** No row took it: every row got a new page, below a new root. */
  ghost predicate BelowRoot(rows: Rows, rows': Rows, e: Entry) {
    && |rows'| == |rows| + 1 && rows'[0] == [Internal(0, [e.key])]
    && forall q, r :: 0 <= q < |rows| && r == q + 1 ==> rows'[r] == rows[q] + [NewPage(rows, q, e)]
  }

  ghost predicate Inserted(rows: Rows, rows': Rows, e: Entry) {
    || InLeaf(rows, rows', e)
    || (exists p: nat :: BelowRow(rows, rows', e, p))
    || BelowRoot(rows, rows', e)
  }

  /** What adding an entry did to one row. */
  ghost predicate RowChange(rows: Rows, q: nat, pages': seq<Page>, e: Entry)
    requires q < |rows|
  {
    rows[q] != [] &&
    var last := rows[q][|rows[q]| - 1];
    || pages' == rows[q]
    || (last.Internal? && pages' == WithLastKey(rows[q], e.key))
    || (last.Leaf? && pages' == WithLastEntry(rows[q], e))
    || pages' == rows[q] + [NewPage(rows, q, e)]
  }

  /** How the lists of first keys follow: a row with a new page has a new first key, and a new root
      has the key as its only separator. */
  ghost predicate LowsFollow(rows: Rows, lows: seq<seq<Key>>, rows': Rows, lows': seq<seq<Key>>, e: Entry) {
    && |lows| == |rows| <= |rows'| == |lows'| <= |rows| + 1
    && (|rows'| > |rows| ==> rows'[0] == [Internal(0, [e.key])] && |lows'[0]| == 1)
    && forall q :: 0 <= q < |rows| ==> RowFollows(rows, lows, rows', lows', e, q)
  }

  ghost predicate RowFollows(rows: Rows, lows: seq<seq<Key>>, rows': Rows, lows': seq<seq<Key>>, e: Entry, q: nat)
    requires q < |rows| == |lows| <= |rows'| == |lows'|
  {
    var r := q + (|rows'| - |rows|);
    RowChange(rows, q, rows'[r], e) && lows'[r] == if |rows'[r]| > |rows[q]| then lows[q] + [e.key] else lows[q]
  }

  ghost predicate Above(entries: seq<Entry>, e: Entry) {
    entries != [] ==> entries[|entries| - 1].key < e.key
  }

  lemma SortedMore(entries: seq<Entry>, e: Entry)
    requires Sorted(entries) && Above(entries, e)
    ensures Sorted(entries + [e])
  {
    var more := entries + [e];
    forall i, j | 0 <= i < j < |more| ensures more[i].key < more[j].key {
      if j == |entries| { assert i < |entries| - 1 ==> entries[i].key < entries[|entries| - 1].key; }
    }
  }

  lemma LayerNewPage(pages: seq<Page>, below: seq<Key>, lows: seq<Key>, key: Key)
    requires Layer(pages, below, lows)
    ensures Layer(pages + [Internal(|below|, [])], below + [key], lows + [key])
  {
    var pages', below', lows' := pages + [Internal(|below|, [])], below + [key], lows + [key];
    forall j | 0 <= j < |pages'| ensures Directs(pages'[j], below', lows'[j]) {
      if j < |pages| { assert Directs(pages[j], below, lows[j]); }
    }
    forall j, k | 0 <= j && j + 1 == k < |pages'| ensures Consecutive(pages'[j], pages'[k]) {
      if k < |pages| { assert Consecutive(pages[j], pages[k]); } else { assert Directs(pages[j], below, lows[j]); }
    }
  }

  lemma LayerNewKey(pages: seq<Page>, below: seq<Key>, lows: seq<Key>, key: Key)
    requires Layer(pages, below, lows)
    ensures pages[|pages| - 1].Internal? && Layer(WithLastKey(pages, key), below + [key], lows)
  {
    var n := |pages| - 1;
    assert Directs(pages[n], below, lows[n]);
    var pages', below' := WithLastKey(pages, key), below + [key];
    forall j | 0 <= j < |pages'| ensures Directs(pages'[j], below', lows[j]) {
      assert Directs(pages[j], below, lows[j]);
      if j == n {
        forall t | 0 <= t < |pages'[n].keys| ensures pages'[n].keys[t] == below'[pages'[n].offset + 1 + t] {
        }
      }
    }
    forall j, k | 0 <= j && j + 1 == k < |pages'| ensures Consecutive(pages'[j], pages'[k]) {
      assert Consecutive(pages[j], pages[k]);
    }
  }

  lemma LayerNewRoot(low: seq<Key>, key: Key)
    requires |low| == 1
    ensures Layer([Internal(0, [key])], low + [key], [low[0]])
  {
    assert Directs(Internal(0, [key]), low + [key], low[0]);
  }

  lemma LeavesNewPage(pages: seq<Page>, lows: seq<Key>, e: Entry)
    requires LeafRow(pages, lows)
    ensures LeafRow(pages + [Leaf([e])], lows + [e.key])
    ensures EntriesOf(pages + [Leaf([e])]) == EntriesOf(pages) + [e]
  {
    assert (pages + [Leaf([e])])[..|pages|] == pages;
  }

  lemma LeavesNewEntry(pages: seq<Page>, lows: seq<Key>, e: Entry)
    requires LeafRow(pages, lows) && pages != []
    ensures LeafRow(WithLastEntry(pages, e), lows)
    ensures EntriesOf(WithLastEntry(pages, e)) == EntriesOf(pages) + [e]
  {
    var pages' := WithLastEntry(pages, e);
    assert pages'[..|pages'| - 1] == pages[..|pages| - 1];
  }

  ghost function AllMore(lows: seq<seq<Key>>, p: int, key: Key): seq<seq<Key>> {
    seq(|lows|, q requires 0 <= q < |lows| => if q > p then lows[q] + [key] else lows[q])
  }

  /** One row is as long as its list of first keys. */
  lemma RowLength(rows: Rows, lows: seq<seq<Key>>, entries: seq<Entry>, q: nat)
    requires Tree(rows, lows, entries) && q < |rows|
    ensures |rows[q]| == |lows[q]| > 0
  {
    if q + 1 < |rows| {
      var r := q + 1;
      assert Layer(rows[q], lows[r], lows[q]);
    } else if q > 0 {
      var o := q - 1;
      assert Layer(rows[o], lows[q], lows[o]);
      assert Directs(rows[o][0], lows[q], lows[o][0]);
    }
  }

  lemma InLeafKeepsTree(rows: Rows, lows: seq<seq<Key>>, entries: seq<Entry>, rows': Rows, e: Entry)
    requires Tree(rows, lows, entries) && Above(entries, e) && InLeaf(rows, rows', e)
    ensures Tree(rows', lows, entries + [e])
  {
    hide Layer, LeafRow, Sorted, Above, EntriesOf;
    SortedMore(entries, e);
    var h := |rows| - 1;
    LeavesNewEntry(rows[h], lows[h], e);
    RowLength(rows, lows, entries, 0);
    forall q, r | 0 <= q && q + 1 == r < |rows'| ensures Layer(rows'[q], lows[r], lows[q]) {
      assert Layer(rows[q], lows[r], lows[q]);
    }
  }

  lemma BelowRowKeepsTree(rows: Rows, lows: seq<seq<Key>>, entries: seq<Entry>, rows': Rows, e: Entry, p: nat)
    requires Tree(rows, lows, entries) && Above(entries, e) && BelowRow(rows, rows', e, p)
    ensures Tree(rows', AllMore(lows, p, e.key), entries + [e])
  {
    hide Layer, LeafRow, Sorted, Above, EntriesOf;
    var lows' := AllMore(lows, p, e.key);
    SortedMore(entries, e);
    LeavesNewPage(rows[|rows| - 1], lows[|rows| - 1], e);
    forall q, r | 0 <= q && q + 1 == r < |rows'| ensures Layer(rows'[q], lows'[r], lows'[q]) {
      assert Layer(rows[q], lows[r], lows[q]);
      RowLength(rows, lows, entries, r);
      if q > p {
        LayerNewPage(rows[q], lows[r], lows[q], e.key);
      } else if q == p {
        LayerNewKey(rows[q], lows[r], lows[q], e.key);
      }
    }
  }

  lemma BelowRootKeepsTree(rows: Rows, lows: seq<seq<Key>>, entries: seq<Entry>, rows': Rows, e: Entry)
    requires |lows| > 0 && lows[0] != []
    requires Tree(rows, lows, entries) && Above(entries, e) && BelowRoot(rows, rows', e)
    ensures Tree(rows', [[lows[0][0]]] + AllMore(lows, -1, e.key), entries + [e])
  {
    hide Layer, LeafRow, Sorted, Above, EntriesOf;
    RowLength(rows, lows, entries, 0);
    var lows' := [[lows[0][0]]] + AllMore(lows, -1, e.key);
    SortedMore(entries, e);
    LeavesNewPage(rows[|rows| - 1], lows[|rows| - 1], e);
    forall q, r | 0 <= q && q + 1 == r < |rows'| ensures Layer(rows'[q], lows'[r], lows'[q]) {
      if q == 0 {
        LayerNewRoot(lows[0], e.key);
      } else {
        var q0, r0 := q - 1, r - 1;
        assert Layer(rows[q0], lows[r0], lows[q0]);
        RowLength(rows, lows, entries, r0);
        LayerNewPage(rows[q0], lows[r0], lows[q0], e.key);
      }
    }
  }

  /** Whatever row takes the separator, the rows stay a tree, now with one more entry. */
  lemma InsertKeepsTree(rows: Rows, lows: seq<seq<Key>>, entries: seq<Entry>, rows': Rows, e: Entry)
      returns (lows': seq<seq<Key>>)
    requires Tree(rows, lows, entries) && Above(entries, e) && Inserted(rows, rows', e)
    ensures Tree(rows', lows', entries + [e]) && LowsFollow(rows, lows, rows', lows', e)
  {
    hide Tree, Above, LowsFollow;
    RowsFilled(rows, lows, entries);
    if InLeaf(rows, rows', e) {
      lows' := lows;
      InLeafKeepsTree(rows, lows, entries, rows', e);
      InLeafLows(rows, lows, rows', e);
    } else if p: nat :| BelowRow(rows, rows', e, p) {
      lows' := AllMore(lows, p, e.key);
      BelowRowKeepsTree(rows, lows, entries, rows', e, p);
      BelowRowLows(rows, lows, rows', e, p);
    } else {
      HasRoot(rows, lows, entries);
      lows' := [[lows[0][0]]] + AllMore(lows, -1, e.key);
      BelowRootKeepsTree(rows, lows, entries, rows', e);
      BelowRootLows(rows, lows, rows', e);
    }
  }

  lemma RowsFilled(rows: Rows, lows: seq<seq<Key>>, entries: seq<Entry>)
    requires Tree(rows, lows, entries)
    ensures |lows| == |rows| && forall q :: 0 <= q < |rows| ==> rows[q] != []
  {
    forall q | 0 <= q < |rows| ensures rows[q] != [] { RowLength(rows, lows, entries, q); }
  }

  lemma InLeafLows(rows: Rows, lows: seq<seq<Key>>, rows': Rows, e: Entry)
    requires |lows| == |rows| && InLeaf(rows, rows', e)
    requires forall q :: 0 <= q < |rows| ==> rows[q] != []
    ensures LowsFollow(rows, lows, rows', lows, e)
  {
    forall q | 0 <= q < |rows| ensures RowFollows(rows, lows, rows', lows, e, q) {
      assert rows[q] != [];
    }
  }

  lemma BelowRowLows(rows: Rows, lows: seq<seq<Key>>, rows': Rows, e: Entry, p: nat)
    requires |lows| == |rows| && BelowRow(rows, rows', e, p)
    requires forall q :: 0 <= q < |rows| ==> rows[q] != []
    ensures LowsFollow(rows, lows, rows', AllMore(lows, p, e.key), e)
  {
    forall q | 0 <= q < |rows| ensures RowFollows(rows, lows, rows', AllMore(lows, p, e.key), e, q) {
      assert rows[q] != [];
    }
  }

  lemma BelowRootLows(rows: Rows, lows: seq<seq<Key>>, rows': Rows, e: Entry)
    requires |lows| == |rows| > 0 && BelowRoot(rows, rows', e) && lows[0] != []
    requires forall q :: 0 <= q < |rows| ==> rows[q] != []
    ensures LowsFollow(rows, lows, rows', [[lows[0][0]]] + AllMore(lows, -1, e.key), e)
  {
    var lows' := [[lows[0][0]]] + AllMore(lows, -1, e.key);
    forall q | 0 <= q < |rows| ensures RowFollows(rows, lows, rows', lows', e, q) {
      var r := q + 1;
      assert rows'[r] == rows[q] + [NewPage(rows, q, e)];
    }
  }

  lemma HasRoot(rows: Rows, lows: seq<seq<Key>>, entries: seq<Entry>)
    requires Tree(rows, lows, entries)
    ensures |lows| > 0 && |lows[0]| > 0
  {
    RowLength(rows, lows, entries, 0);
  }

  lemma FirstLeafIsTree(e: Entry)
    ensures Tree([[Leaf([e])]], [[e.key]], [e])
  {
    assert [Leaf([e])][..0] == [];
    assert EntriesOf([Leaf([e])]) == [e];
  }

  // ---------------------------------------------------------------------------
  // The written index
  // ---------------------------------------------------------------------------

  ghost function Flat(rows: Rows): seq<Page> {
    if rows == [] then [] else Flat(rows[..|rows| - 1]) + rows[|rows| - 1]
  }

  ghost function Lengths(rows: Rows): seq<nat> {
    seq(|rows|, q requires 0 <= q < |rows| => |rows[q]|)
  }

  /** The file holds the rows of a search tree for exactly these entries. */
  ghost predicate IsIndexOf(file: TreeFile, rows: Rows, lows: seq<seq<Key>>, entries: seq<Entry>) {
    && file.keyCount == |entries| && file.pages == Flat(rows) && file.rowLengths == Lengths(rows)
    && (forall i :: 0 <= i < |entries| ==> |entries[i].refs| == file.refLists)
    && if entries == [] then rows == [] else Tree(rows, lows, entries)
  }

  ghost predicate IsIndex(file: TreeFile, entries: seq<Entry>) {
    exists rows, lows :: IsIndexOf(file, rows, lows, entries)
  }
}
