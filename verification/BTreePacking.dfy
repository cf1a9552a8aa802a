/** How full the pages of a written index are: a page is closed only when it refused what came next
    (BTreeBuilder._add_key of bzrlib/btree_index.py). */
module BTreePacking {
  import opened Basics
  import opened BTreePages

  /** What the chunk writer of a page accepts, which depends on how well the page compresses: whether a
      leaf that is the first of its row or not takes one more entry, and whether an internal page,
      written with or without the optimisation for size, takes one more separator. */
  datatype Room = Room(entry: (bool, seq<Entry>, Entry) -> bool, key: (bool, bool, Page, Key) -> bool) {
    /** The entry fits on an empty leaf. */
    predicate FitsAlone(e: Entry) {
      entry(true, [], e) && entry(false, [], e)
    }
  }

  /** The last page of the row, if it is the only one and if it is not, refuses the entry or its key. */
  ghost predicate Full(room: Room, optimize: bool, pages: seq<Page>, e: Entry)
    requires pages != []
  {
    match pages[|pages| - 1]
    case Leaf(entries) => !room.entry(|pages| == 1, entries, e)
    case Internal(offset, keys) => !room.key(optimize, |pages| == 1, Internal(offset, keys), e.key)
  }

  /** Everything on the page was taken when it was written, but for the first separator of the first
      page of a row, which is written without asking. */
  ghost predicate PageFits(room: Room, optimize: bool, first: bool, page: Page) {
    match page
    case Leaf(entries) => forall t :: 0 <= t < |entries| ==> room.entry(first, entries[..t], entries[t])
    case Internal(offset, keys) =>
      && (first ==> keys != [])
      && forall t :: 0 <= t < |keys| && (first ==> t > 0) ==> room.key(optimize, first, Internal(offset, keys[..t]), keys[t])
  }

  /** The page refused what came next: the first entry of the next leaf, or the first key below the
      next internal page. */
  ghost predicate PageClosed(room: Room, optimize: bool, first: bool, page: Page, next: Page, low: Key) {
    match page
    case Leaf(entries) => next.Leaf? && next.entries != [] && !room.entry(first, entries, next.entries[0])
    case Internal(offset, keys) => !room.key(optimize, first, Internal(offset, keys), low)
  }

  ghost predicate RowPacked(room: Room, optimize: bool, pages: seq<Page>, lows: seq<Key>) {
    && |pages| == |lows| > 0
    && (forall c :: 0 <= c < |pages| ==> PageFits(room, optimize, c == 0, pages[c]))
    && forall c, d :: 0 <= c && c + 1 == d < |pages| ==> PageClosed(room, optimize, c == 0, pages[c], pages[d], lows[d])
  }

  /** lows[q][c] is the first key below page c of row q. */
  ghost predicate Packed(room: Room, optimize: bool, rows: Rows, lows: seq<seq<Key>>) {
    |rows| == |lows| && forall q :: 0 <= q < |rows| ==> RowPacked(room, optimize, rows[q], lows[q])
  }

  /** The file is a search tree for the entries whose pages are all as full as they can be. */
  ghost predicate IsPackedIndex(room: Room, optimize: bool, file: TreeFile, entries: seq<Entry>) {
    exists rows, lows :: IsIndexOf(file, rows, lows, entries) && Packed(room, optimize, rows, lows)
  }

  // ---------------------------------------------------------------------------
  // Adding one entry
  // ---------------------------------------------------------------------------

  /** A row got a new page only because its last page was full, and changed its last page only if
      that was not full. */
  ghost predicate RowPlaced(room: Room, optimize: bool, pages: seq<Page>, pages': seq<Page>, e: Entry) {
    pages != [] && (pages' == pages || (Full(room, optimize, pages, e) <==> |pages'| > |pages|))
  }

  ghost predicate Placed(room: Room, optimize: bool, rows: Rows, rows': Rows, e: Entry) {
    && |rows| <= |rows'|
    && forall q, r :: 0 <= q < |rows| && r == q + (|rows'| - |rows|) ==> RowPlaced(room, optimize, rows[q], rows'[r], e)
  }

  /** The leaf that now ends with the entry e had room for it. */
  ghost predicate TakenLast(room: Room, rows: Rows, e: Entry) {
    && rows != [] && rows[|rows| - 1] != []
    && var leaves := rows[|rows| - 1];
       var last := leaves[|leaves| - 1];
       last.Leaf? && last.entries != [] && last.entries[|last.entries| - 1] == e
       && room.entry(|leaves| == 1, last.entries[..|last.entries| - 1], e)
  }

  lemma RootIsPacked(room: Room, optimize: bool, key: Key, low: Key)
    ensures RowPacked(room, optimize, [Internal(0, [key])], [low])
  {
  }

  lemma NewPageIsPacked(room: Room, optimize: bool, pages: seq<Page>, lows: seq<Key>, page: Page, e: Entry)
    requires RowPacked(room, optimize, pages, lows) && Full(room, optimize, pages, e)
    requires if pages[|pages| - 1].Leaf? then page == Leaf([e]) && room.entry(false, [], e) else page.Internal? && page.keys == []
    ensures RowPacked(room, optimize, pages + [page], lows + [e.key])
  {
    var pages', lows' := pages + [page], lows + [e.key];
    if page.Leaf? { assert page.entries[..0] == []; }
    forall c | 0 <= c < |pages'| ensures PageFits(room, optimize, c == 0, pages'[c]) {
      if c < |pages| { assert PageFits(room, optimize, c == 0, pages[c]); }
    }
    forall c, d | 0 <= c && c + 1 == d < |pages'|
      ensures PageClosed(room, optimize, c == 0, pages'[c], pages'[d], lows'[d])
    {
      if d < |pages| { assert PageClosed(room, optimize, c == 0, pages[c], pages[d], lows[d]); }
    }
  }

  lemma NewKeyIsPacked(room: Room, optimize: bool, pages: seq<Page>, lows: seq<Key>, e: Entry)
    requires RowPacked(room, optimize, pages, lows) && pages[|pages| - 1].Internal? && !Full(room, optimize, pages, e)
    ensures RowPacked(room, optimize, WithLastKey(pages, e.key), lows)
  {
    var n := |pages| - 1;
    var pages' := WithLastKey(pages, e.key);
    KeyFits(room, optimize, n == 0, pages[n], e.key);
    forall c | 0 <= c < |pages'| ensures PageFits(room, optimize, c == 0, pages'[c]) {
      assert PageFits(room, optimize, c == 0, pages[c]);
    }
    forall c, d | 0 <= c && c + 1 == d < |pages'|
      ensures PageClosed(room, optimize, c == 0, pages'[c], pages'[d], lows[d])
    {
      assert PageClosed(room, optimize, c == 0, pages[c], pages[d], lows[d]);
    }
  }

  lemma KeyFits(room: Room, optimize: bool, first: bool, page: Page, key: Key)
    requires PageFits(room, optimize, first, page) && page.Internal? && room.key(optimize, first, page, key)
    ensures PageFits(room, optimize, first, Internal(page.offset, page.keys + [key]))
  {
    var keys := page.keys + [key];
    assert page == Internal(page.offset, page.keys) && keys[..|page.keys|] == page.keys;
    forall t | 0 <= t < |keys| && (first ==> t > 0)
      ensures room.key(optimize, first, Internal(page.offset, keys[..t]), keys[t])
    {
      if t < |page.keys| { assert keys[..t] == page.keys[..t]; }
    }
  }

  lemma NewEntryIsPacked(room: Room, optimize: bool, pages: seq<Page>, lows: seq<Key>, e: Entry)
    requires RowPacked(room, optimize, pages, lows) && pages[|pages| - 1].Leaf? && !Full(room, optimize, pages, e)
    ensures RowPacked(room, optimize, WithLastEntry(pages, e), lows)
  {
    var n := |pages| - 1;
    var pages' := WithLastEntry(pages, e);
    EntryFits(room, optimize, n == 0, pages[n], e);
    forall c | 0 <= c < |pages'| ensures PageFits(room, optimize, c == 0, pages'[c]) {
      assert PageFits(room, optimize, c == 0, pages[c]);
    }
    forall c, d | 0 <= c && c + 1 == d < |pages'|
      ensures PageClosed(room, optimize, c == 0, pages'[c], pages'[d], lows[d])
    {
      assert PageClosed(room, optimize, c == 0, pages[c], pages[d], lows[d]);
    }
  }

  lemma EntryFits(room: Room, optimize: bool, first: bool, page: Page, e: Entry)
    requires PageFits(room, optimize, first, page) && page.Leaf? && room.entry(first, page.entries, e)
    ensures PageFits(room, optimize, first, Leaf(page.entries + [e]))
  {
    var entries := page.entries + [e];
    assert entries[..|page.entries|] == page.entries;
    forall t | 0 <= t < |entries| ensures room.entry(first, entries[..t], entries[t]) {
      if t < |page.entries| { assert entries[..t] == page.entries[..t]; }
    }
  }

  lemma RowKeepsPacked(room: Room, optimize: bool, rows: Rows, q: nat, lows: seq<Key>, pages': seq<Page>, lows': seq<Key>, e: Entry)
    requires q < |rows| && RowPacked(room, optimize, rows[q], lows) && RowPlaced(room, optimize, rows[q], pages', e)
    requires RowChange(rows, q, pages', e) && lows' == if |pages'| > |rows[q]| then lows + [e.key] else lows
    requires rows[q][|rows[q]| - 1].Leaf? <==> q == |rows| - 1
    requires q == |rows| - 1 && |pages'| > |rows[q]| ==> room.entry(false, [], e)
    ensures RowPacked(room, optimize, pages', lows')
  {
    hide RowPacked, Full;
    var last := rows[q][|rows[q]| - 1];
    if pages' == rows[q] {
    } else if |pages'| > |rows[q]| {
      NewPageIsPacked(room, optimize, rows[q], lows, NewPage(rows, q, e), e);
    } else if last.Internal? {
      NewKeyIsPacked(room, optimize, rows[q], lows, e);
    } else {
      NewEntryIsPacked(room, optimize, rows[q], lows, e);
    }
  }

  lemma KindOfRow(rows: Rows, lows: seq<seq<Key>>, entries: seq<Entry>, q: nat)
    requires Tree(rows, lows, entries) && q < |rows|
    ensures rows[q] != [] && (rows[q][|rows[q]| - 1].Leaf? <==> q == |rows| - 1)
  {
    RowLength(rows, lows, entries, q);
    if q + 1 < |rows| {
      var r := q + 1;
      assert Layer(rows[q], lows[r], lows[q]);
      assert Directs(rows[q][|rows[q]| - 1], lows[r], lows[q][|rows[q]| - 1]);
    }
  }

  lemma LastLeafFits(room: Room, rows: Rows, q: nat, rows': Rows, e: Entry)
    requires TakenLast(room, rows', e) && q == |rows| - 1 && |rows'| >= |rows|
    requires rows[q] != [] && rows'[|rows'| - 1] == rows[q] + [NewPage(rows, q, e)]
    ensures room.entry(false, [], e)
  {
    assert [e][..0] == [];
  }

  /** Adding an entry keeps the rows a search tree and its pages as full as they can be. */
  lemma InsertKeepsPacked(room: Room, optimize: bool, rows: Rows, lows: seq<seq<Key>>, entries: seq<Entry>, rows': Rows, e: Entry)
      returns (lows': seq<seq<Key>>)
    requires Tree(rows, lows, entries) && Above(entries, e) && Inserted(rows, rows', e)
    requires Packed(room, optimize, rows, lows) && Placed(room, optimize, rows, rows', e) && TakenLast(room, rows', e)
    ensures Tree(rows', lows', entries + [e]) && Packed(room, optimize, rows', lows')
  {
    hide Tree, Above, Inserted, RowPacked, RowPlaced, RowChange, TakenLast, Full;
    lows' := InsertKeepsTree(rows, lows, entries, rows', e);
    var d := |rows'| - |rows|;
    forall r | 0 <= r < |rows'| ensures RowPacked(room, optimize, rows'[r], lows'[r]) {
      if r < d {
        RootIsPacked(room, optimize, e.key, lows'[0][0]);
        assert lows'[0] == [lows'[0][0]];
      } else {
        var q := r - d;
        assert RowPlaced(room, optimize, rows[q], rows'[r], e);
        KindOfRow(rows, lows, entries, q);
        assert RowFollows(rows, lows, rows', lows', e, q);
        if q == |rows| - 1 && |rows'[r]| > |rows[q]| {
          GrownByPage(rows, q, rows'[r], e);
          LastLeafFits(room, rows, q, rows', e);
        }
        RowKeepsPacked(room, optimize, rows, q, lows[q], rows'[r], lows'[r], e);
      }
    }
  }

  lemma GrownByPage(rows: Rows, q: nat, pages': seq<Page>, e: Entry)
    requires q < |rows| && rows[q] != [] && RowChange(rows, q, pages', e) && |pages'| > |rows[q]|
    ensures pages' == rows[q] + [NewPage(rows, q, e)]
  {
  }

  // ---------------------------------------------------------------------------
  // There is only one way to pack the pages
  // ---------------------------------------------------------------------------

  lemma {:induction false} EntriesSoFar(pages: seq<Page>, c: nat)
    requires c <= |pages|
    ensures EntriesOf(pages[..c]) <= EntriesOf(pages)
  {
    if c < |pages| {
      var init := pages[..|pages| - 1];
      EntriesSoFar(init, c);
      assert init[..c] == pages[..c];
      assert EntriesOf(init) <= EntriesOf(pages);
      PrefixOfPrefix(EntriesOf(pages[..c]), EntriesOf(init), EntriesOf(pages));
    } else {
      assert pages[..c] == pages;
    }
  }

  lemma PrefixOfPrefix<T>(a: seq<T>, b: seq<T>, c: seq<T>)
    requires a <= b <= c
    ensures a <= c
  {
  }

  lemma SamePart<T>(whole: seq<T>, before: seq<T>, part: seq<T>, part': seq<T>)
    requires before + part <= whole && before + part' <= whole && |part| == |part'|
    ensures part == part'
  {
    forall i | 0 <= i < |part| ensures part[i] == part'[i] {
      assert part[i] == (before + part)[|before| + i] == whole[|before| + i];
      assert part'[i] == (before + part')[|before| + i] == whole[|before| + i];
    }
  }

  /** Where the entries of leaf c lie among all entries. */
  lemma LeafEntries(pages: seq<Page>, lows: seq<Key>, c: nat)
    requires LeafRow(pages, lows) && c < |pages|
    ensures EntriesOf(pages[..c + 1]) == EntriesOf(pages[..c]) + pages[c].entries <= EntriesOf(pages)
  {
    hide EntriesOf;
    var more := pages[..c + 1];
    assert more[..|more| - 1] == pages[..c];
    LastEntries(more);
    EntriesSoFar(pages, c + 1);
  }

  lemma LastEntries(pages: seq<Page>)
    requires pages != [] && pages[|pages| - 1].Leaf?
    ensures EntriesOf(pages) == EntriesOf(pages[..|pages| - 1]) + pages[|pages| - 1].entries
  {
  }

  lemma LeafRefused(room: Room, optimize: bool, first: bool, page: Page, next: Page, low: Key, other: Page)
    requires PageClosed(room, optimize, first, page, next, low) && page.Leaf? && other.Leaf?
    requires |page.entries| < |other.entries| && other.entries[..|page.entries|] == page.entries
    requires other.entries[|page.entries|] == next.entries[0]
    ensures !PageFits(room, optimize, first, other)
  {
    var k := |page.entries|;
    assert !room.entry(first, other.entries[..k], other.entries[k]);
  }

  /** Two leaves that start at the same entry: the other one holds no more if all it holds fits. */
  lemma LeafIsNoLonger(room: Room, optimize: bool, entries: seq<Entry>, m: nat, first: bool, page: Page, other: Page, last: bool, next: Page, low: Key)
    requires page.Leaf? && other.Leaf?
    requires m + |page.entries| <= |entries| && page.entries == entries[m..m + |page.entries|]
    requires m + |other.entries| <= |entries| && other.entries == entries[m..m + |other.entries|]
    requires if last then m + |page.entries| == |entries| else PageClosed(room, optimize, first, page, next, low)
    requires !last ==> next.Leaf? && next.entries != [] && m + |page.entries| < |entries| && next.entries[0] == entries[m + |page.entries|]
    ensures PageFits(room, optimize, first, other) ==> |other.entries| <= |page.entries|
  {
    if |page.entries| < |other.entries| {
      LeafRefused(room, optimize, first, page, next, low, other);
    }
  }

  lemma LeafBounds(room: Room, optimize: bool, pages: seq<Page>, lows: seq<Key>, other: Page, c: nat)
    requires LeafRow(pages, lows) && RowPacked(room, optimize, pages, lows) && c < |pages|
    requires other.Leaf? && PageFits(room, optimize, c == 0, other)
    requires EntriesOf(pages[..c]) + other.entries <= EntriesOf(pages)
    ensures |other.entries| <= |pages[c].entries|
  {
    hide EntriesOf, PageFits, PageClosed;
    var entries, m := EntriesOf(pages), |EntriesOf(pages[..c])|;
    LeafEntries(pages, lows, c);
    var last := c + 1 == |pages|;
    if last {
      assert pages[..c + 1] == pages;
      LeafIsNoLonger(room, optimize, entries, m, c == 0, pages[c], other, true, pages[c], lows[c]);
    } else {
      var d := c + 1;
      LeafEntries(pages, lows, d);
      assert PageClosed(room, optimize, c == 0, pages[c], pages[d], lows[d]);
      assert entries[m + |pages[c].entries|] == (EntriesOf(pages[..d]) + pages[d].entries)[m + |pages[c].entries|];
      LeafIsNoLonger(room, optimize, entries, m, c == 0, pages[c], other, false, pages[d], lows[d]);
    }
  }

  lemma {:induction false} SameLeaves(room: Room, optimize: bool, pages: seq<Page>, lows: seq<Key>, pages': seq<Page>, lows': seq<Key>, c: nat)
    requires LeafRow(pages, lows) && RowPacked(room, optimize, pages, lows)
    requires LeafRow(pages', lows') && RowPacked(room, optimize, pages', lows')
    requires EntriesOf(pages) == EntriesOf(pages') && c <= |pages|
    ensures c <= |pages'| && pages[..c] == pages'[..c]
  {
    hide EntriesOf, PageFits, PageClosed;
    if c > 0 {
      var b := c - 1;
      SameLeaves(room, optimize, pages, lows, pages', lows', b);
      LeafEntries(pages, lows, b);
      assert pages'[..|pages'|] == pages';
      LeafEntries(pages', lows', b);
      LeafBounds(room, optimize, pages, lows, pages'[b], b);
      LeafBounds(room, optimize, pages', lows', pages[b], b);
      SamePart(EntriesOf(pages), EntriesOf(pages[..b]), pages[b].entries, pages'[b].entries);
    }
  }

  lemma OneLeafRow(room: Room, optimize: bool, pages: seq<Page>, lows: seq<Key>, pages': seq<Page>, lows': seq<Key>)
    requires LeafRow(pages, lows) && RowPacked(room, optimize, pages, lows)
    requires LeafRow(pages', lows') && RowPacked(room, optimize, pages', lows')
    requires EntriesOf(pages) == EntriesOf(pages')
    ensures pages == pages' && lows == lows'
  {
    hide RowPacked;
    SameLeaves(room, optimize, pages, lows, pages', lows', |pages|);
    SameLeaves(room, optimize, pages', lows', pages, lows, |pages'|);
  }

  /** Two internal pages with the same first child: neither has more separators than the other. */
  lemma InternalIsNoLonger(room: Room, optimize: bool, below: seq<Key>, pages: seq<Page>, lows: seq<Key>, other: Page, low: Key, c: nat)
    requires Layer(pages, below, lows) && RowPacked(room, optimize, pages, lows) && c < |pages|
    requires Directs(other, below, low) && PageFits(room, optimize, c == 0, other)
    requires pages[c].Internal? && other.offset == pages[c].offset
    ensures |other.keys| <= |pages[c].keys|
  {
    hide PageFits, PageClosed;
    assert Directs(pages[c], below, lows[c]);
    var k := |pages[c].keys|;
    if k < |other.keys| {
      var d := c + 1;
      assert d < |pages|;
      assert Consecutive(pages[c], pages[d]) && Directs(pages[d], below, lows[d]);
      assert lows[d] == other.keys[k];
      assert other.keys[..k] == pages[c].keys;
      assert PageClosed(room, optimize, c == 0, pages[c], pages[d], lows[d]);
      assert PageFits(room, optimize, c == 0, pages[c]);
      Refused(room, optimize, c == 0, pages[c], pages[d], lows[d], other);
      assert false;
    }
  }

  lemma Refused(room: Room, optimize: bool, first: bool, page: Page, next: Page, low: Key, other: Page)
    requires PageFits(room, optimize, first, page) && PageClosed(room, optimize, first, page, next, low)
    requires page.Internal? && other.Internal? && other.offset == page.offset
    requires |page.keys| < |other.keys| && other.keys[..|page.keys|] == page.keys && other.keys[|page.keys|] == low
    ensures !PageFits(room, optimize, first, other)
  {
    var k := |page.keys|;
    assert Internal(other.offset, other.keys[..k]) == page;
  }

  lemma {:induction false} SameInternals(room: Room, optimize: bool, below: seq<Key>, pages: seq<Page>, lows: seq<Key>, pages': seq<Page>, lows': seq<Key>, c: nat)
    requires Layer(pages, below, lows) && RowPacked(room, optimize, pages, lows)
    requires Layer(pages', below, lows') && RowPacked(room, optimize, pages', lows')
    requires c <= |pages|
    ensures c <= |pages'| && pages[..c] == pages'[..c]
  {
    hide PageFits, PageClosed;
    if c > 0 {
      var a, b := c - 2, c - 1;
      SameInternals(room, optimize, below, pages, lows, pages', lows', b);
      assert Directs(pages[b], below, lows[b]);
      if b > 0 {
        assert pages[..b][a] == pages'[..b][a];
        assert Consecutive(pages[a], pages[b]);
      }
      if b < |pages'| {
        assert Directs(pages'[b], below, lows'[b]);
        if b > 0 { assert Consecutive(pages'[a], pages'[b]); }
        SameInternal(room, optimize, below, pages, lows, pages', lows', b);
      }
    }
  }

  lemma SameInternal(room: Room, optimize: bool, below: seq<Key>, pages: seq<Page>, lows: seq<Key>, pages': seq<Page>, lows': seq<Key>, b: nat)
    requires Layer(pages, below, lows) && RowPacked(room, optimize, pages, lows)
    requires Layer(pages', below, lows') && RowPacked(room, optimize, pages', lows')
    requires b < |pages| && b < |pages'| && pages[b].Internal? && pages'[b].Internal? && pages[b].offset == pages'[b].offset
    ensures pages[b] == pages'[b]
  {
    hide PageFits, PageClosed;
    assert Directs(pages[b], below, lows[b]) && Directs(pages'[b], below, lows'[b]);
    assert PageFits(room, optimize, b == 0, pages[b]) && PageFits(room, optimize, b == 0, pages'[b]);
    InternalIsNoLonger(room, optimize, below, pages, lows, pages'[b], lows'[b], b);
    InternalIsNoLonger(room, optimize, below, pages', lows', pages[b], lows[b], b);
    assert pages[b].keys == pages'[b].keys;
  }

  lemma OneLayer(room: Room, optimize: bool, below: seq<Key>, pages: seq<Page>, lows: seq<Key>, pages': seq<Page>, lows': seq<Key>)
    requires Layer(pages, below, lows) && RowPacked(room, optimize, pages, lows)
    requires Layer(pages', below, lows') && RowPacked(room, optimize, pages', lows')
    ensures pages == pages' && lows == lows'
  {
    hide PageFits, PageClosed;
    SameInternals(room, optimize, below, pages, lows, pages', lows', |pages|);
    SameInternals(room, optimize, below, pages', lows', pages, lows, |pages'|);
    forall c | 0 <= c < |pages| ensures lows[c] == lows'[c] {
      assert Directs(pages[c], below, lows[c]) && Directs(pages'[c], below, lows'[c]);
    }
  }

  /** Counted from the leaves, row i is the same in both trees. */
  lemma {:induction false} SameRow(room: Room, optimize: bool, entries: seq<Entry>, rows: Rows, lows: seq<seq<Key>>,
                                   rows': Rows, lows': seq<seq<Key>>, i: nat)
    requires Tree(rows, lows, entries) && Packed(room, optimize, rows, lows)
    requires Tree(rows', lows', entries) && Packed(room, optimize, rows', lows')
    requires i < |rows| && i < |rows'|
    ensures rows[|rows| - 1 - i] == rows'[|rows'| - 1 - i] && lows[|rows| - 1 - i] == lows'[|rows'| - 1 - i]
  {
    hide Layer, LeafRow, EntriesOf, Sorted, RowPacked;
    var q, q' := |rows| - 1 - i, |rows'| - 1 - i;
    assert RowPacked(room, optimize, rows[q], lows[q]) && RowPacked(room, optimize, rows'[q'], lows'[q']);
    if i == 0 {
      OneLeafRow(room, optimize, rows[q], lows[q], rows'[q'], lows'[q']);
    } else {
      SameRow(room, optimize, entries, rows, lows, rows', lows', i - 1);
      var r, r' := q + 1, q' + 1;
      assert Layer(rows[q], lows[r], lows[q]) && Layer(rows'[q'], lows'[r'], lows'[q']);
      OneLayer(room, optimize, lows[r], rows[q], lows[q], rows'[q'], lows'[q']);
    }
  }

  /** A row below another has two pages or more. */
  lemma RowsNarrow(room: Room, optimize: bool, entries: seq<Entry>, rows: Rows, lows: seq<seq<Key>>, q: nat)
    requires Tree(rows, lows, entries) && Packed(room, optimize, rows, lows) && 0 < q < |rows|
    ensures |rows[q]| > 1
  {
    var o := q - 1;
    RowLength(rows, lows, entries, q);
    assert RowPacked(room, optimize, rows[o], lows[o]);
    assert Layer(rows[o], lows[q], lows[o]);
    assert Directs(rows[o][0], lows[q], lows[o][0]) && PageFits(room, optimize, true, rows[o][0]);
  }

  lemma SameHeight(room: Room, optimize: bool, entries: seq<Entry>, rows: Rows, lows: seq<seq<Key>>, rows': Rows, lows': seq<seq<Key>>)
    requires Tree(rows, lows, entries) && Packed(room, optimize, rows, lows)
    requires Tree(rows', lows', entries) && Packed(room, optimize, rows', lows')
    ensures |rows| >= |rows'|
  {
    hide Layer, LeafRow, EntriesOf, Sorted, Packed;
    if |rows| < |rows'| {
      SameRow(room, optimize, entries, rows, lows, rows', lows', |rows| - 1);
      RowsNarrow(room, optimize, entries, rows', lows', |rows'| - |rows|);
      assert false;
    }
  }

  /** The entries and what fits on a page determine every page of the tree. */
  lemma PackingIsUnique(room: Room, optimize: bool, entries: seq<Entry>, rows: Rows, lows: seq<seq<Key>>, rows': Rows, lows': seq<seq<Key>>)
    requires Tree(rows, lows, entries) && Packed(room, optimize, rows, lows)
    requires Tree(rows', lows', entries) && Packed(room, optimize, rows', lows')
    ensures rows == rows'
  {
    hide Tree, Packed;
    SameHeight(room, optimize, entries, rows, lows, rows', lows');
    SameHeight(room, optimize, entries, rows', lows', rows, lows);
    forall q | 0 <= q < |rows| ensures rows[q] == rows'[q] {
      SameRow(room, optimize, entries, rows, lows, rows', lows', |rows| - 1 - q);
    }
  }

  /** So there is only one file that can be written for a stream of entries. */
  lemma FileIsUnique(room: Room, optimize: bool, file: TreeFile, file': TreeFile, entries: seq<Entry>)
    requires IsPackedIndex(room, optimize, file, entries) && IsPackedIndex(room, optimize, file', entries)
    requires file.refLists == file'.refLists
    ensures file == file'
  {
    hide Tree, Packed;
    var rows, lows :| IsIndexOf(file, rows, lows, entries) && Packed(room, optimize, rows, lows);
    var rows', lows' :| IsIndexOf(file', rows', lows', entries) && Packed(room, optimize, rows', lows');
    if entries != [] { PackingIsUnique(room, optimize, entries, rows, lows, rows', lows'); }
  }
}
