/** Following references through an index page by page: BTreeGraphIndex._find_ancestors of
    bzrlib/btree_index.py, and the loop of CombinedGraphIndex.find_ancestry that repeats it. */
module BTreeAncestry {
  import opened Basics
  import opened BTreePages
  import opened BTreeSearch

  type ParentMap = map<Key, seq<Key>>

  // ---------------------------------------------------------------------------
  // Specification
  // ---------------------------------------------------------------------------

  ghost predicate Stored(entries: seq<Entry>, k: Key) {
    exists e :: e in entries && e.key == k
  }

  /** k is stored with this reference list number n. */
  ghost predicate HasParents(entries: seq<Entry>, n: nat, k: Key, parents: seq<Key>) {
    exists e :: e in entries && e.key == k && n < |e.refs| && e.refs[n] == parents
  }

  ghost predicate IsParent(entries: seq<Entry>, n: nat, k: Key, p: Key) {
    exists e :: e in entries && e.key == k && n < |e.refs| && p in e.refs[n]
  }

  ghost predicate IsLine(entries: seq<Entry>, n: nat, path: seq<Key>) {
    forall i, j :: 0 <= i && i + 1 == j < |path| ==> IsParent(entries, n, path[i], path[j])
  }

  ghost predicate Connects(entries: seq<Entry>, n: nat, keys: set<Key>, path: seq<Key>, k: Key) {
    |path| > 0 && IsLine(entries, n, path) && path[0] in keys && path[|path| - 1] == k
  }

  /** k is one of the keys or one of their ancestors, stored or not. */
  ghost predicate Reached(entries: seq<Entry>, n: nat, keys: set<Key>, k: Key) {
    exists path :: Connects(entries, n, keys, path, k)
  }

  lemma ReachedStart(entries: seq<Entry>, n: nat, keys: set<Key>, k: Key)
    requires k in keys
    ensures Reached(entries, n, keys, k)
  {
    assert Connects(entries, n, keys, [k], k);
  }

  lemma ReachedParent(entries: seq<Entry>, n: nat, keys: set<Key>, k: Key, p: Key)
    requires Reached(entries, n, keys, k) && IsParent(entries, n, k, p)
    ensures Reached(entries, n, keys, p)
  {
    hide IsParent;
    var path :| Connects(entries, n, keys, path, k);
    var longer := path + [p];
    forall i, j | 0 <= i && i + 1 == j < |longer| ensures IsParent(entries, n, longer[i], longer[j]) {
      if j < |path| { assert IsParent(entries, n, path[i], path[j]); }
    }
    assert Connects(entries, n, keys, longer, p);
  }

  lemma PrefixIsLine(entries: seq<Entry>, n: nat, path: seq<Key>)
    requires IsLine(entries, n, path) && |path| > 1
    ensures IsLine(entries, n, path[..|path| - 1]) && IsParent(entries, n, path[|path| - 2], path[|path| - 1])
  {
    var i, j := |path| - 2, |path| - 1;
    assert IsParent(entries, n, path[i], path[j]);
    var init := path[..|path| - 1];
    forall i, j | 0 <= i && i + 1 == j < |init| ensures IsParent(entries, n, init[i], init[j]) {
      assert IsParent(entries, n, path[i], path[j]);
    }
  }

  // ---------------------------------------------------------------------------
  // What a search has found out
  // ---------------------------------------------------------------------------

  ghost predicate TrueMap(entries: seq<Entry>, n: nat, parentMap: ParentMap) {
    forall k :: k in parentMap ==> HasParents(entries, n, k, parentMap[k])
  }

  ghost predicate TrulyMissing(entries: seq<Entry>, missing: set<Key>) {
    forall k :: k in missing ==> !Stored(entries, k)
  }

  ghost predicate Accounted(parentMap: ParentMap, missing: set<Key>, open: set<Key>, list: seq<Key>) {
    forall p :: p in list ==> p in parentMap || p in missing || p in open
  }

  /** Compared with before: everything found is true and was reached from the keys asked for, and
      every parent of a newly mapped key is mapped, missing, or among the open keys. */
  ghost predicate Sound(entries: seq<Entry>, n: nat, keys: set<Key>, parentMap0: ParentMap, missing0: set<Key>,
                        parentMap: ParentMap, missing: set<Key>, open: set<Key>) {
    && TrueMap(entries, n, parentMap) && TrulyMissing(entries, missing)
    && parentMap0.Keys <= parentMap.Keys && missing0 <= missing
    && (forall k :: k in parentMap && k !in parentMap0 ==>
          Accounted(parentMap, missing, open, parentMap[k]) && Reached(entries, n, keys, k))
    && (forall k :: k in missing && k !in missing0 ==> Reached(entries, n, keys, k))
    && forall k :: k in open ==> Reached(entries, n, keys, k)
  }

  lemma SoundStart(entries: seq<Entry>, n: nat, keys: set<Key>, parentMap: ParentMap, missing: set<Key>)
    requires TrueMap(entries, n, parentMap) && TrulyMissing(entries, missing)
    ensures Sound(entries, n, keys, parentMap, missing, parentMap, missing, {})
  {
  }

  lemma ParentsReached(entries: seq<Entry>, n: nat, keys: set<Key>, e: Entry)
    requires Reached(entries, n, keys, e.key) && e in entries && n < |e.refs|
    ensures forall p :: p in e.refs[n] ==> Reached(entries, n, keys, p)
  {
    hide Reached;
    forall p | p in e.refs[n] ensures Reached(entries, n, keys, p) {
      assert IsParent(entries, n, e.key, p);
      ReachedParent(entries, n, keys, e.key, p);
    }
  }

  /** A stored key is mapped; its parents become open. */
  lemma SoundMap(entries: seq<Entry>, n: nat, keys: set<Key>, parentMap0: ParentMap, missing0: set<Key>,
                 parentMap: ParentMap, missing: set<Key>, open: set<Key>, e: Entry)
    requires Sound(entries, n, keys, parentMap0, missing0, parentMap, missing, open)
    requires e in entries && n < |e.refs| && Reached(entries, n, keys, e.key)
    ensures Sound(entries, n, keys, parentMap0, missing0, parentMap[e.key := e.refs[n]], missing,
                  open + (set p | p in e.refs[n]))
  {
    hide Reached;
    ParentsReached(entries, n, keys, e);
    var parentMap', open' := parentMap[e.key := e.refs[n]], open + (set p | p in e.refs[n]);
    assert HasParents(entries, n, e.key, e.refs[n]);
    forall k | k in parentMap' && k !in parentMap0
      ensures Accounted(parentMap', missing, open', parentMap'[k]) && Reached(entries, n, keys, k)
    {
      if k != e.key { assert Accounted(parentMap, missing, open, parentMap[k]); }
    }
  }

  lemma SoundMissing(entries: seq<Entry>, n: nat, keys: set<Key>, parentMap0: ParentMap, missing0: set<Key>,
                     parentMap: ParentMap, missing: set<Key>, open: set<Key>, k: Key)
    requires Sound(entries, n, keys, parentMap0, missing0, parentMap, missing, open)
    requires !Stored(entries, k) && Reached(entries, n, keys, k)
    ensures Sound(entries, n, keys, parentMap0, missing0, parentMap, missing + {k}, open)
  {
    hide Reached, Stored, HasParents;
    forall x | x in parentMap && x !in parentMap0 ensures Accounted(parentMap, missing + {k}, open, parentMap[x]) {
      assert Accounted(parentMap, missing, open, parentMap[x]);
    }
  }

  /** Open keys that are mapped or missing are no longer open. */
  lemma SoundClose(entries: seq<Entry>, n: nat, keys: set<Key>, parentMap0: ParentMap, missing0: set<Key>,
                   parentMap: ParentMap, missing: set<Key>, open: set<Key>, open': set<Key>)
    requires Sound(entries, n, keys, parentMap0, missing0, parentMap, missing, open)
    requires open' <= open && forall k :: k in open && k !in open' ==> k in parentMap || k in missing
    ensures Sound(entries, n, keys, parentMap0, missing0, parentMap, missing, open')
  {
    hide Reached, TrueMap, TrulyMissing;
    forall x | x in parentMap && x !in parentMap0 ensures Accounted(parentMap, missing, open', parentMap[x]) {
      assert Accounted(parentMap, missing, open, parentMap[x]);
    }
  }

  // ---------------------------------------------------------------------------
  // One page
  // ---------------------------------------------------------------------------

  /** A leaf page: sorted, part of the entries, and with nothing left out between its first and last key. */
  ghost predicate IsLeafOf(entries: seq<Entry>, page: seq<Entry>) {
    && page != [] && Sorted(page)
    && (forall e :: e in page ==> e in entries)
    && forall e :: e in entries && page[0].key <= e.key <= page[|page| - 1].key ==> e in page
  }

  ghost predicate OnPage(page: seq<Entry>, k: Key) {
    exists i :: 0 <= i < |page| && page[i].key == k
  }

  lemma BetweenIsMissing(entries: seq<Entry>, page: seq<Entry>, k: Key)
    requires IsLeafOf(entries, page) && !OnPage(page, k) && page[0].key <= k <= page[|page| - 1].key
    ensures !Stored(entries, k)
  {
    forall e | e in page ensures e.key != k {
      var i :| 0 <= i < |page| && page[i] == e;
    }
  }

  ghost function PageKeys(page: seq<Entry>): set<Key> {
    set e | e in page :: e.key
  }

  method LookUp(page: seq<Entry>, k: Key) returns (found: Option<Entry>)
    ensures found.Some? ==> found.value in page && found.value.key == k
    ensures found.None? ==> !OnPage(page, k)
  {
    if i :| 0 <= i < |page| && page[i].key == k {
      return Some(page[i]);
    }
    return None;
  }

  ghost predicate HasRefs(entries: seq<Entry>, n: nat) {
    forall e :: e in entries ==> n < |e.refs|
  }

  /** A mapped key of the page has this parent. */
  ghost predicate ParentOnPage(page: seq<Entry>, n: nat, mapped: set<Key>, p: Key) {
    exists e :: e in page && e.key in mapped && n < |e.refs| && p in e.refs[n]
  }

  /** A parent of a mapped key of the page that can only be on another page. */
  ghost predicate LeavesPage(page: seq<Entry>, n: nat, mapped: set<Key>, p: Key) {
    page != [] && ParentOnPage(page, n, mapped, p) && (p < page[0].key || page[|page| - 1].key < p)
  }

  ghost predicate ParentsOnPage(page: seq<Entry>, n: nat, mapped: set<Key>, keys: set<Key>) {
    forall p :: p in keys ==> ParentOnPage(page, n, mapped, p)
  }

  ghost predicate AllLeavePage(page: seq<Entry>, n: nat, mapped: set<Key>, keys: set<Key>) {
    forall p :: p in keys ==> LeavesPage(page, n, mapped, p)
  }

  lemma MoreMapped(page: seq<Entry>, n: nat, mapped: set<Key>, mapped': set<Key>, keys: set<Key>)
    requires mapped <= mapped'
    ensures ParentsOnPage(page, n, mapped, keys) ==> ParentsOnPage(page, n, mapped', keys)
    ensures AllLeavePage(page, n, mapped, keys) ==> AllLeavePage(page, n, mapped', keys)
  {
    forall p | p in keys && ParentOnPage(page, n, mapped, p) ensures ParentOnPage(page, n, mapped', p) {
      var e :| e in page && e.key in mapped && n < |e.refs| && p in e.refs[n];
    }
  }

  /** Mapping a key of the page makes its parents parents on the page. */
  lemma MappedParents(page: seq<Entry>, n: nat, mapped: set<Key>, keys: set<Key>, e: Entry)
    requires ParentsOnPage(page, n, mapped, keys) && e in page && n < |e.refs|
    ensures ParentsOnPage(page, n, mapped + {e.key}, keys + set p | p in e.refs[n])
  {
    hide ParentOnPage;
    MoreMapped(page, n, mapped, mapped + {e.key}, keys);
    forall p | p in e.refs[n] ensures ParentOnPage(page, n, mapped + {e.key}, p) {
      IsParentOnPage(page, n, mapped + {e.key}, e, p);
    }
  }

  lemma IsParentOnPage(page: seq<Entry>, n: nat, mapped: set<Key>, e: Entry, p: Key)
    requires e in page && e.key in mapped && n < |e.refs| && p in e.refs[n]
    ensures ParentOnPage(page, n, mapped, p)
  {
  }

  /** The part of a query that belongs on one page: each key is mapped or known to be missing. */
  method TakeQueried(page: seq<Entry>, subKeys: seq<Key>, n: nat, parentMap0: ParentMap, missing0: set<Key>,
                     ghost entries: seq<Entry>, ghost keys: set<Key>, ghost before: ParentMap, ghost gone: set<Key>, ghost off: set<Key>)
      returns (parentMap: ParentMap, missing: set<Key>, toCheck: set<Key>)
    requires Sound(entries, n, keys, before, gone, parentMap0, missing0, off) && HasRefs(entries, n)
    requires IsLeafOf(entries, page) && forall k :: k in subKeys ==> k in keys && (Stored(entries, k) ==> OnPage(page, k))
    ensures Sound(entries, n, keys, before, gone, parentMap, missing, off + toCheck)
    ensures forall k :: k in subKeys ==> k in parentMap || k in missing
    ensures parentMap0.Keys <= parentMap.Keys && missing0 <= missing
    ensures ParentsOnPage(page, n, parentMap.Keys, toCheck)
  {
    hide Sound, Stored, OnPage, ParentOnPage;
    parentMap, missing, toCheck := parentMap0, missing0, {};
    assert off + {} == off;
    for i := 0 to |subKeys|
      invariant Sound(entries, n, keys, before, gone, parentMap, missing, off + toCheck)
      invariant forall j :: 0 <= j < i ==> subKeys[j] in parentMap || subKeys[j] in missing
      invariant ParentsOnPage(page, n, parentMap.Keys, toCheck)
      invariant parentMap0.Keys <= parentMap.Keys && missing0 <= missing
    {
      var k := subKeys[i];
      assert k in subKeys;
      ReachedStart(entries, n, keys, k);
      var found := LookUp(page, k);
      if found.None? {
        SoundMissing(entries, n, keys, before, gone, parentMap, missing, off + toCheck, k);
        missing := missing + {k};
      } else {
        var parentKeys := found.value.refs[n];
        SoundMap(entries, n, keys, before, gone, parentMap, missing, off + toCheck, found.value);
        assert (off + toCheck) + (set p | p in parentKeys) == off + (toCheck + (set p | p in parentKeys));
        MappedParents(page, n, parentMap.Keys, toCheck, found.value);
        assert parentMap[k := parentKeys].Keys == parentMap.Keys + {k};
        parentMap := parentMap[k := parentKeys];
        toCheck := toCheck + (set p | p in parentKeys);
      }
    }
  }

  /** One round: parents on the page are mapped, the others are missing or may be on another page. */
  method CheckParents(page: seq<Entry>, toCheck: set<Key>, n: nat, parentMap0: ParentMap, missing0: set<Key>, off0: set<Key>,
                      ghost entries: seq<Entry>, ghost keys: set<Key>, ghost before: ParentMap, ghost gone: set<Key>)
      returns (parentMap: ParentMap, missing: set<Key>, off: set<Key>, next: set<Key>)
    requires Sound(entries, n, keys, before, gone, parentMap0, missing0, off0 + toCheck) && HasRefs(entries, n)
    requires IsLeafOf(entries, page) && toCheck !! parentMap0.Keys && ParentsOnPage(page, n, parentMap0.Keys, toCheck)
    ensures Sound(entries, n, keys, before, gone, parentMap, missing, off + next)
    ensures parentMap0.Keys <= parentMap.Keys && missing0 <= missing && off0 <= off
    ensures next == {} || exists k :: k in toCheck && OnPage(page, k) && k in parentMap
    ensures ParentsOnPage(page, n, parentMap.Keys, next) && AllLeavePage(page, n, parentMap.Keys, off - off0)
  {
    hide Sound, Stored, OnPage, ParentOnPage, ParentsOnPage, AllLeavePage;
    NoneToCheck(page, n, parentMap0.Keys);
    parentMap, missing, off, next := parentMap0, missing0, off0, {};
    var rest := toCheck;
    assert off0 + toCheck == off + (rest + next);
    assert off - off0 == {};
    while rest != {}
      invariant rest <= toCheck
      invariant Sound(entries, n, keys, before, gone, parentMap, missing, off + (rest + next))
      invariant parentMap0.Keys <= parentMap.Keys && missing0 <= missing && off0 <= off
      invariant next == {} || exists k :: k in toCheck && OnPage(page, k) && k in parentMap
      invariant ParentsOnPage(page, n, parentMap.Keys, next) && AllLeavePage(page, n, parentMap.Keys, off - off0)
    {
      ghost var some := AnyOf(rest);
      var k: Key :| k in rest;
      ghost var open := off + (rest + next);
      OpenIsReached(entries, n, keys, before, gone, parentMap, missing, open, k);
      var found := LookUp(page, k);
      if found.Some? {
        var parentKeys := found.value.refs[n];
        SoundMap(entries, n, keys, before, gone, parentMap, missing, open, found.value);
        MappedParents(page, n, parentMap.Keys, next, found.value);
        MoreMapped(page, n, parentMap.Keys, parentMap.Keys + {k}, off - off0);
        assert parentMap[k := parentKeys].Keys == parentMap.Keys + {k};
        parentMap := parentMap[k := parentKeys];
        next := next + (set p | p in parentKeys);
        IsOnPage(page, found.value);
        SoundClose(entries, n, keys, before, gone, parentMap, missing, open + (set p | p in parentKeys), off + (rest - {k} + next));
      } else if k < page[0].key || k > page[|page| - 1].key {
        OneMoreLeaves(page, n, parentMap0.Keys, parentMap.Keys, toCheck, off, off0, k);
        off := off + {k};
        assert off + (rest - {k} + next) == open;
      } else {
        BetweenIsMissing(entries, page, k);
        SoundMissing(entries, n, keys, before, gone, parentMap, missing, open, k);
        missing := missing + {k};
        SoundClose(entries, n, keys, before, gone, parentMap, missing, open, off + (rest - {k} + next));
      }
      rest := rest - {k};
    }
    assert off + (rest + next) == off + next;
  }

  lemma NoneToCheck(page: seq<Entry>, n: nat, mapped: set<Key>)
    ensures ParentsOnPage(page, n, mapped, {}) && AllLeavePage(page, n, mapped, {})
  {
  }

  lemma OneMoreLeaves(page: seq<Entry>, n: nat, mapped: set<Key>, mapped': set<Key>, toCheck: set<Key>, off: set<Key>, off0: set<Key>, k: Key)
    requires ParentsOnPage(page, n, mapped, toCheck) && mapped <= mapped' && k in toCheck
    requires page != [] && (k < page[0].key || page[|page| - 1].key < k)
    requires AllLeavePage(page, n, mapped', off - off0)
    ensures AllLeavePage(page, n, mapped', off + {k} - off0)
  {
    hide ParentOnPage;
    MoreMapped(page, n, mapped, mapped', toCheck);
  }

  lemma IsOnPage(page: seq<Entry>, e: Entry)
    requires e in page
    ensures OnPage(page, e.key)
  {
  }

  lemma OpenIsReached(entries: seq<Entry>, n: nat, keys: set<Key>, parentMap0: ParentMap, missing0: set<Key>,
                      parentMap: ParentMap, missing: set<Key>, open: set<Key>, k: Key)
    requires Sound(entries, n, keys, parentMap0, missing0, parentMap, missing, open) && k in open
    ensures Reached(entries, n, keys, k)
  {
  }

  /** Follows parents as long as they are on the page; this ends even if references form a cycle. */
  method FollowOnPage(page: seq<Entry>, queried: set<Key>, n: nat, parentMap0: ParentMap, missing0: set<Key>, off0: set<Key>,
                      ghost entries: seq<Entry>, ghost keys: set<Key>, ghost before: ParentMap, ghost gone: set<Key>)
      returns (parentMap: ParentMap, missing: set<Key>, off: set<Key>)
    requires Sound(entries, n, keys, before, gone, parentMap0, missing0, off0 + queried) && HasRefs(entries, n)
    requires IsLeafOf(entries, page) && ParentsOnPage(page, n, parentMap0.Keys, queried)
    ensures Sound(entries, n, keys, before, gone, parentMap, missing, off)
    ensures parentMap0.Keys <= parentMap.Keys && missing0 <= missing && off0 <= off
    ensures AllLeavePage(page, n, parentMap.Keys, off - off0)
  {
    hide Sound, IsLeafOf, OnPage, HasRefs, Unmapped, ParentsOnPage, AllLeavePage;
    NoneToCheck(page, n, parentMap0.Keys);
    parentMap, missing, off := parentMap0, missing0, off0;
    var toCheck := queried - parentMap.Keys;
    SoundClose(entries, n, keys, before, gone, parentMap, missing, off + queried, off + toCheck);
    FewerToCheck(page, n, parentMap.Keys, queried, toCheck);
    assert off - off0 == {};
    while toCheck != {}
      invariant Sound(entries, n, keys, before, gone, parentMap, missing, off + toCheck)
      invariant toCheck !! parentMap.Keys && ParentsOnPage(page, n, parentMap.Keys, toCheck)
      invariant AllLeavePage(page, n, parentMap.Keys, off - off0)
      invariant parentMap0.Keys <= parentMap.Keys && missing0 <= missing && off0 <= off
      decreases Unmapped(page, parentMap), |toCheck|
    {
      var next: set<Key>;
      ghost var last, was, away := toCheck, parentMap, off;
      parentMap, missing, off, next := CheckParents(page, toCheck, n, parentMap, missing, off, entries, keys, before, gone);
      FollowProgress(page, last, was, parentMap, next);
      StillLeave(page, n, was.Keys, parentMap.Keys, off0, away, off);
      toCheck := next - parentMap.Keys;
      FewerToCheck(page, n, parentMap.Keys, next, toCheck);
      SoundClose(entries, n, keys, before, gone, parentMap, missing, off + next, off + toCheck);
    }
    assert off + toCheck == off;
  }

  lemma FewerToCheck(page: seq<Entry>, n: nat, mapped: set<Key>, keys: set<Key>, fewer: set<Key>)
    requires ParentsOnPage(page, n, mapped, keys) && fewer <= keys
    ensures ParentsOnPage(page, n, mapped, fewer)
  {
    hide ParentOnPage;
  }

  lemma StillLeave(page: seq<Entry>, n: nat, mapped: set<Key>, mapped': set<Key>, off0: set<Key>, off: set<Key>, off': set<Key>)
    requires AllLeavePage(page, n, mapped, off - off0) && AllLeavePage(page, n, mapped', off' - off) && mapped <= mapped'
    ensures AllLeavePage(page, n, mapped', off' - off0)
  {
    hide LeavesPage;
    MoreMapped(page, n, mapped, mapped', off - off0);
  }

  /** How many keys of the page are not mapped yet. */
  ghost function Unmapped(page: seq<Entry>, parentMap: ParentMap): nat {
    |PageKeys(page) - parentMap.Keys|
  }

  lemma FollowProgress(page: seq<Entry>, toCheck: set<Key>, was: ParentMap, parentMap: ParentMap, next: set<Key>)
    requires toCheck != {} && toCheck !! was.Keys && was.Keys <= parentMap.Keys
    requires next == {} || exists k :: k in toCheck && OnPage(page, k) && k in parentMap
    ensures Unmapped(page, parentMap) <= Unmapped(page, was)
    ensures Unmapped(page, parentMap) < Unmapped(page, was) || |next - parentMap.Keys| < |toCheck|
  {
    hide PageKeys, OnPage;
    var all, rest := PageKeys(page) - was.Keys, PageKeys(page) - parentMap.Keys;
    assert rest <= all;
    SizeOfSubset(rest, all);
    if next != {} {
      var k :| k in toCheck && OnPage(page, k) && k in parentMap;
      KeyOfPage(page, k);
      assert k in all && k !in rest;
      SizeOfSubset(rest, all - {k});
    } else {
      assert next - parentMap.Keys == {};
    }
  }

  lemma KeyOfPage(page: seq<Entry>, k: Key)
    requires OnPage(page, k)
    ensures k in PageKeys(page)
  {
    var i :| 0 <= i < |page| && page[i].key == k;
    assert page[i] in page;
  }

  // ---------------------------------------------------------------------------
  // All pages of a query
  // ---------------------------------------------------------------------------

  /** What a caller that asks for more keeps. */
  ghost predicate KnownSoFar(entries: seq<Entry>, n: nat, parentMap: ParentMap, missing: set<Key>) {
    TrueMap(entries, n, parentMap) && TrulyMissing(entries, missing)
  }

  /** The leaf at which a batch arrives is a leaf of the entries, and what it lacks of the batch is missing. */
  lemma LeafOfBatch(index: BTreeGraphIndex, batch: Batch)
    requires index.Valid() && index.entries != [] && batch.keys != []
    requires |index.rows| == |index.lows| > 0 && |index.rowOffsets| == |index.rows| + 1
    requires RoutedTo(index.lows[|index.rows| - 1], index.rowOffsets[|index.rows| - 1], batch)
    ensures batch.page < |index.file.pages| && index.file.pages[batch.page].Leaf?
    ensures IsLeafOf(index.entries, index.file.pages[batch.page].entries)
    ensures forall k :: k in batch.keys && Stored(index.entries, k) ==> OnPage(index.file.pages[batch.page].entries, k)
  {
    hide Sorted, LeafRow, Layer, Routes, EntriesOf, Find, IsLeafOf;
    var h := |index.rows| - 1;
    var c := batch.page - index.rowOffsets[h];
    index.TreeFacts();
    RowLength(index.rows, index.lows, index.entries, h);
    index.LeafAt(c);
    PageIsLeaf(index.rows[h], index.lows[h], c);
    forall k | k in batch.keys && Stored(index.entries, k) ensures OnPage(index.file.pages[batch.page].entries, k) {
      index.LeafFacts(c, k);
      StoredIsFound(index.entries, index.file.pages[batch.page].entries, k);
    }
  }

  lemma StoredIsFound(entries: seq<Entry>, page: seq<Entry>, k: Key)
    requires Sorted(entries) && Stored(entries, k) && Find(entries, k) == Find(page, k)
    ensures OnPage(page, k)
  {
    var e :| e in entries && e.key == k;
    var i :| 0 <= i < |entries| && entries[i] == e;
    FindIs(entries, i);
  }

  lemma PageIsLeaf(pages: seq<Page>, lows: seq<Key>, c: nat)
    requires LeafRow(pages, lows) && Sorted(EntriesOf(pages)) && c < |pages|
    ensures pages[c].Leaf? && IsLeafOf(EntriesOf(pages), pages[c].entries)
  {
    hide Sorted, EntriesOf;
    var page := pages[c].entries;
    var first, last := page[0], page[|page| - 1];
    assert first in page && last in page;
    PagesSorted(pages, c, c, first, last);
    forall e | e in page ensures e in EntriesOf(pages) {
      assert IsOn(pages, c, e);
      EntryOnPage(pages, e);
    }
    forall e | e in EntriesOf(pages) && first.key <= e.key <= last.key ensures e in page {
      EntryOnPage(pages, e);
      var d :| IsOn(pages, d, e);
      if d < c { PagesSorted(pages, d, c, e, first); }
      if c < d { PagesSorted(pages, c, d, last, e); }
    }
  }

  /** A parent that left the page of a mapped key. */
  ghost predicate LeavesSomePage(pages: seq<Page>, n: nat, mapped: set<Key>, p: Key) {
    exists c: nat :: c < |pages| && pages[c].Leaf? && LeavesPage(pages[c].entries, n, mapped, p)
  }

  lemma LeaveSomePage(pages: seq<Page>, n: nat, mapped: set<Key>, mapped': set<Key>, off0: set<Key>, off: set<Key>, c: nat)
    requires mapped <= mapped' && c < |pages| && pages[c].Leaf?
    requires forall p :: p in off0 ==> LeavesSomePage(pages, n, mapped, p)
    requires AllLeavePage(pages[c].entries, n, mapped', off - off0)
    ensures forall p :: p in off ==> LeavesSomePage(pages, n, mapped', p)
  {
    forall p | p in off ensures LeavesSomePage(pages, n, mapped', p) {
      if p in off0 {
        assert LeavesSomePage(pages, n, mapped, p);
        var d: nat :| d < |pages| && pages[d].Leaf? && LeavesPage(pages[d].entries, n, mapped, p);
        MoreMapped(pages[d].entries, n, mapped, mapped', {p});
        assert LeavesPage(pages[d].entries, n, mapped', p);
      } else {
        assert LeavesPage(pages[c].entries, n, mapped', p);
      }
    }
  }

  /** Every key asked for ends up mapped or missing.  Parents are looked up on the page of their child, and
      those that can only be on other pages are returned. */
  method FindAncestors(index: BTreeGraphIndex, keys: set<Key>, n: nat, parentMap0: ParentMap, missing0: set<Key>)
      returns (parentMap: ParentMap, missing: set<Key>, search: Option<set<Key>>)
    requires index.Valid() && KnownSoFar(index.entries, n, parentMap0, missing0)
    ensures search == None <==> index.entries != [] && n >= index.file.refLists
    ensures search == None ==> parentMap == parentMap0 && missing == missing0
    ensures search.Some? ==>
              && Sound(index.entries, n, keys, parentMap0, missing0, parentMap, missing, search.value)
              && (forall k :: k in keys ==> k in parentMap || k in missing)
              && search.value !! parentMap.Keys && search.value !! missing
              && (forall p :: p in search.value ==> LeavesSomePage(index.file.pages, n, parentMap.Keys, p))
  {
    hide LeavesSomePage, AllLeavePage, Sound, KnownSoFar, IsLeafOf, OnPage, HasRefs, RoutedTo, Routed, Stored, Lists, KeysOf, Ascending, Accounted;
    parentMap, missing := parentMap0, missing0;
    if index.KeyCount() == 0 {
      NothingIsStored(n, keys, parentMap0, missing0);
      return parentMap, missing + keys, Some({});
    }
    if n >= index.file.refLists {
      return parentMap, missing, None;
    }
    index.TreeFacts();
    AllHaveRefs(index, n);
    KnownStart(index.entries, n, keys, parentMap, missing);
    var batches, sorted := index.WalkThroughInternalNodes(keys);
    var off: set<Key> := {};
    assert batches[..0] == [];
    for i := 0 to |batches|
      invariant Sound(index.entries, n, keys, parentMap0, missing0, parentMap, missing, off)
      invariant forall j, k :: 0 <= j < i && k in batches[j].keys ==> k in parentMap || k in missing
      invariant forall p :: p in off ==> LeavesSomePage(index.file.pages, n, parentMap.Keys, p)
    {
      ghost var was, away := parentMap.Keys, off;
      BatchOfQuery(index, keys, batches, sorted, i);
      if batches[i].keys != [] {
        LeafOfBatch(index, batches[i]);
        parentMap, missing, off := SearchPage(index.file.pages[batches[i].page].entries, batches[i].keys, n,
          parentMap, missing, off, index.entries, keys, parentMap0, missing0);
        LeaveSomePage(index.file.pages, n, was, parentMap.Keys, away, off, batches[i].page);
      }
    }
    AllQueried(keys, batches, sorted, parentMap, missing);
    search := Some(off - parentMap.Keys - missing);
    SoundClose(index.entries, n, keys, parentMap0, missing0, parentMap, missing, off, search.value);
  }

  method SearchPage(page: seq<Entry>, subKeys: seq<Key>, n: nat, parentMap0: ParentMap, missing0: set<Key>, off0: set<Key>,
                    ghost entries: seq<Entry>, ghost keys: set<Key>, ghost before: ParentMap, ghost gone: set<Key>)
      returns (parentMap: ParentMap, missing: set<Key>, off: set<Key>)
    requires Sound(entries, n, keys, before, gone, parentMap0, missing0, off0) && HasRefs(entries, n)
    requires IsLeafOf(entries, page) && forall k :: k in subKeys ==> k in keys && (Stored(entries, k) ==> OnPage(page, k))
    ensures Sound(entries, n, keys, before, gone, parentMap, missing, off)
    ensures forall k :: k in subKeys ==> k in parentMap || k in missing
    ensures parentMap0.Keys <= parentMap.Keys && missing0 <= missing
    ensures AllLeavePage(page, n, parentMap.Keys, off - off0)
  {
    hide *;
    var toCheck: set<Key>;
    parentMap, missing, toCheck := TakeQueried(page, subKeys, n, parentMap0, missing0, entries, keys, before, gone, off0);
    parentMap, missing, off := FollowOnPage(page, toCheck, n, parentMap, missing, off0, entries, keys, before, gone);
  }

  lemma NothingIsStored(n: nat, keys: set<Key>, parentMap: ParentMap, missing: set<Key>)
    requires KnownSoFar([], n, parentMap, missing)
    ensures Sound([], n, keys, parentMap, missing, parentMap, missing + keys, {})
  {
    hide Reached;
    forall k | k in keys ensures Reached([], n, keys, k) { ReachedStart([], n, keys, k); }
  }

  lemma AllHaveRefs(index: BTreeGraphIndex, n: nat)
    requires index.Valid() && n < index.file.refLists
    ensures HasRefs(index.entries, n)
  {
    forall e | e in index.entries ensures n < |e.refs| {
      var i :| 0 <= i < |index.entries| && index.entries[i] == e;
    }
  }

  lemma KnownStart(entries: seq<Entry>, n: nat, keys: set<Key>, parentMap: ParentMap, missing: set<Key>)
    requires KnownSoFar(entries, n, parentMap, missing)
    ensures Sound(entries, n, keys, parentMap, missing, parentMap, missing, {})
  {
    SoundStart(entries, n, keys, parentMap, missing);
  }

  lemma BatchOfQuery(index: BTreeGraphIndex, keys: set<Key>, batches: seq<Batch>, sorted: seq<Key>, i: nat)
    requires i < |batches| && KeysOf(batches) == sorted && Lists(sorted, keys)
    requires |index.rows| == |index.lows| > 0 && |index.rowOffsets| == |index.rows| + 1
    requires Routed(index.lows[|index.rows| - 1], index.rowOffsets[|index.rows| - 1], batches)
    ensures RoutedTo(index.lows[|index.rows| - 1], index.rowOffsets[|index.rows| - 1], batches[i])
    ensures forall k :: k in batches[i].keys ==> k in keys
  {
    hide RoutedTo, KeysOf;
    assert batches[i] in batches;
    forall k | k in batches[i].keys ensures k in keys {
      KeysOfBatch(batches, batches[i], k);
      assert k in sorted;
    }
  }

  lemma {:induction false} InSomeBatch(batches: seq<Batch>, k: Key) returns (i: nat)
    requires k in KeysOf(batches)
    ensures i < |batches| && k in batches[i].keys
  {
    var init, last := batches[..|batches| - 1], batches[|batches| - 1];
    if k in last.keys {
      i := |batches| - 1;
    } else {
      i := InSomeBatch(init, k);
    }
  }

  lemma AllQueried(keys: set<Key>, batches: seq<Batch>, sorted: seq<Key>, parentMap: ParentMap, missing: set<Key>)
    requires KeysOf(batches) == sorted && Lists(sorted, keys)
    requires forall j, k :: 0 <= j < |batches| && k in batches[j].keys ==> k in parentMap || k in missing
    ensures forall k :: k in keys ==> k in parentMap || k in missing
  {
    hide KeysOf;
    forall k | k in keys ensures k in parentMap || k in missing {
      assert k in sorted;
      var i := InSomeBatch(batches, k);
    }
  }

  // ---------------------------------------------------------------------------
  // Asking again until nothing is open
  // ---------------------------------------------------------------------------

  /** Known keys are true, and whatever they lead to is known or still to be asked for. */
  ghost predicate Asking(entries: seq<Entry>, n: nat, keys: set<Key>, parentMap: ParentMap, missing: set<Key>, search: set<Key>) {
    && KnownSoFar(entries, n, parentMap, missing)
    && (forall k :: k in keys ==> k in parentMap || k in missing || k in search)
    && (forall k :: k in parentMap ==> Accounted(parentMap, missing, search, parentMap[k]))
    && (forall k :: k in parentMap || k in missing || k in search ==> Reached(entries, n, keys, k))
  }

  lemma {:induction false} ReachedTwice(entries: seq<Entry>, n: nat, keys: set<Key>, more: set<Key>, path: seq<Key>, k: Key)
    requires Connects(entries, n, more, path, k) && forall x :: x in more ==> Reached(entries, n, keys, x)
    ensures Reached(entries, n, keys, k)
    decreases |path|
  {
    hide Reached, IsParent;
    if |path| > 1 {
      PrefixIsLine(entries, n, path);
      var init := path[..|path| - 1];
      assert Connects(entries, n, more, init, path[|path| - 2]);
      ReachedTwice(entries, n, keys, more, init, path[|path| - 2]);
      ReachedParent(entries, n, keys, path[|path| - 2], k);
    } else {
      assert path[0] in more;
    }
  }

  lemma AskedAgain(entries: seq<Entry>, n: nat, keys: set<Key>, parentMap0: ParentMap, missing0: set<Key>, search0: set<Key>,
                   parentMap: ParentMap, missing: set<Key>, search: set<Key>)
    requires Asking(entries, n, keys, parentMap0, missing0, search0) && Sorted(entries)
    requires Sound(entries, n, search0, parentMap0, missing0, parentMap, missing, search)
    requires forall k :: k in search0 ==> k in parentMap || k in missing
    ensures Asking(entries, n, keys, parentMap, missing, search)
  {
    hide Reached, Stored, HasParents, Sorted;
    forall k | k in parentMap ensures Accounted(parentMap, missing, search, parentMap[k]) {
      if k in parentMap0 {
        SameParents(entries, n, k, parentMap0[k], parentMap[k]);
        assert Accounted(parentMap0, missing0, search0, parentMap0[k]);
      }
    }
    forall k | k in parentMap || k in missing || k in search ensures Reached(entries, n, keys, k) {
      if !(k in parentMap0 || k in missing0) {
        assert Reached(entries, n, search0, k);
        StillReached(entries, n, keys, search0, k);
      }
    }
  }

  lemma StillReached(entries: seq<Entry>, n: nat, keys: set<Key>, more: set<Key>, k: Key)
    requires Reached(entries, n, more, k) && forall x :: x in more ==> Reached(entries, n, keys, x)
    ensures Reached(entries, n, keys, k)
  {
    hide Connects;
    var path :| Connects(entries, n, more, path, k);
    ReachedTwice(entries, n, keys, more, path, k);
  }

  lemma SameParents(entries: seq<Entry>, n: nat, k: Key, parents: seq<Key>, parents': seq<Key>)
    requires Sorted(entries) && HasParents(entries, n, k, parents) && HasParents(entries, n, k, parents')
    ensures parents == parents'
  {
    var e :| e in entries && e.key == k && n < |e.refs| && e.refs[n] == parents;
    var f :| f in entries && f.key == k && n < |f.refs| && f.refs[n] == parents';
    var i :| 0 <= i < |entries| && entries[i] == e;
    var j :| 0 <= j < |entries| && entries[j] == f;
  }

  /** Every key a search can meet. */
  ghost function Universe(entries: seq<Entry>, n: nat, keys: set<Key>): set<Key> {
    keys + set e, p | e in entries && n < |e.refs| && p in e.refs[n] :: p
  }

  lemma ReachedInUniverse(entries: seq<Entry>, n: nat, keys: set<Key>, k: Key)
    requires Reached(entries, n, keys, k)
    ensures k in Universe(entries, n, keys)
  {
    var path :| Connects(entries, n, keys, path, k);
    if |path| > 1 {
      PrefixIsLine(entries, n, path);
      assert IsParent(entries, n, path[|path| - 2], k);
      var e :| e in entries && e.key == path[|path| - 2] && n < |e.refs| && k in e.refs[n];
    }
  }

  lemma {:induction false} LineIsKnown(entries: seq<Entry>, n: nat, keys: set<Key>, parentMap: ParentMap, missing: set<Key>,
                                       path: seq<Key>, k: Key)
    requires Asking(entries, n, keys, parentMap, missing, {}) && Sorted(entries) && Connects(entries, n, keys, path, k)
    ensures k in parentMap || k in missing
    decreases |path|
  {
    hide Reached, Sorted;
    if |path| > 1 {
      PrefixIsLine(entries, n, path);
      var init, q := path[..|path| - 1], path[|path| - 2];
      assert Connects(entries, n, keys, init, q);
      LineIsKnown(entries, n, keys, parentMap, missing, init, q);
      var e :| e in entries && e.key == q && n < |e.refs| && k in e.refs[n];
      assert Stored(entries, q);
      assert q in parentMap;
      assert HasParents(entries, n, q, e.refs[n]);
      SameParents(entries, n, q, e.refs[n], parentMap[q]);
      assert Accounted(parentMap, missing, {}, parentMap[q]);
    } else {
      assert path[0] in keys;
    }
  }

  /** The whole ancestry in the index: mapped are exactly the stored keys that are reached, missing
      exactly the reached keys that are not stored. */
  method FindAncestry(index: BTreeGraphIndex, keys: set<Key>, n: nat) returns (r: Option<(ParentMap, set<Key>)>)
    requires index.Valid()
    ensures r == None <==> keys != {} && index.entries != [] && n >= index.file.refLists
    ensures r.Some? ==> forall k :: k in r.value.0 <==> Stored(index.entries, k) && Reached(index.entries, n, keys, k)
    ensures r.Some? ==> forall k :: k in r.value.1 <==> !Stored(index.entries, k) && Reached(index.entries, n, keys, k)
    ensures r.Some? ==> TrueMap(index.entries, n, r.value.0)
  {
    hide *;
    var parentMap: ParentMap, missing: set<Key>, search := map[], {}, keys;
    ghost var all := Universe(index.entries, n, keys);
    IndexIsSorted(index);
    AskingStart(index.entries, n, keys);
    while search != {}
      invariant Asking(index.entries, n, keys, parentMap, missing, search)
      invariant search !! parentMap.Keys && search !! missing
      invariant search != {} || keys == {} || index.entries == [] || n < index.file.refLists
      decreases all - parentMap.Keys - missing
    {
      KnownFromAsking(index.entries, n, keys, parentMap, missing, search);
      ghost var k := AnyOf(search);
      ghost var was, gone := parentMap, missing;
      ghost var open := search;
      var next: Option<set<Key>>;
      parentMap, missing, next := FindAncestors(index, search, n, parentMap, missing);
      if next == None {
        SomeKeys(index.entries, n, keys, was, gone, open, k);
        return None;
      }
      AskedAgain(index.entries, n, keys, was, gone, open, parentMap, missing, next.value);
      Progress(index.entries, n, keys, was, gone, open, parentMap, missing, next.value, k);
      search := next.value;
    }
    AncestryIsComplete(index.entries, n, keys, parentMap, missing);
    r := Some((parentMap, missing));
  }

  lemma IndexIsSorted(index: BTreeGraphIndex)
    requires index.Valid()
    ensures Sorted(index.entries)
  {
  }

  lemma AskingStart(entries: seq<Entry>, n: nat, keys: set<Key>)
    ensures Asking(entries, n, keys, map[], {}, keys)
  {
    hide Reached;
    forall k | k in keys ensures Reached(entries, n, keys, k) { ReachedStart(entries, n, keys, k); }
  }

  lemma KnownFromAsking(entries: seq<Entry>, n: nat, keys: set<Key>, parentMap: ParentMap, missing: set<Key>, search: set<Key>)
    requires Asking(entries, n, keys, parentMap, missing, search)
    ensures KnownSoFar(entries, n, parentMap, missing)
  {
  }

  lemma SomeKeys(entries: seq<Entry>, n: nat, keys: set<Key>, parentMap: ParentMap, missing: set<Key>, search: set<Key>, k: Key)
    requires Asking(entries, n, keys, parentMap, missing, search) && k in search
    ensures keys != {}
  {
    hide Connects;
    assert Reached(entries, n, keys, k);
    var path :| Connects(entries, n, keys, path, k);
    StartsInKeys(entries, n, keys, path, k);
  }

  lemma StartsInKeys(entries: seq<Entry>, n: nat, keys: set<Key>, path: seq<Key>, k: Key)
    requires Connects(entries, n, keys, path, k)
    ensures keys != {}
  {
    assert path[0] in keys;
  }

  lemma Progress(entries: seq<Entry>, n: nat, keys: set<Key>, parentMap0: ParentMap, missing0: set<Key>, search0: set<Key>,
                 parentMap: ParentMap, missing: set<Key>, search: set<Key>, k: Key)
    requires Asking(entries, n, keys, parentMap0, missing0, search0) && k in search0
    requires Sound(entries, n, search0, parentMap0, missing0, parentMap, missing, search)
    requires search0 !! parentMap0.Keys && search0 !! missing0
    requires forall x :: x in search0 ==> x in parentMap || x in missing
    ensures var all := Universe(entries, n, keys); all - parentMap.Keys - missing < all - parentMap0.Keys - missing0
  {
    hide Reached, Universe;
    ReachedInUniverse(entries, n, keys, k);
    var all := Universe(entries, n, keys);
    assert k in all - parentMap0.Keys - missing0 && k !in all - parentMap.Keys - missing;
  }

  lemma AncestryIsComplete(entries: seq<Entry>, n: nat, keys: set<Key>, parentMap: ParentMap, missing: set<Key>)
    requires Asking(entries, n, keys, parentMap, missing, {}) && Sorted(entries)
    ensures forall k :: k in parentMap <==> Stored(entries, k) && Reached(entries, n, keys, k)
    ensures forall k :: k in missing <==> !Stored(entries, k) && Reached(entries, n, keys, k)
    ensures TrueMap(entries, n, parentMap)
  {
    hide Sorted, Connects;
    forall k ensures Reached(entries, n, keys, k) ==> k in parentMap || k in missing {
      if Reached(entries, n, keys, k) {
        var path :| Connects(entries, n, keys, path, k);
        LineIsKnown(entries, n, keys, parentMap, missing, path, k);
      }
    }
    forall k | k in parentMap ensures Stored(entries, k) {
      assert HasParents(entries, n, k, parentMap[k]);
    }
  }
}
