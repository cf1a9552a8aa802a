/** Writing a sorted stream of entries out as a B+Tree: BTreeBuilder._add_key and _write_nodes of
    bzrlib/btree_index.py. */
module BTreeBuild {
  import opened Basics
  import opened BTreePages
  import opened BTreePacking

  datatype Error = BadIndexKey(key: Key) | BadIndexDuplicateKey(key: Key) | BadIndexValue

  /** One row while it is written: finished pages, and the page under construction. */
  class BuilderRow {
    var nodes: nat
    var spool: seq<Page>
    var writer: Option<Page>

    ghost predicate Counted()
      reads this
    {
      nodes == |spool|
    }

    constructor ()
      ensures Counted() && spool == [] && writer == None
    {
      nodes := 0;
      spool := [];
      writer := None;
    }

    method FinishNode()
      requires Counted() && writer.Some?
      modifies this
      ensures Counted() && writer == None && spool == old(spool) + [old(writer).value]
    {
      spool := spool + [writer.value];
      nodes := nodes + 1;
      writer := None;
    }

    /** A new page, empty but for its flag and, above the leaves, its offset. */
    method Open(page: Page)
      requires Counted() && writer == None
      modifies this
      ensures Counted() && spool == old(spool) && writer == Some(page)
    {
      writer := Some(page);
    }

    /** A page is asked as the first of its row, which has less space, or as a later one. */
    method WriteEntry(e: Entry, room: Room) returns (full: bool)
      requires Counted() && writer.Some? && writer.value.Leaf?
      modifies this
      ensures Counted() && spool == old(spool)
      ensures writer == if full then old(writer) else Some(Leaf(old(writer).value.entries + [e]))
      ensures full <==> !room.entry(|spool| == 0, old(writer).value.entries, e)
    {
      full := !room.entry(nodes == 0, writer.value.entries, e);
      if !full {
        writer := Some(Leaf(writer.value.entries + [e]));
      }
    }

    method WriteKey(key: Key, room: Room, optimize: bool) returns (full: bool)
      requires Counted() && writer.Some? && writer.value.Internal?
      modifies this
      ensures Counted() && spool == old(spool)
      ensures writer == if full then old(writer) else Some(Internal(old(writer).value.offset, old(writer).value.keys + [key]))
      ensures full <==> !room.key(optimize, |spool| == 0, old(writer).value, key)
    {
      full := !room.key(optimize, nodes == 0, writer.value, key);
      if !full {
        writer := Some(Internal(writer.value.offset, writer.value.keys + [key]));
      }
    }

    /** The first separator of a fresh page always fits. */
    method WriteFirstKey(key: Key)
      requires Counted() && writer.Some? && writer.value.Internal? && writer.value.keys == []
      modifies this
      ensures Counted() && spool == old(spool)
      ensures writer == Some(Internal(old(writer).value.offset, [key]))
    {
      writer := Some(Internal(writer.value.offset, [key]));
    }
  }

  // ---------------------------------------------------------------------------
  // What the row objects stand for
  // ---------------------------------------------------------------------------

  ghost predicate Separate(rows: seq<BuilderRow>) {
    forall i, j :: 0 <= i < j < |rows| ==> rows[i] != rows[j]
  }

  ghost predicate IsOpen(row: BuilderRow, pages: seq<Page>)
    reads row
  {
    row.Counted() && row.writer.Some? && pages == row.spool + [row.writer.value]
  }

  ghost predicate IsClosed(row: BuilderRow, pages: seq<Page>)
    reads row
  {
    row.Counted() && row.writer.None? && pages == row.spool
  }

  /** Every row has a page under construction; with it, the rows are those given. */
  ghost predicate AllOpen(rows: seq<BuilderRow>, view: Rows)
    reads rows
  {
    && Separate(rows) && |rows| == |view|
    && forall i :: 0 <= i < |rows| ==> IsOpen(rows[i], view[i])
  }

  /** While a separator moves up: the rows from row i downwards are closed. */
  ghost predicate ClosedFrom(rows: seq<BuilderRow>, view: Rows, i: nat)
    reads rows
  {
    && Separate(rows) && |rows| == |view| && i <= |rows|
    && (forall q :: 0 <= q < i ==> IsOpen(rows[q], view[q]))
    && forall q :: i <= q < |rows| ==> IsClosed(rows[q], view[q])
  }

  /** The page with which a row of the target ends when it has just been opened for e. */
  ghost function OpenedPage(target: Rows, q: nat, e: Entry): Page
    requires q < |target|
  {
    if q == |target| - 1 || target[q + 1] == [] then Leaf([e]) else Internal(|target[q + 1]| - 1, [])
  }

  ghost predicate AwaitsPage(row: BuilderRow, target: Rows, q: nat, e: Entry)
    requires q < |target|
    reads row
  {
    row.Counted() && row.writer.None? && target[q] == row.spool + [OpenedPage(target, q, e)]
  }

  /** The separator has found its place in row i - 1; the rows from i on still have to open a page,
      after which and after writing e the rows will be those given. */
  ghost predicate Awaiting(rows: seq<BuilderRow>, target: Rows, e: Entry, i: nat)
    reads rows
  {
    && Separate(rows) && |rows| == |target| && i < |rows|
    && (forall q :: 0 <= q < i ==> IsOpen(rows[q], target[q]))
    && forall q :: i <= q < |rows| ==> AwaitsPage(rows[q], target, q, e)
  }

  /** Inner rows hold internal pages and the last row leaves. */
  ghost predicate Kinds(view: Rows) {
    && view != []
    && (forall q :: 0 <= q < |view| - 1 ==> LastIsInternal(view[q]))
    && LastIsLeaf(view[|view| - 1])
  }

  ghost predicate LastIsInternal(pages: seq<Page>) {
    pages != [] && pages[|pages| - 1].Internal?
  }

  ghost predicate LastIsLeaf(pages: seq<Page>) {
    pages != [] && pages[|pages| - 1].Leaf?
  }

  lemma TreeKinds(rows: Rows, lows: seq<seq<Key>>, entries: seq<Entry>)
    requires Tree(rows, lows, entries)
    ensures Kinds(rows)
  {
    forall q | 0 <= q < |rows| - 1 ensures LastIsInternal(rows[q]) {
      var r := q + 1;
      assert Layer(rows[q], lows[r], lows[q]);
      assert Directs(rows[q][|rows[q]| - 1], lows[r], lows[q][|rows[q]| - 1]);
    }
    RowLength(rows, lows, entries, |rows| - 1);
  }

  // ---------------------------------------------------------------------------
  // _add_key
  // ---------------------------------------------------------------------------

  lemma Distinctly(rows: seq<BuilderRow>, i: nat)
    requires Separate(rows) && i < |rows|
    ensures forall q :: 0 <= q < |rows| && q != i ==> rows[q] != rows[i]
  {
  }

  /** Opens the pages that are missing, above the leaves first. */
  method OpenPages(rows: seq<BuilderRow>, e: Entry, ghost target: Rows, ghost i: nat)
    requires Awaiting(rows, target, e, i)
    modifies rows
    ensures Separate(rows) && |rows| == |target|
    ensures forall q :: 0 <= q < |rows| - 1 ==> IsOpen(rows[q], target[q])
    ensures var last := rows[|rows| - 1];
            last.Counted() && last.writer == Some(Leaf([])) && target[|rows| - 1] == last.spool + [Leaf([e])]
  {
    for pos := 0 to |rows| - 1
      invariant Separate(rows) && |rows| == |target|
      invariant forall q :: 0 <= q < |rows| && (q < pos || q < i) ==> IsOpen(rows[q], target[q])
      invariant forall q :: pos <= q < |rows| && i <= q ==> AwaitsPage(rows[q], target, q, e)
    {
      if rows[pos].writer.None? {
        Distinctly(rows, pos);
        assert pos >= i ==> AwaitsPage(rows[pos], target, pos, e);
        assert pos + 1 >= i && AwaitsPage(rows[pos + 1], target, pos + 1, e);
        rows[pos].Open(Internal(rows[pos + 1].nodes, []));
        assert IsOpen(rows[pos], target[pos]);
      }
    }
    Distinctly(rows, |rows| - 1);
    assert AwaitsPage(rows[|rows| - 1], target, |rows| - 1, e);
    rows[|rows| - 1].Open(Leaf([]));
  }

  ghost function TargetBelowRow(view: Rows, e: Entry, p: nat): Rows
    requires p < |view| && LastIsInternal(view[p])
  {
    seq(|view|, q requires 0 <= q < |view| =>
      if q < p then view[q] else if q == p then WithLastKey(view[p], e.key) else view[q] + [NewPage(view, q, e)])
  }

  ghost function TargetBelowRoot(view: Rows, e: Entry): Rows {
    [[Internal(0, [e.key])]] + seq(|view|, q requires 0 <= q < |view| => view[q] + [NewPage(view, q, e)])
  }

  lemma PlacedBelowRow(rows: seq<BuilderRow>, view: Rows, e: Entry, i: nat)
    requires 0 < i < |rows| == |view| && Separate(rows) && LastIsInternal(view[i - 1])
    requires forall q :: 0 <= q < i - 1 ==> IsOpen(rows[q], view[q])
    requires IsOpen(rows[i - 1], WithLastKey(view[i - 1], e.key))
    requires forall q :: i <= q < |rows| ==> IsClosed(rows[q], view[q])
    ensures Awaiting(rows, TargetBelowRow(view, e, i - 1), e, i)
    ensures Inserted(view, TargetBelowRow(view, e, i - 1), e)
  {
    hide TargetBelowRow, Inserted, WithLastKey, LastIsInternal, Separate;
    var target := TargetBelowRow(view, e, i - 1);
    TargetAt(view, e, i - 1, 0);
    InsertedBelowRow(view, e, i - 1);
    forall q | 0 <= q < |rows| ensures if q < i then IsOpen(rows[q], target[q]) else AwaitsPage(rows[q], target, q, e) {
      TargetAt(view, e, i - 1, q);
      if q >= i {
        assert IsClosed(rows[q], view[q]);
        if q + 1 < |rows| { TargetAt(view, e, i - 1, q + 1); }
      }
    }
  }

  lemma TargetAt(view: Rows, e: Entry, p: nat, q: nat)
    requires p < |view| && LastIsInternal(view[p]) && q < |view|
    ensures |TargetBelowRow(view, e, p)| == |view|
    ensures q < p ==> TargetBelowRow(view, e, p)[q] == view[q]
    ensures q == p ==> TargetBelowRow(view, e, p)[q] == WithLastKey(view[p], e.key)
    ensures q > p ==> TargetBelowRow(view, e, p)[q] == view[q] + [NewPage(view, q, e)]
  {
  }

  lemma InsertedBelowRow(view: Rows, e: Entry, p: nat)
    requires p < |view| - 1 && LastIsInternal(view[p])
    ensures Inserted(view, TargetBelowRow(view, e, p), e)
  {
    assert BelowRow(view, TargetBelowRow(view, e, p), e, p);
  }

  lemma PlacedBelowRoot(rows: seq<BuilderRow>, root: BuilderRow, view: Rows, e: Entry)
    requires 0 < |rows| == |view| && Separate([root] + rows)
    requires IsOpen(root, [Internal(0, [e.key])])
    requires forall q :: 0 <= q < |rows| ==> IsClosed(rows[q], view[q])
    ensures Awaiting([root] + rows, TargetBelowRoot(view, e), e, 1)
    ensures Inserted(view, TargetBelowRoot(view, e), e)
  {
    var target, all := TargetBelowRoot(view, e), [root] + rows;
    forall q | 1 <= q < |all| ensures AwaitsPage(all[q], target, q, e) {
      assert IsClosed(rows[q - 1], view[q - 1]);
      if q + 1 < |all| { assert |target[q + 1]| == |view[q]| + 1; }
    }
    assert BelowRoot(view, target, e);
  }

  /** The rows from row i downwards are full. */
  ghost predicate FullFrom(room: Room, optimize: bool, view: Rows, e: Entry, i: nat) {
    i <= |view| && forall q :: i <= q < |view| ==> view[q] != [] && Full(room, optimize, view[q], e)
  }

  lemma PlacedInRow(room: Room, optimize: bool, view: Rows, e: Entry, p: nat)
    requires p < |view| && Kinds(view) && LastIsInternal(view[p]) && !Full(room, optimize, view[p], e)
    requires FullFrom(room, optimize, view, e, p + 1)
    ensures Placed(room, optimize, view, TargetBelowRow(view, e, p), e)
  {
    hide Full, FullFrom;
    var target := TargetBelowRow(view, e, p);
    forall q, r | 0 <= q < |view| && r == q + (|target| - |view|) ensures RowPlaced(room, optimize, view[q], target[r], e) {
      TargetAt(view, e, p, q);
      if q > p { FullAt(room, optimize, view, e, p + 1, q); }
      assert LastIsInternal(view[q]) || LastIsLeaf(view[q]);
    }
  }

  lemma FullAt(room: Room, optimize: bool, view: Rows, e: Entry, i: nat, q: nat)
    requires FullFrom(room, optimize, view, e, i) && i <= q < |view|
    ensures view[q] != [] && Full(room, optimize, view[q], e)
  {
  }

  lemma PlacedInRoot(room: Room, optimize: bool, view: Rows, e: Entry)
    requires FullFrom(room, optimize, view, e, 0)
    ensures Placed(room, optimize, view, TargetBelowRoot(view, e), e)
  {
    hide Full;
  }

  /** Marks where the next node starts in the row above; a row without space is finished and passes
      the mark on, and if no row has space there is a new root. */
  method PushSeparator(rows: seq<BuilderRow>, e: Entry, room: Room, optimize: bool, ghost view: Rows)
      returns (rows': seq<BuilderRow>, ghost target: Rows, ghost first: nat)
    requires rows != [] && ClosedFrom(rows, view, |rows| - 1) && Kinds(view) && view != [] && |view[0]| == 1
    requires FullFrom(room, optimize, view, e, |rows| - 1)
    modifies rows
    ensures rows' != []
    ensures Awaiting(rows', target, e, first) && Inserted(view, target, e) && Placed(room, optimize, view, target, e)
    ensures forall i :: 0 <= i < |rows'| ==> rows'[i] in rows || fresh(rows'[i])
  {
    hide *;
    var i := |rows| - 1;
    while i > 0
      invariant 0 <= i < |rows| && ClosedFrom(rows, view, i) && FullFrom(room, optimize, view, e, i)
    {
      var full := MarkRow(rows, i - 1, e, room, optimize, view);
      if !full {
        return rows, TargetBelowRow(view, e, i - 1), i;
      }
      i := i - 1;
    }
    rows' := NewRoot(rows, e, view);
    PlacedInRoot(room, optimize, view, e);
    return rows', TargetBelowRoot(view, e), 1;
  }

  method MarkRow(rows: seq<BuilderRow>, i: nat, e: Entry, room: Room, optimize: bool, ghost view: Rows) returns (full: bool)
    requires i + 1 < |rows| && ClosedFrom(rows, view, i + 1) && Kinds(view)
    requires FullFrom(room, optimize, view, e, i + 1)
    modifies rows
    ensures full ==> ClosedFrom(rows, view, i) && FullFrom(room, optimize, view, e, i)
    ensures i < |view| && LastIsInternal(view[i])
    ensures !full ==>
              && Awaiting(rows, TargetBelowRow(view, e, i), e, i + 1)
              && Inserted(view, TargetBelowRow(view, e, i), e)
              && Placed(room, optimize, view, TargetBelowRow(view, e, i), e)
  {
    hide Inserted, Awaiting, TargetBelowRow, Placed, FullFrom, Full;
    Distinctly(rows, i);
    assert IsOpen(rows[i], view[i]) && LastIsInternal(view[i]);
    assert view[i][..|view[i]| - 1] == rows[i].spool;
    assert view[i][|view[i]| - 1] == rows[i].writer.value;
    full := rows[i].WriteKey(e.key, room, optimize);
    FullKey(room, optimize, view[i], e);
    if full {
      rows[i].FinishNode();
      FullOneMore(room, optimize, view, e, i);
    } else {
      PlacedBelowRow(rows, view, e, i + 1);
      PlacedInRow(room, optimize, view, e, i);
    }
  }

  lemma FullKey(room: Room, optimize: bool, pages: seq<Page>, e: Entry)
    requires LastIsInternal(pages)
    ensures Full(room, optimize, pages, e) <==> !room.key(optimize, |pages| == 1, pages[|pages| - 1], e.key)
  {
  }

  lemma FullOneMore(room: Room, optimize: bool, view: Rows, e: Entry, i: nat)
    requires FullFrom(room, optimize, view, e, i + 1) && view[i] != [] && Full(room, optimize, view[i], e)
    ensures FullFrom(room, optimize, view, e, i)
  {
    hide Full;
  }

  method NewRoot(rows: seq<BuilderRow>, e: Entry, ghost view: Rows) returns (rows': seq<BuilderRow>)
    requires rows != [] && ClosedFrom(rows, view, 0) && view != [] && |view[0]| == 1
    ensures rows' != [] && Awaiting(rows', TargetBelowRoot(view, e), e, 1) && Inserted(view, TargetBelowRoot(view, e), e)
    ensures forall i :: 0 <= i < |rows'| ==> rows'[i] in rows || fresh(rows'[i])
  {
    hide Inserted, Awaiting, TargetBelowRoot;
    var root := new BuilderRow();
    assert IsClosed(rows[0], view[0]);
    root.Open(Internal(rows[0].nodes - 1, []));
    root.WriteFirstKey(e.key);
    PlacedBelowRoot(rows, root, view, e);
    rows' := [root] + rows;
  }

  /** The two situations in which _add_key is called: every row has a page, or a separator was just placed. */
  ghost predicate CanAdd(rows: seq<BuilderRow>, e: Entry, view: Rows, awaiting: bool, first: nat)
    reads rows
  {
    rows != [] && if awaiting then Awaiting(rows, view, e, first) else AllOpen(rows, view) && Kinds(view) && view != [] && |view[0]| == 1
  }

  /** The last row has a page that can be offered the entry; if it takes it, the rows are as given. */
  ghost predicate Offering(rows: seq<BuilderRow>, after: Rows, e: Entry)
    reads rows
  {
    && rows != [] && Separate(rows) && |rows| == |after|
    && (forall q :: 0 <= q < |rows| - 1 ==> IsOpen(rows[q], after[q]))
    && var last := rows[|rows| - 1];
       last.Counted() && last.writer.Some? && last.writer.value.Leaf?
       && after[|rows| - 1] == last.spool + [Leaf(last.writer.value.entries + [e])]
  }

  method PrepareLeaf(rows: seq<BuilderRow>, e: Entry, ghost view: Rows, ghost awaiting: bool, ghost first: nat)
      returns (newLeaf: bool, ghost after: Rows)
    requires CanAdd(rows, e, view, awaiting, first)
    modifies rows
    ensures Offering(rows, after, e) && newLeaf == awaiting
    ensures awaiting ==> after == view && rows[|rows| - 1].writer == Some(Leaf([]))
    ensures !awaiting ==> AllOpen(rows, view) && Inserted(view, after, e) && GrownLeaf(view, after, e)
  {
    hide Inserted, NewPage;
    ModeOf(rows, e, view, awaiting, first);
    newLeaf := rows[|rows| - 1].writer.None?;
    after := view;
    if newLeaf {
      OpenPages(rows, e, view, first);
      assert [] + [e] == [e];
    } else {
      after := view[..|rows| - 1] + [WithLastEntry(view[|rows| - 1], e)];
      TakenByLeaf(view, after, e);
      assert IsOpen(rows[|rows| - 1], view[|rows| - 1]);
      assert view[|rows| - 1][..|view[|rows| - 1]| - 1] == rows[|rows| - 1].spool;
    }
  }

  lemma TakenByLeaf(view: Rows, after: Rows, e: Entry)
    requires Kinds(view) && after == view[..|view| - 1] + [WithLastEntry(view[|view| - 1], e)]
    ensures Inserted(view, after, e)
  {
    assert InLeaf(view, after, e);
  }

  lemma ModeOf(rows: seq<BuilderRow>, e: Entry, view: Rows, awaiting: bool, first: nat)
    requires CanAdd(rows, e, view, awaiting, first)
    ensures rows[|rows| - 1].writer.None? <==> awaiting
    ensures !awaiting ==> LastIsLeaf(view[|rows| - 1])
  {
    if awaiting {
      assert AwaitsPage(rows[|rows| - 1], view, |rows| - 1, e);
    } else {
      assert IsOpen(rows[|rows| - 1], view[|rows| - 1]);
    }
  }

  /** Adds one entry.  A page that refuses it is finished, its place is marked above, and the entry
      is added again; a fresh leaf that refuses it is an error. */
  method AddKey(rows: seq<BuilderRow>, e: Entry, room: Room, optimize: bool, ghost view: Rows, ghost awaiting: bool, ghost first: nat)
      returns (rows': seq<BuilderRow>, r: Result<(), Error>, ghost after: Rows)
    requires CanAdd(rows, e, view, awaiting, first)
    modifies rows
    ensures r.Ok? ==> AllOpen(rows', after) && TakenLast(room, after, e)
    ensures r.Ok? ==> if awaiting then after == view else Inserted(view, after, e) && Placed(room, optimize, view, after, e)
    ensures r.Err? ==> r.error == BadIndexKey(e.key) && !room.FitsAlone(e)
    ensures forall i :: 0 <= i < |rows'| ==> rows'[i] in rows || fresh(rows'[i])
    decreases if awaiting then 0 else 1
  {
    hide Inserted, Kinds, Awaiting, NewPage, TakenLast, Placed, FullFrom;
    var newLeaf: bool;
    newLeaf, after := PrepareLeaf(rows, e, view, awaiting, first);
    var full := OfferEntry(rows, after, view, awaiting, e, room, optimize);
    if !full {
      return rows, Ok(()), after;
    }
    if newLeaf {
      return rows, Err(BadIndexKey(e.key)), view;
    }
    FinishLeaf(rows, view);
    ghost var target: Rows, next: nat;
    rows', target, next := PushSeparator(rows, e, room, optimize, view);
    ghost var grown := rows';
    rows', r, after := AddKey(rows', e, room, optimize, target, true, next);
  }

  /** after is view with e on its last leaf, and view was not full. */
  ghost predicate GrownLeaf(view: Rows, after: Rows, e: Entry) {
    && Kinds(view) && after == view[..|view| - 1] + [WithLastEntry(view[|view| - 1], e)]
  }

  method OfferEntry(rows: seq<BuilderRow>, ghost after: Rows, ghost view: Rows, ghost awaiting: bool, e: Entry,
                    room: Room, optimize: bool)
      returns (full: bool)
    requires Offering(rows, after, e)
    requires if awaiting then rows[|rows| - 1].writer == Some(Leaf([])) else AllOpen(rows, view) && GrownLeaf(view, after, e)
    modifies rows[|rows| - 1]
    ensures !full ==> AllOpen(rows, after) && TakenLast(room, after, e)
    ensures !full && !awaiting ==> Placed(room, optimize, view, after, e)
    ensures full && awaiting ==> !room.FitsAlone(e)
    ensures full && !awaiting ==> AllOpen(rows, view) && FullFrom(room, optimize, view, e, |rows| - 1)
  {
    hide Placed, FullFrom, TakenLast, Kinds;
    var last := |rows| - 1;
    Distinctly(rows, last);
    ghost var spool, page := rows[last].spool, rows[last].writer.value;
    if !awaiting { SameLeaf(rows, view, after, e); }
    full := rows[last].WriteEntry(e, room);
    if !full {
      LeafHasRoom(room, after, spool, page.entries, e);
    }
    if !awaiting {
      FullLeaf(room, optimize, view, after, spool, page.entries, e);
    }
  }

  lemma SameLeaf(rows: seq<BuilderRow>, view: Rows, after: Rows, e: Entry)
    requires Offering(rows, after, e) && AllOpen(rows, view)
    ensures view[|view| - 1] == rows[|rows| - 1].spool + [rows[|rows| - 1].writer.value]
  {
    var last := |rows| - 1;
    assert IsOpen(rows[last], view[last]);
  }

  lemma LeafHasRoom(room: Room, after: Rows, spool: seq<Page>, entries: seq<Entry>, e: Entry)
    requires after != [] && after[|after| - 1] == spool + [Leaf(entries + [e])] && room.entry(|spool| == 0, entries, e)
    ensures TakenLast(room, after, e)
  {
    assert (entries + [e])[..|entries|] == entries;
  }

  lemma FullLeaf(room: Room, optimize: bool, view: Rows, after: Rows, spool: seq<Page>, entries: seq<Entry>, e: Entry)
    requires view != [] && view[|view| - 1] == spool + [Leaf(entries)] && GrownLeaf(view, after, e)
    ensures room.entry(|spool| == 0, entries, e) ==> Placed(room, optimize, view, after, e)
    ensures !room.entry(|spool| == 0, entries, e) ==> FullFrom(room, optimize, view, e, |view| - 1)
  {
  }

  method FinishLeaf(rows: seq<BuilderRow>, ghost view: Rows)
    requires rows != [] && AllOpen(rows, view)
    modifies rows[|rows| - 1]
    ensures ClosedFrom(rows, view, |rows| - 1)
  {
    var last := |rows| - 1;
    Distinctly(rows, last);
    assert IsOpen(rows[last], view[last]);
    rows[last].FinishNode();
  }

  // ---------------------------------------------------------------------------
  // _write_nodes
  // ---------------------------------------------------------------------------

  ghost predicate Building(rows: seq<BuilderRow>, view: Rows, lows: seq<seq<Key>>, entries: seq<Entry>, room: Room, optimize: bool)
    reads rows
  {
    if entries == [] then rows == [] else AllOpen(rows, view) && Tree(view, lows, entries) && Packed(room, optimize, view, lows)
  }

  /** All rows are finished and written, root first. */
  method FinishRows(rows: seq<BuilderRow>, ghost view: Rows, keyCount: nat, refLists: nat) returns (file: TreeFile)
    requires AllOpen(rows, view)
    modifies rows
    ensures file == TreeFile(Flat(view), Lengths(view), keyCount, refLists)
  {
    for i := |rows| downto 0
      invariant ClosedFrom(rows, view, i)
    {
      Distinctly(rows, i);
      assert IsOpen(rows[i], view[i]);
      rows[i].FinishNode();
    }
    var pages: seq<Page>, lengths: seq<nat> := [], [];
    assert view[..0] == [];
    for i := 0 to |rows|
      invariant ClosedFrom(rows, view, 0)
      invariant pages == Flat(view[..i]) && lengths == Lengths(view[..i])
    {
      assert IsClosed(rows[i], view[i]);
      assert view[..i + 1][..i] == view[..i];
      pages := pages + rows[i].spool;
      lengths := lengths + [rows[i].nodes];
    }
    assert view[..|rows|] == view;
    return TreeFile(pages, lengths, keyCount, refLists);
  }

  /** An entry of the list that may not fit a page of its own is to blame. */
  ghost predicate TooLarge(error: Error, entries: seq<Entry>, room: Room) {
    error.BadIndexKey? && exists i :: 0 <= i < |entries| && error.key == entries[i].key && !room.FitsAlone(entries[i])
  }

  /** For every sorted stream and however pages fill up, the result is a search tree for the stream;
      only an entry that does not fit a page of its own can prevent it. */
  method WriteNodes(entries: seq<Entry>, refLists: nat, room: Room, optimize: bool) returns (r: Result<TreeFile, Error>)
    requires Sorted(entries) && forall i :: 0 <= i < |entries| ==> |entries[i].refs| == refLists
    ensures r.Ok? ==> IsIndex(r.value, entries) && r.value.refLists == refLists
    ensures r.Ok? ==> IsPackedIndex(room, optimize, r.value, entries)
    ensures r.Err? ==> TooLarge(r.error, entries, room)
    ensures (forall i :: 0 <= i < |entries| ==> room.FitsAlone(entries[i])) ==> r.Ok?
  {
    hide Inserted, Kinds, Awaiting, Tree, AllOpen, Sorted, Packed, Placed, TakenLast;
    var rows: seq<BuilderRow> := [];
    var keyCount := 0;
    ghost var view: Rows, lows: seq<seq<Key>> := [], [];
    for i := 0 to |entries|
      invariant keyCount == i && Building(rows, view, lows, entries[..i], room, optimize)
      invariant forall i :: 0 <= i < |rows| ==> fresh(rows[i])
    {
      assert entries[..i + 1] == entries[..i] + [entries[i]];
      var added: Result<(), Error>;
      ghost var after: Rows;
      if keyCount == 0 {
        rows, added, after := AddFirst(entries[i], room, optimize);
        lows := [[entries[i].key]];
        assert entries[..i + 1] == [entries[i]];
      } else {
        TreeKinds(view, lows, entries[..i]);
        OneRoot(view, lows, entries[..i]);
        HasRows(rows, view);
        rows, added, after := AddKey(rows, entries[i], room, optimize, view, false, 0);
        if added.Ok? {
          StillAbove(entries, i);
          lows := InsertKeepsPacked(room, optimize, view, lows, entries[..i], after, entries[i]);
        }
      }
      if added.Err? {
        return Err(added.error);
      }
      view := after;
      keyCount := keyCount + 1;
    }
    assert entries[..|entries|] == entries;
    if entries == [] {
      NoPages(room, optimize, refLists);
      return Ok(TreeFile([], [], 0, refLists));
    }
    var file := FinishRows(rows, view, keyCount, refLists);
    assert IsIndexOf(file, view, lows, entries);
    return Ok(file);
  }

  /** A stream that is not empty starts with one row, of leaves. */
  method AddFirst(e: Entry, room: Room, optimize: bool) returns (rows: seq<BuilderRow>, r: Result<(), Error>, ghost after: Rows)
    ensures r.Ok? ==> AllOpen(rows, after) && Tree(after, [[e.key]], [e]) && Packed(room, optimize, after, [[e.key]])
    ensures r.Err? ==> r.error == BadIndexKey(e.key) && !room.FitsAlone(e)
    ensures forall i :: 0 <= i < |rows| ==> fresh(rows[i])
  {
    hide Tree, Inserted, Kinds;
    var row := new BuilderRow();
    ghost var target := [[Leaf([e])]];
    FirstLeafIsTree(e);
    assert AwaitsPage(row, target, 0, e);
    rows, r, after := AddKey([row], e, room, optimize, target, true, 0);
  }

  lemma OneRoot(view: Rows, lows: seq<seq<Key>>, entries: seq<Entry>)
    requires Tree(view, lows, entries)
    ensures view != [] && |view[0]| == 1
  {
  }

  lemma HasRows(rows: seq<BuilderRow>, view: Rows)
    requires AllOpen(rows, view) && view != []
    ensures rows != []
  {
  }

  lemma StillAbove(entries: seq<Entry>, i: nat)
    requires Sorted(entries) && i < |entries|
    ensures Above(entries[..i], entries[i])
  {
  }

  lemma NoPages(room: Room, optimize: bool, refLists: nat)
    ensures IsPackedIndex(room, optimize, TreeFile([], [], 0, refLists), [])
  {
    assert IsIndexOf(TreeFile([], [], 0, refLists), [], [], []) && Packed(room, optimize, [], []);
  }
}
