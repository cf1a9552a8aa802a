/** Line annotations without caches, counters or memo: what Annotator of
    bzrlib/_annotator_py.py is to compute, and what its results mean. */
module AnnotationSpec {
  import opened Basics
  import opened Worklist
  import opened GraphHeads
  import opened PatienceMatches
  import opened PatienceBlocks

  type Line = string

  datatype Version = Version(parents: seq<Key>, lines: seq<Line>)

  type VersionedFile = map<Key, Version>

  /** The revisions a line may come from, as a sorted tuple. */
  type Annotation = seq<Key>

  // ---------------------------------------------------------------------------
  // tuple(sorted(set(a) | set(b)))
  // ---------------------------------------------------------------------------

  function InsertKey(list: seq<Key>, k: Key): seq<Key> {
    if list == [] || k < list[0] then [k] + list
    else if k == list[0] then list
    else [list[0]] + InsertKey(list[1..], k)
  }

  function Union(a: seq<Key>, b: seq<Key>): seq<Key> {
    if b == [] then a else InsertKey(Union(a, b[..|b| - 1]), b[|b| - 1])
  }

  lemma {:induction false} InsertKeyIs(list: seq<Key>, k: Key)
    ensures forall x :: x in InsertKey(list, k) <==> x in list || x == k
    ensures Ascending(list) ==> Ascending(InsertKey(list, k))
  {
    if list != [] && k > list[0] {
      var rest := list[1..];
      InsertKeyIs(rest, k);
      assert list == [list[0]] + rest;
      if Ascending(list) {
        var more := InsertKey(rest, k);
        forall i | 0 <= i < |more| ensures list[0] < more[i] { assert more[i] in more; }
      }
    }
  }

  /** The two sorted tuples become one, sorted and without repetition. */
  lemma {:induction false} UnionIs(a: seq<Key>, b: seq<Key>)
    ensures forall x :: x in Union(a, b) <==> x in a || x in b
    ensures Ascending(a) ==> Ascending(Union(a, b))
  {
    hide Ascending;
    if b != [] {
      var init, last := b[..|b| - 1], b[|b| - 1];
      UnionIs(a, init);
      InsertKeyIs(Union(a, init), last);
      assert forall x :: x in b <==> x in init || x == last;
    }
  }

  lemma UnionHas(a: seq<Key>, b: seq<Key>, x: Key)
    requires x in a
    ensures x in Union(a, b)
  {
    UnionIs(a, b);
  }

  // ---------------------------------------------------------------------------
  // Specification of one text
  // ---------------------------------------------------------------------------

  /** What a matching line of a parent does to the annotation of a line. */
  function Combine(this': Annotation, first: bool, ann: Annotation, parent: Annotation): Annotation {
    if first || ann == this' then parent else if ann == parent then ann else Union(ann, parent)
  }

  ghost predicate Covers(block: Block, i: int, parentLength: int) {
    block.b <= i < block.b + block.len && 0 <= block.a + (i - block.b) < parentLength
  }

  ghost function ApplyBlock(this': Annotation, first: bool, anns: seq<Annotation>, parentAnns: seq<Annotation>,
                            block: Block): (r: seq<Annotation>)
    ensures |r| == |anns|
  {
    seq(|anns|, i requires 0 <= i < |anns| =>
      if Covers(block, i, |parentAnns|) then Combine(this', first, anns[i], parentAnns[block.a + (i - block.b)]) else anns[i])
  }

  ghost function ApplyBlocks(this': Annotation, first: bool, anns: seq<Annotation>, parentAnns: seq<Annotation>,
                             blocks: seq<Block>): (r: seq<Annotation>)
    ensures |r| == |anns|
  {
    if blocks == [] then anns
    else ApplyBlock(this', first, ApplyBlocks(this', first, anns, parentAnns, blocks[..|blocks| - 1]), parentAnns, blocks[|blocks| - 1])
  }

  ghost function Unclaimed(k: Key, n: nat): (r: seq<Annotation>)
    ensures |r| == n && forall i :: 0 <= i < n ==> r[i] == [k]
  {
    if n == 0 then [] else Unclaimed(k, n - 1) + [[k]]
  }

  /** A rank falls from each ranked child to its parents, as in any listing with parents first. */
  ghost predicate Ranks(vf: VersionedFile, rank: map<Key, nat>) {
    forall k, p :: k in vf && k in rank && p in vf[k].parents ==> p in rank && rank[p] < rank[k]
  }

  ghost function RankOf(rank: map<Key, nat>, k: Key): nat {
    if k in rank then rank[k] else 0
  }

  /** The annotations of a text. */
  ghost function Annotated(vf: VersionedFile, rank: map<Key, nat>, k: Key): seq<Annotation>
    decreases RankOf(rank, k), 1, 0
  {
    if k in vf then AfterParents(vf, rank, k, |vf[k].parents|) else []
  }

  /** After the first n parents were looked at. */
  ghost function AfterParents(vf: VersionedFile, rank: map<Key, nat>, k: Key, n: nat): (r: seq<Annotation>)
    requires k in vf && n <= |vf[k].parents|
    ensures |r| == |vf[k].lines|
    decreases RankOf(rank, k), 0, n
  {
    if n == 0 then Unclaimed(k, |vf[k].lines|)
    else
      var before, p := AfterParents(vf, rank, k, n - 1), vf[k].parents[n - 1];
      if p in vf && RankOf(rank, p) < RankOf(rank, k) then
        ApplyBlocks([k], n == 1, before, Annotated(vf, rank, p), MatchingBlocks(vf[p].lines, vf[k].lines))
      else before
  }

  /** Any rank gives the same annotations. */
  lemma {:induction false} RankDoesNotMatter(vf: VersionedFile, rank1: map<Key, nat>, rank2: map<Key, nat>, k: Key)
    requires Ranks(vf, rank1) && Ranks(vf, rank2) && k in rank1 && k in rank2
    ensures Annotated(vf, rank1, k) == Annotated(vf, rank2, k)
    decreases RankOf(rank1, k), 1, 0
  {
    if k in vf { RankDoesNotMatterAfter(vf, rank1, rank2, k, |vf[k].parents|); }
  }

  lemma {:induction false} RankDoesNotMatterAfter(vf: VersionedFile, rank1: map<Key, nat>, rank2: map<Key, nat>, k: Key, n: nat)
    requires Ranks(vf, rank1) && Ranks(vf, rank2) && k in rank1 && k in rank2 && k in vf && n <= |vf[k].parents|
    ensures AfterParents(vf, rank1, k, n) == AfterParents(vf, rank2, k, n)
    decreases RankOf(rank1, k), 0, n
  {
    hide ApplyBlocks, MatchingBlocks;
    if n > 0 {
      var p := vf[k].parents[n - 1];
      assert p in vf[k].parents;
      RankDoesNotMatterAfter(vf, rank1, rank2, k, n - 1);
      if p in vf { RankDoesNotMatter(vf, rank1, rank2, p); }
    }
  }

  // ---------------------------------------------------------------------------
  // What annotations mean
  // ---------------------------------------------------------------------------

  ghost function LinksOf(vf: VersionedFile): Links {
    map k | k in vf :: vf[k].parents
  }

  /** r is the revision itself or one of its ancestors, and its text has the line. */
  ghost predicate MayBeFrom(vf: VersionedFile, k: Key, line: Line, r: Key) {
    && (r == k || ProperAncestor(LinksOf(vf), r, k))
    && r in vf && line in vf[r].lines
  }

  ghost predicate IsAnnotation(vf: VersionedFile, k: Key, line: Line, ann: Annotation) {
    ann != [] && Ascending(ann) && forall r :: r in ann ==> MayBeFrom(vf, k, line, r)
  }

  ghost predicate AreAnnotations(vf: VersionedFile, k: Key, anns: seq<Annotation>) {
    && k in vf && |anns| == |vf[k].lines|
    && forall i :: 0 <= i < |anns| ==> IsAnnotation(vf, k, vf[k].lines[i], anns[i])
  }

  lemma UnclaimedAreAnnotations(vf: VersionedFile, k: Key)
    requires k in vf
    ensures AreAnnotations(vf, k, Unclaimed(k, |vf[k].lines|))
  {
    hide ProperAncestor;
    var anns := Unclaimed(k, |vf[k].lines|);
    forall i | 0 <= i < |anns| ensures IsAnnotation(vf, k, vf[k].lines[i], anns[i]) {
      assert MayBeFrom(vf, k, vf[k].lines[i], k);
    }
  }

  lemma FromParentToChild(vf: VersionedFile, k: Key, p: Key, line: Line, r: Key)
    requires k in vf && p in vf[k].parents && MayBeFrom(vf, p, line, r)
    ensures MayBeFrom(vf, k, line, r)
  {
    hide ProperAncestor;
    ParentIsAncestor(LinksOf(vf), p, k);
    if r != p { AncestryIsTransitive(LinksOf(vf), r, p, k); }
  }

  lemma CombineIsAnnotation(vf: VersionedFile, k: Key, p: Key, line: Line, first: bool, ann: Annotation, parent: Annotation)
    requires k in vf && p in vf[k].parents
    requires IsAnnotation(vf, k, line, ann) && IsAnnotation(vf, p, line, parent)
    ensures IsAnnotation(vf, k, line, Combine([k], first, ann, parent))
  {
    hide MayBeFrom, Ascending;
    forall r | r in parent ensures MayBeFrom(vf, k, line, r) { FromParentToChild(vf, k, p, line, r); }
    UnionIs(ann, parent);
    UnionHas(ann, parent, ann[0]);
  }

  lemma BlockKeepsAnnotations(vf: VersionedFile, k: Key, p: Key, first: bool, anns: seq<Annotation>, parentAnns: seq<Annotation>,
                              block: Block)
    requires AreAnnotations(vf, k, anns) && AreAnnotations(vf, p, parentAnns) && p in vf[k].parents
    requires SameLines(vf[p].lines, vf[k].lines, block.a, block.b, block.len)
    ensures AreAnnotations(vf, k, ApplyBlock([k], first, anns, parentAnns, block))
  {
    hide IsAnnotation, Combine;
    var after := ApplyBlock([k], first, anns, parentAnns, block);
    forall i | 0 <= i < |after| ensures IsAnnotation(vf, k, vf[k].lines[i], after[i]) {
      if Covers(block, i, |parentAnns|) {
        var j := block.a + (i - block.b);
        SameLineAt(vf[p].lines, vf[k].lines, block, i);
        assert vf[p].lines[j] == vf[k].lines[i];
        CombineIsAnnotation(vf, k, p, vf[k].lines[i], first, anns[i], parentAnns[j]);
      }
    }
  }

  lemma SameLineAt(a: seq<Line>, b: seq<Line>, block: Block, i: int)
    requires SameLines(a, b, block.a, block.b, block.len) && block.b <= i < block.b + block.len
    ensures 0 <= block.a + (i - block.b) < |a| && 0 <= i < |b| && a[block.a + (i - block.b)] == b[i]
  {
    var t := i - block.b;
    assert 0 <= t < block.len;
  }

  lemma {:induction false} BlocksKeepAnnotations(vf: VersionedFile, k: Key, p: Key, first: bool, anns: seq<Annotation>,
                                                 parentAnns: seq<Annotation>, blocks: seq<Block>)
    requires AreAnnotations(vf, k, anns) && AreAnnotations(vf, p, parentAnns) && p in vf[k].parents
    requires forall i :: 0 <= i < |blocks| ==> SameLines(vf[p].lines, vf[k].lines, blocks[i].a, blocks[i].b, blocks[i].len)
    ensures AreAnnotations(vf, k, ApplyBlocks([k], first, anns, parentAnns, blocks))
  {
    hide IsAnnotation, SameLines, ApplyBlock;
    if blocks != [] {
      var init := blocks[..|blocks| - 1];
      BlocksKeepAnnotations(vf, k, p, first, anns, parentAnns, init);
      BlockKeepsAnnotations(vf, k, p, first, ApplyBlocks([k], first, anns, parentAnns, init), parentAnns, blocks[|blocks| - 1]);
    }
  }

  /** Every revision named for a line is the annotated one or an ancestor, and has that very line. */
  lemma {:induction false} AnnotationsAreTrue(vf: VersionedFile, rank: map<Key, nat>, k: Key)
    requires k in vf
    ensures AreAnnotations(vf, k, Annotated(vf, rank, k))
    decreases RankOf(rank, k), 1, 0
  {
    AfterParentsAreTrue(vf, rank, k, |vf[k].parents|);
  }

  lemma {:induction false} AfterParentsAreTrue(vf: VersionedFile, rank: map<Key, nat>, k: Key, n: nat)
    requires k in vf && n <= |vf[k].parents|
    ensures AreAnnotations(vf, k, AfterParents(vf, rank, k, n))
    decreases RankOf(rank, k), 0, n
  {
    hide AreAnnotations, ApplyBlocks, MatchingBlocks, SameLines;
    if n == 0 {
      UnclaimedAreAnnotations(vf, k);
    } else {
      var p := vf[k].parents[n - 1];
      AfterParentsAreTrue(vf, rank, k, n - 1);
      if p in vf && RankOf(rank, p) < RankOf(rank, k) {
        AnnotationsAreTrue(vf, rank, p);
        MatchingBlocksAreValid(vf[p].lines, vf[k].lines);
        BlocksKeepAnnotations(vf, k, p, n == 1, AfterParents(vf, rank, k, n - 1), Annotated(vf, rank, p),
                              MatchingBlocks(vf[p].lines, vf[k].lines));
      }
    }
  }
}
