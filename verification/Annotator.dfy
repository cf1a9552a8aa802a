/** Annotating a text through its ancestry: class Annotator of bzrlib/_annotator_py.py.

    Texts and annotations are cached only as long as a child still needs them, which is counted.
    The results are those of AnnotationSpec, which knows no cache, no counter and no memo. */
module Annotators {
  import opened Basics
  import opened Worklist
  import GraphDistance
  import opened GraphHeads
  import opened PatienceMatches
  import opened PatienceBlocks
  import opened PatienceDiffPy
  import opened AnnotationSpec
  import AnnotationOrigins

  datatype Error = RevisionNotPresent(key: Key)

  /** Each line names exactly the revisions in which following it back through matching blocks can end. */
  ghost predicate ExactOrigins(vf: VersionedFile, key: Key, anns: seq<Annotation>) {
    && key in vf && |anns| == |vf[key].lines|
    && forall i: nat, x :: i < |anns| ==> (x in anns[i] <==> AnnotationOrigins.ComesFrom(vf, key, i, x))
  }

  lemma AnnotatedIsExact(vf: VersionedFile, rank: map<Key, nat>, key: Key)
    requires Ranks(vf, rank) && key in rank && key in vf
    ensures ExactOrigins(vf, key, Annotated(vf, rank, key))
  {
    hide Annotated, AnnotationOrigins.ComesFrom;
    AnnotationsAreTrue(vf, rank, key);
    forall i: nat, x | i < |vf[key].lines|
      ensures x in Annotated(vf, rank, key)[i] <==> AnnotationOrigins.ComesFrom(vf, key, i, x)
    {
      AnnotationOrigins.OriginsAreExact(vf, rank, key, i, x);
    }
  }

  // ---------------------------------------------------------------------------
  // One parent
  // ---------------------------------------------------------------------------

  ghost predicate BlocksFit(blocks: seq<Block>, parentLength: nat, length: nat) {
    forall i :: 0 <= i < |blocks| ==> BlockFits(blocks[i], parentLength, length)
  }

  ghost predicate BlockFits(block: Block, parentLength: nat, length: nat) {
    0 <= block.a && 0 <= block.b && 0 <= block.len && block.a + block.len <= parentLength && block.b + block.len <= length
  }

  lemma MatchingBlocksFit(a: seq<Line>, b: seq<Line>)
    ensures BlocksFit(MatchingBlocks(a, b), |a|, |b|)
  {
    hide MatchingBlocks;
    MatchingBlocksAreValid(a, b);
    var blocks := MatchingBlocks(a, b);
    forall i | 0 <= i < |blocks| ensures BlockFits(blocks[i], |a|, |b|) {
      assert SameLines(a, b, blocks[i].a, blocks[i].b, blocks[i].len);
    }
  }

  /** The annotations while one block is applied: lines of the block before i are done. */
  ghost predicate BlockDone(this': Annotation, first: bool, before: seq<Annotation>, parentAnns: seq<Annotation>,
                            block: Block, i: int, now: seq<Annotation>) {
    && |now| == |before|
    && forall t :: 0 <= t < |now| ==>
         now[t] == if Covers(block, t, |parentAnns|) && t - block.b < i
                   then Combine(this', first, before[t], parentAnns[block.a + (t - block.b)]) else before[t]
  }

  lemma BlockIsDone(this': Annotation, first: bool, before: seq<Annotation>, parentAnns: seq<Annotation>, block: Block, now: seq<Annotation>)
    requires BlockDone(this', first, before, parentAnns, block, block.len, now)
    ensures now == ApplyBlock(this', first, before, parentAnns, block)
  {
    hide Combine;
    assert |now| == |ApplyBlock(this', first, before, parentAnns, block)|;
    forall t | 0 <= t < |now| ensures now[t] == ApplyBlock(this', first, before, parentAnns, block)[t] {
    }
  }

  lemma ApplyOneMore(this': Annotation, first: bool, anns: seq<Annotation>, parentAnns: seq<Annotation>, blocks: seq<Block>, i: nat)
    requires i < |blocks|
    ensures ApplyBlocks(this', first, anns, parentAnns, blocks[..i + 1])
         == ApplyBlock(this', first, ApplyBlocks(this', first, anns, parentAnns, blocks[..i]), parentAnns, blocks[i])
  {
    assert blocks[..i + 1][..i] == blocks[..i];
  }

  /** annotations[b:b + len] = parent_annotations[a:a + len] */
  method CopyBlock(this': Annotation, annotations: array<Annotation>, parentAnns: seq<Annotation>, block: Block)
    requires BlockFits(block, |parentAnns|, annotations.Length)
    modifies annotations
    ensures annotations[..] == ApplyBlock(this', true, old(annotations[..]), parentAnns, block)
  {
    ghost var before := annotations[..];
    for i := 0 to block.len
      invariant BlockDone(this', true, before, parentAnns, block, i, annotations[..])
    {
      annotations[block.b + i] := parentAnns[block.a + i];
    }
    BlockIsDone(this', true, before, parentAnns, block, annotations[..]);
  }

  /** The last union is remembered; it is the union of what it is remembered for. */
  datatype Memo = Memo(ann: Option<Annotation>, parent: Option<Annotation>, res: Annotation)

  ghost predicate MemoIsTrue(memo: Memo) {
    memo.ann.Some? && memo.parent.Some? ==> memo.res == Union(memo.ann.value, memo.parent.value)
  }

  method MergeBlock(this': Annotation, annotations: array<Annotation>, parentAnns: seq<Annotation>, block: Block, memo0: Memo)
      returns (memo: Memo)
    requires BlockFits(block, |parentAnns|, annotations.Length) && MemoIsTrue(memo0)
    modifies annotations
    ensures annotations[..] == ApplyBlock(this', false, old(annotations[..]), parentAnns, block) && MemoIsTrue(memo)
  {
    hide Union, BlockDone, Combine, ApplyBlock;
    ghost var before := annotations[..];
    memo := memo0;
    BlockNotStarted(this', before, parentAnns, block);
    var annSub, parSub := annotations[block.b..block.b + block.len], parentAnns[block.a..block.a + block.len];
    if annSub == parSub {
      SameNeedsNothing(this', before, parentAnns, block);
      return;
    }
    for idx := 0 to block.len
      invariant BlockDone(this', false, before, parentAnns, block, idx, annotations[..]) && MemoIsTrue(memo)
    {
      var annIdx := block.b + idx;
      ghost var now := annotations[..];
      LineDone(this', before, parentAnns, block, idx, now);
      CombineSame(this', annSub[idx]);
      if annSub[idx] != parSub[idx] {
        var ann: Annotation;
        ann, memo := MergeLine(this', annSub[idx], parSub[idx], memo);
        annotations[annIdx] := ann;
      }
      assert annotations[..] == now[annIdx := Combine(this', false, annSub[idx], parSub[idx])];
    }
    BlockIsDone(this', false, before, parentAnns, block, annotations[..]);
  }

  lemma BlockNotStarted(this': Annotation, before: seq<Annotation>, parentAnns: seq<Annotation>, block: Block)
    ensures BlockDone(this', false, before, parentAnns, block, 0, before)
  {
  }

  lemma CombineSame(this': Annotation, ann: Annotation)
    ensures Combine(this', false, ann, ann) == ann
  {
  }

  lemma LineDone(this': Annotation, before: seq<Annotation>, parentAnns: seq<Annotation>, block: Block, i: nat, now: seq<Annotation>)
    requires BlockFits(block, |parentAnns|, |before|) && i < block.len
    requires BlockDone(this', false, before, parentAnns, block, i, now)
    ensures |now| == |before| && now[block.b + i] == before[block.b + i]
    ensures BlockDone(this', false, before, parentAnns, block, i + 1,
                      now[block.b + i := Combine(this', false, before[block.b + i], parentAnns[block.a + i])])
  {
    hide Combine;
  }

  /** One line on which the annotation and the parent's differ. */
  method MergeLine(this': Annotation, ann: Annotation, parAnn: Annotation, memo0: Memo) returns (res: Annotation, memo: Memo)
    requires MemoIsTrue(memo0) && ann != parAnn
    ensures res == Combine(this', false, ann, parAnn) && MemoIsTrue(memo)
  {
    memo := memo0;
    if ann == this' {
      return parAnn, memo;
    }
    if memo.ann == Some(ann) && memo.parent == Some(parAnn) {
      return memo.res, memo;
    }
    res := Union(ann, parAnn);
    memo := Memo(Some(ann), Some(parAnn), res);
  }

  lemma SameNeedsNothing(this': Annotation, before: seq<Annotation>, parentAnns: seq<Annotation>, block: Block)
    requires BlockFits(block, |parentAnns|, |before|)
    requires before[block.b..block.b + block.len] == parentAnns[block.a..block.a + block.len]
    ensures ApplyBlock(this', false, before, parentAnns, block) == before
  {
    hide Union;
    var after := ApplyBlock(this', false, before, parentAnns, block);
    forall t | 0 <= t < |after| ensures after[t] == before[t] {
      if Covers(block, t, |parentAnns|) {
        assert before[block.b..block.b + block.len][t - block.b] == before[t];
        assert parentAnns[block.a..block.a + block.len][t - block.b] == parentAnns[block.a + (t - block.b)];
      }
    }
  }

  // ---------------------------------------------------------------------------
  // Which keys are needed, and how often
  // ---------------------------------------------------------------------------

  ghost predicate Needed(vf: VersionedFile, key: Key, k: Key) {
    k == key || ProperAncestor(LinksOf(vf), k, key)
  }

  lemma ParentIsNeeded(vf: VersionedFile, key: Key, k: Key, p: Key)
    requires Needed(vf, key, k) && k in vf && p in vf[k].parents
    ensures Needed(vf, key, p)
  {
    hide ProperAncestor;
    if k == key {
      ParentIsAncestor(LinksOf(vf), p, k);
    } else {
      AncestorOfAncestor(LinksOf(vf), p, k, key);
    }
  }

  /** Whatever else is needed is needed as the parent of a needed key. */
  lemma NeededByChild(vf: VersionedFile, key: Key, k: Key) returns (c: Key)
    requires Needed(vf, key, k) && k != key
    ensures Needed(vf, key, c) && c in vf && k in vf[c].parents
  {
    var path :| Joins(LinksOf(vf), path, key, k);
    var n := |path|;
    PathStep(LinksOf(vf), path, n - 2);
    c := path[n - 2];
    if n > 2 {
      PartOfPath(LinksOf(vf), path, 0, n - 1);
      assert Joins(LinksOf(vf), path[0..n - 1], key, c);
    }
  }

  /** A set that has the key and the parents of its members has all that is needed. */
  lemma {:induction false} ClosedHasNeeded(vf: VersionedFile, key: Key, all: set<Key>, path: seq<Key>, i: nat)
    requires key in all && forall k, p :: k in all && k in vf && p in vf[k].parents ==> p in all
    requires i < |path| && IsPath(LinksOf(vf), path) && path[0] == key
    ensures path[i] in all
  {
    if i > 0 {
      ClosedHasNeeded(vf, key, all, path, i - 1);
      PathStep(LinksOf(vf), path, i - 1);
    }
  }

  lemma ClosedIsNeeded(vf: VersionedFile, key: Key, all: set<Key>, k: Key)
    requires key in all && forall k, p :: k in all && k in vf && p in vf[k].parents ==> p in all
    requires Needed(vf, key, k)
    ensures k in all
  {
    if k != key {
      var path :| Joins(LinksOf(vf), path, key, k);
      ClosedHasNeeded(vf, key, all, path, |path| - 1);
    }
  }

  ghost function RefsTo(vf: VersionedFile, k: Key, p: Key): nat {
    if k in vf then multiset(vf[k].parents)[p] else 0
  }

  /** How often p is named as a parent by the listed keys. */
  ghost function CountRefs(vf: VersionedFile, list: seq<Key>, p: Key): nat {
    if list == [] then 0 else RefsTo(vf, list[0], p) + CountRefs(vf, list[1..], p)
  }

  lemma {:induction false} CountRefsBoth(vf: VersionedFile, a: seq<Key>, b: seq<Key>, p: Key)
    ensures CountRefs(vf, a + b, p) == CountRefs(vf, a, p) + CountRefs(vf, b, p)
  {
    hide RefsTo;
    if a == [] {
      assert a + b == b;
    } else {
      CountRefsBoth(vf, a[1..], b, p);
      assert (a + b)[1..] == a[1..] + b;
    }
  }

  lemma CountRefsOne(vf: VersionedFile, k: Key, p: Key)
    ensures CountRefs(vf, [k], p) == RefsTo(vf, k, p)
  {
    assert [k][1..] == [];
  }

  ghost predicate SameKeysIn(a: seq<Key>, b: seq<Key>) {
    forall k :: k in a <==> k in b
  }

  lemma NoKeysIn(b: seq<Key>)
    requires SameKeysIn([], b)
    ensures b == []
  {
    var k := if |b| > 0 then b[0] else 0;
    assert |b| > 0 ==> k in b;
    assert k in [] <==> k in b;
  }

  /** The count does not depend on the order. */
  lemma {:induction false} CountRefsSame(vf: VersionedFile, a: seq<Key>, b: seq<Key>, p: Key)
    requires Distinct(a) && Distinct(b) && SameKeysIn(a, b)
    ensures CountRefs(vf, a, p) == CountRefs(vf, b, p)
    decreases |a|
  {
    hide RefsTo;
    if a == [] {
      NoKeysIn(b);
    } else {
      var k := a[0];
      assert k in a;
      var j :| 0 <= j < |b| && b[j] == k;
      var rest := b[..j] + b[j + 1..];
      assert b == (b[..j] + [k]) + b[j + 1..];
      CountRefsBoth(vf, b[..j] + [k], b[j + 1..], p);
      CountRefsBoth(vf, b[..j], [k], p);
      CountRefsBoth(vf, b[..j], b[j + 1..], p);
      CountRefsOne(vf, k, p);
      WithoutOne(a, b, j);
      CountRefsSame(vf, a[1..], rest, p);
    }
  }

  lemma WithoutOne(a: seq<Key>, b: seq<Key>, j: nat)
    requires Distinct(a) && Distinct(b) && SameKeysIn(a, b) && a != [] && j < |b| && b[j] == a[0]
    ensures Distinct(a[1..]) && Distinct(b[..j] + b[j + 1..]) && SameKeysIn(a[1..], b[..j] + b[j + 1..])
  {
    var rest := b[..j] + b[j + 1..];
    assert b == b[..j] + [b[j]] + b[j + 1..];
    assert a == [a[0]] + a[1..];
    forall k ensures k in a[1..] <==> k in rest {
      assert k in a <==> k == a[0] || k in a[1..];
      assert k in b <==> k == b[j] || k in rest;
    }
  }

  // ---------------------------------------------------------------------------
  // The stream of texts, and the caches after its first i records
  // ---------------------------------------------------------------------------

  /** Every needed key once, parents before their children. */
  ghost predicate IsStream(vf: VersionedFile, key: Key, order: seq<Key>) {
    && Distinct(order)
    && (forall k :: k in order <==> Needed(vf, key, k))
    && forall i, p :: 0 <= i < |order| && order[i] in vf && p in vf[order[i]].parents ==> p in order[..i]
  }

  ghost function NumOf(num: map<Key, nat>, k: Key): nat {
    if k in num then num[k] else 0
  }

  /** What the counters say while the keys in left are still to be annotated; key itself is asked for once. */
  ghost predicate CountsAre(vf: VersionedFile, key: Key, left: seq<Key>, num: map<Key, nat>) {
    forall p :: NumOf(num, p) == CountRefs(vf, left, p) + if p == key then 1 else 0
  }

  /** A text and its annotations are cached exactly while some child still needs them. */
  ghost predicate Cached(vf: VersionedFile, key: Key, order: seq<Key>, i: nat, num: map<Key, nat>,
                         texts: map<Key, seq<Line>>, anns: map<Key, seq<Annotation>>) {
    && i <= |order| && CountsAre(vf, key, order[i..], num)
    && (forall k :: k in texts <==> k in order[..i] && NumOf(num, k) > 0)
    && (forall k :: k in anns <==> k in texts)
    && forall k :: k in texts ==> CacheEntry(vf, order, k, texts[k], anns[k])
  }

  ghost predicate CacheEntry(vf: VersionedFile, order: seq<Key>, k: Key, text: seq<Line>, anns: seq<Annotation>) {
    k in vf && text == vf[k].lines && anns == Annotated(vf, OrderRank(order), k)
  }

  ghost function OrderRank(order: seq<Key>): map<Key, nat> {
    if order == [] then map[] else OrderRank(order[..|order| - 1])[order[|order| - 1] := |order| - 1]
  }

  lemma {:induction false} OrderRankIs(order: seq<Key>, i: nat)
    requires Distinct(order) && i < |order|
    ensures order[i] in OrderRank(order) && OrderRank(order)[order[i]] == i
    decreases |order|
  {
    if i < |order| - 1 {
      OrderRankIs(order[..|order| - 1], i);
    }
  }

  lemma {:induction false} OrderRankKeys(order: seq<Key>)
    ensures forall k :: k in OrderRank(order) <==> k in order
  {
    if order != [] {
      OrderRankKeys(order[..|order| - 1]);
      assert order == order[..|order| - 1] + [order[|order| - 1]];
    }
  }

  lemma StreamRanks(vf: VersionedFile, key: Key, order: seq<Key>)
    requires IsStream(vf, key, order)
    ensures Ranks(vf, OrderRank(order)) && key in OrderRank(order)
  {
    hide Needed, Distinct;
    var rank := OrderRank(order);
    OrderRankKeys(order);
    assert Needed(vf, key, key) by { KeyIsNeeded(vf, key); }
    forall k, p | k in vf && k in rank && p in vf[k].parents ensures p in rank && rank[p] < rank[k] {
      assert k in order;
      var i :| 0 <= i < |order| && order[i] == k;
      var j :| 0 <= j < i && order[j] == p;
      OrderRankIs(order, i);
      OrderRankIs(order, j);
    }
  }

  lemma KeyIsNeeded(vf: VersionedFile, key: Key)
    ensures Needed(vf, key, key)
  {
  }

  /** The counters just before record i: its own text is still wanted, and so are its parents. */
  lemma StillWanted(vf: VersionedFile, key: Key, order: seq<Key>, i: nat, num: map<Key, nat>)
    requires IsStream(vf, key, order) && i < |order| && CountsAre(vf, key, order[i..], num)
    ensures NumOf(num, order[i]) > 0
    ensures order[i] in vf ==> forall p :: p in vf[order[i]].parents ==>
              NumOf(num, p) >= multiset(vf[order[i]].parents)[p] > 0 && p in order[..i]
    ensures order[i] in vf ==> order[i] !in vf[order[i]].parents
  {
    hide *;
    StreamParents(vf, key, order, i);
    if order[i] in vf {
      forall p | p in vf[order[i]].parents ensures NumOf(num, p) >= multiset(vf[order[i]].parents)[p] > 0 {
        ParentCounted(vf, key, order, i, num, p);
      }
    }
    SelfCounted(vf, key, order, i, num);
  }

  lemma StreamParents(vf: VersionedFile, key: Key, order: seq<Key>, i: nat)
    requires IsStream(vf, key, order) && i < |order|
    ensures order[i] in vf ==> (forall p :: p in vf[order[i]].parents ==> p in order[..i]) && order[i] !in vf[order[i]].parents
  {
    hide Needed;
    assert order[i] !in order[..i];
  }

  lemma ParentCounted(vf: VersionedFile, key: Key, order: seq<Key>, i: nat, num: map<Key, nat>, p: Key)
    requires i < |order| && CountsAre(vf, key, order[i..], num) && order[i] in vf && p in vf[order[i]].parents
    ensures NumOf(num, p) >= multiset(vf[order[i]].parents)[p] > 0
  {
    hide CountRefs;
    var k := order[i];
    assert order[i..] == [k] + order[i + 1..];
    CountRefsBoth(vf, [k], order[i + 1..], p);
    CountRefsOne(vf, k, p);
    assert p in multiset(vf[k].parents);
  }

  lemma SelfCounted(vf: VersionedFile, key: Key, order: seq<Key>, i: nat, num: map<Key, nat>)
    requires IsStream(vf, key, order) && i < |order| && CountsAre(vf, key, order[i..], num)
    ensures NumOf(num, order[i]) > 0
  {
    hide Needed, CountRefs;
    var k := order[i];
    assert k in order;
    if k != key {
      var c := NeededByChild(vf, key, k);
      assert c in order;
      var j :| 0 <= j < |order| && order[j] == c;
      LaterChild(vf, key, order, i, j);
      CountsOne(vf, order[i..], j - i, k);
    }
  }

  lemma ParentsEarlier(vf: VersionedFile, key: Key, order: seq<Key>, j: nat, p: Key)
    requires IsStream(vf, key, order) && j < |order| && order[j] in vf && p in vf[order[j]].parents
    ensures p in order[..j]
  {
  }

  lemma LaterChild(vf: VersionedFile, key: Key, order: seq<Key>, i: nat, j: nat)
    requires IsStream(vf, key, order) && i < |order| && j < |order| && order[j] in vf && order[i] in vf[order[j]].parents
    ensures i < j
  {
    hide Needed;
    ParentsEarlier(vf, key, order, j, order[i]);
    var n :| 0 <= n < j && order[n] == order[i];
    assert n == i;
  }

  lemma {:induction false} CountsOne(vf: VersionedFile, list: seq<Key>, j: nat, p: Key)
    requires j < |list| && list[j] in vf && p in vf[list[j]].parents
    ensures CountRefs(vf, list, p) > 0
    decreases j
  {
    if j == 0 {
      assert p in multiset(vf[list[0]].parents);
    } else {
      CountsOne(vf, list[1..], j - 1, p);
    }
  }

  /** After a parent list was counted down. */
  ghost predicate CountedDown(num: map<Key, nat>, parents: seq<Key>, num': map<Key, nat>) {
    forall p :: NumOf(num', p) == NumOf(num, p) - multiset(parents)[p]
  }

  lemma CountsNext(vf: VersionedFile, key: Key, order: seq<Key>, i: nat, num: map<Key, nat>, num': map<Key, nat>)
    requires i < |order| && order[i] in vf && CountsAre(vf, key, order[i..], num) && CountedDown(num, vf[order[i]].parents, num')
    ensures CountsAre(vf, key, order[i + 1..], num')
  {
    assert order[i..] == [order[i]] + order[i + 1..];
    forall p ensures NumOf(num', p) == CountRefs(vf, order[i + 1..], p) + if p == key then 1 else 0 {
      CountRefsBoth(vf, [order[i]], order[i + 1..], p);
      CountRefsOne(vf, order[i], p);
    }
  }

  /** What is left of a cache after a record: parents nobody needs any more are dropped. */
  ghost predicate Dropped<V>(cache: map<Key, V>, parents: seq<Key>, num': map<Key, nat>, cache': map<Key, V>) {
    && (forall k :: k in cache' <==> k in cache && !(k in parents && NumOf(num', k) == 0))
    && forall k :: k in cache' ==> cache'[k] == cache[k]
  }

  lemma CachedNext(vf: VersionedFile, key: Key, order: seq<Key>, i: nat, num: map<Key, nat>,
                   texts: map<Key, seq<Line>>, anns: map<Key, seq<Annotation>>, annotations: seq<Annotation>,
                   num': map<Key, nat>, texts': map<Key, seq<Line>>, anns': map<Key, seq<Annotation>>)
    requires IsStream(vf, key, order) && i < |order| && order[i] in vf && Cached(vf, key, order, i, num, texts, anns)
    requires CountedDown(num, vf[order[i]].parents, num')
    requires Dropped(texts[order[i] := vf[order[i]].lines], vf[order[i]].parents, num', texts')
    requires Dropped(anns[order[i] := annotations], vf[order[i]].parents, num', anns')
    requires annotations == Annotated(vf, OrderRank(order), order[i])
    ensures Cached(vf, key, order, i + 1, num', texts', anns')
  {
    hide Needed, CountsAre, Annotated, OrderRank, CountRefs, IsStream, Distinct;
    var k := order[i];
    CountsNext(vf, key, order, i, num, num');
    StillWanted(vf, key, order, i, num);
    assert order[..i + 1] == order[..i] + [k];
    forall x ensures x in texts' <==> x in order[..i + 1] && NumOf(num', x) > 0 {
      assert NumOf(num', x) == NumOf(num, x) - multiset(vf[k].parents)[x];
      assert x in vf[k].parents <==> multiset(vf[k].parents)[x] > 0;
    }
    forall x | x in texts' ensures CacheEntry(vf, order, x, texts'[x], anns'[x]) {
      assert x in anns';
      if x != k { assert CacheEntry(vf, order, x, texts[x], anns[x]); }
    }
  }

  /** When all records were seen, only the text asked for is cached. */
  lemma CachedAtEnd(vf: VersionedFile, key: Key, order: seq<Key>, num: map<Key, nat>,
                    texts: map<Key, seq<Line>>, anns: map<Key, seq<Annotation>>)
    requires IsStream(vf, key, order) && Cached(vf, key, order, |order|, num, texts, anns)
    ensures forall k :: k in texts <==> k == key
    ensures forall k :: k in anns <==> k == key
    ensures CacheEntry(vf, order, key, texts[key], anns[key])
  {
    hide Needed, Annotated, OrderRank;
    KeyIsNeeded(vf, key);
    assert order[..|order|] == order && order[|order|..] == [];
    assert key in order;
    forall k ensures NumOf(num, k) > 0 <==> k == key {
      assert CountRefs(vf, [], k) == 0;
    }
  }

  // ---------------------------------------------------------------------------
  // Finding out what is needed
  // ---------------------------------------------------------------------------

  /** seen were looked at and counted, open are still to be looked at. */
  ghost predicate Exploring(vf: VersionedFile, key: Key, seen: seq<Key>, open: set<Key>, num: map<Key, nat>, parents: map<Key, seq<Key>>) {
    && Distinct(seen) && CountsAre(vf, key, seen, num)
    && (forall k :: k in parents <==> k in seen && k in vf)
    && (forall k :: k in parents ==> parents[k] == vf[k].parents)
    && (key in seen || key in open)
    && (forall k :: k in seen || k in open ==> Needed(vf, key, k))
    && forall k, p :: k in parents && p in vf[k].parents ==> p in seen || p in open
  }

  lemma Counts(vf: VersionedFile, key: Key, seen: seq<Key>, open: set<Key>, num: map<Key, nat>, parents: map<Key, seq<Key>>)
    requires Exploring(vf, key, seen, open, num, parents)
    ensures CountsAre(vf, key, seen, num)
  {
  }

  lemma SearchStarts(vf: VersionedFile, key: Key)
    ensures Exploring(vf, key, [], {key}, map[key := 1], map[])
  {
    hide ProperAncestor;
    assert forall p :: CountRefs(vf, [], p) == 0;
  }

  /** One round: the open keys are looked up, those found are counted, their unknown parents are open next. */
  lemma SearchRound(vf: VersionedFile, key: Key, seen: seq<Key>, open: set<Key>, num: map<Key, nat>, parents: map<Key, seq<Key>>,
                    fresh': seq<Key>, num': map<Key, nat>, found: map<Key, seq<Key>>, open': set<Key>)
    requires Exploring(vf, key, seen, open, num, parents)
    requires Distinct(fresh') && forall k :: k in fresh' <==> k in open && k !in seen
    requires CountsAre(vf, key, seen + fresh', num')
    requires forall k :: k in found <==> k in open && k !in parents && k in vf
    requires forall k :: k in found ==> found[k] == vf[k].parents
    requires forall p :: p in open' <==> p !in parents && exists k :: k in found && p in vf[k].parents
    ensures Exploring(vf, key, seen + fresh', open', num', parents + found)
  {
    hide ProperAncestor, CountRefs, Needed, Distinct, CountsAre;
    var seen' := seen + fresh';
    assert forall k :: k in seen' <==> k in seen || k in fresh';
    DistinctBoth(seen, fresh');
    forall k | k in open' ensures Needed(vf, key, k) {
      var c :| c in found && k in vf[c].parents;
      ParentIsNeeded(vf, key, c, k);
    }
  }

  lemma DistinctBoth(a: seq<Key>, b: seq<Key>)
    requires Distinct(a) && Distinct(b) && forall k :: k in b ==> k !in a
    ensures Distinct(a + b)
  {
    forall i, j | 0 <= i < |a| && 0 <= j < |b| ensures a[i] != b[j] {
      assert a[i] in a && b[j] in b;
    }
  }

  /** Nothing is open any more: exactly what is needed was seen. */
  lemma SearchEnds(vf: VersionedFile, key: Key, seen: seq<Key>, num: map<Key, nat>, parents: map<Key, seq<Key>>)
    requires Exploring(vf, key, seen, {}, num, parents)
    ensures forall k :: k in seen <==> Needed(vf, key, k)
  {
    hide CountRefs, ProperAncestor, Needed;
    var all := set k | k in seen;
    forall k | Needed(vf, key, k) ensures k in seen { ClosedIsNeeded(vf, key, all, k); }
  }

  lemma CountsMore(vf: VersionedFile, key: Key, list: seq<Key>, num: map<Key, nat>, k: Key, num': map<Key, nat>)
    requires CountsAre(vf, key, list, num)
    requires forall p :: NumOf(num', p) == NumOf(num, p) + RefsTo(vf, k, p)
    ensures CountsAre(vf, key, list + [k], num')
  {
    hide RefsTo;
    forall p ensures CountRefs(vf, list + [k], p) == CountRefs(vf, list, p) + RefsTo(vf, k, p) {
      CountRefsBoth(vf, list, [k], p);
      CountRefsOne(vf, k, p);
    }
  }

  // ---------------------------------------------------------------------------
  // The annotator
  // ---------------------------------------------------------------------------

  class Annotator {
    const vf: VersionedFile
    var parentMap: map<Key, seq<Key>>
    var textCache: map<Key, seq<Line>>
    var numNeededChildren: map<Key, nat>
    var annotationsCache: map<Key, seq<Annotation>>

    constructor (vf: VersionedFile)
      ensures this.vf == vf && Unused()
    {
      this.vf := vf;
      parentMap, textCache, numNeededChildren, annotationsCache := map[], map[], map[], map[];
    }

    ghost predicate Unused()
      reads this
    {
      parentMap == map[] && textCache == map[] && numNeededChildren == map[] && annotationsCache == map[]
    }

    method UpdateNeededChildren(parentKeys: seq<Key>)
      modifies this`numNeededChildren
      ensures forall p :: NumOf(numNeededChildren, p) == NumOf(old(numNeededChildren), p) + multiset(parentKeys)[p]
    {
      assert parentKeys[..0] == [];
      for i := 0 to |parentKeys|
        invariant forall p :: NumOf(numNeededChildren, p) == NumOf(old(numNeededChildren), p) + multiset(parentKeys[..i])[p]
      {
        var parentKey := parentKeys[i];
        assert parentKeys[..i + 1] == parentKeys[..i] + [parentKey];
        if parentKey in numNeededChildren {
          numNeededChildren := numNeededChildren[parentKey := numNeededChildren[parentKey] + 1];
        } else {
          numNeededChildren := numNeededChildren[parentKey := 1];
        }
      }
      assert parentKeys[..|parentKeys|] == parentKeys;
    }

    /** vf.get_parent_map, which knows only the keys there are. */
    method LookUpParents(keys: set<Key>) returns (found: map<Key, seq<Key>>)
      ensures forall k :: k in found <==> k in keys && k !in parentMap && k in vf
      ensures forall k :: k in found ==> found[k] == vf[k].parents
    {
      found := map k | k in keys && k !in parentMap && k in vf :: vf[k].parents;
    }

    /** Counts the parents of the keys found; their parents that are not known yet are needed next. */
    method CountFound(key: Key, found: map<Key, seq<Key>>, ghost seen: seq<Key>) returns (next: set<Key>, ghost counted: seq<Key>)
      requires CountsAre(vf, key, seen, numNeededChildren)
      requires forall k :: k in found ==> k in vf && found[k] == vf[k].parents
      modifies this`numNeededChildren
      ensures CountsAre(vf, key, seen + counted, numNeededChildren)
      ensures Distinct(counted) && forall k :: k in counted <==> k in found
      ensures forall p :: p in next <==> p !in parentMap && exists k :: k in found && p in vf[k].parents
    {
      hide CountsAre, CountRefs;
      next, counted := {}, [];
      var rest := found.Keys;
      assert seen + [] == seen;
      while rest != {}
        invariant rest <= found.Keys && CountsAre(vf, key, seen + counted, numNeededChildren)
        invariant Distinct(counted) && forall k :: k in counted <==> k in found && k !in rest
        invariant forall p :: p in next <==> p !in parentMap && exists k :: k in found && k !in rest && p in vf[k].parents
      {
        ghost var some := AnyOf(rest);
        var k: Key :| k in rest;
        ghost var num := numNeededChildren;
        UpdateNeededChildren(found[k]);
        CountsMore(vf, key, seen + counted, num, k, numNeededChildren);
        assert seen + (counted + [k]) == (seen + counted) + [k];
        ghost var was := next;
        next := next + set p | p in found[k] && p !in parentMap;
        NextMore(found, rest, k, was, next);
        DistinctMore(counted, k);
        counted := counted + [k];
        rest := rest - {k};
      }
    }

    lemma NextMore(found: map<Key, seq<Key>>, rest: set<Key>, k: Key, was: set<Key>, next: set<Key>)
      requires forall x :: x in found ==> x in vf && found[x] == vf[x].parents
      requires k in rest && rest <= found.Keys
      requires forall p :: p in was <==> p !in parentMap && exists x :: x in found && x !in rest && p in vf[x].parents
      requires next == was + set p | p in found[k] && p !in parentMap
      ensures forall p :: p in next <==> p !in parentMap && exists x :: x in found && x !in rest - {k} && p in vf[x].parents
    {
      forall p ensures p in next <==> p !in parentMap && exists x :: x in found && x !in rest - {k} && p in vf[x].parents {
        if p in was {
          var x :| x in found && x !in rest && p in vf[x].parents;
          assert x !in rest - {k};
        }
        if p in found[k] { assert k in found && k !in rest - {k}; }
        if p !in parentMap && exists x :: x in found && x !in rest - {k} && p in vf[x].parents {
          var x :| x in found && x !in rest - {k} && p in vf[x].parents;
          assert x == k || x !in rest;
        }
      }
    }

    /** On a new annotator every needed text has to come from the versioned file. */
    method GetNeededKeys(key: Key) returns (vfKeysNeeded: set<Key>, ghost seen: seq<Key>)
      requires Unused()
      modifies this`numNeededChildren, this`parentMap
      ensures forall k :: k in vfKeysNeeded <==> Needed(vf, key, k)
      ensures Distinct(seen) && (forall k :: k in seen <==> k in vfKeysNeeded) && CountsAre(vf, key, seen, numNeededChildren)
      ensures forall k :: k in parentMap <==> Needed(vf, key, k) && k in vf
      ensures forall k :: k in parentMap ==> parentMap[k] == vf[k].parents
    {
      hide Needed, CountsAre, CountRefs, Exploring, Distinct, Unknown;
      numNeededChildren := numNeededChildren[key := 1];
      assert numNeededChildren == map[key := 1];
      vfKeysNeeded, seen := {}, [];
      var neededKeys := {key};
      SearchStarts(vf, key);
      while neededKeys != {}
        invariant Exploring(vf, key, seen, neededKeys, numNeededChildren, parentMap)
        invariant forall k :: k in seen <==> k in vfKeysNeeded
        decreases Unknown(vf, parentMap), |neededKeys|
      {
        ghost var before, num, open := parentMap, numNeededChildren, neededKeys;
        // a key that is known already was asked for in an earlier round
        vfKeysNeeded := vfKeysNeeded + (set k | k in neededKeys && k !in parentMap);
        var found := LookUpParents(neededKeys);
        ghost var counted: seq<Key>;
        Counts(vf, key, seen, open, num, before);
        neededKeys, counted := CountFound(key, found, seen);
        ghost var fresh' := FreshKeys(vf, key, seen, open, num, before, found, counted, numNeededChildren);
        SearchRound(vf, key, seen, open, num, before, fresh', numNeededChildren, found, neededKeys);
        RoundProgress(vf, before, found, neededKeys, open);
        KeysSeen(vf, key, seen, open, num, before, fresh');
        seen := seen + fresh';
        parentMap := parentMap + found;
      }
      SearchEnds(vf, key, seen, numNeededChildren, parentMap);
      NothingOpen(vf, key, seen, numNeededChildren, parentMap);
    }

    // -------------------------------------------------------------------------
    // Annotating
    // -------------------------------------------------------------------------

    method UpdateFromFirstParent(key: Key, annotations: array<Annotation>, lines: seq<Line>, parentKey: Key)
      requires parentKey in textCache && parentKey in annotationsCache && annotations.Length == |lines|
      requires |annotationsCache[parentKey]| == |textCache[parentKey]|
      modifies annotations
      ensures annotations[..] == ApplyBlocks([key], true, old(annotations[..]), annotationsCache[parentKey],
                                             MatchingBlocks(textCache[parentKey], lines))
    {
      hide MatchingBlocks, ApplyBlock, IsBlockList, BlockFits;
      var blocks, _ := GetMatchingBlocksPy(textCache[parentKey], lines);
      MatchingBlocksFit(textCache[parentKey], lines);
      ghost var before := annotations[..];
      assert blocks[..0] == [];
      for i := 0 to |blocks|
        invariant annotations[..] == ApplyBlocks([key], true, before, annotationsCache[parentKey], blocks[..i])
      {
        CopyBlock([key], annotations, annotationsCache[parentKey], blocks[i]);
        ApplyOneMore([key], true, before, annotationsCache[parentKey], blocks, i);
      }
      assert blocks[..|blocks|] == blocks;
    }

    /** The memo makes no difference: the result is that of the rule for single lines. */
    method UpdateFromOtherParents(key: Key, annotations: array<Annotation>, lines: seq<Line>, parentKey: Key)
      requires parentKey in textCache && parentKey in annotationsCache && annotations.Length == |lines|
      requires |annotationsCache[parentKey]| == |textCache[parentKey]|
      modifies annotations
      ensures annotations[..] == ApplyBlocks([key], false, old(annotations[..]), annotationsCache[parentKey],
                                             MatchingBlocks(textCache[parentKey], lines))
    {
      hide MatchingBlocks, ApplyBlock, IsBlockList, BlockFits, Union;
      var blocks, _ := GetMatchingBlocksPy(textCache[parentKey], lines);
      MatchingBlocksFit(textCache[parentKey], lines);
      ghost var before := annotations[..];
      var memo := Memo(None, None, []);
      assert blocks[..0] == [];
      for i := 0 to |blocks|
        invariant annotations[..] == ApplyBlocks([key], false, before, annotationsCache[parentKey], blocks[..i])
        invariant MemoIsTrue(memo)
      {
        memo := MergeBlock([key], annotations, annotationsCache[parentKey], blocks[i], memo);
        ApplyOneMore([key], false, before, annotationsCache[parentKey], blocks, i);
      }
      assert blocks[..|blocks|] == blocks;
    }

    /** Keeps the annotations and counts the parents down; a parent nobody needs any more is dropped. */
    method RecordAnnotation(key: Key, parentKeys: seq<Key>, annotations: seq<Annotation>)
      requires key !in parentKeys
      requires forall p :: p in parentKeys ==> NumOf(numNeededChildren, p) >= multiset(parentKeys)[p] > 0
      requires forall p :: p in parentKeys ==> p in textCache && p in annotationsCache
      modifies this`numNeededChildren, this`textCache, this`annotationsCache
      ensures CountedDown(old(numNeededChildren), parentKeys, numNeededChildren)
      ensures Dropped(old(textCache), parentKeys, numNeededChildren, textCache)
      ensures Dropped(old(annotationsCache)[key := annotations], parentKeys, numNeededChildren, annotationsCache)
    {
      hide CountedDown, Dropped;
      annotationsCache := annotationsCache[key := annotations];
      ghost var num, texts, anns := numNeededChildren, textCache, annotationsCache;
      NothingCounted(num, texts);
      NothingCounted(num, anns);
      assert parentKeys[..0] == [];
      for i := 0 to |parentKeys|
        invariant CountedDown(num, parentKeys[..i], numNeededChildren)
        invariant Dropped(texts, parentKeys[..i], numNeededChildren, textCache)
        invariant Dropped(anns, parentKeys[..i], numNeededChildren, annotationsCache)
      {
        var parentKey := parentKeys[i];
        StillCached(parentKeys, i, num, numNeededChildren, texts, textCache);
        StillCached(parentKeys, i, num, numNeededChildren, anns, annotationsCache);
        ghost var was, oldTexts, oldAnns := numNeededChildren, textCache, annotationsCache;
        var left := numNeededChildren[parentKey] - 1;
        if left == 0 {
          textCache := textCache - {parentKey};
          annotationsCache := annotationsCache - {parentKey};
        }
        numNeededChildren := numNeededChildren[parentKey := left];
        DropNext(parentKeys, i, num, was, texts, oldTexts);
        DropNext(parentKeys, i, num, was, anns, oldAnns);
      }
      assert parentKeys[..|parentKeys|] == parentKeys;
    }

    method AnnotateOne(key: Key, text: seq<Line>, ghost root: Key, ghost order: seq<Key>, ghost i: nat, ghost texts: map<Key, seq<Line>>)
      requires IsStream(vf, root, order) && i < |order| && key == order[i] && key in vf && text == vf[key].lines
      requires Cached(vf, root, order, i, numNeededChildren, texts, annotationsCache) && textCache == texts[key := text]
      requires key in parentMap && parentMap[key] == vf[key].parents
      modifies this`numNeededChildren, this`textCache, this`annotationsCache
      ensures Cached(vf, root, order, i + 1, numNeededChildren, textCache, annotationsCache)
    {
      hide *;
      ghost var rank, num, anns := OrderRank(order), numNeededChildren, annotationsCache;
      var annotations := NewAnnotations(key, |text|);
      var parentKeys := parentMap[key];
      ParentsAreCached(vf, root, order, i, num, texts, anns);
      NoParentsYet(vf, rank, key);
      for n := 0 to |parentKeys|
        invariant annotations[..] == AfterParents(vf, rank, key, n) && annotations.Length == |text|
        invariant numNeededChildren == num && textCache == texts[key := text] && annotationsCache == anns
      {
        ParentIsCached(vf, root, order, i, num, texts, anns, n);
        OneMoreParent(vf, rank, key, n);
        if n == 0 {
          UpdateFromFirstParent(key, annotations, text, parentKeys[0]);
        } else {
          UpdateFromOtherParents(key, annotations, text, parentKeys[n]);
        }
      }
      AllParents(vf, rank, key);
      ParentsInBoth(vf, root, order, i, num, texts, anns, annotations[..]);
      RecordAnnotation(key, parentKeys, annotations[..]);
      CachedNext(vf, root, order, i, num, texts, anns, annotations[..], numNeededChildren, textCache, annotationsCache);
    }

    /** The annotations of a text, with the texts arriving parents first.  An error exactly if a needed
        text is missing; otherwise the result is the specification's, and only key stays cached. */
    method Annotate(key: Key, order: seq<Key>) returns (r: Result<(seq<Annotation>, seq<Line>), Error>)
      requires Unused() && IsStream(vf, key, order)
      modifies this
      ensures r.Err? <==> exists k :: Needed(vf, key, k) && k !in vf
      ensures r.Err? ==> Needed(vf, key, r.error.key) && r.error.key !in vf
      ensures r.Ok? ==> r.value.1 == vf[key].lines && AreAnnotations(vf, key, r.value.0)
      ensures r.Ok? ==> ExactOrigins(vf, key, r.value.0)
      ensures r.Ok? ==> forall rank :: Ranks(vf, rank) && key in rank ==> r.value.0 == Annotated(vf, rank, key)
      ensures r.Ok? ==> textCache == map[key := r.value.1] && annotationsCache == map[key := r.value.0]
    {
      hide *;
      KeysOfStream(vf, key, order);
      NothingCached();
      var keys, seen := GetNeededKeys(key);
      StreamStarts(vf, key, order, seen, keys, numNeededChildren);
      for i := 0 to |order|
        invariant Cached(vf, key, order, i, numNeededChildren, textCache, annotationsCache)
        invariant forall k :: k in parentMap <==> Needed(vf, key, k) && k in vf
        invariant forall k :: k in parentMap ==> parentMap[k] == vf[k].parents
        invariant forall j :: 0 <= j < i ==> order[j] in vf
      {
        var thisKey := order[i];
        InStream(vf, key, order, i);
        if thisKey !in vf {
          return Err(RevisionNotPresent(thisKey));
        }
        var lines := vf[thisKey].lines;
        ghost var texts := textCache;
        textCache := textCache[thisKey := lines];
        AnnotateOne(thisKey, lines, key, order, i, texts);
      }
      AllPresent(vf, key, order);
      CachedAtEnd(vf, key, order, numNeededChildren, textCache, annotationsCache);
      OnlyKey(vf, key, order, textCache, annotationsCache);
      StreamRanks(vf, key, order);
      AnnotationsAreTrue(vf, OrderRank(order), key);
      AnnotatedIsExact(vf, OrderRank(order), key);
      forall rank | Ranks(vf, rank) && key in rank ensures annotationsCache[key] == Annotated(vf, rank, key) {
        RankDoesNotMatter(vf, OrderRank(order), rank, key);
      }
      return Ok((annotationsCache[key], textCache[key]));
    }

    lemma NothingCached()
      requires Unused()
      ensures textCache == map[] && annotationsCache == map[]
    {
    }
  }

  /** [this_annotation] * num_lines */
  method NewAnnotations(key: Key, n: nat) returns (annotations: array<Annotation>)
    ensures fresh(annotations) && annotations.Length == n && annotations[..] == Unclaimed(key, n)
  {
    annotations := new Annotation[n](i => [key]);
    assert annotations[..] == Unclaimed(key, n);
  }

  lemma NoParentsYet(vf: VersionedFile, rank: map<Key, nat>, k: Key)
    requires k in vf
    ensures AfterParents(vf, rank, k, 0) == Unclaimed(k, |vf[k].lines|)
  {
  }

  lemma OneMoreParent(vf: VersionedFile, rank: map<Key, nat>, k: Key, n: nat)
    requires k in vf && n < |vf[k].parents| && vf[k].parents[n] in vf && Ranks(vf, rank) && k in rank
    ensures var p := vf[k].parents[n];
            && |Annotated(vf, rank, p)| == |vf[p].lines|
            && AfterParents(vf, rank, k, n + 1) ==
               ApplyBlocks([k], n == 0, AfterParents(vf, rank, k, n), Annotated(vf, rank, p), MatchingBlocks(vf[p].lines, vf[k].lines))
  {
    hide ApplyBlocks, MatchingBlocks;
    var p := vf[k].parents[n];
    assert p in vf[k].parents;
  }

  lemma AllParents(vf: VersionedFile, rank: map<Key, nat>, k: Key)
    requires k in vf
    ensures AfterParents(vf, rank, k, |vf[k].parents|) == Annotated(vf, rank, k)
  {
  }

  /** When a text is annotated, all its parents are cached, with their annotations. */
  lemma ParentsAreCached(vf: VersionedFile, key: Key, order: seq<Key>, i: nat, num: map<Key, nat>,
                         texts: map<Key, seq<Line>>, anns: map<Key, seq<Annotation>>)
    requires IsStream(vf, key, order) && i < |order| && order[i] in vf && Cached(vf, key, order, i, num, texts, anns)
    ensures Ranks(vf, OrderRank(order)) && order[i] in OrderRank(order)
    ensures order[i] !in vf[order[i]].parents
    ensures forall p :: p in vf[order[i]].parents ==> NumOf(num, p) >= multiset(vf[order[i]].parents)[p] > 0
  {
    hide Needed, CountsAre, CacheEntry, Ranks;
    StillWanted(vf, key, order, i, num);
    StreamRanks(vf, key, order);
    OrderRankIs(order, i);
  }

  lemma ParentIsCached(vf: VersionedFile, key: Key, order: seq<Key>, i: nat, num: map<Key, nat>,
                       texts: map<Key, seq<Line>>, anns: map<Key, seq<Annotation>>, n: nat)
    requires IsStream(vf, key, order) && i < |order| && order[i] in vf && Cached(vf, key, order, i, num, texts, anns)
    requires n < |vf[order[i]].parents|
    ensures var p := vf[order[i]].parents[n];
            && p in texts && p in anns && p != order[i] && p in vf
            && texts[p] == vf[p].lines && anns[p] == Annotated(vf, OrderRank(order), p)
  {
    hide Needed, CountsAre, Annotated, OrderRank;
    var p := vf[order[i]].parents[n];
    assert p in vf[order[i]].parents;
    StillWanted(vf, key, order, i, num);
    assert p in texts;
    assert CacheEntry(vf, order, p, texts[p], anns[p]);
  }

  lemma ParentsInBoth(vf: VersionedFile, key: Key, order: seq<Key>, i: nat, num: map<Key, nat>,
                      texts: map<Key, seq<Line>>, anns: map<Key, seq<Annotation>>, annotations: seq<Annotation>)
    requires IsStream(vf, key, order) && i < |order| && order[i] in vf && Cached(vf, key, order, i, num, texts, anns)
    ensures forall p :: p in vf[order[i]].parents ==> p in texts && p in anns
  {
    forall p | p in vf[order[i]].parents ensures p in texts && p in anns {
      var n :| 0 <= n < |vf[order[i]].parents| && vf[order[i]].parents[n] == p;
      ParentIsCached(vf, key, order, i, num, texts, anns, n);
    }
  }

  lemma KeysOfStream(vf: VersionedFile, key: Key, order: seq<Key>)
    requires IsStream(vf, key, order)
    ensures Distinct(order) && forall k :: k in order <==> Needed(vf, key, k)
  {
  }

  lemma StreamStarts(vf: VersionedFile, key: Key, order: seq<Key>, seen: seq<Key>, keys: set<Key>, num: map<Key, nat>)
    requires Distinct(order) && forall k :: k in order <==> Needed(vf, key, k)
    requires Distinct(seen) && forall k :: k in seen <==> k in keys
    requires forall k :: k in keys <==> Needed(vf, key, k)
    requires CountsAre(vf, key, seen, num)
    ensures Cached(vf, key, order, 0, num, map[], map[])
  {
    hide Needed, Distinct, CountRefs;
    assert SameKeysIn(seen, order);
    assert order[0..] == order && order[..0] == [];
    forall p ensures CountRefs(vf, seen, p) == CountRefs(vf, order, p) { CountRefsSame(vf, seen, order, p); }
  }

  lemma InStream(vf: VersionedFile, key: Key, order: seq<Key>, i: nat)
    requires IsStream(vf, key, order) && i < |order|
    ensures Needed(vf, key, order[i])
  {
    hide Needed;
    assert order[i] in order;
  }

  lemma AllPresent(vf: VersionedFile, key: Key, order: seq<Key>)
    requires IsStream(vf, key, order) && forall j :: 0 <= j < |order| ==> order[j] in vf
    ensures forall k :: Needed(vf, key, k) ==> k in vf
    ensures key in vf
  {
    hide Needed;
    KeyIsNeeded(vf, key);
    forall k | Needed(vf, key, k) ensures k in vf {
      assert k in order;
      var j :| 0 <= j < |order| && order[j] == k;
    }
  }

  lemma OnlyKey(vf: VersionedFile, key: Key, order: seq<Key>, texts: map<Key, seq<Line>>, anns: map<Key, seq<Annotation>>)
    requires forall k :: k in texts <==> k == key
    requires forall k :: k in anns <==> k == key
    requires CacheEntry(vf, order, key, texts[key], anns[key])
    ensures key in vf && texts == map[key := vf[key].lines] && anns == map[key := Annotated(vf, OrderRank(order), key)]
  {
    hide Annotated, OrderRank;
    assert forall k :: k in texts <==> k == key;
    assert forall k :: k in anns <==> k == key;
  }

  ghost function Unknown(vf: VersionedFile, parents: map<Key, seq<Key>>): nat {
    |vf.Keys - parents.Keys|
  }

  lemma RoundProgress(vf: VersionedFile, parents: map<Key, seq<Key>>, found: map<Key, seq<Key>>, next: set<Key>, open: set<Key>)
    requires open != {}
    requires forall k :: k in found ==> k in vf && k !in parents
    requires forall p :: p in next <==> p !in parents && exists k :: k in found && p in vf[k].parents
    ensures Unknown(vf, parents + found) <= Unknown(vf, parents)
    ensures Unknown(vf, parents + found) < Unknown(vf, parents) || |next| < |open|
  {
    var all, rest := vf.Keys - parents.Keys, vf.Keys - (parents + found).Keys;
    SizeOfSubset(rest, all);
    if k :| k in found {
      assert k in all && k !in rest;
      SizeOfSubset(rest, all - {k});
    } else {
      assert forall p :: p !in next;
      NothingIn(next);
    }
  }

  lemma {:induction false} AbsentCountNothing(vf: VersionedFile, list: seq<Key>, p: Key)
    requires forall k :: k in list ==> k !in vf
    ensures CountRefs(vf, list, p) == 0
  {
    if list != [] {
      assert list[0] in list;
      AbsentCountNothing(vf, list[1..], p);
    }
  }

  /** The keys looked at in one round, found or not. */
  lemma FreshKeys(vf: VersionedFile, key: Key, seen: seq<Key>, open: set<Key>, num: map<Key, nat>, parents: map<Key, seq<Key>>,
                  found: map<Key, seq<Key>>, counted: seq<Key>, num': map<Key, nat>) returns (fresh': seq<Key>)
    requires Exploring(vf, key, seen, open, num, parents)
    requires forall k :: k in found <==> k in open && k !in parents && k in vf
    requires Distinct(counted) && forall k :: k in counted <==> k in found
    requires CountsAre(vf, key, seen + counted, num')
    ensures Distinct(fresh') && forall k :: k in fresh' <==> k in open && k !in seen
    ensures CountsAre(vf, key, seen + fresh', num')
  {
    hide Needed, ProperAncestor;
    var absent := GraphDistance.ListOf(set k | k in open && k !in seen && k !in vf);
    fresh' := counted + absent;
    DistinctBoth(counted, absent);
    assert forall k :: k in fresh' <==> k in counted || k in absent;
    forall p ensures CountRefs(vf, seen + fresh', p) == CountRefs(vf, seen + counted, p) {
      assert seen + fresh' == (seen + counted) + absent;
      CountRefsBoth(vf, seen + counted, absent, p);
      AbsentCountNothing(vf, absent, p);
    }
  }

  lemma KeysSeen(vf: VersionedFile, key: Key, seen: seq<Key>, open: set<Key>, num: map<Key, nat>, parents: map<Key, seq<Key>>,
                 fresh': seq<Key>)
    requires Exploring(vf, key, seen, open, num, parents)
    requires forall k :: k in fresh' <==> k in open && k !in seen
    ensures forall k :: k in seen + fresh' <==> k in seen || (k in open && k !in parents)
  {
    hide Needed, CountsAre;
    assert forall k :: k in seen + fresh' <==> k in seen || k in fresh';
  }

  lemma NothingOpen(vf: VersionedFile, key: Key, seen: seq<Key>, num: map<Key, nat>, parents: map<Key, seq<Key>>)
    requires Exploring(vf, key, seen, {}, num, parents)
    ensures Distinct(seen) && CountsAre(vf, key, seen, num)
    ensures forall k :: k in parents <==> k in seen && k in vf
    ensures forall k :: k in parents ==> parents[k] == vf[k].parents
  {
  }

  // ---------------------------------------------------------------------------
  // Counting down
  // ---------------------------------------------------------------------------

  lemma NothingCounted<V>(num: map<Key, nat>, cache: map<Key, V>)
    ensures CountedDown(num, [], num) && Dropped(cache, [], num, cache)
  {
  }

  lemma StillCached<V>(parents: seq<Key>, i: nat, num: map<Key, nat>, now: map<Key, nat>, cache: map<Key, V>, left: map<Key, V>)
    requires i < |parents| && CountedDown(num, parents[..i], now) && Dropped(cache, parents[..i], now, left)
    requires NumOf(num, parents[i]) >= multiset(parents)[parents[i]] && parents[i] in cache
    ensures parents[i] in now && now[parents[i]] > 0 && parents[i] in left
  {
    var p := parents[i];
    assert parents == (parents[..i] + [p]) + parents[i + 1..];
    assert multiset(parents)[p] > multiset(parents[..i])[p];
    assert NumOf(now, p) > 0;
  }

  lemma DropNext<V>(parents: seq<Key>, i: nat, num: map<Key, nat>, was: map<Key, nat>, cache: map<Key, V>, left: map<Key, V>)
    requires i < |parents| && CountedDown(num, parents[..i], was) && Dropped(cache, parents[..i], was, left)
    requires parents[i] in was && was[parents[i]] > 0 && parents[i] in left
    ensures CountedDown(num, parents[..i + 1], was[parents[i] := was[parents[i]] - 1])
    ensures was[parents[i]] == 1 ==>
              Dropped(cache, parents[..i + 1], was[parents[i] := was[parents[i]] - 1], left - {parents[i]})
    ensures was[parents[i]] != 1 ==>
              Dropped(cache, parents[..i + 1], was[parents[i] := was[parents[i]] - 1], left)
  {
    var p := parents[i];
    assert parents[..i + 1] == parents[..i] + [p];
    assert forall k :: k in parents[..i + 1] <==> k in parents[..i] || k == p;
  }
}
