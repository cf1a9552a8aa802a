/** Where lines come from: the annotation of a line names exactly the revisions at which following the line back
    from text to parent text, along matching blocks, can end. */
module AnnotationOrigins {
  import opened Basics
  import opened Worklist
  import opened GraphHeads
  import opened PatienceMatches
  import opened PatienceBlocks
  import opened AnnotationSpec

  /** A line of a text. */
  datatype Place = Place(rev: Key, line: int)

  /** The matcher pairs line i of the text of k with line j of the text of its parent p. */
  ghost predicate Matched(vf: VersionedFile, k: Key, i: int, p: Key, j: int) {
    && k in vf && p in vf[k].parents && p in vf
    && exists block :: block in MatchingBlocks(vf[p].lines, vf[k].lines)
         && block.b <= i < block.b + block.len && j == block.a + (i - block.b)
  }

  /** Each place is matched with the next one. */
  ghost predicate Trail(vf: VersionedFile, path: seq<Place>) {
    forall t :: 0 <= t < |path| - 1 ==> Matched(vf, path[t].rev, path[t].line, path[t + 1].rev, path[t + 1].line)
  }

  /** No parent has the line. */
  ghost predicate IsNew(vf: VersionedFile, at: Place) {
    at.rev in vf && forall p, j :: !Matched(vf, at.rev, at.line, p, j)
  }

  /** Following the line back can end at a line that is new in x. */
  ghost predicate ComesFrom(vf: VersionedFile, k: Key, i: int, x: Key) {
    exists path :: LeadsTo(vf, path, Place(k, i), x)
  }

  ghost predicate LeadsTo(vf: VersionedFile, path: seq<Place>, start: Place, x: Key) {
    && path != [] && path[0] == start && Trail(vf, path)
    && path[|path| - 1].rev == x && IsNew(vf, path[|path| - 1])
  }

  lemma ComesFromUnfolds(vf: VersionedFile, k: Key, i: int, x: Key)
    ensures ComesFrom(vf, k, i, x) <==>
      (exists p, j :: Matched(vf, k, i, p, j) && ComesFrom(vf, p, j, x)) || (x == k && IsNew(vf, Place(k, i)))
  {
    hide Matched, IsNew;
    if path: seq<Place> :| LeadsTo(vf, path, Place(k, i), x) {
      if |path| > 1 {
        assert Matched(vf, path[0].rev, path[0].line, path[1].rev, path[1].line);
        assert LeadsTo(vf, path[1..], Place(path[1].rev, path[1].line), x);
        assert ComesFrom(vf, path[1].rev, path[1].line, x);
      }
    }
    if p, j :| Matched(vf, k, i, p, j) && ComesFrom(vf, p, j, x) {
      var path :| LeadsTo(vf, path, Place(p, j), x);
      LongerTrail(vf, Place(k, i), path, x);
    }
    if x == k && IsNew(vf, Place(k, i)) {
      assert LeadsTo(vf, [Place(k, i)], Place(k, i), x);
    }
  }

  lemma LongerTrail(vf: VersionedFile, start: Place, path: seq<Place>, x: Key)
    requires path != [] && LeadsTo(vf, path, path[0], x) && Matched(vf, start.rev, start.line, path[0].rev, path[0].line)
    ensures LeadsTo(vf, [start] + path, start, x)
  {
    hide Matched, IsNew;
    var more := [start] + path;
    forall t | 0 <= t < |more| - 1 ensures Matched(vf, more[t].rev, more[t].line, more[t + 1].rev, more[t + 1].line) {
      if t > 0 { assert more[t] == path[t - 1] && more[t + 1] == path[t]; }
    }
  }

  // ---------------------------------------------------------------------------
  // One parent
  // ---------------------------------------------------------------------------

  /** Every line is in one block at most, and blocks stay inside both texts. */
  ghost predicate Disjoint(blocks: seq<Block>, length: nat, parentLength: nat) {
    && (forall t :: 0 <= t < |blocks| ==> Inside(blocks[t], length, parentLength))
    && forall s, t, i: int :: 0 <= s < t < |blocks| && Holds(blocks[s], i) ==> !Holds(blocks[t], i)
  }

  ghost predicate Holds(block: Block, i: int) {
    block.b <= i < block.b + block.len
  }

  ghost predicate Inside(block: Block, length: nat, parentLength: nat) {
    forall i: int :: Holds(block, i) ==> 0 <= i < length && 0 <= block.a + (i - block.b) < parentLength
  }

  lemma MatchingBlocksDisjoint(a: seq<Line>, b: seq<Line>)
    ensures Disjoint(MatchingBlocks(a, b), |b|, |a|)
  {
    hide MatchingBlocks;
    MatchingBlocksAreValid(a, b);
    var blocks := MatchingBlocks(a, b);
    forall t | 0 <= t < |blocks| ensures Inside(blocks[t], |b|, |a|) {
      assert SameLines(a, b, blocks[t].a, blocks[t].b, blocks[t].len);
    }
    forall s, t, i: int | 0 <= s < t < |blocks| && Holds(blocks[s], i) ensures !Holds(blocks[t], i) {
      assert blocks[s].b + blocks[s].len <= blocks[t].b;
    }
  }

  ghost predicate SomeHolds(blocks: seq<Block>, i: int) {
    exists t :: 0 <= t < |blocks| && Holds(blocks[t], i)
  }

  lemma {:induction false} AppliedAt(this': Annotation, first: bool, anns: seq<Annotation>, parentAnns: seq<Annotation>,
                                     blocks: seq<Block>, i: nat)
    requires i < |anns| && Disjoint(blocks, |anns|, |parentAnns|)
    ensures !SomeHolds(blocks, i) ==> ApplyBlocks(this', first, anns, parentAnns, blocks)[i] == anns[i]
    ensures forall t :: 0 <= t < |blocks| && Holds(blocks[t], i) ==>
              0 <= blocks[t].a + (i - blocks[t].b) < |parentAnns|
              && ApplyBlocks(this', first, anns, parentAnns, blocks)[i] ==
                 Combine(this', first, anns[i], parentAnns[blocks[t].a + (i - blocks[t].b)])
    decreases |blocks|
  {
    hide Combine;
    if blocks != [] {
      var init, last := blocks[..|blocks| - 1], blocks[|blocks| - 1];
      AppliedAt(this', first, anns, parentAnns, init, i);
      assert Inside(last, |anns|, |parentAnns|);
      forall t | 0 <= t < |blocks| && Holds(blocks[t], i)
        ensures 0 <= blocks[t].a + (i - blocks[t].b) < |parentAnns|
                && ApplyBlocks(this', first, anns, parentAnns, blocks)[i] ==
                   Combine(this', first, anns[i], parentAnns[blocks[t].a + (i - blocks[t].b)])
      {
        if t < |init| {
          assert init[t] == blocks[t] && !Holds(last, i);
        } else {
          NoneOfInit(blocks, i);
        }
      }
      if !SomeHolds(blocks, i) {
        assert !Holds(last, i);
        FewerHold(blocks, i);
      }
    }
  }

  lemma NoneOfInit(blocks: seq<Block>, i: int)
    requires blocks != [] && Holds(blocks[|blocks| - 1], i)
    requires forall s, t, i: int :: 0 <= s < t < |blocks| && Holds(blocks[s], i) ==> !Holds(blocks[t], i)
    ensures !SomeHolds(blocks[..|blocks| - 1], i)
  {
  }

  lemma FewerHold(blocks: seq<Block>, i: int)
    requires blocks != [] && !SomeHolds(blocks, i)
    ensures !SomeHolds(blocks[..|blocks| - 1], i)
  {
  }

  /** What a matching line of a parent adds: its names, to those that were given by earlier parents. */
  lemma CombineNames(k: Key, first: bool, ann: Annotation, parent: Annotation, x: Key)
    requires ann != [] && parent != [] && k !in parent && (k in ann ==> ann == [k]) && (first ==> ann == [k])
    ensures x in Combine([k], first, ann, parent) <==> x in parent || (x in ann && ann != [k])
    ensures k !in Combine([k], first, ann, parent) && Combine([k], first, ann, parent) != []
  {
    UnionIs(ann, parent);
    if ann != [k] && ann != parent && !first { UnionHas(ann, parent, ann[0]); }
  }

  // ---------------------------------------------------------------------------
  // Ranks of names
  // ---------------------------------------------------------------------------

  lemma {:induction false} PathRanks(vf: VersionedFile, rank: map<Key, nat>, path: seq<Key>, t: nat)
    requires Ranks(vf, rank) && IsPath(LinksOf(vf), path) && t < |path| && path[0] in rank
    ensures path[t] in rank && rank[path[t]] + t <= rank[path[0]]
  {
    if t > 0 {
      PathRanks(vf, rank, path, t - 1);
      PathStep(LinksOf(vf), path, t - 1);
      RankFalls(vf, rank, path[t - 1], path[t]);
    }
  }

  lemma RankFalls(vf: VersionedFile, rank: map<Key, nat>, k: Key, p: Key)
    requires Ranks(vf, rank) && k in rank && k in LinksOf(vf) && p in LinksOf(vf)[k]
    ensures p in rank && rank[p] < rank[k]
  {
    assert p in vf[k].parents;
  }

  lemma NamesAreLower(vf: VersionedFile, rank: map<Key, nat>, k: Key, p: Key, j: nat)
    requires Ranks(vf, rank) && k in rank && k in vf && p in vf[k].parents && p in vf && j < |vf[p].lines|
    ensures |Annotated(vf, rank, p)| == |vf[p].lines|
    ensures Annotated(vf, rank, p)[j] != [] && k !in Annotated(vf, rank, p)[j]
  {
    hide Annotated, Joins;
    AnnotationsAreTrue(vf, rank, p);
    var ann := Annotated(vf, rank, p)[j];
    assert IsAnnotation(vf, p, vf[p].lines[j], ann);
    forall r | r in ann ensures r != k {
      assert MayBeFrom(vf, p, vf[p].lines[j], r);
      LowerRank(vf, rank, p, r);
    }
  }

  lemma LowerRank(vf: VersionedFile, rank: map<Key, nat>, p: Key, r: Key)
    requires Ranks(vf, rank) && p in rank && (r == p || ProperAncestor(LinksOf(vf), r, p))
    ensures r in rank && rank[r] <= rank[p]
  {
    if r != p {
      var path :| Joins(LinksOf(vf), path, p, r);
      PathRanks(vf, rank, path, |path| - 1);
    }
  }

  // ---------------------------------------------------------------------------
  // All parents
  // ---------------------------------------------------------------------------

  ghost predicate Claims(vf: VersionedFile, rank: map<Key, nat>, k: Key, m: nat, i: int, x: Key)
    requires k in vf && m < |vf[k].parents|
  {
    var p := vf[k].parents[m];
    p in vf && exists t :: NamedBy(vf, rank, k, p, t, i, x)
  }

  ghost predicate NamedBy(vf: VersionedFile, rank: map<Key, nat>, k: Key, p: Key, t: int, i: int, x: Key)
    requires k in vf && p in vf
  {
    var blocks := MatchingBlocks(vf[p].lines, vf[k].lines);
    && 0 <= t < |blocks| && Holds(blocks[t], i)
    && 0 <= blocks[t].a + (i - blocks[t].b) < |Annotated(vf, rank, p)|
    && x in Annotated(vf, rank, p)[blocks[t].a + (i - blocks[t].b)]
  }

  ghost predicate Touches(vf: VersionedFile, k: Key, m: nat, i: int)
    requires k in vf && m < |vf[k].parents|
  {
    var p := vf[k].parents[m];
    p in vf && SomeHolds(MatchingBlocks(vf[p].lines, vf[k].lines), i)
  }

  /** After the first n parents: line i has the names those give it, or its own if none of them has it. */
  ghost predicate Named(vf: VersionedFile, rank: map<Key, nat>, k: Key, n: nat, i: nat)
    requires k in vf && n <= |vf[k].parents| && i < |vf[k].lines|
  {
    var ann := AfterParents(vf, rank, k, n)[i];
    && ann != [] && (k in ann <==> ann == [k])
    && (ann == [k] <==> forall m :: 0 <= m < n ==> !Touches(vf, k, m, i))
    && forall x :: x != k ==> (x in ann <==> exists m :: 0 <= m < n && Claims(vf, rank, k, m, i, x))
  }

  lemma OneParent(vf: VersionedFile, rank: map<Key, nat>, k: Key, n: nat, i: nat)
    requires Ranks(vf, rank) && k in rank && k in vf && n < |vf[k].parents| && i < |vf[k].lines|
    ensures var p, before, after := vf[k].parents[n], AfterParents(vf, rank, k, n)[i], AfterParents(vf, rank, k, n + 1)[i];
            if !Touches(vf, k, n, i) then after == before && forall x :: !Claims(vf, rank, k, n, i, x)
            else p in vf && exists parent: Annotation ::
              && parent != [] && k !in parent && after == Combine([k], n == 0, before, parent)
              && forall x :: x in parent <==> Claims(vf, rank, k, n, i, x)
  {
    hide Combine, MatchingBlocks, Annotated;
    var p := vf[k].parents[n];
    assert p in vf[k].parents;
    if p in vf {
      var anns, blocks := Annotated(vf, rank, p), MatchingBlocks(vf[p].lines, vf[k].lines);
      AnnotationsAreTrue(vf, rank, p);
      MatchingBlocksDisjoint(vf[p].lines, vf[k].lines);
      AppliedAt([k], n == 0, AfterParents(vf, rank, k, n), anns, blocks, i);
      if t :| 0 <= t < |blocks| && Holds(blocks[t], i) {
        var j := blocks[t].a + (i - blocks[t].b);
        NamesAreLower(vf, rank, k, p, j);
        ClaimsAre(vf, rank, k, n, i, t);
        assert anns[j] != [] && k !in anns[j];
      }
    }
  }

  lemma OnlyBlock(blocks: seq<Block>, s: int, t: int, i: int)
    requires 0 <= s < |blocks| && 0 <= t < |blocks| && Holds(blocks[s], i) && Holds(blocks[t], i)
    requires forall s, t, i: int :: 0 <= s < t < |blocks| && Holds(blocks[s], i) ==> !Holds(blocks[t], i)
    ensures s == t
  {
  }

  lemma ClaimsAre(vf: VersionedFile, rank: map<Key, nat>, k: Key, n: nat, i: nat, t: nat)
    requires k in vf && n < |vf[k].parents| && vf[k].parents[n] in vf
    requires var blocks := MatchingBlocks(vf[vf[k].parents[n]].lines, vf[k].lines);
             Disjoint(blocks, |vf[k].lines|, |Annotated(vf, rank, vf[k].parents[n])|) && t < |blocks| && Holds(blocks[t], i)
    ensures var p := vf[k].parents[n];
            var block := MatchingBlocks(vf[p].lines, vf[k].lines)[t];
            && 0 <= block.a + (i - block.b) < |Annotated(vf, rank, p)|
            && forall x :: x in Annotated(vf, rank, p)[block.a + (i - block.b)] <==> Claims(vf, rank, k, n, i, x)
  {
    hide MatchingBlocks, Annotated;
    var p := vf[k].parents[n];
    var blocks := MatchingBlocks(vf[p].lines, vf[k].lines);
    assert Inside(blocks[t], |vf[k].lines|, |Annotated(vf, rank, p)|);
    forall x ensures x in Annotated(vf, rank, p)[blocks[t].a + (i - blocks[t].b)] <==> Claims(vf, rank, k, n, i, x) {
      if x in Annotated(vf, rank, p)[blocks[t].a + (i - blocks[t].b)] { assert NamedBy(vf, rank, k, p, t, i, x); }
      if s :| NamedBy(vf, rank, k, p, s, i, x) {
        OnlyBlock(blocks, s, t, i);
      }
    }
  }

  lemma {:induction false} NamedAfter(vf: VersionedFile, rank: map<Key, nat>, k: Key, n: nat, i: nat)
    requires Ranks(vf, rank) && k in rank && k in vf && n <= |vf[k].parents| && i < |vf[k].lines|
    ensures Named(vf, rank, k, n, i)
    decreases n
  {
    hide AfterParents, Claims, Touches, Combine;
    if n == 0 {
      NoParentYet(vf, rank, k, i);
    } else {
      NamedAfter(vf, rank, k, n - 1, i);
      OneParent(vf, rank, k, n - 1, i);
      NamedStep(vf, rank, k, n - 1, i);
    }
  }

  lemma NoParentYet(vf: VersionedFile, rank: map<Key, nat>, k: Key, i: nat)
    requires k in vf && i < |vf[k].lines|
    ensures AfterParents(vf, rank, k, 0)[i] == [k]
  {
  }

  lemma OneMoreClaim(vf: VersionedFile, rank: map<Key, nat>, k: Key, n: nat, i: nat, x: Key)
    requires k in vf && n < |vf[k].parents|
    ensures (exists m :: 0 <= m < n + 1 && Claims(vf, rank, k, m, i, x)) <==>
              (exists m :: 0 <= m < n && Claims(vf, rank, k, m, i, x)) || Claims(vf, rank, k, n, i, x)
  {
    hide Claims;
    if m :| 0 <= m < n + 1 && Claims(vf, rank, k, m, i, x) {
      assert m < n || m == n;
    }
  }

  lemma NamedStep(vf: VersionedFile, rank: map<Key, nat>, k: Key, n: nat, i: nat)
    requires k in vf && n < |vf[k].parents| && i < |vf[k].lines| && Named(vf, rank, k, n, i)
    requires n == 0 ==> AfterParents(vf, rank, k, n)[i] == [k]
    requires var before, after := AfterParents(vf, rank, k, n)[i], AfterParents(vf, rank, k, n + 1)[i];
             if !Touches(vf, k, n, i) then after == before && forall x :: !Claims(vf, rank, k, n, i, x)
             else exists parent: Annotation ::
               && parent != [] && k !in parent && after == Combine([k], n == 0, before, parent)
               && forall x :: x in parent <==> Claims(vf, rank, k, n, i, x)
    ensures Named(vf, rank, k, n + 1, i)
  {
    hide AfterParents, Claims, Touches, Combine;
    var before, after := AfterParents(vf, rank, k, n)[i], AfterParents(vf, rank, k, n + 1)[i];
    assert (forall m :: 0 <= m < n + 1 ==> !Touches(vf, k, m, i)) <==> (forall m :: 0 <= m < n ==> !Touches(vf, k, m, i)) && !Touches(vf, k, n, i);
    forall x
      ensures (exists m :: 0 <= m < n + 1 && Claims(vf, rank, k, m, i, x)) <==>
                (exists m :: 0 <= m < n && Claims(vf, rank, k, m, i, x)) || Claims(vf, rank, k, n, i, x)
    {
      OneMoreClaim(vf, rank, k, n, i, x);
    }
    if Touches(vf, k, n, i) {
      var parent: Annotation :|
        && parent != [] && k !in parent && after == Combine([k], n == 0, before, parent)
        && forall x :: x in parent <==> Claims(vf, rank, k, n, i, x);
      forall x ensures x in after <==> x in parent || (x in before && before != [k]) {
        CombineNames(k, n == 0, before, parent, x);
      }
      CombineNames(k, n == 0, before, parent, k);
      assert k !in after && after != [] && after != [k];
      forall x | x != k ensures x in after <==> exists m :: 0 <= m < n + 1 && Claims(vf, rank, k, m, i, x) {
        assert x in before <==> exists m :: 0 <= m < n && Claims(vf, rank, k, m, i, x);
        assert x in before && before == [k] ==> x == k;
        assert x in parent <==> Claims(vf, rank, k, n, i, x);
      }
    }
  }

  lemma TouchesIsMatched(vf: VersionedFile, k: Key, i: int)
    requires k in vf
    ensures (exists m :: 0 <= m < |vf[k].parents| && Touches(vf, k, m, i)) <==> exists p, j :: Matched(vf, k, i, p, j)
  {
    hide MatchingBlocks;
    if m :| 0 <= m < |vf[k].parents| && Touches(vf, k, m, i) {
      var p := vf[k].parents[m];
      var blocks := MatchingBlocks(vf[p].lines, vf[k].lines);
      var t :| 0 <= t < |blocks| && Holds(blocks[t], i);
      assert blocks[t] in blocks;
      assert Matched(vf, k, i, p, blocks[t].a + (i - blocks[t].b));
    }
    if p, j :| Matched(vf, k, i, p, j) {
      var m :| 0 <= m < |vf[k].parents| && vf[k].parents[m] == p;
      var blocks := MatchingBlocks(vf[p].lines, vf[k].lines);
      var block :| block in blocks && block.b <= i < block.b + block.len;
      var t :| 0 <= t < |blocks| && blocks[t] == block;
      assert Holds(blocks[t], i);
      assert Touches(vf, k, m, i);
    }
  }

  ghost predicate NamedAt(vf: VersionedFile, rank: map<Key, nat>, p: Key, j: int, x: Key) {
    0 <= j < |Annotated(vf, rank, p)| && x in Annotated(vf, rank, p)[j]
  }

  lemma ClaimsIsMatched(vf: VersionedFile, rank: map<Key, nat>, k: Key, i: int, x: Key)
    requires k in vf
    ensures (exists m :: 0 <= m < |vf[k].parents| && Claims(vf, rank, k, m, i, x)) <==>
              exists p, j :: Matched(vf, k, i, p, j) && NamedAt(vf, rank, p, j, x)
  {
    hide MatchingBlocks, Annotated;
    if m :| 0 <= m < |vf[k].parents| && Claims(vf, rank, k, m, i, x) {
      var p := vf[k].parents[m];
      var blocks := MatchingBlocks(vf[p].lines, vf[k].lines);
      var t :| NamedBy(vf, rank, k, p, t, i, x);
      assert blocks[t] in blocks;
      assert Matched(vf, k, i, p, blocks[t].a + (i - blocks[t].b));
      assert NamedAt(vf, rank, p, blocks[t].a + (i - blocks[t].b), x);
    }
    if p, j :| Matched(vf, k, i, p, j) && NamedAt(vf, rank, p, j, x) {
      var m :| 0 <= m < |vf[k].parents| && vf[k].parents[m] == p;
      var blocks := MatchingBlocks(vf[p].lines, vf[k].lines);
      var block :| block in blocks && block.b <= i < block.b + block.len && j == block.a + (i - block.b);
      var t :| 0 <= t < |blocks| && blocks[t] == block;
      assert NamedBy(vf, rank, k, p, t, i, x);
      assert Claims(vf, rank, k, m, i, x);
    }
  }

  /** One text: a name is that of a parent for the line matched there, or the text's own if no parent has the line. */
  lemma NamesOfLine(vf: VersionedFile, rank: map<Key, nat>, k: Key, i: nat, x: Key)
    requires Ranks(vf, rank) && k in rank && k in vf && i < |vf[k].lines|
    ensures |Annotated(vf, rank, k)| == |vf[k].lines|
    ensures x in Annotated(vf, rank, k)[i] <==>
      (exists p, j :: Matched(vf, k, i, p, j) && NamedAt(vf, rank, p, j, x)) || (x == k && IsNew(vf, Place(k, i)))
  {
    hide Matched, Claims, Touches, NamedAt;
    var n := |vf[k].parents|;
    NamedAfter(vf, rank, k, n, i);
    TouchesIsMatched(vf, k, i);
    ClaimsIsMatched(vf, rank, k, i, x);
    if x == k {
      OwnNameIsNotInherited(vf, rank, k, i);
    }
  }

  lemma OwnNameIsNotInherited(vf: VersionedFile, rank: map<Key, nat>, k: Key, i: nat)
    requires Ranks(vf, rank) && k in rank && k in vf
    ensures forall p, j :: Matched(vf, k, i, p, j) ==> !NamedAt(vf, rank, p, j, k)
  {
    hide Annotated;
    forall p, j | Matched(vf, k, i, p, j) ensures !NamedAt(vf, rank, p, j, k) {
      MatchedIsInside(vf, k, i, p, j);
      NamesAreLower(vf, rank, k, p, j);
    }
  }

  lemma MatchedIsInside(vf: VersionedFile, k: Key, i: int, p: Key, j: int)
    requires Matched(vf, k, i, p, j)
    ensures 0 <= i < |vf[k].lines| && 0 <= j < |vf[p].lines| && vf[p].lines[j] == vf[k].lines[i]
  {
    hide MatchingBlocks;
    MatchingBlocksAreValid(vf[p].lines, vf[k].lines);
    var blocks := MatchingBlocks(vf[p].lines, vf[k].lines);
    var block :| block in blocks && block.b <= i < block.b + block.len && j == block.a + (i - block.b);
    var t :| 0 <= t < |blocks| && blocks[t] == block;
    SameLineAt(vf[p].lines, vf[k].lines, blocks[t], i);
  }

  /** Whatever its ancestry: a line is annotated with exactly the revisions in which following it back can end. */
  lemma {:induction false} OriginsAreExact(vf: VersionedFile, rank: map<Key, nat>, k: Key, i: nat, x: Key)
    requires Ranks(vf, rank) && k in rank && k in vf && i < |vf[k].lines|
    ensures |Annotated(vf, rank, k)| == |vf[k].lines|
    ensures x in Annotated(vf, rank, k)[i] <==> ComesFrom(vf, k, i, x)
    decreases rank[k]
  {
    hide Annotated, Matched, IsNew, ComesFrom;
    NamesOfLine(vf, rank, k, i, x);
    ComesFromUnfolds(vf, k, i, x);
    forall p, j | Matched(vf, k, i, p, j) ensures NamedAt(vf, rank, p, j, x) <==> ComesFrom(vf, p, j, x) {
      MatchedIsInside(vf, k, i, p, j);
      MatchedIsRanked(vf, rank, k, i, p, j);
      OriginsAreExact(vf, rank, p, j, x);
    }
  }

  lemma MatchedIsRanked(vf: VersionedFile, rank: map<Key, nat>, k: Key, i: int, p: Key, j: int)
    requires Ranks(vf, rank) && k in rank && Matched(vf, k, i, p, j)
    ensures k in vf && p in vf && p in rank && rank[p] < rank[k]
  {
  }
}
