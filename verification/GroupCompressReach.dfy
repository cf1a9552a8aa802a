/** How far copy instructions reach: which shapes of a source and its blocks are always copied right, and a
    delta that rebuilds the wrong text. */
module GroupCompressReach {
  import opened Basics
  import opened GroupCompressCodec
  import opened GroupCompressDelta
  import opened GroupCompressIndex

  // ---------------------------------------------------------------------------
  // Texts with lines of the same lengths
  // ---------------------------------------------------------------------------

  ghost predicate SameShape(x: seq<Bytes>, y: seq<Bytes>) {
    |x| == |y| && forall i :: 0 <= i < |x| ==> |x[i]| == |y[i]|
  }

  lemma {:induction false} ShapeLength(x: seq<Bytes>, y: seq<Bytes>)
    requires SameShape(x, y)
    ensures |Join(x)| == |Join(y)|
  {
    if x != [] { ShapeLength(x[1..], y[1..]); }
  }

  lemma ShapeOffsets(x: seq<Bytes>, y: seq<Bytes>, k: nat)
    requires SameShape(x, y) && k <= |x|
    ensures ByteOf(x, k) == ByteOf(y, k)
  {
    ShapeLength(x[..k], y[..k]);
  }

  lemma ShapeInReach(x: seq<Bytes>, y: seq<Bytes>, blocks: seq<CopyBlock>)
    requires SameShape(x, y) && CopiesInReach(x, blocks)
    ensures CopiesInReach(y, blocks)
  {
    hide ByteOf, InReach, SameShape;
    SameCount(x, y);
    forall k | 0 <= k < |blocks| && blocks[k].oldStart + blocks[k].length <= |y|
      ensures InReach(ByteOf(y, blocks[k].oldStart), ByteOf(y, blocks[k].oldStart + blocks[k].length))
    {
      ShapeOffsets(x, y, blocks[k].oldStart);
      ShapeOffsets(x, y, blocks[k].oldStart + blocks[k].length);
    }
  }

  lemma SameCount(x: seq<Bytes>, y: seq<Bytes>)
    requires SameShape(x, y)
    ensures |x| == |y|
  {
  }

  /** Bytes cut into lines as long as those given. */
  ghost function CutLike(shape: seq<Bytes>, text: Bytes): (lines: seq<Bytes>)
    requires |text| == |Join(shape)|
    ensures SameShape(lines, shape) && Join(lines) == text
  {
    if shape == [] then []
    else [text[..|shape[0]|]] + CutLike(shape[1..], text[|shape[0]|..])
  }

  /** The new lines that the blocks copy, replaced by their source lines. */
  ghost function Follow(source: seq<Bytes>, target: seq<Bytes>, blocks: seq<CopyBlock>, cur: nat): seq<Bytes>
    requires cur <= |target|
  {
    if blocks == [] || !(cur <= blocks[0].newStart && blocks[0].newStart + blocks[0].length <= |target|)
       || blocks[0].oldStart + blocks[0].length > |source| then target[cur..]
    else
      var b := blocks[0];
      target[cur..b.newStart] + source[b.oldStart..b.oldStart + b.length] + Follow(source, target, blocks[1..], b.newStart + b.length)
  }

  /** Blocks that fit one source of this shape fit every source of it, for a target made to fit. */
  lemma {:induction false} FollowFits(source: seq<Bytes>, other: seq<Bytes>, target: seq<Bytes>, blocks: seq<CopyBlock>, cur: nat, before: seq<Bytes>)
    requires |source| == |other| && cur <= |target| == |before| + |Follow(other, target, blocks, cur)| && cur == |before|
    requires GoodBlocks(source, target, blocks, cur)
    ensures GoodBlocks(other, before + Follow(other, target, blocks, cur), blocks, cur)
    decreases |blocks|
  {
    var b := blocks[0];
    var next, made := b.newStart + b.length, before + Follow(other, target, blocks, cur);
    var first := target[cur..b.newStart] + other[b.oldStart..b.oldStart + b.length];
    var rest := Follow(other, target, blocks[1..], next);
    assert made == before + first + rest && |before + first| == next;
    assert made[b.newStart..next] == other[b.oldStart..b.oldStart + b.length];
    if |blocks| > 1 {
      FollowFits(source, other, target, blocks[1..], next, before + first);
    }
  }

  lemma {:induction false} FollowLength(source: seq<Bytes>, other: seq<Bytes>, target: seq<Bytes>, blocks: seq<CopyBlock>, cur: nat)
    requires |source| == |other| && cur <= |target| && GoodBlocks(source, target, blocks, cur)
    ensures |Follow(other, target, blocks, cur)| == |target| - cur
    decreases |blocks|
  {
    var b := blocks[0];
    if |blocks| > 1 {
      FollowLength(source, other, target, blocks[1..], b.newStart + b.length);
    }
  }

  /** If some block is out of reach, a source of the same shape is copied wrong. */
  lemma OutOfReachIsWrong(source: seq<Bytes>, target: seq<Bytes>, blocks: seq<CopyBlock>)
      returns (other: seq<Bytes>, made: seq<Bytes>)
    requires GoodBlocks(source, target, blocks, 0) && !CopiesInReach(source, blocks)
    ensures SameShape(other, source) && GoodBlocks(other, made, blocks, 0) && Rebuilt(other, made, blocks, 0) != Join(made)
  {
    hide Join, ByteOf, Fetched, InReach, SameShape, GoodBlocks, Follow, CopiedRight, Rebuilt;
    var k :| 0 <= k < |blocks| && blocks[k].oldStart + blocks[k].length <= |source|
             && !InReach(ByteOf(source, blocks[k].oldStart), ByteOf(source, blocks[k].oldStart + blocks[k].length));
    var b := blocks[k];
    var first, last := ByteOf(source, b.oldStart), ByteOf(source, b.oldStart + b.length);
    BytesOfLines(source, b.oldStart, b.length);
    NotInReach(first, last);
    var text := Marker(|Join(source)|, LastStart(first, last));
    other := CutLike(source, text);
    SameCount(other, source);
    ShapeOffsets(other, source, b.oldStart);
    ShapeOffsets(other, source, b.oldStart + b.length);
    MarkerIsMissed(first, last, |Join(source)|);
    CopiedWrong(other, b, first, last);
    FollowLength(source, other, target, blocks, 0);
    FollowFits(source, other, target, blocks, 0, []);
    made := [] + Follow(other, target, blocks, 0);
    RebuiltIsTarget(other, made, blocks, 0);
    assert made[0..] == made;
  }

  lemma NotInReach(start: nat, end: nat)
    requires !InReach(start, end)
    ensures start < end
  {
  }

  lemma CopiedWrong(source: seq<Bytes>, b: CopyBlock, first: nat, last: nat)
    requires b.oldStart + b.length <= |source| && first <= last <= |Join(source)|
    requires first == ByteOf(source, b.oldStart) && last == ByteOf(source, b.oldStart + b.length)
    requires Fetched(Join(source), first, last) != Join(source)[first..last]
    ensures !CopiedRight(source, b)
  {
    hide Join, ByteOf, Fetched;
  }

  /** The exact condition: with these line lengths and blocks every text is rebuilt, if and only if every
      copy instruction has an offset below 2^32. */
  lemma ReachIsExact(source: seq<Bytes>, target: seq<Bytes>, blocks: seq<CopyBlock>)
    requires GoodBlocks(source, target, blocks, 0)
    ensures CopiesInReach(source, blocks) <==>
            forall other, made :: SameShape(other, source) && GoodBlocks(other, made, blocks, 0) ==>
              Rebuilt(other, made, blocks, 0) == Join(made)
  {
    hide Join, SameShape, GoodBlocks, Rebuilt, CopiesInReach, AllCopiedRight;
    if CopiesInReach(source, blocks) {
      forall other, made | SameShape(other, source) && GoodBlocks(other, made, blocks, 0)
        ensures Rebuilt(other, made, blocks, 0) == Join(made)
      {
        ShapeTurned(other, source);
        ShapeInReach(source, other, blocks);
        InReachIsRight(other, blocks);
        RebuiltIsTarget(other, made, blocks, 0);
        assert made[0..] == made;
      }
    } else {
      var other, made := OutOfReachIsWrong(source, target, blocks);
    }
  }

  lemma ShapeTurned(x: seq<Bytes>, y: seq<Bytes>)
    requires SameShape(x, y)
    ensures SameShape(y, x)
  {
  }

  // ---------------------------------------------------------------------------
  // A wrong delta
  // ---------------------------------------------------------------------------

  /** Of a source of two lines, the first of 2^32 bytes, the matcher takes the second for a new line like it. */
  lemma SecondLineIsTaken(x: Bytes, y: Bytes, blocks: seq<CopyBlock>)
    requires x != y && |y| >= 10
    requires GoodBlocks([x, y], [y], blocks, 0) && Greedy([x, y], {0, 1}, [y], 10, blocks, 1)
    ensures blocks == [CopyBlock(1, 0, 1), CopyBlock(2, 1, 0)]
  {
    hide Join, GoodBlocks, Taken, Passed, WorthCopying;
    var source, target := [x, y], [y];
    MustBeTaken(x, y, blocks);
    var k :| 0 <= k < |blocks| && InBlock(blocks[k], 0);
    TakenForOne(source, {0, 1}, y, blocks[k]);
    FirstBlocks(source, target, blocks, k);
  }

  lemma TakenForOne(source: seq<Bytes>, indexed: set<nat>, y: Bytes, b: CopyBlock)
    requires Taken(source, indexed, [y], b) && InBlock(b, 0)
    ensures b.newStart == 0 && b.length == 1 && b.oldStart < |source| && source[b.oldStart] == y
  {
    hide NoRunOf;
    assert b.newStart == 0 && b.length == 1;
    RunIsEqual(source, indexed, [y], 0, 1, b.oldStart);
    assert source[b.oldStart..b.oldStart + 1][0] == [y][0..1][0];
  }

  lemma MustBeTaken(x: Bytes, y: Bytes, blocks: seq<CopyBlock>)
    requires |y| >= 10 && Greedy([x, y], {0, 1}, [y], 10, blocks, 1)
    ensures exists k :: 0 <= k < |blocks| && InBlock(blocks[k], 0)
  {
    var source, target := [x, y], [y];
    RunStarts(source, {0, 1}, target, 0, 1);
    assert RunEndsAt(source, {0, 1}, target, 0, 1, 1);
    forall b | InBlock(b, 0) && Taken(source, {0, 1}, target, b) ensures WorthCopying(target, b, 10) {
      LineIsWorth(y, b);
    }
    assert !Passed(source, {0, 1}, target, 10, 0);
  }

  lemma LineIsWorth(y: Bytes, b: CopyBlock)
    requires |y| >= 10 && InBlock(b, 0) && b.newStart + b.length <= 1
    ensures WorthCopying([y], b, 10)
  {
    assert [y][0..1] == [y];
    JoinSingle(y);
  }

  lemma {:induction false} BlocksAre(source: seq<Bytes>, target: seq<Bytes>, blocks: seq<CopyBlock>, cur: nat)
    requires GoodBlocks(source, target, blocks, cur)
    ensures blocks[|blocks| - 1] == CopyBlock(|source|, |target|, 0)
    ensures forall k :: 0 <= k < |blocks| - 1 ==>
              blocks[k].length > 0 && cur <= blocks[k].newStart && blocks[k].newStart + blocks[k].length <= blocks[k + 1].newStart
    ensures forall k :: 0 <= k < |blocks| ==> blocks[k].newStart + blocks[k].length <= |target|
    decreases |blocks|
  {
    if |blocks| > 1 {
      BlocksAre(source, target, blocks[1..], blocks[0].newStart + blocks[0].length);
    }
  }

  /** Each block but the last takes a line at least. */
  lemma {:induction false} FewBlocks(source: seq<Bytes>, target: seq<Bytes>, blocks: seq<CopyBlock>, cur: nat)
    requires GoodBlocks(source, target, blocks, cur)
    ensures cur + |blocks| - 1 <= |target|
    decreases |blocks|
  {
    if |blocks| > 1 {
      FewBlocks(source, target, blocks[1..], blocks[0].newStart + blocks[0].length);
    }
  }

  lemma FirstBlocks(source: seq<Bytes>, target: seq<Bytes>, blocks: seq<CopyBlock>, k: nat)
    requires GoodBlocks(source, target, blocks, 0) && |target| == 1 && k < |blocks| && blocks[k].newStart == 0 && blocks[k].length == 1
    ensures k == 0 && blocks == [blocks[0], CopyBlock(|source|, |target|, 0)]
  {
    hide GoodBlocks;
    BlocksAre(source, target, blocks, 0);
    assert k < |blocks| - 1;
    FewBlocks(source, target, blocks, 0);
  }

  lemma TwoLines(x: Bytes, y: Bytes)
    ensures Join([x, y]) == x + y && ByteOf([x, y], 1) == |x| && ByteOf([x, y], 2) == |x| + |y|
  {
    JoinSingle(x);
    JoinOne([x], y);
    assert [x, y] == [x] + [y] && [x, y][..1] == [x] && [x, y][..2] == [x, y];
  }

  lemma WholePrefix(x: Bytes)
    ensures x[..|x|] == x
  {
  }

  lemma TwoBlocks(x: Bytes, y: Bytes, blocks: seq<CopyBlock>)
    requires blocks == [CopyBlock(1, 0, 1), CopyBlock(2, 1, 0)] && |x| == OFFSETS && |y| <= OFFSETS
    ensures GoodBlocks([x, y], [y], blocks, 0) && !EmptyInsert([y], blocks, 0)
    ensures Rebuilt([x, y], [y], blocks, 0) == x[..|y|]
  {
    hide Join, Fetched, ByteOf;
    var source, target := [x, y], [y];
    assert blocks[1..] == [CopyBlock(2, 1, 0)] && blocks[1..][1..] == [];
    assert source[1..2] == target[0..1] == [y] && source[2..2] == target[1..1] == target[0..0] == [];
    JoinNothing();
    TwoLines(x, y);
    FetchedWraps(x + y, 0, |y|);
    FetchedNothing(x + y, |x + y|);
    assert (x + y)[0..|y|] == x[..|y|];
    assert Rebuilt(source, target, blocks[1..], 1) == [];
    assert !EmptyGroup([], []);
    assert !EmptyInsert(target, blocks[1..], 1);
  }

  /** Then the delta is accepted and gives the start of the first line instead of the new line. */
  lemma WrongText(x: Bytes, y: Bytes, blocks: seq<CopyBlock>, delta: Bytes)
    requires |x| == OFFSETS && 10 <= |y| <= OFFSETS && x[..|y|] != y
    requires GoodBlocks([x, y], [y], blocks, 0) && Greedy([x, y], {0, 1}, [y], 10, blocks, 1)
    requires delta == Base128(|Join([y])|) + Raw(BlocksOut([x, y], [y], blocks, 0, 10))
    ensures Join([x, y]) == x + y && Join([y]) == y
    ensures Apply(x + y, delta) == Ok(x[..|y|]) != Ok(y)
  {
    hide Join, GoodBlocks, Greedy, BlocksOut, Raw, Base128, Rebuilt, EmptyInsert, Apply, AllCopiedRight, CopiesInReach;
    WholePrefix(x);
    SecondLineIsTaken(x, y, blocks);
    TwoBlocks(x, y, blocks);
    TwoLines(x, y);
    JoinSingle(y);
    DeltaOutcome([x, y], [y], blocks, |Join([y])|, delta);
  }
}
