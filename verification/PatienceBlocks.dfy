/** Matching blocks and edit scripts.

    Collapse joins matched lines into blocks, one line at a time, as both implementations
    do.  Opcodes turns matching blocks into an edit script; the script is given a meaning
    of its own, RunScript, and shown to rebuild the second text from the first. */
module PatienceBlocks {
  import opened PatienceLcs
  import opened PatienceMatches

  // ---------------------------------------------------------------------------
  // Joining matched lines
  // ---------------------------------------------------------------------------

  function AddLine(blocks: seq<Block>, p: Pair): seq<Block> {
    var n := |blocks| - 1;
    if n >= 0 && p.a == blocks[n].a + blocks[n].len && p.b == blocks[n].b + blocks[n].len then
      blocks[n := Block(blocks[n].a, blocks[n].b, blocks[n].len + 1)]
    else
      blocks + [Block(p.a, p.b, 1)]
  }

  ghost function Collapse(ps: seq<Pair>): seq<Block> {
    if ps == [] then [] else AddLine(Collapse(ps[..|ps| - 1]), ps[|ps| - 1])
  }

  /** The matched lines that a list of blocks stands for. */
  ghost function Expand(blocks: seq<Block>): seq<Pair>
    requires forall k :: 0 <= k < |blocks| ==> blocks[k].len >= 0
  {
    if blocks == [] then []
    else
      var last := blocks[|blocks| - 1];
      Expand(blocks[..|blocks| - 1]) + Run(last.a, last.b, last.len)
  }

  lemma CollapseMore(ps: seq<Pair>, p: Pair)
    ensures Collapse(ps + [p]) == AddLine(Collapse(ps), p)
  {
    assert (ps + [p])[..|ps|] == ps;
  }

  ghost predicate Touch(p: Block, q: Block) {
    q.a == p.a + p.len && q.b == p.b + p.len
  }

  /** Blocks are non-empty, no two neighbours can be joined, and there are never more of them than lines. */
  lemma {:induction false} CollapseIsMaximal(ps: seq<Pair>)
    ensures forall k :: 0 <= k < |Collapse(ps)| ==> Collapse(ps)[k].len >= 1
    ensures forall k :: 0 < k < |Collapse(ps)| ==> !Touch(Collapse(ps)[k - 1], Collapse(ps)[k])
    ensures |Collapse(ps)| <= |ps|
  {
    if ps != [] {
      CollapseIsMaximal(ps[..|ps| - 1]);
    }
  }

  /** Together the blocks stand for exactly the matched lines. */
  lemma {:induction false} CollapseIsExact(ps: seq<Pair>)
    ensures (CollapseIsMaximal(ps); Expand(Collapse(ps)) == ps)
  {
    hide AddLine, Expand, Run, Collapse, Touch;
    CollapseIsMaximal(ps);
    if ps == [] {
      NoBlocksExpand();
    } else {
      var init, last := ps[..|ps| - 1], ps[|ps| - 1];
      assert ps == init + [last];
      CollapseIsMaximal(init);
      CollapseIsExact(init);
      CollapseMore(init, last);
      AddLineExpands(Collapse(init), last);
    }
  }

  lemma NoBlocksExpand()
    ensures Collapse([]) == [] && Expand([]) == []
  {
  }

  lemma AddLineExpands(blocks: seq<Block>, p: Pair)
    requires forall k :: 0 <= k < |blocks| ==> blocks[k].len >= 0
    ensures forall k :: 0 <= k < |AddLine(blocks, p)| ==> AddLine(blocks, p)[k].len >= 0
    ensures Expand(AddLine(blocks, p)) == Expand(blocks) + [p]
  {
    var n, after := |blocks| - 1, AddLine(blocks, p);
    if |after| == |blocks| {
      assert after[..n] == blocks[..n];
      assert Run(after[n].a, after[n].b, after[n].len) == Run(blocks[n].a, blocks[n].b, blocks[n].len) + [p];
    } else {
      assert after[..|blocks|] == blocks;
      assert Run(p.a, p.b, 1) == [p];
    }
  }

  // ---------------------------------------------------------------------------
  // Blocks of equal text in increasing order
  // ---------------------------------------------------------------------------

  ghost predicate BlocksMatch<T>(a: seq<T>, b: seq<T>, blocks: seq<Block>) {
    && (forall k :: 0 <= k < |blocks| ==> SameLines(a, b, blocks[k].a, blocks[k].b, blocks[k].len))
    && forall k, m :: 0 <= k < m < |blocks| ==>
         blocks[k].a + blocks[k].len <= blocks[m].a && blocks[k].b + blocks[k].len <= blocks[m].b
  }

  /** Every block ends at or before the given positions. */
  ghost predicate EndBy(blocks: seq<Block>, i: int, j: int) {
    forall k :: 0 <= k < |blocks| ==> blocks[k].a + blocks[k].len <= i && blocks[k].b + blocks[k].len <= j
  }

  lemma AddLineMatches<T>(a: seq<T>, b: seq<T>, blocks: seq<Block>, p: Pair)
    requires BlocksMatch(a, b, blocks) && EndBy(blocks, p.a, p.b)
    requires 0 <= p.a < |a| && 0 <= p.b < |b| && a[p.a] == b[p.b]
    ensures BlocksMatch(a, b, AddLine(blocks, p)) && EndBy(AddLine(blocks, p), p.a + 1, p.b + 1)
  {
    var n, after := |blocks| - 1, AddLine(blocks, p);
    if |after| == |blocks| {
      assert SameLines(a, b, blocks[n].a, blocks[n].b, blocks[n].len);
      assert SameLines(a, b, blocks[n].a, blocks[n].b, blocks[n].len + 1);
    } else {
      assert SameLines(a, b, p.a, p.b, 1);
    }
  }

  lemma {:induction false} CollapseMatches<T>(a: seq<T>, b: seq<T>, ps: seq<Pair>)
    requires CommonSubsequence(a, b, 0, 0, |a|, |b|, ps)
    ensures BlocksMatch(a, b, Collapse(ps))
    ensures if ps == [] then Collapse(ps) == [] else EndBy(Collapse(ps), ps[|ps| - 1].a + 1, ps[|ps| - 1].b + 1)
  {
    if ps != [] {
      var init, p := ps[..|ps| - 1], ps[|ps| - 1];
      CollapseMatches(a, b, init);
      assert init != [] ==> init[|init| - 1].a < p.a && init[|init| - 1].b < p.b;
      AddLineMatches(a, b, Collapse(init), p);
    }
  }

  /** What get_matching_blocks returns: the blocks of the matches at recursion limit 10 and
      the closing empty block. */
  ghost function MatchingBlocks<T>(a: seq<T>, b: seq<T>): seq<Block> {
    Collapse(Matches(a, b, 0, 0, |a|, |b|, 10)) + [Block(|a|, |b|, 0)]
  }

  lemma {:induction false} CollapseRun(n: nat)
    ensures Collapse(Run(0, 0, n)) == if n == 0 then [] else [Block(0, 0, n)]
  {
    if n > 0 {
      CollapseRun(n - 1);
      CollapseMore(Run(0, 0, n - 1), Pair(n - 1, n - 1));
    }
  }

  /** With the recursion limit that is used, every text of n lines is one block of itself, if and only if n is at most 22. */
  lemma SelfBlocks(n: nat)
    ensures n <= 22 <==> forall s: seq<int> :: |s| == n ==>
              MatchingBlocks(s, s) == (if n == 0 then [] else [Block(0, 0, n)]) + [Block(n, n, 0)]
  {
    hide Matches, Collapse, Run;
    SelfMatchThreshold(10, n);
    CollapseRun(n);
    forall s: seq<int> | |s| == n
      ensures Matches(s, s, 0, 0, n, n, 10) == Run(0, 0, n) <==>
              MatchingBlocks(s, s) == (if n == 0 then [] else [Block(0, 0, n)]) + [Block(n, n, 0)]
    {
      SameBlocks(Matches(s, s, 0, 0, n, n, 10), n);
      assert MatchingBlocks(s, s)[..|MatchingBlocks(s, s)| - 1] == Collapse(Matches(s, s, 0, 0, n, n, 10));
    }
  }

  lemma SameBlocks(ps: seq<Pair>, n: nat)
    ensures ps == Run(0, 0, n) <==> Collapse(ps) == if n == 0 then [] else [Block(0, 0, n)]
  {
    hide Collapse, Expand, Run;
    CollapseRun(n);
    CollapseIsExact(ps);
    CollapseIsMaximal(ps);
    CollapseIsExact(Run(0, 0, n));
  }

  ghost predicate IsBlockList<T>(a: seq<T>, b: seq<T>, blocks: seq<Block>) {
    && BlocksMatch(a, b, blocks)
    && |blocks| > 0 && blocks[|blocks| - 1] == Block(|a|, |b|, 0)
    && forall k :: 0 <= k < |blocks| - 1 ==> blocks[k].len > 0
  }

  lemma MatchingBlocksAreValid<T>(a: seq<T>, b: seq<T>)
    ensures IsBlockList(a, b, MatchingBlocks(a, b))
  {
    var ps := Matches(a, b, 0, 0, |a|, |b|, 10);
    MatchesAreCommon(a, b, 0, 0, |a|, |b|, 10);
    hide Matches, CommonSubsequence, Expand, BlocksMatch;
    CollapseMatches(a, b, ps);
    CollapseIsMaximal(ps);
    hide Collapse;
    if ps != [] { assert 0 <= ps[|ps| - 1].a < |a| && 0 <= ps[|ps| - 1].b < |b| by { LastInBox(a, b, ps); } }
    CloseBlocks(a, b, Collapse(ps));
  }

  lemma LastInBox<T>(a: seq<T>, b: seq<T>, ps: seq<Pair>)
    requires CommonSubsequence(a, b, 0, 0, |a|, |b|, ps) && ps != []
    ensures 0 <= ps[|ps| - 1].a < |a| && 0 <= ps[|ps| - 1].b < |b|
  {
  }

  lemma CloseBlocks<T>(a: seq<T>, b: seq<T>, blocks: seq<Block>)
    requires BlocksMatch(a, b, blocks) && EndBy(blocks, |a|, |b|)
    ensures BlocksMatch(a, b, blocks + [Block(|a|, |b|, 0)])
  {
  }

  // ---------------------------------------------------------------------------
  // Edit scripts
  // ---------------------------------------------------------------------------

  datatype Tag = Equal | Insert | Delete | Replace

  datatype Opcode = Opcode(tag: Tag, i1: int, i2: int, j1: int, j2: int)

  /** The operation for a region without matches, if the region is not empty. */
  function GapOpcode(i: int, ai: int, j: int, bj: int): seq<Opcode> {
    if i < ai && j < bj then [Opcode(Replace, i, ai, j, bj)]
    else if i < ai then [Opcode(Delete, i, ai, j, bj)]
    else if j < bj then [Opcode(Insert, i, ai, j, bj)]
    else []
  }

  function BlockOpcodes(k: Block, i: int, j: int): seq<Opcode> {
    GapOpcode(i, k.a, j, k.b)
    + if k.len > 0 then [Opcode(Equal, k.a, k.a + k.len, k.b, k.b + k.len)] else []
  }

  /** The script of the blocks, from position i of a and j of b on. */
  ghost function Opcodes(blocks: seq<Block>, i: int, j: int): seq<Opcode> {
    if blocks == [] then []
    else
      var k := blocks[0];
      BlockOpcodes(k, i, j) + Opcodes(blocks[1..], k.a + k.len, k.b + k.len)
  }

  lemma OpcodesUnfold(blocks: seq<Block>, k: nat, i: int, j: int)
    requires k < |blocks|
    ensures Opcodes(blocks[k..], i, j)
         == BlockOpcodes(blocks[k], i, j) + Opcodes(blocks[k + 1..], blocks[k].a + blocks[k].len, blocks[k].b + blocks[k].len)
  {
    assert blocks[k..][0] == blocks[k] && blocks[k..][1..] == blocks[k + 1..];
  }

  /** Each operation is what its tag says and they tile a[i..ai] and b[j..bj]. */
  ghost predicate Tiles<T>(a: seq<T>, b: seq<T>, ops: seq<Opcode>, i: int, j: int, ai: int, bj: int) {
    if ops == [] then i == ai && j == bj
    else
      var o := ops[0];
      && o.i1 == i && o.j1 == j && 0 <= i <= o.i2 <= ai <= |a| && 0 <= j <= o.j2 <= bj <= |b|
      && (match o.tag
          case Equal => o.i1 < o.i2 && a[o.i1..o.i2] == b[o.j1..o.j2]
          case Replace => o.i1 < o.i2 && o.j1 < o.j2
          case Delete => o.i1 < o.i2 && o.j1 == o.j2
          case Insert => o.i1 == o.i2 && o.j1 < o.j2)
      && Tiles(a, b, ops[1..], o.i2, o.j2, ai, bj)
  }

  /** Running a script: keep the equal parts of a, take new text from b, drop the rest. */
  ghost function RunScript<T>(a: seq<T>, b: seq<T>, ops: seq<Opcode>): seq<T>
    requires forall k :: 0 <= k < |ops| ==> 0 <= ops[k].i1 <= ops[k].i2 <= |a| && 0 <= ops[k].j1 <= ops[k].j2 <= |b|
  {
    if ops == [] then []
    else
      var o := ops[0];
      (match o.tag
       case Equal => a[o.i1..o.i2]
       case Delete => []
       case Replace => b[o.j1..o.j2]
       case Insert => b[o.j1..o.j2])
      + RunScript(a, b, ops[1..])
  }

  lemma {:induction false} TilesInBounds<T>(a: seq<T>, b: seq<T>, ops: seq<Opcode>, i: int, j: int, ai: int, bj: int)
    requires Tiles(a, b, ops, i, j, ai, bj)
    ensures forall k :: 0 <= k < |ops| ==> 0 <= ops[k].i1 <= ops[k].i2 <= |a| && 0 <= ops[k].j1 <= ops[k].j2 <= |b|
  {
    if ops != [] {
      TilesInBounds(a, b, ops[1..], ops[0].i2, ops[0].j2, ai, bj);
      forall k | 0 <= k < |ops| ensures 0 <= ops[k].i1 <= ops[k].i2 <= |a| && 0 <= ops[k].j1 <= ops[k].j2 <= |b| {
        if k > 0 { assert ops[k] == ops[1..][k - 1]; }
      }
    }
  }

  /** Running a tiling script gives the tiled part of the second text. */
  lemma {:induction false} TilesRebuild<T>(a: seq<T>, b: seq<T>, ops: seq<Opcode>, i: int, j: int, ai: int, bj: int)
    requires 0 <= j <= bj <= |b| && Tiles(a, b, ops, i, j, ai, bj)
    ensures forall k :: 0 <= k < |ops| ==> 0 <= ops[k].i1 <= ops[k].i2 <= |a| && 0 <= ops[k].j1 <= ops[k].j2 <= |b|
    ensures RunScript(a, b, ops) == b[j..bj]
  {
    TilesInBounds(a, b, ops, i, j, ai, bj);
    if ops != [] {
      TilesRebuild(a, b, ops[1..], ops[0].i2, ops[0].j2, ai, bj);
      assert b[j..bj] == b[j..ops[0].j2] + b[ops[0].j2..bj];
    }
  }

  lemma {:induction false} TilesJoin<T>(a: seq<T>, b: seq<T>, p: seq<Opcode>, q: seq<Opcode>, i: int, j: int, am: int, bm: int, ai: int, bj: int)
    requires Tiles(a, b, p, i, j, am, bm) && Tiles(a, b, q, am, bm, ai, bj) && am <= ai <= |a| && bm <= bj <= |b|
    ensures Tiles(a, b, p + q, i, j, ai, bj)
  {
    if p == [] {
      assert p + q == q;
    } else {
      TilesJoin(a, b, p[1..], q, p[0].i2, p[0].j2, am, bm, ai, bj);
      assert (p + q)[1..] == p[1..] + q;
    }
  }

  lemma SameLinesSlices<T>(a: seq<T>, b: seq<T>, i: int, j: int, n: int)
    requires SameLines(a, b, i, j, n)
    ensures a[i..i + n] == b[j..j + n]
  {
    var p, q := a[i..i + n], b[j..j + n];
    forall k | 0 <= k < n ensures p[k] == q[k] {
      assert a[i + k] == b[i + k - i + j];
    }
  }

  lemma BlockTiles<T>(a: seq<T>, b: seq<T>, k: Block, i: int, j: int)
    requires 0 <= i <= k.a && 0 <= j <= k.b && k.len >= 0 && SameLines(a, b, k.a, k.b, k.len)
    ensures Tiles(a, b, BlockOpcodes(k, i, j), i, j, k.a + k.len, k.b + k.len)
  {
    SameLinesSlices(a, b, k.a, k.b, k.len);
    var gap := GapOpcode(i, k.a, j, k.b);
    var equal := if k.len > 0 then [Opcode(Equal, k.a, k.a + k.len, k.b, k.b + k.len)] else [];
    assert gap != [] ==> gap[1..] == [];
    assert Tiles(a, b, gap, i, j, k.a, k.b);
    assert equal != [] ==> equal[1..] == [];
    assert Tiles(a, b, equal, k.a, k.b, k.a + k.len, k.b + k.len);
    TilesJoin(a, b, gap, equal, i, j, k.a, k.b, k.a + k.len, k.b + k.len);
  }

  /** The blocks that are taken over as they are. */
  ghost function EqualBlocks(ops: seq<Opcode>): seq<Block> {
    if ops == [] then []
    else (if ops[0].tag.Equal? then [Block(ops[0].i1, ops[0].j1, ops[0].i2 - ops[0].i1)] else []) + EqualBlocks(ops[1..])
  }

  /** Between two of them there is one operation at most. */
  ghost predicate OneForEachGap(ops: seq<Opcode>) {
    forall k :: 0 < k < |ops| ==> ops[k - 1].tag.Equal? || ops[k].tag.Equal?
  }

  lemma {:induction false} EqualBlocksJoin(p: seq<Opcode>, q: seq<Opcode>)
    ensures EqualBlocks(p + q) == EqualBlocks(p) + EqualBlocks(q)
  {
    hide EqualBlocks;
    if p == [] {
      assert p + q == q;
      NoEqualBlocks();
    } else {
      EqualBlocksJoin(p[1..], q);
      assert (p + q)[1..] == p[1..] + q;
      EqualBlocksUnfold(p);
      EqualBlocksUnfold(p + q);
    }
  }

  lemma NoEqualBlocks()
    ensures EqualBlocks([]) == []
  {
  }

  lemma EqualBlocksUnfold(ops: seq<Opcode>)
    requires ops != []
    ensures EqualBlocks(ops) ==
      (if ops[0].tag.Equal? then [Block(ops[0].i1, ops[0].j1, ops[0].i2 - ops[0].i1)] else []) + EqualBlocks(ops[1..])
  {
  }

  lemma BlockOpcodesOf(k: Block, i: int, j: int)
    requires k.len >= 0
    ensures OneForEachGap(BlockOpcodes(k, i, j))
    ensures k.len > 0 ==> BlockOpcodes(k, i, j) != [] && BlockOpcodes(k, i, j)[|BlockOpcodes(k, i, j)| - 1].tag.Equal?
    ensures EqualBlocks(BlockOpcodes(k, i, j)) == if k.len > 0 then [k] else []
  {
    var gap, same := GapOpcode(i, k.a, j, k.b), if k.len > 0 then [Opcode(Equal, k.a, k.a + k.len, k.b, k.b + k.len)] else [];
    EqualBlocksJoin(gap, same);
    assert gap != [] ==> gap[1..] == [];
    assert same != [] ==> same[1..] == [];
  }

  /** The script takes over exactly the blocks, and each gap between them is one operation. */
  lemma {:induction false} OpcodesAreBlocks<T>(a: seq<T>, b: seq<T>, blocks: seq<Block>, i: int, j: int)
    requires IsBlockList(a, b, blocks) && 0 <= i <= blocks[0].a && 0 <= j <= blocks[0].b
    ensures EqualBlocks(Opcodes(blocks, i, j)) == blocks[..|blocks| - 1]
    ensures OneForEachGap(Opcodes(blocks, i, j))
  {
    hide BlockOpcodes, EqualBlocks;
    var k := blocks[0];
    var rest := Opcodes(blocks[1..], k.a + k.len, k.b + k.len);
    BlockOpcodesOf(k, i, j);
    EqualBlocksJoin(BlockOpcodes(k, i, j), rest);
    if |blocks| > 1 {
      RestIsBlockList(a, b, blocks);
      OpcodesAreBlocks(a, b, blocks[1..], k.a + k.len, k.b + k.len);
      assert blocks[..|blocks| - 1] == [k] + blocks[1..][..|blocks| - 2];
    } else {
      assert Opcodes(blocks, i, j) == BlockOpcodes(k, i, j);
      assert rest == [];
    }
  }

  lemma {:induction false} OpcodesTile<T>(a: seq<T>, b: seq<T>, blocks: seq<Block>, i: int, j: int)
    requires IsBlockList(a, b, blocks) && 0 <= i <= blocks[0].a && 0 <= j <= blocks[0].b
    ensures Tiles(a, b, Opcodes(blocks, i, j), i, j, |a|, |b|)
  {
    hide Tiles, BlockOpcodes;
    var k := blocks[0];
    BlockTiles(a, b, k, i, j);
    if |blocks| > 1 {
      RestIsBlockList(a, b, blocks);
      OpcodesTile(a, b, blocks[1..], k.a + k.len, k.b + k.len);
      TilesJoin(a, b, BlockOpcodes(k, i, j), Opcodes(blocks[1..], k.a + k.len, k.b + k.len),
                i, j, k.a + k.len, k.b + k.len, |a|, |b|);
    } else {
      assert Opcodes(blocks, i, j) == BlockOpcodes(k, i, j);
    }
  }

  lemma RestIsBlockList<T>(a: seq<T>, b: seq<T>, blocks: seq<Block>)
    requires IsBlockList(a, b, blocks) && |blocks| > 1
    ensures IsBlockList(a, b, blocks[1..])
    ensures blocks[0].a + blocks[0].len <= blocks[1].a && blocks[0].b + blocks[0].len <= blocks[1].b
    ensures 0 <= blocks[0].a && 0 <= blocks[0].b && 0 < blocks[0].len
    ensures blocks[0].a + blocks[0].len <= |a| && blocks[0].b + blocks[0].len <= |b|
  {
  }

  /** The script of the matching blocks tiles both texts and rebuilds the second. */
  lemma ScriptRebuildsSecond<T>(a: seq<T>, b: seq<T>)
    ensures var ops := Opcodes(MatchingBlocks(a, b), 0, 0);
            && Tiles(a, b, ops, 0, 0, |a|, |b|)
            && (forall k :: 0 <= k < |ops| ==> 0 <= ops[k].i1 <= ops[k].i2 <= |a| && 0 <= ops[k].j1 <= ops[k].j2 <= |b|)
            && RunScript(a, b, ops) == b
  {
    MatchingBlocksAreValid(a, b);
    OpcodesTile(a, b, MatchingBlocks(a, b), 0, 0);
    TilesRebuild(a, b, Opcodes(MatchingBlocks(a, b), 0, 0), 0, 0, |a|, |b|);
    assert b[0..|b|] == b;
  }
}
