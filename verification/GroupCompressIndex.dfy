/** The delta encoder of bzrlib/_groupcompress_py.py: the line index, the greedy matcher and the
    output handler, and the theorem that the delta it makes rebuilds the target.

    A delta is wrong in one family of cases only: an insert made up of empty lines is written as
    command 0, which the decoder refuses.  Lines that split_lines returns are never empty. */
module GroupCompressIndex {
  import opened Basics
  import opened GroupCompressCodec
  import opened GroupCompressDelta

  /** A run of source lines that is repeated in the new ones. */
  datatype CopyBlock = CopyBlock(oldStart: nat, newStart: nat, length: nat)

  // ---------------------------------------------------------------------------
  // Matching blocks as a delta
  // ---------------------------------------------------------------------------

  /** Blocks from new line cur on: in order, equal text, closed by the empty block. */
  ghost predicate GoodBlocks(source: seq<Bytes>, target: seq<Bytes>, blocks: seq<CopyBlock>, cur: nat) {
    && |blocks| > 0
    && cur <= blocks[0].newStart && blocks[0].newStart + blocks[0].length <= |target|
    && blocks[0].oldStart + blocks[0].length <= |source|
    && source[blocks[0].oldStart..blocks[0].oldStart + blocks[0].length]
       == target[blocks[0].newStart..blocks[0].newStart + blocks[0].length]
    && (if |blocks| == 1 then blocks[0] == CopyBlock(|source|, |target|, 0)
        else blocks[0].length > 0 && GoodBlocks(source, target, blocks[1..], blocks[0].newStart + blocks[0].length))
  }

  /** The byte position where line k of the source starts. */
  ghost function ByteOf(source: seq<Bytes>, k: nat): nat
    requires k <= |source|
  {
    |Join(source[..k])|
  }

  ghost function BlocksOut(source: seq<Bytes>, target: seq<Bytes>, blocks: seq<CopyBlock>, cur: nat, minIndexed: nat): seq<OutLine>
    requires blocks == [] || GoodBlocks(source, target, blocks, cur)
  {
    if blocks == [] then []
    else
      var b := blocks[0];
      InsertOut(target[cur..b.newStart], [], minIndexed)
      + CopyOut(ByteOf(source, b.oldStart), ByteOf(source, b.oldStart + b.length))
      + BlocksOut(source, target, blocks[1..], b.newStart + b.length, minIndexed)
  }

  /** Whether some stretch of new lines between the blocks has an insert of empty lines only. */
  ghost predicate EmptyInsert(target: seq<Bytes>, blocks: seq<CopyBlock>, cur: nat) {
    blocks != [] &&
    (|| (cur <= blocks[0].newStart <= |target| && EmptyGroup(target[cur..blocks[0].newStart], []))
     || EmptyInsert(target, blocks[1..], blocks[0].newStart + blocks[0].length))
  }

  lemma {:induction false} NoEmptyInsert(target: seq<Bytes>, blocks: seq<CopyBlock>, cur: nat)
    requires forall k :: 0 <= k < |target| ==> target[k] != []
    ensures !EmptyInsert(target, blocks, cur)
  {
    if blocks != [] {
      NoEmptyInsert(target, blocks[1..], blocks[0].newStart + blocks[0].length);
      if cur <= blocks[0].newStart <= |target| { NoEmptyGroup(target[cur..blocks[0].newStart], []); }
    }
  }

  /** The bytes of source lines [i, i + n) are where the offsets say they are. */
  lemma BytesOfLines(source: seq<Bytes>, i: nat, n: nat)
    requires i + n <= |source|
    ensures ByteOf(source, i) <= ByteOf(source, i + n) <= |Join(source)|
    ensures Join(source)[ByteOf(source, i)..ByteOf(source, i + n)] == Join(source[i..i + n])
  {
    hide Join;
    var p, q, r := source[..i], source[i..i + n], source[i + n..];
    JoinConcat(p, q);
    JoinConcat(p + q, r);
    assert p + q == source[..i + n] && (p + q) + r == source;
  }

  /** What the decoder makes of the blocks from new line cur on. */
  ghost function Rebuilt(source: seq<Bytes>, target: seq<Bytes>, blocks: seq<CopyBlock>, cur: nat): Bytes
    requires blocks == [] || GoodBlocks(source, target, blocks, cur)
  {
    if blocks == [] then []
    else
      var b := blocks[0];
      BytesOfLines(source, b.oldStart, b.length);
      Join(target[cur..b.newStart]) + Fetched(Join(source), ByteOf(source, b.oldStart), ByteOf(source, b.oldStart + b.length))
      + Rebuilt(source, target, blocks[1..], b.newStart + b.length)
  }

  /** Every copy instruction has an offset that four bytes can hold; only line lengths matter. */
  ghost predicate CopiesInReach(source: seq<Bytes>, blocks: seq<CopyBlock>) {
    forall k :: 0 <= k < |blocks| && blocks[k].oldStart + blocks[k].length <= |source| ==>
      InReach(ByteOf(source, blocks[k].oldStart), ByteOf(source, blocks[k].oldStart + blocks[k].length))
  }

  /** The decoder copies what the block says. */
  ghost predicate CopiedRight(source: seq<Bytes>, b: CopyBlock) {
    b.oldStart + b.length <= |source| ==>
      var first, last := ByteOf(source, b.oldStart), ByteOf(source, b.oldStart + b.length);
      first <= last <= |Join(source)| && Fetched(Join(source), first, last) == Join(source)[first..last]
  }

  ghost predicate AllCopiedRight(source: seq<Bytes>, blocks: seq<CopyBlock>) {
    forall k :: 0 <= k < |blocks| ==> CopiedRight(source, blocks[k])
  }

  lemma SmallSourceInReach(source: seq<Bytes>, blocks: seq<CopyBlock>)
    requires |Join(source)| <= OFFSETS
    ensures CopiesInReach(source, blocks)
  {
    hide Join, ByteOf, LastStart;
    forall k | 0 <= k < |blocks| && blocks[k].oldStart + blocks[k].length <= |source|
      ensures InReach(ByteOf(source, blocks[k].oldStart), ByteOf(source, blocks[k].oldStart + blocks[k].length))
    {
      BytesOfLines(source, blocks[k].oldStart, blocks[k].length);
    }
  }

  lemma InReachIsRight(source: seq<Bytes>, blocks: seq<CopyBlock>)
    requires CopiesInReach(source, blocks)
    ensures AllCopiedRight(source, blocks)
  {
    hide Join, ByteOf, Fetched, InReach;
    forall k | 0 <= k < |blocks| ensures CopiedRight(source, blocks[k]) {
      var b := blocks[k];
      if b.oldStart + b.length <= |source| {
        BytesOfLines(source, b.oldStart, b.length);
        FetchedInReach(Join(source), ByteOf(source, b.oldStart), ByteOf(source, b.oldStart + b.length));
      }
    }
  }

  /** It always has the length of the new text, and it is the new text exactly if every block is copied right. */
  lemma {:induction false} RebuiltIsTarget(source: seq<Bytes>, target: seq<Bytes>, blocks: seq<CopyBlock>, cur: nat)
    requires cur <= |target| && GoodBlocks(source, target, blocks, cur)
    ensures |Rebuilt(source, target, blocks, cur)| == |Join(target[cur..])|
    ensures Rebuilt(source, target, blocks, cur) == Join(target[cur..]) <==> AllCopiedRight(source, blocks)
    decreases |blocks|
  {
    hide Join, ByteOf, Fetched, CopiedRight;
    var b := blocks[0];
    var next := b.newStart + b.length;
    var inserted, copied := target[cur..b.newStart], target[b.newStart..next];
    var fetched := BlockFetched(source, target, blocks, cur);
    JoinConcat(inserted, copied);
    JoinConcat(inserted + copied, target[next..]);
    assert inserted + copied + target[next..] == target[cur..];
    if |blocks| == 1 {
      assert blocks[1..] == [] && target[next..] == [];
      JoinNothing();
      SameThree(Join(inserted), fetched, Join(copied), [], []);
    } else {
      RebuiltIsTarget(source, target, blocks[1..], next);
      FirstAndRest(source, blocks);
      SameThree(Join(inserted), fetched, Join(copied), Rebuilt(source, target, blocks[1..], next), Join(target[next..]));
    }
  }

  lemma FirstAndRest(source: seq<Bytes>, blocks: seq<CopyBlock>)
    requires blocks != []
    ensures AllCopiedRight(source, blocks) <==> CopiedRight(source, blocks[0]) && AllCopiedRight(source, blocks[1..])
  {
    hide CopiedRight;
    assert blocks == [blocks[0]] + blocks[1..];
  }

  lemma SameThree(first: Bytes, x: Bytes, x': Bytes, y: Bytes, y': Bytes)
    requires |x| == |x'| && |y| == |y'|
    ensures |first + x + y| == |first + x' + y'|
    ensures first + x + y == first + x' + y' <==> x == x' && y == y'
  {
    var p, q := first + x + y, first + x' + y';
    assert p[|first|..|first| + |x|] == x && q[|first|..|first| + |x|] == x';
    assert p[|first| + |x|..] == y && q[|first| + |x|..] == y';
  }

  lemma BlockFetched(source: seq<Bytes>, target: seq<Bytes>, blocks: seq<CopyBlock>, cur: nat) returns (fetched: Bytes)
    requires GoodBlocks(source, target, blocks, cur)
    ensures var b := blocks[0];
            var first, last := ByteOf(source, b.oldStart), ByteOf(source, b.oldStart + b.length);
            var copied := Join(target[b.newStart..b.newStart + b.length]);
            && first <= last <= |Join(source)|
            && fetched == Fetched(Join(source), first, last) && |fetched| == |copied|
            && (fetched == copied <==> CopiedRight(source, b))
  {
    hide Join, ByteOf, Fetched;
    var b := blocks[0];
    var first, last := ByteOf(source, b.oldStart), ByteOf(source, b.oldStart + b.length);
    BytesOfLines(source, b.oldStart, b.length);
    FetchedLength(Join(source), first, last);
    fetched := Fetched(Join(source), first, last);
  }

  lemma ExecBlock(source: seq<Bytes>, inserted: seq<Bytes>, b: CopyBlock, minIndexed: nat, rest: Bytes)
    requires b.oldStart + b.length <= |source|
    ensures ByteOf(source, b.oldStart) <= ByteOf(source, b.oldStart + b.length) <= |Join(source)|
    ensures Exec(Join(source), Raw(InsertOut(inserted, [], minIndexed)
                                + CopyOut(ByteOf(source, b.oldStart), ByteOf(source, b.oldStart + b.length))) + rest) ==
      if EmptyGroup(inserted, []) then Err(ZeroCommand)
      else Prepend(Join(inserted) + Fetched(Join(source), ByteOf(source, b.oldStart), ByteOf(source, b.oldStart + b.length)),
                   Exec(Join(source), rest))
  {
    hide Exec, Prepend, Raw, InsertOut, CopyOut, EmptyGroup, Fetched;
    var basis := Join(source);
    var first, last := ByteOf(source, b.oldStart), ByteOf(source, b.oldStart + b.length);
    BytesOfLines(source, b.oldStart, b.length);
    var ins, cop := InsertOut(inserted, [], minIndexed), CopyOut(first, last);
    RawConcat(ins, cop);
    assert Raw(ins + cop) + rest == Raw(ins) + (Raw(cop) + rest);
    ExecInsert(basis, inserted, [], minIndexed, Raw(cop) + rest);
    assert Join([]) + Join(inserted) == Join(inserted);
    ExecCopy(basis, first, last, rest);
    PrependTwice(Join(inserted), Fetched(basis, first, last), Exec(basis, rest));
  }

  /** Running a delta body gives what the decoder makes of the blocks, unless some insert is empty. */
  lemma {:induction false} ExecBlocks(source: seq<Bytes>, target: seq<Bytes>, blocks: seq<CopyBlock>, cur: nat, minIndexed: nat)
    requires cur <= |target| && GoodBlocks(source, target, blocks, cur)
    ensures Exec(Join(source), Raw(BlocksOut(source, target, blocks, cur, minIndexed))) ==
      if EmptyInsert(target, blocks, cur) then Err(ZeroCommand) else Ok(Rebuilt(source, target, blocks, cur))
    decreases |blocks|
  {
    hide Exec, Prepend, Raw, InsertOut, CopyOut, EmptyGroup, ByteOf, Join, Fetched;
    JoinNothing();
    var b := blocks[0];
    var next := b.newStart + b.length;
    var inserted := target[cur..b.newStart];
    var first, last := ByteOf(source, b.oldStart), ByteOf(source, b.oldStart + b.length);
    var part := InsertOut(inserted, [], minIndexed) + CopyOut(first, last);
    assert |blocks| == 1 ==> blocks[1..] == [];
    var tail := BlocksOut(source, target, blocks[1..], next, minIndexed);
    RawConcat(part, tail);
    ExecBlock(source, inserted, b, minIndexed, Raw(tail));
    var made := Join(inserted) + Fetched(Join(source), first, last);
    if |blocks| == 1 {
      RawNothing();
      ExecNothing(Join(source), made);
      assert made + [] == made;
    } else {
      ExecBlocks(source, target, blocks[1..], next, minIndexed);
      PrependOk(made, Rebuilt(source, target, blocks[1..], next));
      PrependError(made, ZeroCommand);
    }
  }

  lemma ExecNothing(basis: Bytes, x: Bytes)
    ensures Prepend(x, Exec(basis, [])) == Ok(x)
  {
    assert x + [] == x;
  }

  lemma PrependOk(x: Bytes, y: Bytes)
    ensures Prepend(x, Ok(y)) == Ok(x + y)
  {
  }

  // ---------------------------------------------------------------------------
  // Which output lines may be indexed
  // ---------------------------------------------------------------------------

  ghost function Flagged(outLines: seq<Bytes>, indexLines: seq<bool>): seq<OutLine>
    requires |outLines| == |indexLines|
  {
    seq(|outLines|, i requires 0 <= i < |outLines| => OutLine(outLines[i], indexLines[i]))
  }

  lemma FlaggedMore(out: seq<Bytes>, flags: seq<bool>, out': seq<Bytes>, flags': seq<bool>)
    requires |out| == |flags| && |out'| == |flags'|
    ensures Flagged(out + out', flags + flags') == Flagged(out, flags) + Flagged(out', flags')
  {
  }

  lemma {:induction false} FlaggedMarked(lines: seq<Bytes>, flags: seq<bool>, indexed: bool)
    requires |lines| == |flags| && forall i :: 0 <= i < |flags| ==> flags[i] == indexed
    ensures Flagged(lines, flags) == Marked(lines, indexed)
  {
    MarkedAt(lines, indexed);
  }

  lemma MarkedOne(line: Bytes, indexed: bool)
    ensures Marked([line], indexed) == [OutLine(line, indexed)]
  {
    assert [line][1..] == [];
  }

  /** A flush adds the length of the pending lines, and the lines. */
  lemma FlushFlags(out: seq<Bytes>, flags: seq<bool>, pending: seq<Bytes>, more: seq<bool>, minIndexed: nat)
    requires |out| == |flags| && pending != [] && |Join(pending)| <= MAX_INSERT && |more| == |pending|
    requires forall i :: 0 <= i < |more| ==> more[i] == (|Join(pending)| >= minIndexed)
    ensures Flagged(out + [[|Join(pending)|]] + pending, flags + [false] + more) == Flagged(out, flags) + FlushOut(pending, minIndexed)
  {
    hide Join, Flagged, Marked;
    var length: Bytes := [|Join(pending)|];
    FlaggedMarked(pending, more, |Join(pending)| >= minIndexed);
    FlaggedMarked([length], [false], false);
    FlaggedMore(out, flags, [length], [false]);
    FlaggedMore(out + [length], flags + [false], pending, more);
    MarkedOne(length, false);
  }

  lemma NothingToFlush(minIndexed: nat)
    requires |Join([])| <= MAX_INSERT
    ensures FlushOut([], minIndexed) == []
  {
  }

  /** Two reserved lines, and the length. */
  ghost function HeaderOut(header: Bytes): seq<OutLine> {
    [OutLine([], false), OutLine([], false), OutLine(header, false)]
  }

  /** How often an output line with this text is flagged. */
  ghost function Flags(out: seq<OutLine>, line: Bytes): nat {
    multiset(out)[OutLine(line, true)]
  }

  /** Flagged are whole lines of those given, none above 127 bytes, and each occurrence of those that fit and
      have the least length themselves. */
  ghost predicate Marks(out: seq<OutLine>, lines: seq<Bytes>, minIndexed: nat) {
    forall line :: Flags(out, line) <= multiset(lines)[line]
      && (|line| > 127 ==> Flags(out, line) == 0)
      && (minIndexed <= |line| <= 127 ==> Flags(out, line) == multiset(lines)[line])
  }

  lemma MarksBoth(p: seq<OutLine>, q: seq<OutLine>, x: seq<Bytes>, y: seq<Bytes>, minIndexed: nat)
    requires Marks(p, x, minIndexed) && Marks(q, y, minIndexed)
    ensures Marks(p + q, x + y, minIndexed)
  {
    forall line ensures Flags(p + q, line) == Flags(p, line) + Flags(q, line) {
    }
  }

  lemma {:induction false} NoFlags(out: seq<OutLine>)
    requires forall i :: 0 <= i < |out| ==> !out[i].indexed
    ensures forall line :: Flags(out, line) == 0
  {
    if out != [] {
      NoFlags(out[1..]);
      assert out == [out[0]] + out[1..];
      forall line ensures Flags(out, line) == Flags(out[1..], line) {
      }
    }
  }

  lemma {:induction false} CopyIsPlain(start: nat, end: nat)
    ensures forall i :: 0 <= i < |CopyOut(start, end)| ==> !CopyOut(start, end)[i].indexed
    decreases end - start
  {
    if start < end { CopyIsPlain(if end - start < MAX_COPY then end else start + MAX_COPY, end); }
  }

  lemma {:induction false} LongIsPlain(line: Bytes)
    ensures forall i :: 0 <= i < |LongOut(line)| ==> !LongOut(line)[i].indexed
    decreases |line|
  {
    if line != [] { LongIsPlain(line[if |line| < MAX_INSERT then |line| else MAX_INSERT..]); }
  }

  lemma CopyMarksNothing(start: nat, end: nat, minIndexed: nat)
    ensures Marks(CopyOut(start, end), [], minIndexed)
  {
    hide CopyOut, Flags;
    CopyIsPlain(start, end);
    NoFlags(CopyOut(start, end));
  }

  lemma LongMarksNothing(line: Bytes, minIndexed: nat)
    requires |line| > MAX_INSERT
    ensures Marks(LongOut(line), [line], minIndexed)
  {
    hide LongOut, Flags;
    LongIsPlain(line);
    NoFlags(LongOut(line));
  }

  lemma {:induction false} InJoin(lines: seq<Bytes>, line: Bytes)
    requires line in lines
    ensures |line| <= |Join(lines)|
  {
    if line != lines[0] { InJoin(lines[1..], line); }
  }

  lemma {:induction false} MarkedFlags(lines: seq<Bytes>, indexed: bool)
    ensures forall line :: Flags(Marked(lines, indexed), line) == if indexed then multiset(lines)[line] else 0
  {
    if lines != [] {
      MarkedFlags(lines[1..], indexed);
      var rest := Marked(lines[1..], indexed);
      assert lines == [lines[0]] + lines[1..];
      forall line ensures Flags([OutLine(lines[0], indexed)] + rest, line) ==
                            Flags(rest, line) + if indexed && line == lines[0] then 1 else 0 {
      }
    }
  }

  lemma FlushMarks(pending: seq<Bytes>, minIndexed: nat)
    requires |Join(pending)| <= MAX_INSERT
    ensures Marks(FlushOut(pending, minIndexed), pending, minIndexed)
  {
    hide Join, Marked;
    if pending != [] {
      var marked := |Join(pending)| >= minIndexed;
      var lines := Marked(pending, marked);
      MarkedFlags(pending, marked);
      forall line ensures Flags([OutLine([|Join(pending)|], false)] + lines, line) == Flags(lines, line) {
      }
      forall line | line in pending ensures |line| <= |Join(pending)| { InJoin(pending, line); }
      assert forall line :: multiset(pending)[line] > 0 ==> line in pending;
    }
  }

  lemma {:induction false} InsertMarks(lines: seq<Bytes>, pending: seq<Bytes>, minIndexed: nat)
    requires |Join(pending)| <= MAX_INSERT
    ensures Marks(InsertOut(lines, pending, minIndexed), pending + lines, minIndexed)
    decreases |lines|
  {
    hide *;
    FlushMarks(pending, minIndexed);
    NothingFits();
    var flushed := FlushOut(pending, minIndexed);
    if lines == [] {
      assert pending + lines == pending;
      InsertNothing(pending, minIndexed);
    } else {
      var line, rest := lines[0], lines[1..];
      InsertCases(lines, pending, minIndexed);
      PendingAndLines(pending, lines);
      if |line| > MAX_INSERT {
        LongMarksNothing(line, minIndexed);
        InsertMarks(rest, [], minIndexed);
        MarksBoth(flushed, LongOut(line), pending, [line], minIndexed);
        MarksBoth(flushed + LongOut(line), InsertOut(rest, [], minIndexed), pending + [line], [] + rest, minIndexed);
      } else if |Join(pending)| + |line| > MAX_INSERT {
        InsertMarks(rest, [line], minIndexed);
        MarksBoth(flushed, InsertOut(rest, [line], minIndexed), pending, [line] + rest, minIndexed);
      } else {
        InsertMarks(rest, pending + [line], minIndexed);
      }
    }
  }

  lemma NothingFits()
    ensures |Join([])| <= MAX_INSERT
  {
  }

  lemma PendingAndLines(pending: seq<Bytes>, lines: seq<Bytes>)
    requires lines != []
    ensures pending + [lines[0]] + ([] + lines[1..]) == pending + lines
    ensures pending + ([lines[0]] + lines[1..]) == pending + lines
    ensures (pending + [lines[0]]) + lines[1..] == pending + lines
  {
  }

  lemma InsertNothing(pending: seq<Bytes>, minIndexed: nat)
    requires |Join(pending)| <= MAX_INSERT
    ensures InsertOut([], pending, minIndexed) == FlushOut(pending, minIndexed)
  {
  }

  lemma InsertCases(lines: seq<Bytes>, pending: seq<Bytes>, minIndexed: nat)
    requires |Join(pending)| <= MAX_INSERT && lines != [] && |Join([])| <= MAX_INSERT
    ensures var line, rest := lines[0], lines[1..];
            if |line| > MAX_INSERT then
              InsertOut(lines, pending, minIndexed) == FlushOut(pending, minIndexed) + LongOut(line) + InsertOut(rest, [], minIndexed)
            else if |Join(pending)| + |line| > MAX_INSERT then
              |Join([line])| <= MAX_INSERT
              && InsertOut(lines, pending, minIndexed) == FlushOut(pending, minIndexed) + InsertOut(rest, [line], minIndexed)
            else
              |Join(pending + [line])| <= MAX_INSERT
              && InsertOut(lines, pending, minIndexed) == InsertOut(rest, pending + [line], minIndexed)
  {
    hide Join, FlushOut, LongOut;
    JoinSingle(lines[0]);
    JoinOne(pending, lines[0]);
  }

  /** The new lines before, between and behind the blocks. */
  ghost function GapLines(target: seq<Bytes>, blocks: seq<CopyBlock>, cur: nat): seq<Bytes> {
    if blocks == [] || !(cur <= blocks[0].newStart <= |target|) then []
    else target[cur..blocks[0].newStart] + GapLines(target, blocks[1..], blocks[0].newStart + blocks[0].length)
  }

  /** Flagged are only whole new lines outside the blocks, none above 127 bytes; each occurrence of those that
      fit and have the least length is, and whether a shorter one is depends on the lines inserted with it. */
  lemma {:induction false} DeltaMarks(source: seq<Bytes>, target: seq<Bytes>, blocks: seq<CopyBlock>, cur: nat, minIndexed: nat)
    requires cur <= |target| && GoodBlocks(source, target, blocks, cur)
    ensures Marks(BlocksOut(source, target, blocks, cur, minIndexed), GapLines(target, blocks, cur), minIndexed)
    decreases |blocks|
  {
    hide *;
    FirstBlockFits(source, target, blocks, cur);
    var b := blocks[0];
    var next, inserted := b.newStart + b.length, target[cur..b.newStart];
    var first, last := ByteOf(source, b.oldStart), ByteOf(source, b.oldStart + b.length);
    DeltaUnfolds(source, target, blocks, cur, minIndexed);
    PartMarks(inserted, first, last, minIndexed);
    if |blocks| > 1 { DeltaMarks(source, target, blocks[1..], next, minIndexed); } else { NothingMarked(minIndexed); }
    MarksBoth(InsertOut(inserted, [], minIndexed) + CopyOut(first, last), BlocksOut(source, target, blocks[1..], next, minIndexed),
              inserted, GapLines(target, blocks[1..], next), minIndexed);
  }

  lemma FirstBlockFits(source: seq<Bytes>, target: seq<Bytes>, blocks: seq<CopyBlock>, cur: nat)
    requires GoodBlocks(source, target, blocks, cur)
    ensures blocks != [] && |Join([])| <= MAX_INSERT
    ensures var b := blocks[0];
            && cur <= b.newStart && b.newStart + b.length <= |target| && b.oldStart + b.length <= |source|
            && (|blocks| > 1 ==> GoodBlocks(source, target, blocks[1..], b.newStart + b.length))
            && (|blocks| == 1 ==> blocks[1..] == [])
  {
    JoinNothing();
  }

  lemma DeltaUnfolds(source: seq<Bytes>, target: seq<Bytes>, blocks: seq<CopyBlock>, cur: nat, minIndexed: nat)
    requires cur <= |target| && GoodBlocks(source, target, blocks, cur) && blocks != [] && |Join([])| <= MAX_INSERT
    requires var b := blocks[0];
             && cur <= b.newStart && b.newStart + b.length <= |target| && b.oldStart + b.length <= |source|
             && (blocks[1..] == [] || GoodBlocks(source, target, blocks[1..], b.newStart + b.length))
    ensures var b := blocks[0];
            && GapLines(target, blocks, cur) == target[cur..b.newStart] + GapLines(target, blocks[1..], b.newStart + b.length)
            && BlocksOut(source, target, blocks, cur, minIndexed) ==
                 InsertOut(target[cur..b.newStart], [], minIndexed)
                 + CopyOut(ByteOf(source, b.oldStart), ByteOf(source, b.oldStart + b.length))
                 + BlocksOut(source, target, blocks[1..], b.newStart + b.length, minIndexed)
            && (blocks[1..] == [] ==>
                  BlocksOut(source, target, blocks[1..], b.newStart + b.length, minIndexed) == []
                  && GapLines(target, blocks[1..], b.newStart + b.length) == [])
  {
    hide Join, ByteOf, InsertOut, CopyOut;
  }

  lemma PartMarks(inserted: seq<Bytes>, first: nat, last: nat, minIndexed: nat)
    requires |Join([])| <= MAX_INSERT
    ensures Marks(InsertOut(inserted, [], minIndexed) + CopyOut(first, last), inserted, minIndexed)
  {
    hide Join, Marks, InsertOut, CopyOut;
    InsertMarks(inserted, [], minIndexed);
    CopyMarksNothing(first, last, minIndexed);
    assert [] + inserted == inserted && inserted + [] == inserted;
    MarksBoth(InsertOut(inserted, [], minIndexed), CopyOut(first, last), inserted, [], minIndexed);
  }

  lemma NothingMarked(minIndexed: nat)
    ensures Marks([], [], minIndexed)
  {
  }

  // ---------------------------------------------------------------------------
  // _OutputHandler
  // ---------------------------------------------------------------------------

  /** Collects output lines; splits inserts so that each is at most 127 bytes. */
  class OutputHandler {
    var outLines: seq<Bytes>
    var indexLines: seq<bool>
    const minLenToIndex: nat
    var curInsertLines: seq<Bytes>
    var curInsertLen: nat
    ghost var emitted: seq<OutLine>

    ghost predicate Valid()
      reads this
    {
      && |outLines| == |indexLines| && emitted == Flagged(outLines, indexLines)
      && curInsertLen == |Join(curInsertLines)| <= MAX_INSERT
    }

    constructor (out: seq<Bytes>, index: seq<bool>, minLen: nat)
      requires |out| == |index|
      ensures Valid() && curInsertLines == [] && minLenToIndex == minLen
      ensures outLines == out && indexLines == index
    {
      outLines, indexLines, minLenToIndex := out, index, minLen;
      curInsertLines, curInsertLen := [], 0;
      emitted := Flagged(out, index);
    }

    /** One more output line and its flag. */
    method Emit(bytes: Bytes, indexed: bool)
      requires Valid()
      modifies this
      ensures Valid() && curInsertLines == old(curInsertLines) && curInsertLen == old(curInsertLen)
      ensures emitted == old(emitted) + [OutLine(bytes, indexed)]
    {
      hide Join, Flagged;
      FlaggedMore(outLines, indexLines, [bytes], [indexed]);
      FlaggedMarked([bytes], [indexed], indexed);
      MarkedOne(bytes, indexed);
      outLines := outLines + [bytes];
      indexLines := indexLines + [indexed];
      emitted := emitted + [OutLine(bytes, indexed)];
    }

    method AddCopy(startByte: nat, endByte: nat)
      requires Valid()
      modifies this
      ensures Valid() && curInsertLines == old(curInsertLines)
      ensures emitted == old(emitted) + CopyOut(startByte, endByte)
    {
      hide Join, CopyOut, CopyInstruction;
      ghost var before := emitted;
      var start := startByte;
      while start < endByte
        invariant Valid() && curInsertLines == old(curInsertLines)
        invariant before + CopyOut(startByte, endByte) == emitted + CopyOut(start, endByte)
        decreases endByte - start
      {
        var numBytes := if MAX_COPY < endByte - start then MAX_COPY else endByte - start;
        var copy := EncodeCopyInstruction(start, Some(numBytes));
        CopyOutStep(start, endByte);
        Emit(copy.value, false);
        start := start + MAX_COPY;
      }
      CopyOutEnds(start, endByte);
    }

    method FlushInsert()
      requires Valid()
      modifies this
      ensures Valid() && curInsertLines == []
      ensures emitted == old(emitted) + FlushOut(old(curInsertLines), minLenToIndex)
    {
      hide Join, Flagged, FlushOut;
      JoinNothing();
      NothingToFlush(minLenToIndex);
      if curInsertLines == [] {
        return;
      }
      var flags := if curInsertLen < minLenToIndex then seq(|curInsertLines|, _ => false) else seq(|curInsertLines|, _ => true);
      FlushFlags(outLines, indexLines, curInsertLines, flags, minLenToIndex);
      outLines := outLines + [[curInsertLen]];
      indexLines := indexLines + [false];
      outLines := outLines + curInsertLines;
      indexLines := indexLines + flags;
      emitted := emitted + FlushOut(curInsertLines, minLenToIndex);
      curInsertLines := [];
      curInsertLen := 0;
    }

    method InsertLongLine(line: Bytes)
      requires Valid()
      modifies this
      ensures Valid() && curInsertLines == []
      ensures emitted == old(emitted) + FlushOut(old(curInsertLines), minLenToIndex) + LongOut(line)
    {
      hide Join, FlushOut, LongOut, LongRest;
      FlushInsert();
      ghost var flushed := emitted;
      var start := 0;
      LongOutStarts(line);
      while start < |line|
        invariant 0 <= start && Valid() && curInsertLines == []
        invariant flushed + LongOut(line) == emitted + LongRest(line, start)
        decreases |line| - start
      {
        var nextLen := if MAX_INSERT < |line| - start then MAX_INSERT else |line| - start;
        LongOutStep(line, start);
        TwoMore(emitted, OutLine([nextLen], false), OutLine(line[start..start + nextLen], false), LongRest(line, start + MAX_INSERT));
        Emit([nextLen], false);
        // a line that was cut could not be matched whole
        Emit(line[start..start + nextLen], false);
        start := start + MAX_INSERT;
      }
      LongOutEnds(line, start);
    }

    /** add_insert; it must not be called with lines pending, and leaves none pending. */
    method AddInsert(lines: seq<Bytes>) returns (ok: bool)
      requires Valid()
      modifies this
      ensures Valid() && (ok <==> old(curInsertLines) == [])
      ensures !ok ==> emitted == old(emitted) && curInsertLines == old(curInsertLines)
      ensures ok ==> curInsertLines == [] && emitted == old(emitted) + InsertOut(lines, [], minLenToIndex)
    {
      hide Join, FlushOut, LongOut, InsertOut;
      if curInsertLines != [] {
        return false;
      }
      ghost var before := emitted;
      JoinNothing();
      assert lines[0..] == lines;
      for i := 0 to |lines|
        invariant Valid()
        invariant before + InsertOut(lines, [], minLenToIndex) == emitted + InsertOut(lines[i..], curInsertLines, minLenToIndex)
      {
        var line := lines[i];
        InsertOutUnfolds(lines, i, curInsertLines, minLenToIndex);
        JoinSingle(line);
        JoinOne(curInsertLines, line);
        if |line| > MAX_INSERT {
          InsertLongLine(line);
        } else {
          var nextLen := |line| + curInsertLen;
          if nextLen > MAX_INSERT {
            FlushInsert();
            curInsertLines := [line];
            curInsertLen := |line|;
          } else {
            curInsertLines := curInsertLines + [line];
            curInsertLen := nextLen;
          }
        }
      }
      InsertOutEnds(lines, curInsertLines, minLenToIndex);
      FlushInsert();
      return true;
    }
  }

  lemma CopyOutEnds(start: nat, end: nat)
    requires start >= end
    ensures CopyOut(start, end) == []
  {
  }

  lemma CopyOutStep(start: nat, end: nat)
    requires start < end
    ensures var n := if MAX_COPY < end - start then MAX_COPY else end - start;
            CopyOut(start, end) == [OutLine(CopyInstruction(start, n), false)] + CopyOut(start + MAX_COPY, end)
  {
    hide CopyInstruction;
  }

  /** What is left to write of a long line from start on. */
  ghost function LongRest(line: Bytes, start: nat): seq<OutLine> {
    if start <= |line| then LongOut(line[start..]) else []
  }

  lemma {:induction false} MarkedAt(lines: seq<Bytes>, indexed: bool)
    ensures |Marked(lines, indexed)| == |lines|
    ensures forall i :: 0 <= i < |lines| ==> Marked(lines, indexed)[i] == OutLine(lines[i], indexed)
  {
    if lines != [] { MarkedAt(lines[1..], indexed); }
  }

  lemma LongOutStarts(line: Bytes)
    ensures LongRest(line, 0) == LongOut(line)
  {
    assert line[0..] == line;
  }

  lemma TwoMore(out: seq<OutLine>, x: OutLine, y: OutLine, rest: seq<OutLine>)
    ensures out + ([x, y] + rest) == out + [x] + [y] + rest
  {
  }

  lemma LongOutStep(line: Bytes, start: nat)
    requires start < |line|
    ensures var n := if MAX_INSERT < |line| - start then MAX_INSERT else |line| - start;
            LongRest(line, start) ==
              [OutLine([n], false), OutLine(line[start..start + n], false)] + LongRest(line, start + MAX_INSERT)
  {
    var n := if MAX_INSERT < |line| - start then MAX_INSERT else |line| - start;
    var rest := line[start..];
    assert rest[..n] == line[start..start + n] && rest[n..] == line[start + n..];
    if start + MAX_INSERT > |line| { LongOutEnds(line, start + n); }
  }

  lemma LongOutEnds(line: Bytes, start: nat)
    requires start >= |line|
    ensures LongRest(line, start) == []
    ensures start == |line| ==> LongOut(line[start..]) == []
  {
  }

  lemma InsertOutUnfolds(lines: seq<Bytes>, i: nat, pending: seq<Bytes>, minIndexed: nat)
    requires i < |lines| && |Join(pending)| <= MAX_INSERT
    ensures |Join(pending + [lines[i]])| == |Join(pending)| + |lines[i]| && |Join([lines[i]])| == |lines[i]|
    ensures |Join([])| == 0
    ensures InsertOut(lines[i..], pending, minIndexed) ==
      if |lines[i]| > MAX_INSERT then FlushOut(pending, minIndexed) + LongOut(lines[i]) + InsertOut(lines[i + 1..], [], minIndexed)
      else if |Join(pending)| + |lines[i]| > MAX_INSERT then FlushOut(pending, minIndexed) + InsertOut(lines[i + 1..], [lines[i]], minIndexed)
      else InsertOut(lines[i + 1..], pending + [lines[i]], minIndexed)
  {
    hide FlushOut, LongOut;
    JoinOne(pending, lines[i]);
    JoinSingle(lines[i]);
    assert lines[i..][0] == lines[i] && lines[i..][1..] == lines[i + 1..];
  }

  lemma InsertOutEnds(lines: seq<Bytes>, pending: seq<Bytes>, minIndexed: nat)
    requires |Join(pending)| <= MAX_INSERT
    ensures InsertOut(lines[|lines|..], pending, minIndexed) == FlushOut(pending, minIndexed)
  {
  }

  // ---------------------------------------------------------------------------
  // LinesDeltaIndex
  // ---------------------------------------------------------------------------

  /** The index lists exactly the positions that may be copied from, under their lines. */
  ghost predicate Indexes(lines: seq<Bytes>, indexed: set<nat>, matching: map<Bytes, set<nat>>) {
    && (forall loc :: loc in indexed ==> loc < |lines|)
    && (forall line :: line in matching ==> matching[line] != {})
    && (forall line, loc {:trigger loc in matching[line]} ::
          line in matching && loc in matching[line] ==> loc in indexed && loc < |lines| && lines[loc] == line)
    && (forall loc :: loc in indexed && loc < |lines| ==> lines[loc] in matching && loc in matching[lines[loc]])
  }

  lemma IndexesMore(lines: seq<Bytes>, more: seq<Bytes>, indexed: set<nat>, matching: map<Bytes, set<nat>>)
    requires Indexes(lines, indexed, matching)
    ensures Indexes(lines + more, indexed, matching)
  {
  }

  lemma IndexesOne(lines: seq<Bytes>, indexed: set<nat>, matching: map<Bytes, set<nat>>, loc: nat)
    requires Indexes(lines, indexed, matching) && loc < |lines|
    ensures var line := lines[loc];
            Indexes(lines, indexed + {loc}, matching[line := (if line in matching then matching[line] else {}) + {loc}])
    ensures lines[loc] !in matching ==> {} + {loc} == {loc}
  {
  }

  /** The n lines of target from pos on are indexed lines that end with line e. */
  ghost predicate RunEndsAt(lines: seq<Bytes>, indexed: set<nat>, target: seq<Bytes>, pos: nat, n: nat, e: nat) {
    && pos + n <= |target| && n <= e + 1 && e < |lines|
    && forall k :: e - n < k <= e ==> k in indexed && lines[k] == target[pos + n - 1 - (e - k)]
  }

  ghost predicate NoRunOf(lines: seq<Bytes>, indexed: set<nat>, target: seq<Bytes>, pos: nat, n: nat) {
    forall e :: !RunEndsAt(lines, indexed, target, pos, n, e)
  }

  /** A run is extended by one line exactly if the next line follows it in the index. */
  lemma RunExtends(lines: seq<Bytes>, indexed: set<nat>, target: seq<Bytes>, pos: nat, n: nat, e: nat)
    requires n > 0 && pos + n < |target| && e + 1 < |lines|
    ensures RunEndsAt(lines, indexed, target, pos, n + 1, e + 1) <==>
      RunEndsAt(lines, indexed, target, pos, n, e) && e + 1 in indexed && lines[e + 1] == target[pos + n]
  {
    if RunEndsAt(lines, indexed, target, pos, n + 1, e + 1) {
      forall k | e - n < k <= e ensures k in indexed && lines[k] == target[pos + n - 1 - (e - k)] {
        assert e + 1 - (n + 1) < k <= e + 1;
      }
    }
  }

  lemma RunStarts(lines: seq<Bytes>, indexed: set<nat>, target: seq<Bytes>, pos: nat, e: nat)
    requires pos < |target| && e < |lines|
    ensures RunEndsAt(lines, indexed, target, pos, 1, e) <==> e in indexed && lines[e] == target[pos]
  {
  }

  lemma RunIsEqual(lines: seq<Bytes>, indexed: set<nat>, target: seq<Bytes>, pos: nat, n: nat, e: nat)
    requires RunEndsAt(lines, indexed, target, pos, n, e) && n > 0
    ensures lines[e + 1 - n..e + 1] == target[pos..pos + n]
  {
    var p, q := lines[e + 1 - n..e + 1], target[pos..pos + n];
    forall i | 0 <= i < n ensures p[i] == q[i] {
      assert lines[e + 1 - n + i] == target[pos + n - 1 - (e - (e + 1 - n + i))];
    }
  }

  method MinOf(s: set<nat>) returns (m: nat)
    requires s != {}
    ensures m in s && forall x :: x in s ==> m <= x
  {
    var rest := s;
    m :| m in rest;
    rest := rest - {m};
    while rest != {}
      invariant rest <= s && m in s && forall x :: x in s && x !in rest ==> m <= x
      decreases rest
    {
      var x :| x in rest;
      if x < m { m := x; }
      rest := rest - {x};
    }
  }

  class LinesDeltaIndex {
    var lines: seq<Bytes>
    var lineOffsets: seq<nat>
    var endpoint: nat
    var matchingLines: map<Bytes, set<nat>>
    ghost var indexed: set<nat>

    ghost predicate Valid()
      reads this
    {
      && |lineOffsets| == |lines|
      && (forall i :: 0 <= i < |lines| ==> lineOffsets[i] == ByteOf(lines, i + 1))
      && endpoint == |Join(lines)|
      && Indexes(lines, indexed, matchingLines)
    }

    constructor (init: seq<Bytes>)
      ensures Valid() && lines == init
      ensures forall loc: nat :: loc in indexed <==> loc < |init|
    {
      lines, lineOffsets, endpoint, matchingLines, indexed := [], [], 0, map[], {};
      new;
      JoinNothing();
      var flags := seq(|init|, _ => true);
      assert forall i :: 0 <= i < |init| ==> flags[i];
      var ok := ExtendLines(init, flags);
      assert [] + init == init;
    }

    /** _update_matching_lines; false stands for the AssertionError. */
    method UpdateMatchingLines(newLines: seq<Bytes>, index: seq<bool>) returns (ok: bool)
      requires Indexes(lines, indexed, matchingLines)
      modifies this`matchingLines, this`indexed
      ensures ok <==> |newLines| == |index|
      ensures !ok ==> matchingLines == old(matchingLines) && indexed == old(indexed)
      ensures ok ==> Indexes(lines + newLines, indexed, matchingLines)
      ensures ok ==> forall loc :: loc in indexed <==>
        (loc in old(indexed) || (|lines| <= loc < |lines| + |newLines| && index[loc - |lines|]))
    {
      hide Indexes;
      var startIdx := |lines|;
      if |newLines| != |index| {
        return false;
      }
      ghost var all := lines + newLines;
      IndexesMore(lines, newLines, indexed, matchingLines);
      for idx := 0 to |index|
        invariant Indexes(all, indexed, matchingLines)
        invariant forall loc :: loc in indexed <==>
          (loc in old(indexed) || (startIdx <= loc < startIdx + idx && index[loc - startIdx]))
      {
        if !index[idx] {
          continue;
        }
        var line := newLines[idx];
        assert all[startIdx + idx] == line;
        IndexesOne(all, indexed, matchingLines, startIdx + idx);
        if line in matchingLines {
          matchingLines := matchingLines[line := matchingLines[line] + {startIdx + idx}];
        } else {
          matchingLines := matchingLines[line := {startIdx + idx}];
        }
        indexed := indexed + {startIdx + idx};
      }
      return true;
    }

    /** extend_lines: more lines to copy from, of which only the marked ones are indexed. */
    method ExtendLines(newLines: seq<Bytes>, index: seq<bool>) returns (ok: bool)
      requires Valid()
      modifies this
      ensures Valid() && (ok <==> |newLines| == |index|)
      ensures !ok ==> lines == old(lines) && indexed == old(indexed)
      ensures ok ==> lines == old(lines) + newLines
      ensures ok ==> forall loc :: loc in indexed <==>
        (loc in old(indexed) || (|old(lines)| <= loc < |lines| && index[loc - |old(lines)|]))
    {
      hide Join, Indexes;
      ok := UpdateMatchingLines(newLines, index);
      if !ok {
        return;
      }
      ghost var before := lines;
      lines := lines + newLines;
      var end := endpoint;
      OffsetsKept(before, newLines, lineOffsets);
      for i := 0 to |newLines|
        modifies this`lineOffsets
        invariant end == |Join(before + newLines[..i])| && |lineOffsets| == |before| + i
        invariant forall k :: 0 <= k < |before| + i ==> lineOffsets[k] == ByteOf(lines, k + 1)
      {
        assert lines[..|before| + i + 1] == before + newLines[..i + 1] == (before + newLines[..i]) + [newLines[i]];
        JoinOne(before + newLines[..i], newLines[i]);
        end := end + |newLines[i]|;
        lineOffsets := lineOffsets + [end];
      }
      assert newLines[..|newLines|] == newLines;
      endpoint := end;
    }

    /** _get_longest_match: the first of the longest runs of indexed lines that start target[pos..],
        and where to go on. */
    method GetLongestMatch(target: seq<Bytes>, pos: nat) returns (block: Option<CopyBlock>, next: nat)
      requires Valid() && pos < |target|
      ensures pos < next <= |target|
      ensures block.None? ==> next == pos + 1 && NoRunOf(lines, indexed, target, pos, 1)
      ensures block.Some? ==>
        var n := block.value.length;
        && block.value.newStart == pos && n > 0 && pos + n <= next <= pos + n + 1
        && RunEndsAt(lines, indexed, target, pos, n, block.value.oldStart + n - 1)
        && (forall e :: RunEndsAt(lines, indexed, target, pos, n, e) ==> block.value.oldStart + n - 1 <= e)
        && (pos + n == |target| || NoRunOf(lines, indexed, target, pos, n + 1))
        && (next == pos + n + 1 ==> NoRunOf(lines, indexed, target, pos + n, 1))
    {
      hide Join, RunEndsAt;
      var rangeLen: nat, prev: set<nat> := 0, {};
      next := pos;
      while next < |target|
        invariant next == pos + rangeLen <= |target| && (prev == {} <==> rangeLen == 0)
        invariant rangeLen > 0 ==> forall e :: e in prev <==> RunEndsAt(lines, indexed, target, pos, rangeLen, e)
        decreases |target| - next
      {
        if target[next] !in matchingLines {
          NoRun(lines, indexed, matchingLines, target, next);
          if rangeLen > 0 { NoLongerRun(lines, indexed, matchingLines, target, pos, rangeLen); }
          next := next + 1;
          break;
        }
        var locations := matchingLines[target[next]];
        if prev == {} {
          RunsStart(lines, indexed, matchingLines, target, pos);
          prev := locations;
          rangeLen := 1;
        } else {
          var continued := set loc | loc in prev && loc + 1 in locations :: loc + 1;
          RunsContinue(lines, indexed, matchingLines, target, pos, rangeLen, prev, continued);
          if continued == {} {
            break;
          }
          prev := continued;
          rangeLen := rangeLen + 1;
        }
        next := next + 1;
      }
      if prev == {} {
        return None, next;
      }
      var smallest := MinOf(prev);
      RunHasRoom(lines, indexed, target, pos, rangeLen, smallest);
      return Some(CopyBlock(smallest - rangeLen + 1, pos, rangeLen)), next;
    }

    /** get_matching_blocks: runs worth copying, by the number of bytes they save, and the closing block. */
    method GetMatchingBlocks(target: seq<Bytes>, soft: bool) returns (result: seq<CopyBlock>)
      requires Valid()
      ensures GoodBlocks(lines, target, result, 0)
      ensures forall k :: 0 <= k < |result| - 1 ==> WorthCopying(target, result[k], if soft then 200 else 10)
      ensures Greedy(lines, indexed, target, if soft then 200 else 10, result, |target|)
    {
      hide Join, RunEndsAt, Indexes, GoodBlocks, BlocksSoFar, WorthCopying, Greedy, Taken, NoRunOf;
      result := [];
      var pos := 0;
      var minMatchBytes := if soft then 200 else 10;
      NoBlocksYet(lines, target);
      GreedyStart(lines, indexed, target, minMatchBytes);
      while pos < |target|
        invariant 0 <= pos <= |target| && BlocksSoFar(lines, target, result, pos)
        invariant forall k :: 0 <= k < |result| ==> WorthCopying(target, result[k], minMatchBytes)
        invariant Greedy(lines, indexed, target, minMatchBytes, result, pos)
        decreases |target| - pos
      {
        var block, next := GetLongestMatch(target, pos);
        ghost var found := block;
        if block.Some? {
          var b := block.value;
          RunIsBlock(lines, indexed, target, b);
          RunIsTaken(lines, indexed, target, b);
          WorthIs(target, b, minMatchBytes);
          if b.length < minMatchBytes {
            var matchedBytes := |Join(target[b.newStart..b.newStart + b.length])|;
            if matchedBytes < minMatchBytes {
              block := None;
            }
          }
        }
        GreedyStep(lines, indexed, target, minMatchBytes, result, pos, found, block.Some?, next);
        if block.Some? {
          OneMoreBlock(lines, target, result, pos, block.value, next, minMatchBytes);
          result := result + [block.value];
        } else {
          LaterPosition(lines, target, result, pos, next);
        }
        pos := next;
      }
      CloseBlocks(lines, target, result, 0);
      GreedyCloses(lines, indexed, target, minMatchBytes, result, CopyBlock(|lines|, |target|, 0));
      result := result + [CopyBlock(|lines|, |target|, 0)];
    }

    /** make_delta: the output lines, their index flags and the blocks they were made from. */
    method MakeDelta(target: seq<Bytes>, bytesLength: Option<nat>, soft: bool)
      returns (outLines: seq<Bytes>, indexLines: seq<bool>, ghost blocks: seq<CopyBlock>)
      requires Valid()
      ensures |outLines| == |indexLines| && GoodBlocks(lines, target, blocks, 0)
      ensures Greedy(lines, indexed, target, if soft then 200 else 10, blocks, |target|)
      ensures Join(outLines) == Base128(if bytesLength.Some? then bytesLength.value else |Join(target)|)
                                + Raw(BlocksOut(lines, target, blocks, 0, 10))
      ensures Flagged(outLines, indexLines) ==
                HeaderOut(Base128(if bytesLength.Some? then bytesLength.value else |Join(target)|))
                + BlocksOut(lines, target, blocks, 0, 10)
    {
      hide Join, Indexes, GoodBlocks, BlocksOut, Raw, Base128, Greedy;
      var length := if bytesLength.Some? then bytesLength.value else |Join(target)|;
      var header := EncodeBase128Int(length);
      var handler := new OutputHandler([[], [], header], [false, false, false], 10);
      assert handler.emitted == HeaderOut(header);
      RawHeader(handler.emitted, header);
      var todo := GetMatchingBlocks(target, soft);
      blocks := todo;
      ghost var start := handler.emitted;
      WriteBlocks(target, todo, handler);
      RawConcat(start, BlocksOut(lines, target, blocks, 0, 10));
      RawIsJoin(handler.emitted, handler.outLines);
      outLines, indexLines := handler.outLines, handler.indexLines;
    }

    /** The loop of make_delta: insert what lies before each block, copy the block. */
    method WriteBlocks(target: seq<Bytes>, blocks: seq<CopyBlock>, handler: OutputHandler)
      requires Valid() && GoodBlocks(lines, target, blocks, 0)
      requires handler.Valid() && handler.curInsertLines == [] && handler.minLenToIndex == 10
      modifies handler
      ensures handler.Valid() && handler.emitted == old(handler.emitted) + BlocksOut(lines, target, blocks, 0, 10)
    {
      hide Join, Indexes, GoodBlocks, BlocksOut, CopyOut, InsertOut, ByteOf, GoodRest, RestOut;
      ghost var start := handler.emitted;
      var cur := 0;
      BlocksFromStart(lines, target, blocks);
      for k := 0 to |blocks|
        modifies handler
        invariant handler.Valid() && handler.curInsertLines == []
        invariant 0 <= cur <= |target| && GoodRest(lines, target, blocks, k, cur)
        invariant start + BlocksOut(lines, target, blocks, 0, 10) == handler.emitted + RestOut(lines, target, blocks, k, cur, 10)
      {
        var b := blocks[k];
        BlocksStep(lines, target, blocks, k, cur);
        if b.newStart != cur {
          var ok := handler.AddInsert(target[cur..b.newStart]);
        }
        cur := b.newStart + b.length;
        if b.length != 0 {
          FirstByte(lines);
          var firstByte := if b.oldStart == 0 then 0 else lineOffsets[b.oldStart - 1];
          var lastByte := lineOffsets[b.oldStart + b.length - 1];
          handler.AddCopy(firstByte, lastByte);
        }
      }
      RestIsNothing(lines, target, blocks, cur);
    }
  }

  lemma FirstByte(lines: seq<Bytes>)
    ensures ByteOf(lines, 0) == 0
  {
  }

  lemma NoBlocksYet(source: seq<Bytes>, target: seq<Bytes>)
    ensures BlocksSoFar(source, target, [], 0)
  {
  }

  lemma RunIsBlock(lines: seq<Bytes>, indexed: set<nat>, target: seq<Bytes>, b: CopyBlock)
    requires b.length > 0 && RunEndsAt(lines, indexed, target, b.newStart, b.length, b.oldStart + b.length - 1)
    ensures IsMatch(lines, target, b)
  {
    RunIsEqual(lines, indexed, target, b.newStart, b.length, b.oldStart + b.length - 1);
  }

  lemma OneMoreBlock(source: seq<Bytes>, target: seq<Bytes>, blocks: seq<CopyBlock>, pos: nat, b: CopyBlock, next: nat, minBytes: nat)
    requires BlocksSoFar(source, target, blocks, pos) && IsMatch(source, target, b)
    requires pos == b.newStart && b.newStart + b.length <= next <= |target|
    requires b.length >= minBytes || |Join(target[b.newStart..b.newStart + b.length])| >= minBytes
    ensures BlocksSoFar(source, target, blocks + [b], next) && WorthCopying(target, b, minBytes)
  {
    hide Join, IsMatch;
    LaterPosition(source, target, blocks, pos, next);
  }

  lemma LaterPosition(source: seq<Bytes>, target: seq<Bytes>, blocks: seq<CopyBlock>, pos: nat, next: nat)
    requires BlocksSoFar(source, target, blocks, pos) && pos <= next <= |target|
    ensures BlocksSoFar(source, target, blocks, next)
  {
    hide IsMatch;
  }

  lemma RunHasRoom(lines: seq<Bytes>, indexed: set<nat>, target: seq<Bytes>, pos: nat, n: nat, e: nat)
    requires RunEndsAt(lines, indexed, target, pos, n, e)
    ensures n <= e + 1 && e < |lines|
  {
  }

  lemma NoRun(lines: seq<Bytes>, indexed: set<nat>, matching: map<Bytes, set<nat>>, target: seq<Bytes>, pos: nat)
    requires Indexes(lines, indexed, matching) && pos < |target| && target[pos] !in matching
    ensures NoRunOf(lines, indexed, target, pos, 1)
  {
    forall e: nat ensures !RunEndsAt(lines, indexed, target, pos, 1, e) {
      if e < |lines| { RunStarts(lines, indexed, target, pos, e); }
    }
  }

  lemma RunsStart(lines: seq<Bytes>, indexed: set<nat>, matching: map<Bytes, set<nat>>, target: seq<Bytes>, pos: nat)
    requires Indexes(lines, indexed, matching) && pos < |target| && target[pos] in matching
    ensures forall e :: e in matching[target[pos]] <==> RunEndsAt(lines, indexed, target, pos, 1, e)
  {
    forall e: nat ensures e in matching[target[pos]] <==> RunEndsAt(lines, indexed, target, pos, 1, e) {
      if e < |lines| { RunStarts(lines, indexed, target, pos, e); }
    }
  }

  lemma RunsContinue(lines: seq<Bytes>, indexed: set<nat>, matching: map<Bytes, set<nat>>, target: seq<Bytes>, pos: nat, n: nat,
                     prev: set<nat>, continued: set<nat>)
    requires Indexes(lines, indexed, matching) && n > 0 && pos + n < |target| && target[pos + n] in matching
    requires forall e :: e in prev <==> RunEndsAt(lines, indexed, target, pos, n, e)
    requires continued == set loc | loc in prev && loc + 1 in matching[target[pos + n]] :: loc + 1
    ensures forall e :: e in continued <==> RunEndsAt(lines, indexed, target, pos, n + 1, e)
    ensures continued == {} ==> NoRunOf(lines, indexed, target, pos, n + 1)
  {
    var more := n + 1;
    forall e: nat ensures e in continued <==> RunEndsAt(lines, indexed, target, pos, more, e) {
      if 0 < e < |lines| {
        RunExtends(lines, indexed, target, pos, n, e - 1);
        assert e in continued <==> e - 1 in prev && e in matching[target[pos + n]];
      }
    }
    if continued == {} {
      forall e: nat ensures !RunEndsAt(lines, indexed, target, pos, more, e) {
        assert e !in continued;
      }
    }
  }

  lemma NoLongerRun(lines: seq<Bytes>, indexed: set<nat>, matching: map<Bytes, set<nat>>, target: seq<Bytes>, pos: nat, n: nat)
    requires Indexes(lines, indexed, matching) && n > 0 && pos + n < |target| && target[pos + n] !in matching
    ensures NoRunOf(lines, indexed, target, pos, n + 1)
  {
    var more := n + 1;
    forall e: nat ensures !RunEndsAt(lines, indexed, target, pos, more, e) {
      if 0 < e < |lines| { RunExtends(lines, indexed, target, pos, n, e - 1); }
    }
  }

  lemma OffsetsKept(before: seq<Bytes>, more: seq<Bytes>, offsets: seq<nat>)
    requires |offsets| == |before| && forall i :: 0 <= i < |before| ==> offsets[i] == ByteOf(before, i + 1)
    ensures forall i :: 0 <= i < |before| ==> offsets[i] == ByteOf(before + more, i + 1)
    ensures before + more[..0] == before
  {
    forall i | 0 <= i < |before| ensures offsets[i] == ByteOf(before + more, i + 1) {
      assert (before + more)[..i + 1] == before[..i + 1];
    }
  }

  // ---------------------------------------------------------------------------
  // From blocks found one by one to a good block list
  // ---------------------------------------------------------------------------

  /** A run of enough lines, or of enough bytes. */
  ghost predicate WorthCopying(target: seq<Bytes>, b: CopyBlock, minBytes: nat) {
    && b.newStart + b.length <= |target|
    && (b.length >= minBytes || |Join(target[b.newStart..b.newStart + b.length])| >= minBytes)
  }

  /** The longest run of indexed lines at its place in the target, at its first place in the index. */
  ghost predicate Taken(lines: seq<Bytes>, indexed: set<nat>, target: seq<Bytes>, b: CopyBlock) {
    && b.length > 0 && RunEndsAt(lines, indexed, target, b.newStart, b.length, b.oldStart + b.length - 1)
    && (forall e :: RunEndsAt(lines, indexed, target, b.newStart, b.length, e) ==> b.oldStart + b.length - 1 <= e)
    && (b.newStart + b.length == |target| || NoRunOf(lines, indexed, target, b.newStart, b.length + 1))
  }

  ghost predicate InBlock(b: CopyBlock, j: int) {
    b.newStart <= j < b.newStart + b.length
  }

  /** No indexed line equals new line j, or it is in a longest run that is not worth copying. */
  ghost predicate Passed(lines: seq<Bytes>, indexed: set<nat>, target: seq<Bytes>, minBytes: nat, j: nat) {
    || NoRunOf(lines, indexed, target, j, 1)
    || exists b :: InBlock(b, j) && Taken(lines, indexed, target, b) && !WorthCopying(target, b, minBytes)
  }

  /** Each block is a longest run worth copying, and before pos every other new line had to be passed. */
  ghost predicate Greedy(lines: seq<Bytes>, indexed: set<nat>, target: seq<Bytes>, minBytes: nat, blocks: seq<CopyBlock>, pos: nat) {
    && (forall k :: 0 <= k < |blocks| && blocks[k].length > 0 ==>
          Taken(lines, indexed, target, blocks[k]) && WorthCopying(target, blocks[k], minBytes))
    && forall j: nat :: j < pos ==>
         (exists k :: 0 <= k < |blocks| && InBlock(blocks[k], j)) || Passed(lines, indexed, target, minBytes, j)
  }

  lemma WorthIs(target: seq<Bytes>, b: CopyBlock, minBytes: nat)
    requires b.newStart + b.length <= |target|
    ensures WorthCopying(target, b, minBytes) <==>
              b.length >= minBytes || |Join(target[b.newStart..b.newStart + b.length])| >= minBytes
  {
    hide Join;
  }

  lemma GreedyStart(lines: seq<Bytes>, indexed: set<nat>, target: seq<Bytes>, minBytes: nat)
    ensures Greedy(lines, indexed, target, minBytes, [], 0)
  {
  }

  lemma RunIsTaken(lines: seq<Bytes>, indexed: set<nat>, target: seq<Bytes>, b: CopyBlock)
    requires b.length > 0 && RunEndsAt(lines, indexed, target, b.newStart, b.length, b.oldStart + b.length - 1)
    requires forall e :: RunEndsAt(lines, indexed, target, b.newStart, b.length, e) ==> b.oldStart + b.length - 1 <= e
    requires b.newStart + b.length == |target| || NoRunOf(lines, indexed, target, b.newStart, b.length + 1)
    ensures Taken(lines, indexed, target, b)
  {
    hide RunEndsAt, NoRunOf;
  }

  lemma GreedyStep(lines: seq<Bytes>, indexed: set<nat>, target: seq<Bytes>, minBytes: nat, blocks: seq<CopyBlock>, pos: nat,
                   found: Option<CopyBlock>, kept: bool, next: nat)
    requires Greedy(lines, indexed, target, minBytes, blocks, pos) && pos < next && (kept ==> found.Some?)
    requires found.None? ==> next == pos + 1 && NoRunOf(lines, indexed, target, pos, 1)
    requires found.Some? ==>
               var b := found.value;
               && b.newStart == pos && Taken(lines, indexed, target, b) && (kept <==> WorthCopying(target, b, minBytes))
               && pos + b.length <= next <= pos + b.length + 1
               && (next == pos + b.length + 1 ==> NoRunOf(lines, indexed, target, pos + b.length, 1))
    ensures Greedy(lines, indexed, target, minBytes, if kept then blocks + [found.value] else blocks, next)
  {
    hide Taken, NoRunOf, WorthCopying;
    var after := if kept then blocks + [found.value] else blocks;
    forall j: nat | j < next
      ensures (exists k :: 0 <= k < |after| && InBlock(after[k], j)) || Passed(lines, indexed, target, minBytes, j)
    {
      if j < pos {
        if k :| 0 <= k < |blocks| && InBlock(blocks[k], j) { assert InBlock(after[k], j); }
      } else if found.Some? && j < pos + found.value.length {
        assert InBlock(found.value, j);
        if kept { assert InBlock(after[|blocks|], j); }
      }
    }
  }

  lemma GreedyCloses(lines: seq<Bytes>, indexed: set<nat>, target: seq<Bytes>, minBytes: nat, blocks: seq<CopyBlock>, closing: CopyBlock)
    requires Greedy(lines, indexed, target, minBytes, blocks, |target|) && closing.length == 0
    ensures Greedy(lines, indexed, target, minBytes, blocks + [closing], |target|)
  {
    hide Taken, Passed, WorthCopying;
    var after := blocks + [closing];
    forall j: nat | j < |target|
      ensures (exists k :: 0 <= k < |after| && InBlock(after[k], j)) || Passed(lines, indexed, target, minBytes, j)
    {
      if k :| 0 <= k < |blocks| && InBlock(blocks[k], j) { assert InBlock(after[k], j); }
    }
  }

  /** A non-empty run of equal lines. */
  ghost predicate IsMatch(source: seq<Bytes>, target: seq<Bytes>, b: CopyBlock) {
    && b.length > 0 && b.newStart + b.length <= |target| && b.oldStart + b.length <= |source|
    && source[b.oldStart..b.oldStart + b.length] == target[b.newStart..b.newStart + b.length]
  }

  /** The blocks found before new line pos. */
  ghost predicate BlocksSoFar(source: seq<Bytes>, target: seq<Bytes>, blocks: seq<CopyBlock>, pos: nat) {
    && pos <= |target|
    && (forall k :: 0 <= k < |blocks| ==> IsMatch(source, target, blocks[k]) && blocks[k].newStart + blocks[k].length <= pos)
    && forall i, j :: 0 <= i < j < |blocks| ==> blocks[i].newStart + blocks[i].length <= blocks[j].newStart
  }

  lemma {:induction false} CloseBlocks(source: seq<Bytes>, target: seq<Bytes>, blocks: seq<CopyBlock>, cur: nat)
    requires BlocksSoFar(source, target, blocks, |target|) && cur <= |target|
    requires blocks != [] ==> cur <= blocks[0].newStart
    ensures GoodBlocks(source, target, blocks + [CopyBlock(|source|, |target|, 0)], cur)
  {
    hide GoodBlocks;
    var closing := CopyBlock(|source|, |target|, 0);
    if blocks == [] {
      assert blocks + [closing] == [closing];
      ClosingBlock(source, target, cur);
    } else {
      var next := blocks[0].newStart + blocks[0].length;
      assert |blocks| > 1 ==> next <= blocks[1].newStart;
      RestSoFar(source, target, blocks);
      CloseBlocks(source, target, blocks[1..], next);
      assert (blocks + [closing])[1..] == blocks[1..] + [closing];
      FirstBlock(source, target, blocks + [closing], cur);
    }
  }

  lemma ClosingBlock(source: seq<Bytes>, target: seq<Bytes>, cur: nat)
    requires cur <= |target|
    ensures GoodBlocks(source, target, [CopyBlock(|source|, |target|, 0)], cur)
  {
    assert source[|source|..|source|] == target[|target|..|target|] == [];
  }

  lemma RestSoFar(source: seq<Bytes>, target: seq<Bytes>, blocks: seq<CopyBlock>)
    requires BlocksSoFar(source, target, blocks, |target|) && blocks != []
    ensures BlocksSoFar(source, target, blocks[1..], |target|)
    ensures IsMatch(source, target, blocks[0])
  {
    hide IsMatch;
  }

  lemma FirstBlock(source: seq<Bytes>, target: seq<Bytes>, blocks: seq<CopyBlock>, cur: nat)
    requires |blocks| > 1 && cur <= blocks[0].newStart && IsMatch(source, target, blocks[0])
    requires GoodBlocks(source, target, blocks[1..], blocks[0].newStart + blocks[0].length)
    ensures GoodBlocks(source, target, blocks, cur)
  {
  }

  /** The blocks from k on are good from new line cur on; after the last one nothing is left. */
  ghost predicate GoodRest(source: seq<Bytes>, target: seq<Bytes>, blocks: seq<CopyBlock>, k: nat, cur: nat) {
    k <= |blocks| && (k < |blocks| ==> GoodBlocks(source, target, blocks[k..], cur))
  }

  ghost function RestOut(source: seq<Bytes>, target: seq<Bytes>, blocks: seq<CopyBlock>, k: nat, cur: nat, minIndexed: nat): seq<OutLine>
    requires GoodRest(source, target, blocks, k, cur)
  {
    BlocksOut(source, target, blocks[k..], cur, minIndexed)
  }

  lemma BlocksFromStart(source: seq<Bytes>, target: seq<Bytes>, blocks: seq<CopyBlock>)
    requires GoodBlocks(source, target, blocks, 0)
    ensures GoodRest(source, target, blocks, 0, 0)
    ensures RestOut(source, target, blocks, 0, 0, 10) == BlocksOut(source, target, blocks, 0, 10)
  {
    assert blocks[0..] == blocks;
  }

  lemma RestIsNothing(source: seq<Bytes>, target: seq<Bytes>, blocks: seq<CopyBlock>, cur: nat)
    requires GoodRest(source, target, blocks, |blocks|, cur)
    ensures RestOut(source, target, blocks, |blocks|, cur, 10) == []
  {
  }

  lemma BlocksStep(source: seq<Bytes>, target: seq<Bytes>, blocks: seq<CopyBlock>, k: nat, cur: nat)
    requires k < |blocks| && GoodRest(source, target, blocks, k, cur) && cur <= |target|
    ensures var b := blocks[k];
      && cur <= b.newStart && b.newStart + b.length <= |target| && b.oldStart + b.length <= |source|
      && GoodRest(source, target, blocks, k + 1, b.newStart + b.length)
      && |Join([])| == 0
      && RestOut(source, target, blocks, k, cur, 10) ==
           (if b.newStart == cur then [] else InsertOut(target[cur..b.newStart], [], 10))
           + (if b.length == 0 then [] else CopyOut(ByteOf(source, b.oldStart), ByteOf(source, b.oldStart + b.length)))
           + RestOut(source, target, blocks, k + 1, b.newStart + b.length, 10)
  {
    hide Join, CopyOut;
    JoinNothing();
    var rest := blocks[k..];
    assert rest[0] == blocks[k] && rest[1..] == blocks[k + 1..];
    var b := blocks[k];
    if b.newStart == cur { assert target[cur..b.newStart] == []; }
    if b.length == 0 { CopyOutEnds(ByteOf(source, b.oldStart), ByteOf(source, b.oldStart)); }
  }

  lemma RawHeader(emitted: seq<OutLine>, header: Bytes)
    requires |emitted| == 3 && emitted[0].bytes == [] && emitted[1].bytes == [] && emitted[2].bytes == header
    ensures Raw(emitted) == header
  {
    hide Raw;
    RawUnfolds(emitted);
    RawUnfolds(emitted[1..]);
    RawUnfolds(emitted[1..][1..]);
    assert emitted[1..][1..] == [emitted[2]] && [emitted[2]][1..] == [];
    RawNothing();
    assert header + [] == header;
  }

  lemma {:induction false} RawIsJoin(emitted: seq<OutLine>, lines: seq<Bytes>)
    requires |emitted| == |lines| && forall i :: 0 <= i < |lines| ==> emitted[i].bytes == lines[i]
    ensures Raw(emitted) == Join(lines)
  {
    if lines != [] { RawIsJoin(emitted[1..], lines[1..]); }
  }

  // ---------------------------------------------------------------------------
  // The round trip
  // ---------------------------------------------------------------------------

  /** What applying a delta gives, for every index, target, claimed length and choice of blocks: command
      0 if some insert is made up of empty lines, an error if the claimed length is wrong, and otherwise a
      text of the right length, which is the target exactly if every block is copied right.  That is so if
      all copies are in reach. */
  lemma DeltaOutcome(source: seq<Bytes>, target: seq<Bytes>, blocks: seq<CopyBlock>, length: nat, delta: Bytes)
    requires GoodBlocks(source, target, blocks, 0)
    requires delta == Base128(length) + Raw(BlocksOut(source, target, blocks, 0, 10))
    ensures Apply(Join(source), delta) ==
      if EmptyInsert(target, blocks, 0) then Err(ZeroCommand)
      else if length != |Join(target)| then Err(WrongLength)
      else Ok(Rebuilt(source, target, blocks, 0))
    ensures Rebuilt(source, target, blocks, 0) == Join(target) <==> AllCopiedRight(source, blocks)
    ensures CopiesInReach(source, blocks) ==> AllCopiedRight(source, blocks)
  {
    hide Join, Raw, BlocksOut, GoodBlocks, EmptyInsert, Exec, Base128, ParseBase128, Rebuilt, CopiesInReach, AllCopiedRight;
    if CopiesInReach(source, blocks) { InReachIsRight(source, blocks); }
    Base128RoundTrip(length, Raw(BlocksOut(source, target, blocks, 0, 10)));
    ExecBlocks(source, target, blocks, 0, 10);
    RebuiltIsTarget(source, target, blocks, 0);
    assert target[0..] == target;
  }

  /** Deltas of non-empty lines are accepted and rebuild their target exactly if every block is copied right,
      as it is if all copies are in reach. */
  lemma DeltaRebuildsTarget(source: seq<Bytes>, target: seq<Bytes>, blocks: seq<CopyBlock>, delta: Bytes)
    requires GoodBlocks(source, target, blocks, 0)
    requires delta == Base128(|Join(target)|) + Raw(BlocksOut(source, target, blocks, 0, 10))
    requires forall k :: 0 <= k < |target| ==> target[k] != []
    ensures Apply(Join(source), delta) == Ok(Join(target)) <==> AllCopiedRight(source, blocks)
    ensures CopiesInReach(source, blocks) ==> Apply(Join(source), delta) == Ok(Join(target))
  {
    hide Join, Raw, BlocksOut, GoodBlocks, CopiesInReach, AllCopiedRight;
    DeltaOutcome(source, target, blocks, |Join(target)|, delta);
    NoEmptyInsert(target, blocks, 0);
  }

  /** The smallest failure: a target of one empty line, which no other line joins. */
  lemma EmptyLineIsRefused()
    ensures GoodBlocks([], [[]], [CopyBlock(0, 1, 0)], 0)
    ensures Apply(Join([]), Base128(0) + Raw(BlocksOut([], [[]], [CopyBlock(0, 1, 0)], 0, 10))) == Err(ZeroCommand)
  {
    EmptyLineIsGroup();
    hide *;
    JoinNothing();
    DeltaOutcome([], [[]], [CopyBlock(0, 1, 0)], 0, Base128(0) + Raw(BlocksOut([], [[]], [CopyBlock(0, 1, 0)], 0, 10)));
  }

  lemma EmptyLineIsGroup()
    ensures GoodBlocks([], [[]], [CopyBlock(0, 1, 0)], 0)
    ensures EmptyInsert([[]], [CopyBlock(0, 1, 0)], 0)
  {
    var target: seq<Bytes> := [[]];
    assert target[0..1] == target && target[1..] == [];
    assert Join([[]]) == [];
    assert EmptyGroup(target[1..], [] + [[]]);
    assert EmptyGroup(target, []);
  }

  const NEWLINE: Byte := 10

  /** split_lines: each line with its newline, the last one possibly without. */
  function SplitLines(text: Bytes): (lines: seq<Bytes>)
    ensures Join(lines) == text
    ensures forall k :: 0 <= k < |lines| ==> lines[k] != []
  {
    if text == [] then []
    else
      var n := LineLength(text);
      [text[..n]] + SplitLines(text[n..])
  }

  function LineLength(text: Bytes): (n: nat)
    requires text != []
    ensures 0 < n <= |text|
    ensures forall k :: 0 <= k < n - 1 ==> text[k] != NEWLINE
    ensures n < |text| ==> text[n - 1] == NEWLINE
  {
    if text[0] == NEWLINE || |text| == 1 then 1 else 1 + LineLength(text[1..])
  }

  /** make_delta on byte strings: applying the result to the source always gives a text, and the target
      whenever the copies are in reach, as in every source of up to 2^32 bytes. */
  method MakeDeltaOfBytes(source: Bytes, target: Bytes) returns (delta: Bytes, ghost blocks: seq<CopyBlock>)
    ensures GoodBlocks(SplitLines(source), SplitLines(target), blocks, 0)
    ensures Apply(source, delta) == Ok(Rebuilt(SplitLines(source), SplitLines(target), blocks, 0))
    ensures Apply(source, delta) == Ok(target) <==> AllCopiedRight(SplitLines(source), blocks)
    ensures CopiesInReach(SplitLines(source), blocks) ==> Apply(source, delta) == Ok(target)
    ensures |source| <= OFFSETS ==> Apply(source, delta) == Ok(target)
  {
    hide Join, Raw, BlocksOut, GoodBlocks, Apply, Base128, Indexes, Rebuilt, CopiesInReach, AllCopiedRight;
    var index := new LinesDeltaIndex(SplitLines(source));
    var outLines, flags: seq<bool>;
    outLines, flags, blocks := index.MakeDelta(SplitLines(target), Some(|target|), false);
    delta := Join(outLines);
    DeltaOutcome(SplitLines(source), SplitLines(target), blocks, |target|, delta);
    NoEmptyInsert(SplitLines(target), blocks, 0);
    if |source| <= OFFSETS { SmallSourceInReach(SplitLines(source), blocks); }
  }
}
