/** Annotating new lines from already annotated parents: reannotate() of bzrlib/annotate.py. */
module Reannotating {
  import opened Basics
  import opened PatienceMatches
  import opened PatienceBlocks
  import opened PatienceDiffPy

  type Revision = int

  /** A line and the revision it is attributed to. */
  datatype Tagged = Tagged(origin: Revision, text: string)

  /** heads() of two different revisions: one or both of them. */
  type HeadsProvider = (Revision, Revision) -> set<Revision>

  ghost predicate IsHeads(heads: HeadsProvider) {
    forall a, b :: heads(a, b) <= {a, b} && (a in heads(a, b) || b in heads(a, b))
  }

  ghost predicate IsText(lines: seq<Tagged>, text: seq<string>) {
    |lines| == |text| && forall j :: 0 <= j < |lines| ==> lines[j].text == text[j]
  }

  function Plain(lines: seq<Tagged>): (text: seq<string>)
    ensures IsText(lines, text)
  {
    seq(|lines|, i requires 0 <= i < |lines| => lines[i].text)
  }

  // ---------------------------------------------------------------------------
  // Specification
  // ---------------------------------------------------------------------------

  /** The texts are the new lines, each attributed to the new revision or to an origin that some
      parent gives to that same text. */
  ghost predicate IsReannotation(parents: seq<seq<Tagged>>, newLines: seq<string>, rev: Revision, lines: seq<Tagged>) {
    IsText(lines, newLines) && forall j :: 0 <= j < |lines| ==> lines[j].origin == rev || Claimed(parents, lines[j])
  }

  ghost predicate Claimed(parents: seq<seq<Tagged>>, line: Tagged) {
    exists p :: 0 <= p < |parents| && line in parents[p]
  }

  ghost predicate In(block: Block, j: int) {
    block.b <= j < block.b + block.len
  }

  /** Line j is the matching line of the parent, or new. */
  ghost predicate LineFrom(parent: seq<Tagged>, newLines: seq<string>, rev: Revision, blocks: seq<Block>, line: Tagged, j: int) {
    && 0 <= j < |newLines|
    && (forall k :: 0 <= k < |blocks| && In(blocks[k], j) ==>
          && 0 <= blocks[k].a + (j - blocks[k].b) < |parent|
          && line == parent[blocks[k].a + (j - blocks[k].b)])
    && ((forall k :: 0 <= k < |blocks| ==> !In(blocks[k], j)) ==> line == Tagged(rev, newLines[j]))
  }

  ghost predicate FromParent(parent: seq<Tagged>, newLines: seq<string>, rev: Revision, blocks: seq<Block>, lines: seq<Tagged>) {
    |lines| == |newLines| && forall j :: 0 <= j < |lines| ==> LineFrom(parent, newLines, rev, blocks, lines[j], j)
  }

  /** A single parent gives only what it has. */
  lemma FromParentIsReannotation(parent: seq<Tagged>, newLines: seq<string>, rev: Revision, blocks: seq<Block>, lines: seq<Tagged>)
    requires FromParent(parent, newLines, rev, blocks, lines) && IsBlockList(Plain(parent), newLines, blocks)
    ensures IsReannotation([parent], newLines, rev, lines)
  {
    hide IsBlockList, BlocksMatch;
    forall j | 0 <= j < |lines|
      ensures lines[j].text == newLines[j] && (lines[j].origin == rev || Claimed([parent], lines[j]))
    {
      assert LineFrom(parent, newLines, rev, blocks, lines[j], j);
      if k :| 0 <= k < |blocks| && In(blocks[k], j) {
        BlockIsSame(Plain(parent), newLines, blocks, k, j);
        assert lines[j] in [parent][0];
      }
    }
  }

  lemma BlockIsSame(a: seq<string>, b: seq<string>, blocks: seq<Block>, k: nat, j: int)
    requires IsBlockList(a, b, blocks) && k < |blocks| && In(blocks[k], j)
    ensures 0 <= blocks[k].a + (j - blocks[k].b) < |a| && 0 <= j < |b|
    ensures a[blocks[k].a + (j - blocks[k].b)] == b[j]
  {
    assert SameLines(a, b, blocks[k].a, blocks[k].b, blocks[k].len);
    var t := j - blocks[k].b;
    assert 0 <= t < blocks[k].len;
  }

  // ---------------------------------------------------------------------------
  // _reannotate: one parent
  // ---------------------------------------------------------------------------

  /** The lines before block i. */
  ghost predicate Emitted(parent: seq<Tagged>, newLines: seq<string>, rev: Revision, blocks: seq<Block>, i: nat, lines: seq<Tagged>) {
    && i <= |blocks| && |lines| == (if i == 0 then 0 else blocks[i - 1].b + blocks[i - 1].len) <= |newLines|
    && forall j :: 0 <= j < |lines| ==> LineFrom(parent, newLines, rev, blocks, lines[j], j)
  }

  /** In a block list no other block covers the lines of a block, and none the gap before it. */
  lemma OneBlock(a: seq<string>, b: seq<string>, blocks: seq<Block>, i: nat, j: int, k: nat)
    requires IsBlockList(a, b, blocks) && i < |blocks| && k < |blocks|
    ensures In(blocks[i], j) && In(blocks[k], j) ==> k == i
    ensures (if i == 0 then 0 else blocks[i - 1].b + blocks[i - 1].len) <= j < blocks[i].b ==> !In(blocks[k], j)
  {
    if k < i - 1 { assert blocks[k].b + blocks[k].len <= blocks[i - 1].b; }
    assert k < i ==> blocks[k].b + blocks[k].len <= blocks[i].b;
    assert i < k ==> blocks[i].b + blocks[i].len <= blocks[k].b;
    assert SameLines(a, b, blocks[i].a, blocks[i].b, blocks[i].len);
    if i > 0 { assert SameLines(a, b, blocks[i - 1].a, blocks[i - 1].b, blocks[i - 1].len); }
  }

  lemma EmitOne(parent: seq<Tagged>, newLines: seq<string>, rev: Revision, blocks: seq<Block>, i: nat, lines: seq<Tagged>, more: seq<Tagged>)
    requires IsBlockList(Plain(parent), newLines, blocks) && i < |blocks| && Emitted(parent, newLines, rev, blocks, i, lines)
    requires |lines| <= blocks[i].b && 0 <= blocks[i].a && 0 <= blocks[i].len && blocks[i].a + blocks[i].len <= |parent|
    requires blocks[i].b + blocks[i].len <= |newLines|
    requires |more| == blocks[i].b - |lines| && forall t :: 0 <= t < |more| ==> more[t] == Tagged(rev, newLines[|lines| + t])
    ensures Emitted(parent, newLines, rev, blocks, i + 1, lines + more + parent[blocks[i].a..blocks[i].a + blocks[i].len])
  {
    hide IsBlockList, Plain;
    var block := blocks[i];
    var out := lines + more + parent[block.a..block.a + block.len];
    forall j | |lines| <= j < |out| ensures LineFrom(parent, newLines, rev, blocks, out[j], j) {
      forall k: nat | k < |blocks| ensures In(blocks[k], j) ==> k == i && j >= block.b {
        OneBlock(Plain(parent), newLines, blocks, i, j, k);
      }
      if j >= block.b { assert In(blocks[i], j); }
    }
  }

  lemma NextBlockFits<T>(a: seq<T>, b: seq<T>, blocks: seq<Block>, i: nat)
    requires IsBlockList(a, b, blocks) && i < |blocks|
    ensures (if i == 0 then 0 else blocks[i - 1].b + blocks[i - 1].len) <= blocks[i].b
    ensures (if i == 0 then 0 else blocks[i - 1].a + blocks[i - 1].len) <= blocks[i].a
    ensures 0 <= blocks[i].a && 0 <= blocks[i].len && blocks[i].a + blocks[i].len <= |a| && blocks[i].b + blocks[i].len <= |b|
  {
    assert SameLines(a, b, blocks[i].a, blocks[i].b, blocks[i].len);
  }

  lemma AllEmitted(parent: seq<Tagged>, newLines: seq<string>, rev: Revision, blocks: seq<Block>, lines: seq<Tagged>)
    requires IsBlockList(Plain(parent), newLines, blocks) && Emitted(parent, newLines, rev, blocks, |blocks|, lines)
    ensures FromParent(parent, newLines, rev, blocks, lines)
  {
  }

  function NewLines(rev: Revision, lines: seq<string>): (r: seq<Tagged>)
    ensures |r| == |lines| && forall i :: 0 <= i < |r| ==> r[i] == Tagged(rev, lines[i])
  {
    seq(|lines|, i requires 0 <= i < |lines| => Tagged(rev, lines[i]))
  }

  /** Matching lines keep the parent's attribution, all others are new. */
  method ReannotateOne(parent: seq<Tagged>, newLines: seq<string>, rev: Revision, hint: Option<seq<Block>>)
      returns (lines: seq<Tagged>)
    requires hint.Some? ==> IsBlockList(Plain(parent), newLines, hint.value)
    ensures FromParent(parent, newLines, rev, if hint.Some? then hint.value else MatchingBlocks(Plain(parent), newLines), lines)
    ensures IsReannotation([parent], newLines, rev, lines)
  {
    hide IsBlockList, MatchingBlocks, LineFrom, Emitted, FromParent, IsReannotation, Plain;
    var blocks: seq<Block>, consistent: bool;
    if hint.Some? {
      blocks := hint.value;
    } else {
      blocks, consistent := GetMatchingBlocksPy(Plain(parent), newLines);
    }
    lines := [];
    NothingEmitted(parent, newLines, rev, blocks);
    var newCur := 0;
    for i := 0 to |blocks|
      invariant Emitted(parent, newLines, rev, blocks, i, lines)
      invariant newCur == |lines| == if i == 0 then 0 else blocks[i - 1].b + blocks[i - 1].len
    {
      NextBlockFits(Plain(parent), newLines, blocks, i);
      PlainLength(parent);
      var block := blocks[i];
      var more := NewLines(rev, newLines[newCur..block.b]);
      EmitOne(parent, newLines, rev, blocks, i, lines, more);
      lines := lines + more + parent[block.a..block.a + block.len];
      newCur := block.b + block.len;
    }
    AllEmitted(parent, newLines, rev, blocks, lines);
    FromParentIsReannotation(parent, newLines, rev, blocks, lines);
  }

  lemma PlainLength(lines: seq<Tagged>)
    ensures |Plain(lines)| == |lines|
  {
  }

  lemma NothingEmitted(parent: seq<Tagged>, newLines: seq<string>, rev: Revision, blocks: seq<Block>)
    ensures Emitted(parent, newLines, rev, blocks, 0, [])
  {
  }

  // ---------------------------------------------------------------------------
  // Three parents or more: the origin on which those with a claim agree
  // ---------------------------------------------------------------------------

  ghost predicate Agreed(claims: seq<Tagged>, rev: Revision, origin: Revision) {
    origin != rev && (exists i :: 0 <= i < |claims| && claims[i].origin == origin)
    && forall i :: 0 <= i < |claims| ==> claims[i].origin == origin || claims[i].origin == rev
  }

  /** The result line: the agreed origin, or the new revision if there is none or there are two. */
  ghost predicate IsVote(claims: seq<Tagged>, rev: Revision, line: Tagged) {
    (Agreed(claims, rev, line.origin) || (line.origin == rev && forall o :: !Agreed(claims, rev, o)))
  }

  function Origins(claims: seq<Tagged>): set<Revision> {
    set c | c in claims :: c.origin
  }

  method Vote(claims: seq<Tagged>, rev: Revision, text: string) returns (line: Tagged)
    requires claims != [] && forall i :: 0 <= i < |claims| ==> claims[i].text == text
    ensures line.text == text && IsVote(claims, rev, line)
  {
    var origins := Origins(claims);
    if |origins| == 1 {
      OneOrigin(claims, claims[0].origin);
      return claims[0];
    }
    if |origins| == 2 && rev in origins {
      origins := origins - {rev};
    }
    if |origins| == 1 {
      ghost var some := OnlyMember(origins);
      var origin :| origin in origins;
      TwoOrigins(claims, rev, origin);
      return Tagged(origin, text);
    }
    NoAgreement(claims, rev);
    return Tagged(rev, text);
  }

  lemma OnlyMember(s: set<Revision>) returns (o: Revision)
    requires |s| == 1
    ensures s == {o}
  {
    if forall x :: x !in s {
      NothingIn(s);
    } else {
      o :| o in s;
      assert |s - {o}| == 0;
      assert s == s - {o} + {o};
    }
  }

  lemma OriginOf(claims: seq<Tagged>, i: nat)
    requires i < |claims|
    ensures claims[i].origin in Origins(claims)
  {
    assert claims[i] in claims;
  }

  lemma OneOrigin(claims: seq<Tagged>, o: Revision)
    requires claims != [] && |Origins(claims)| == 1 && o == claims[0].origin
    ensures forall i :: 0 <= i < |claims| ==> claims[i].origin == o
  {
    var only := OnlyMember(Origins(claims));
    OriginOf(claims, 0);
    forall i | 0 <= i < |claims| ensures claims[i].origin == o { OriginOf(claims, i); }
  }

  lemma TwoOrigins(claims: seq<Tagged>, rev: Revision, o: Revision)
    requires |Origins(claims)| == 2 && rev in Origins(claims) && o in Origins(claims) - {rev}
    ensures Agreed(claims, rev, o)
  {
    var others := Origins(claims) - {rev};
    var only := OnlyMember(others);
    assert others == {o};
    forall i | 0 <= i < |claims| ensures claims[i].origin == o || claims[i].origin == rev {
      OriginOf(claims, i);
      assert claims[i].origin == rev || claims[i].origin in others;
    }
    var c :| c in claims && c.origin == o;
    var i :| 0 <= i < |claims| && claims[i] == c;
  }

  lemma AgreedSize(claims: seq<Tagged>, rev: Revision, o: Revision)
    requires Agreed(claims, rev, o)
    ensures |Origins(claims)| == 1 || (|Origins(claims)| == 2 && rev in Origins(claims))
  {
    var i :| 0 <= i < |claims| && claims[i].origin == o;
    OriginOf(claims, i);
    assert forall x :: x in Origins(claims) ==> x in {o, rev};
    if rev in Origins(claims) {
      assert Origins(claims) == {o, rev};
    } else {
      assert Origins(claims) == {o};
    }
  }

  lemma NoAgreement(claims: seq<Tagged>, rev: Revision)
    requires |Origins(claims)| != 1 && !(|Origins(claims)| == 2 && rev in Origins(claims))
    ensures forall o :: !Agreed(claims, rev, o)
  {
    forall o ensures !Agreed(claims, rev, o) {
      if Agreed(claims, rev, o) { AgreedSize(claims, rev, o); }
    }
  }

  // ---------------------------------------------------------------------------
  // Two parents
  // ---------------------------------------------------------------------------

  /** A line after the second parent was looked at: what it was, or a line of the second parent, or,
      if nobody can decide between two claims, the new revision. */
  ghost predicate Resolved(left: Tagged, right: seq<Tagged>, rev: Revision, decides: bool, line: Tagged) {
    && line.text == left.text
    && (line == left || line in right || (!decides && left.origin != rev && line.origin == rev))
  }

  ghost predicate AllResolved(left: seq<Tagged>, right: seq<Tagged>, rev: Revision, decides: bool, n: int, lines: seq<Tagged>) {
    |lines| == n <= |left| && forall j :: 0 <= j < n ==> Resolved(left[j], right, rev, decides, lines[j])
  }

  lemma ResolvedAsWas(left: seq<Tagged>, right: seq<Tagged>, rev: Revision, decides: bool, n: nat, m: nat, lines: seq<Tagged>)
    requires AllResolved(left, right, rev, decides, n, lines) && n <= m <= |left|
    ensures AllResolved(left, right, rev, decides, m, lines + left[n..m])
  {
  }

  lemma ResolvedOne(left: seq<Tagged>, right: seq<Tagged>, rev: Revision, decides: bool, n: nat, lines: seq<Tagged>, line: Tagged)
    requires AllResolved(left, right, rev, decides, n, lines) && n < |left| && Resolved(left[n], right, rev, decides, line)
    ensures AllResolved(left, right, rev, decides, n + 1, lines + [line])
  {
  }

  /** sorted([left, right])[0], on lines with the same text. */
  function BreakAnnotationTie(left: Tagged, right: Tagged): Tagged {
    if right.origin < left.origin then right else left
  }

  /** Both parents have the line: the rule. */
  function Resolve(left: Tagged, right: Tagged, rev: Revision, heads: Option<HeadsProvider>): Tagged {
    if left.origin == right.origin then left
    else if left.origin == rev then right
    else if heads.None? then Tagged(rev, left.text)
    else
      var h := heads.value(left.origin, right.origin);
      if |h| == 1 then Tagged(if left.origin in h then left.origin else right.origin, left.text)
      else BreakAnnotationTie(left, right)
  }

  lemma ResolveIsResolved(left: Tagged, right: Tagged, rev: Revision, heads: Option<HeadsProvider>, rightLines: seq<Tagged>)
    requires left.text == right.text && right in rightLines && (heads.Some? ==> IsHeads(heads.value))
    ensures Resolved(left, rightLines, rev, heads.Some?, Resolve(left, right, rev, heads))
  {
    var line := Resolve(left, right, rev, heads);
    assert line == left || line == right || (heads.None? && left.origin != rev && line == Tagged(rev, left.text));
  }

  /** Of two origins a sole head wins; otherwise the smaller one does. */
  ghost predicate Prevails(left: Tagged, right: Tagged, heads: HeadsProvider, line: Tagged) {
    var h := heads(left.origin, right.origin);
    && (h == {left.origin} ==> line == left)
    && (h == {right.origin} ==> line == Tagged(right.origin, left.text))
    && (h == {left.origin, right.origin} ==>
          line in {left, right} && line.origin <= left.origin && line.origin <= right.origin)
    && (h == {left.origin} || h == {right.origin} || h == {left.origin, right.origin})
  }

  /** The result for a line that both parents claim does not depend on which parent comes first. */
  lemma ResolveIsStable(left: Tagged, right: Tagged, rev: Revision, heads: Option<HeadsProvider>)
    requires left.text == right.text && left.origin != rev && right.origin != rev
    requires heads.Some? ==> IsHeads(heads.value) && heads.value(left.origin, right.origin) == heads.value(right.origin, left.origin)
    ensures Resolve(left, right, rev, heads) == Resolve(right, left, rev, heads)
  {
    if heads.Some? && left.origin != right.origin && |heads.value(left.origin, right.origin)| == 1 {
      OneHead(left.origin, right.origin, heads.value);
    }
  }

  lemma HeadsCases(a: Revision, b: Revision, heads: HeadsProvider)
    requires IsHeads(heads) && a != b
    ensures heads(a, b) in {{a}, {b}, {a, b}}
    ensures |heads(a, b)| == 1 <==> heads(a, b) != {a, b}
  {
    var h := heads(a, b);
    assert h == {a} || h == {b} || h == {a, b} by {
      if a !in h { assert h == {b}; } else if b !in h { assert h == {a}; } else { assert h == {a, b}; }
    }
  }

  method ResolveLine(left: Tagged, right: Tagged, rev: Revision, heads: Option<HeadsProvider>) returns (line: Tagged)
    requires heads.Some? ==> IsHeads(heads.value)
    ensures left.origin == right.origin ==> line == left
    ensures left.origin != right.origin && left.origin == rev ==> line == right
    ensures left.origin != right.origin && left.origin != rev && heads.None? ==> line == Tagged(rev, left.text)
    ensures left.origin != right.origin && left.origin != rev && heads.Some? ==> Prevails(left, right, heads.value, line)
    ensures line == Resolve(left, right, rev, heads)
  {
    if left.origin == right.origin {
      return left;
    }
    if left.origin == rev {
      return right;
    }
    if heads.None? {
      return Tagged(rev, left.text);
    }
    var h := heads.value(left.origin, right.origin);
    HeadsCases(left.origin, right.origin, heads.value);
    if |h| == 1 {
      OneHead(left.origin, right.origin, heads.value);
      var head :| head in h;
      return Tagged(head, left.text);
    }
    return BreakAnnotationTie(left, right);
  }

  lemma OneHead(a: Revision, b: Revision, heads: HeadsProvider)
    requires IsHeads(heads) && |heads(a, b)| == 1
    ensures exists head :: head in heads(a, b)
    ensures forall head :: head in heads(a, b) ==> head == if a in heads(a, b) then a else b
  {
    var only := OnlyMember(heads(a, b));
    assert a in heads(a, b) || b in heads(a, b);
  }

  /** A line of a gap: matched lines are resolved, all others stay as they are. */
  ghost predicate InnerLine(left: seq<Tagged>, right: seq<Tagged>, newLines: seq<string>, rev: Revision, heads: Option<HeadsProvider>,
                            startChild: nat, endChild: nat, startRight: nat, endRight: nat, j: int, line: Tagged)
  {
    && startChild <= j < endChild <= |newLines| && j < |left| && startRight <= endRight <= |right|
    && var blocks := MatchingBlocks(Plain(right[startRight..endRight]), newLines[startChild..endChild]);
       InnerRule(left, right, rev, heads, blocks, startChild, startRight, j, line)
  }

  ghost predicate InnerRule(left: seq<Tagged>, right: seq<Tagged>, rev: Revision, heads: Option<HeadsProvider>, blocks: seq<Block>,
                            startChild: nat, startRight: nat, j: int, line: Tagged)
  {
    && 0 <= j < |left|
    && (forall n :: 0 <= n < |blocks| && In(blocks[n], j - startChild) ==>
          var r := startRight + blocks[n].a + (j - startChild - blocks[n].b);
          0 <= r < |right| && line == Resolve(left[j], right[r], rev, heads))
    && ((forall n :: 0 <= n < |blocks| ==> !In(blocks[n], j - startChild)) ==> line == left[j])
  }

  /** Every line from startChild on follows the rule. */
  ghost predicate InnerLines(left: seq<Tagged>, right: seq<Tagged>, rev: Revision, heads: Option<HeadsProvider>, blocks: seq<Block>,
                             startChild: nat, startRight: nat, n: int, lines: seq<Tagged>)
  {
    |lines| == n && startChild <= n && forall j :: startChild <= j < n ==> InnerRule(left, right, rev, heads, blocks, startChild, startRight, j, lines[j])
  }

  lemma InnerGap(left: seq<Tagged>, right: seq<Tagged>, rev: Revision, heads: Option<HeadsProvider>, a: seq<string>, b: seq<string>,
                 blocks: seq<Block>, startChild: nat, startRight: nat, i: nat, lines: seq<Tagged>)
    requires IsBlockList(a, b, blocks) && i < |blocks|
    requires var last := if i == 0 then 0 else blocks[i - 1].b + blocks[i - 1].len;
             0 <= last <= blocks[i].b && startChild + blocks[i].b <= |left|
             && InnerLines(left, right, rev, heads, blocks, startChild, startRight, startChild + last, lines)
    ensures var last := if i == 0 then 0 else blocks[i - 1].b + blocks[i - 1].len;
            InnerLines(left, right, rev, heads, blocks, startChild, startRight, startChild + blocks[i].b,
                       lines + left[startChild + last..startChild + blocks[i].b])
  {
    hide IsBlockList;
    var last := if i == 0 then 0 else blocks[i - 1].b + blocks[i - 1].len;
    var out := lines + left[startChild + last..startChild + blocks[i].b];
    forall j | startChild + last <= j < startChild + blocks[i].b
      ensures InnerRule(left, right, rev, heads, blocks, startChild, startRight, j, out[j])
    {
      forall k: nat | k < |blocks| ensures !In(blocks[k], j - startChild) { OneBlock(a, b, blocks, i, j - startChild, k); }
    }
  }

  lemma InnerOne(left: seq<Tagged>, right: seq<Tagged>, rev: Revision, heads: Option<HeadsProvider>, a: seq<string>, b: seq<string>,
                 blocks: seq<Block>, startChild: nat, startRight: nat, i: nat, offset: nat, lines: seq<Tagged>)
    requires IsBlockList(a, b, blocks) && i < |blocks| && offset < blocks[i].len && blocks[i].b >= 0 && blocks[i].a >= 0
    requires startChild + blocks[i].b + offset < |left| && startRight + blocks[i].a + offset < |right|
    requires InnerLines(left, right, rev, heads, blocks, startChild, startRight, startChild + blocks[i].b + offset, lines)
    ensures InnerLines(left, right, rev, heads, blocks, startChild, startRight, startChild + blocks[i].b + offset + 1,
                       lines + [Resolve(left[startChild + blocks[i].b + offset], right[startRight + blocks[i].a + offset], rev, heads)])
  {
    hide IsBlockList, Resolve;
    var j := startChild + blocks[i].b + offset;
    forall k: nat | k < |blocks| && In(blocks[k], j - startChild) ensures k == i { OneBlock(a, b, blocks, i, j - startChild, k); }
    assert In(blocks[i], j - startChild);
  }

  /** Lines between two stretches on which both sides agree. */
  method FindMatchingUnannotatedLines(output: seq<Tagged>, newLines: seq<string>, left: seq<Tagged>, startChild: nat, endChild: nat,
                                      right: seq<Tagged>, startRight: nat, endRight: nat, heads: Option<HeadsProvider>, rev: Revision)
      returns (lines: seq<Tagged>)
    requires IsText(left, newLines) && startChild <= endChild <= |left| && startRight <= endRight <= |right|
    requires AllResolved(left, right, rev, heads.Some?, startChild, output) && (heads.Some? ==> IsHeads(heads.value))
    ensures AllResolved(left, right, rev, heads.Some?, endChild, lines)
    ensures |lines| == endChild && |output| == startChild && lines[..startChild] == output
    ensures forall j :: startChild <= j < endChild ==>
              InnerLine(left, right, newLines, rev, heads, startChild, endChild, startRight, endRight, j, lines[j])
  {
    hide AllResolved, IsBlockList, MatchingBlocks, IsHeads, Resolved, Resolve, InnerLines, InnerRule;
    lines := output;
    var plainRight, plainChild := Plain(right[startRight..endRight]), newLines[startChild..endChild];
    PlainLength(right[startRight..endRight]);
    var blocks, _ := GetMatchingBlocksPy(plainRight, plainChild);
    NothingInner(left, right, rev, heads, blocks, startChild, startRight, output);
    var lastChild: int := 0;
    for i := 0 to |blocks|
      invariant lastChild == if i == 0 then 0 else blocks[i - 1].b + blocks[i - 1].len
      invariant 0 <= lastChild <= |plainChild| && AllResolved(left, right, rev, heads.Some?, startChild + lastChild, lines)
      invariant |output| == startChild <= |lines| && lines[..startChild] == output
      invariant InnerLines(left, right, rev, heads, blocks, startChild, startRight, startChild + lastChild, lines)
    {
      NextBlockFits(plainRight, plainChild, blocks, i);
      var block := blocks[i];
      ResolvedAsWas(left, right, rev, heads.Some?, startChild + lastChild, startChild + block.b, lines);
      InnerGap(left, right, rev, heads, plainRight, plainChild, blocks, startChild, startRight, i, lines);
      assert lines + [] == lines;
      if block.b > lastChild {
        lines := lines + left[startChild + lastChild..startChild + block.b];
      }
      for offset := 0 to block.len
        invariant AllResolved(left, right, rev, heads.Some?, startChild + block.b + offset, lines)
        invariant |output| == startChild <= |lines| && lines[..startChild] == output
        invariant InnerLines(left, right, rev, heads, blocks, startChild, startRight, startChild + block.b + offset, lines)
      {
        var leftLine, rightLine := left[startChild + block.b + offset], right[startRight + block.a + offset];
        BlockIsSame(plainRight, plainChild, blocks, i, block.b + offset);
        ResolveIsResolved(leftLine, rightLine, rev, heads, right);
        InnerOne(left, right, rev, heads, plainRight, plainChild, blocks, startChild, startRight, i, offset, lines);
        var line := ResolveLine(leftLine, rightLine, rev, heads);
        ResolvedOne(left, right, rev, heads.Some?, startChild + block.b + offset, lines, line);
        lines := lines + [line];
      }
      lastChild := block.b + block.len;
    }
    LastBlock(plainRight, plainChild, blocks);
    InnerIsDone(left, right, newLines, rev, heads, startChild, endChild, startRight, endRight, lines);
  }

  lemma NothingInner(left: seq<Tagged>, right: seq<Tagged>, rev: Revision, heads: Option<HeadsProvider>, blocks: seq<Block>,
                     startChild: nat, startRight: nat, output: seq<Tagged>)
    requires AllResolved(left, right, rev, heads.Some?, startChild, output)
    ensures |output| == startChild && output[..startChild] == output
    ensures InnerLines(left, right, rev, heads, blocks, startChild, startRight, startChild, output)
  {
  }

  lemma InnerIsDone(left: seq<Tagged>, right: seq<Tagged>, newLines: seq<string>, rev: Revision, heads: Option<HeadsProvider>,
                    startChild: nat, endChild: nat, startRight: nat, endRight: nat, lines: seq<Tagged>)
    requires IsText(left, newLines) && startChild <= endChild <= |left| && startRight <= endRight <= |right|
    requires InnerLines(left, right, rev, heads, MatchingBlocks(Plain(right[startRight..endRight]), newLines[startChild..endChild]),
                        startChild, startRight, endChild, lines)
    ensures |lines| == endChild
    ensures forall j :: startChild <= j < endChild ==>
              InnerLine(left, right, newLines, rev, heads, startChild, endChild, startRight, endRight, j, lines[j])
  {
    hide InnerRule, MatchingBlocks, Plain;
  }

  lemma LastBlock<T>(a: seq<T>, b: seq<T>, blocks: seq<Block>)
    requires IsBlockList(a, b, blocks)
    ensures |blocks| > 0 && blocks[|blocks| - 1].b + blocks[|blocks| - 1].len == |b|
  {
  }

  /** What block k of the blocks on which both sides agree, or the gap before it, says of line j. */
  ghost predicate OuterRule(left: seq<Tagged>, right: seq<Tagged>, newLines: seq<string>, rev: Revision, heads: Option<HeadsProvider>,
                            blocks: seq<Block>, k: int, j: int, line: Tagged)
    requires 0 <= k < |blocks|
  {
    var lastLeft := if k == 0 then 0 else blocks[k - 1].b + blocks[k - 1].len;
    var lastRight := if k == 0 then 0 else blocks[k - 1].a + blocks[k - 1].len;
    && 0 <= j < |left| && 0 <= lastLeft && 0 <= lastRight && 0 <= blocks[k].a && 0 <= blocks[k].b
    && (In(blocks[k], j) ==> line == left[j])
    && (lastLeft <= j < blocks[k].b ==>
          GapRule(left, right, newLines, rev, heads, lastLeft, blocks[k].b, lastRight, blocks[k].a, j, line))
  }

  /** A line between two blocks: if the second parent has nothing there it stays as it is. */
  ghost predicate GapRule(left: seq<Tagged>, right: seq<Tagged>, newLines: seq<string>, rev: Revision, heads: Option<HeadsProvider>,
                          lastLeft: nat, leftIdx: nat, lastRight: nat, rightIdx: nat, j: int, line: Tagged)
  {
    && 0 <= j < |left|
    && if lastRight == rightIdx then line == left[j]
       else InnerLine(left, right, newLines, rev, heads, lastLeft, leftIdx, lastRight, rightIdx, j, line)
  }

  method GapLines(before: seq<Tagged>, right: seq<Tagged>, newLines: seq<string>, rev: Revision, left: seq<Tagged>, heads: Option<HeadsProvider>,
                  lastLeft: nat, leftIdx: nat, lastRight: nat, rightIdx: nat) returns (lines: seq<Tagged>)
    requires IsText(left, newLines) && (heads.Some? ==> IsHeads(heads.value))
    requires lastLeft <= leftIdx <= |left| && lastRight <= rightIdx <= |right|
    requires AllResolved(left, right, rev, heads.Some?, lastLeft, before)
    ensures AllResolved(left, right, rev, heads.Some?, leftIdx, lines)
    ensures |lines| == leftIdx && |before| == lastLeft && lines[..lastLeft] == before
    ensures forall j :: lastLeft <= j < leftIdx ==>
              GapRule(left, right, newLines, rev, heads, lastLeft, leftIdx, lastRight, rightIdx, j, lines[j])
  {
    hide AllResolved, IsHeads, IsText, InnerLine;
    ResolvedLength(left, right, rev, heads.Some?, lastLeft, before);
    if lastRight == rightIdx || lastLeft == leftIdx {
      ResolvedAsWas(left, right, rev, heads.Some?, lastLeft, leftIdx, before);
      lines := before + left[lastLeft..leftIdx];
    } else {
      lines := FindMatchingUnannotatedLines(before, newLines, left, lastLeft, leftIdx, right, lastRight, rightIdx, heads, rev);
    }
  }

  /** The result for two parents, line by line. */
  ghost predicate FromTwo(left: seq<Tagged>, right: seq<Tagged>, newLines: seq<string>, rev: Revision, heads: Option<HeadsProvider>,
                          lines: seq<Tagged>)
  {
    Followed(left, right, newLines, rev, heads, MatchingBlocks(right, left), |MatchingBlocks(right, left)|, |left|, lines)
  }

  /** The first n lines follow the rules of the first i blocks. */
  ghost predicate Followed(left: seq<Tagged>, right: seq<Tagged>, newLines: seq<string>, rev: Revision, heads: Option<HeadsProvider>,
                           blocks: seq<Block>, i: nat, n: int, lines: seq<Tagged>)
  {
    && |lines| == n && i <= |blocks|
    && forall k, j :: 0 <= k < i && 0 <= j < n ==> OuterRule(left, right, newLines, rev, heads, blocks, k, j, lines[j])
  }

  lemma FollowedMore(left: seq<Tagged>, right: seq<Tagged>, newLines: seq<string>, rev: Revision, heads: Option<HeadsProvider>,
                     blocks: seq<Block>, i: nat, lines: seq<Tagged>, out: seq<Tagged>)
    requires IsBlockList(right, left, blocks) && i < |blocks|
    requires var last := if i == 0 then 0 else blocks[i - 1].b + blocks[i - 1].len;
             && Followed(left, right, newLines, rev, heads, blocks, i, last, lines)
             && |out| == blocks[i].b + blocks[i].len && 0 <= last <= blocks[i].b && out[..last] == lines
             && forall j :: last <= j < |out| ==> OuterRule(left, right, newLines, rev, heads, blocks, i, j, out[j])
    ensures Followed(left, right, newLines, rev, heads, blocks, i + 1, blocks[i].b + blocks[i].len, out)
  {
    hide IsBlockList, GapRule;
    var last := if i == 0 then 0 else blocks[i - 1].b + blocks[i - 1].len;
    forall k, j | 0 <= k < i + 1 && 0 <= j < |out| ensures OuterRule(left, right, newLines, rev, heads, blocks, k, j, out[j]) {
      OuterOrder(left, right, blocks, k);
      OuterOrder(left, right, blocks, i);
      EarlierEnds(right, left, blocks, k, i);
      if j < last { assert out[j] == lines[j]; }
    }
  }

  lemma OuterOrder(left: seq<Tagged>, right: seq<Tagged>, blocks: seq<Block>, k: nat)
    requires IsBlockList(right, left, blocks) && k < |blocks|
    ensures 0 <= blocks[k].a && 0 <= blocks[k].b && 0 <= blocks[k].len && blocks[k].b + blocks[k].len <= |left|
    ensures k > 0 ==> 0 <= blocks[k - 1].b + blocks[k - 1].len <= blocks[k].b && 0 <= blocks[k - 1].a + blocks[k - 1].len <= blocks[k].a
  {
    assert SameLines(right, left, blocks[k].a, blocks[k].b, blocks[k].len);
    if k > 0 { assert SameLines(right, left, blocks[k - 1].a, blocks[k - 1].b, blocks[k - 1].len); }
  }

  lemma EarlierEnds(right: seq<Tagged>, left: seq<Tagged>, blocks: seq<Block>, k: nat, i: nat)
    requires IsBlockList(right, left, blocks) && k <= i < |blocks|
    ensures k < i ==> blocks[k].b + blocks[k].len <= blocks[i - 1].b + blocks[i - 1].len
  {
    if k < i { assert SameLines(right, left, blocks[i - 1].a, blocks[i - 1].b, blocks[i - 1].len); }
  }

  /** Every line is resolved against the second parent, by the rule. */
  method ReannotateAnnotated(right: seq<Tagged>, newLines: seq<string>, rev: Revision, left: seq<Tagged>, heads: Option<HeadsProvider>)
      returns (lines: seq<Tagged>)
    requires IsText(left, newLines) && (heads.Some? ==> IsHeads(heads.value))
    ensures AllResolved(left, right, rev, heads.Some?, |left|, lines)
    ensures FromTwo(left, right, newLines, rev, heads, lines)
  {
    hide AllResolved, IsBlockList, MatchingBlocks, IsHeads, IsText, GapRule, Followed;
    lines := [];
    NoneResolved(left, right, rev, heads.Some?);
    var lastRight: int, lastLeft: int := 0, 0;
    var blocks, _ := GetMatchingBlocksPy(right, left);
    NoneFollowed(left, right, newLines, rev, heads, blocks);
    for i := 0 to |blocks|
      invariant lastLeft == if i == 0 then 0 else blocks[i - 1].b + blocks[i - 1].len
      invariant lastRight == if i == 0 then 0 else blocks[i - 1].a + blocks[i - 1].len
      invariant 0 <= lastLeft <= |left| && 0 <= lastRight && AllResolved(left, right, rev, heads.Some?, lastLeft, lines)
      invariant Followed(left, right, newLines, rev, heads, blocks, i, lastLeft, lines)
    {
      NextBlockFits(right, left, blocks, i);
      ghost var before := lines;
      var block := blocks[i];
      lines := GapLines(lines, right, newLines, rev, left, heads, lastLeft, block.b, lastRight, block.a);
      ghost var gap := lines;
      ResolvedAsWas(left, right, rev, heads.Some?, block.b, block.b + block.len, lines);
      lines := lines + left[block.b..block.b + block.len];
      OuterRules(left, right, newLines, rev, heads, blocks, i, gap, lines);
      FollowedMore(left, right, newLines, rev, heads, blocks, i, before, lines);
      lastRight, lastLeft := block.a + block.len, block.b + block.len;
    }
    LastBlock(right, left, blocks);
  }

  lemma OuterRules(left: seq<Tagged>, right: seq<Tagged>, newLines: seq<string>, rev: Revision, heads: Option<HeadsProvider>,
                   blocks: seq<Block>, i: nat, gap: seq<Tagged>, lines: seq<Tagged>)
    requires IsBlockList(right, left, blocks) && i < |blocks| && |gap| == blocks[i].b && 0 <= blocks[i].len
    requires blocks[i].b + blocks[i].len <= |left| && lines == gap + left[blocks[i].b..blocks[i].b + blocks[i].len]
    requires var last, lastRight := if i == 0 then 0 else blocks[i - 1].b + blocks[i - 1].len, if i == 0 then 0 else blocks[i - 1].a + blocks[i - 1].len;
             && 0 <= last && 0 <= lastRight && 0 <= blocks[i].a
             && forall j :: last <= j < |gap| ==>
                  GapRule(left, right, newLines, rev, heads, last, blocks[i].b, lastRight, blocks[i].a, j, gap[j])
    ensures var last := if i == 0 then 0 else blocks[i - 1].b + blocks[i - 1].len;
            forall j :: last <= j < |lines| ==> OuterRule(left, right, newLines, rev, heads, blocks, i, j, lines[j])
  {
    hide GapRule, IsBlockList;
    var last := if i == 0 then 0 else blocks[i - 1].b + blocks[i - 1].len;
    forall j | last <= j < |lines| ensures OuterRule(left, right, newLines, rev, heads, blocks, i, j, lines[j]) {
      if j < |gap| { assert lines[j] == gap[j]; }
    }
  }

  lemma NoneFollowed(left: seq<Tagged>, right: seq<Tagged>, newLines: seq<string>, rev: Revision, heads: Option<HeadsProvider>,
                     blocks: seq<Block>)
    ensures Followed(left, right, newLines, rev, heads, blocks, 0, 0, [])
  {
  }

  lemma ResolvedLength(left: seq<Tagged>, right: seq<Tagged>, rev: Revision, decides: bool, n: int, lines: seq<Tagged>)
    requires AllResolved(left, right, rev, decides, n, lines)
    ensures |lines| == n
  {
  }

  lemma NoneResolved(left: seq<Tagged>, right: seq<Tagged>, rev: Revision, decides: bool)
    ensures AllResolved(left, right, rev, decides, 0, [])
  {
  }

  // ---------------------------------------------------------------------------
  // reannotate
  // ---------------------------------------------------------------------------

  /** The claims of all parents for line j. */
  ghost function ClaimsAt(all: seq<seq<Tagged>>, j: nat): seq<Tagged>
    requires forall p :: 0 <= p < |all| ==> j < |all[p]|
  {
    seq(|all|, p requires 0 <= p < |all| => all[p][j])
  }

  ghost function BlocksFor(parent: seq<Tagged>, newLines: seq<string>, hint: Option<seq<Block>>): seq<Block> {
    if hint.Some? then hint.value else MatchingBlocks(Plain(parent), newLines)
  }

  /** Each parent on its own; the hint is about the first. */
  ghost predicate EachAlone(parents: seq<seq<Tagged>>, newLines: seq<string>, rev: Revision, hint: Option<seq<Block>>, all: seq<seq<Tagged>>) {
    && |all| == |parents|
    && forall p :: 0 <= p < |all| ==>
         FromParent(parents[p], newLines, rev, BlocksFor(parents[p], newLines, if p == 0 then hint else None), all[p])
  }

  ghost predicate VotedOn(all: seq<seq<Tagged>>, newLines: seq<string>, rev: Revision, lines: seq<Tagged>) {
    && IsText(lines, newLines) && (forall p :: 0 <= p < |all| ==> |all[p]| == |newLines|)
    && forall j :: 0 <= j < |lines| ==> IsVote(ClaimsAt(all, j), rev, lines[j])
  }

  /** The result, for each number of parents. */
  ghost predicate IsResult(parents: seq<seq<Tagged>>, newLines: seq<string>, rev: Revision, hint: Option<seq<Block>>,
                           heads: Option<HeadsProvider>, lines: seq<Tagged>)
  {
    if |parents| == 0 then lines == NewLines(rev, newLines)
    else if |parents| == 1 then FromParent(parents[0], newLines, rev, BlocksFor(parents[0], newLines, hint), lines)
    else if |parents| == 2 then
      exists left :: FromParent(parents[0], newLines, rev, BlocksFor(parents[0], newLines, hint), left)
                     && FromTwo(left, parents[1], newLines, rev, heads, lines)
    else exists all :: EachAlone(parents, newLines, rev, hint, all) && VotedOn(all, newLines, rev, lines)
  }

  method ReannotateAll(parents: seq<seq<Tagged>>, newLines: seq<string>, rev: Revision, hint: Option<seq<Block>>)
      returns (all: seq<seq<Tagged>>)
    requires parents != [] && (hint.Some? ==> IsBlockList(Plain(parents[0]), newLines, hint.value))
    ensures |all| == |parents| && forall p :: 0 <= p < |all| ==> IsReannotation([parents[p]], newLines, rev, all[p])
    ensures EachAlone(parents, newLines, rev, hint, all)
  {
    hide IsReannotation, IsBlockList, FromParent, Plain, MatchingBlocks;
    var first := ReannotateOne(parents[0], newLines, rev, hint);
    all := [first];
    for p := 1 to |parents|
      invariant |all| == p && forall q :: 0 <= q < p ==> IsReannotation([parents[q]], newLines, rev, all[q])
      invariant forall q :: 0 <= q < p ==>
                  FromParent(parents[q], newLines, rev, BlocksFor(parents[q], newLines, if q == 0 then hint else None), all[q])
    {
      var more := ReannotateOne(parents[p], newLines, rev, None);
      all := all + [more];
    }
  }

  /** One vote for each line. */
  method VoteAll(parents: seq<seq<Tagged>>, all: seq<seq<Tagged>>, newLines: seq<string>, rev: Revision) returns (lines: seq<Tagged>)
    requires |all| == |parents| > 0 && forall p :: 0 <= p < |all| ==> IsReannotation([parents[p]], newLines, rev, all[p])
    ensures IsReannotation(parents, newLines, rev, lines)
    ensures VotedOn(all, newLines, rev, lines)
  {
    lines := [];
    for j := 0 to |newLines|
      invariant |lines| == j && forall p :: 0 <= p < |all| ==> |all[p]| == |newLines|
      invariant forall i :: 0 <= i < j ==> IsVote(ClaimsAt(all, i), rev, lines[i]) && lines[i].text == newLines[i]
      invariant forall i :: 0 <= i < j ==> lines[i].origin == rev || Claimed(parents, lines[i])
    {
      var claims := seq(|all|, p requires 0 <= p < |all| => all[p][j]);
      ClaimsHaveText(parents, all, newLines, rev, j);
      var line := Vote(claims, rev, newLines[j]);
      VoteIsClaimed(parents, all, newLines, rev, j, line);
      lines := lines + [line];
    }
  }

  lemma ClaimsHaveText(parents: seq<seq<Tagged>>, all: seq<seq<Tagged>>, newLines: seq<string>, rev: Revision, j: nat)
    requires |all| == |parents| > 0 && forall p :: 0 <= p < |all| ==> IsReannotation([parents[p]], newLines, rev, all[p])
    requires j < |newLines|
    ensures forall p :: 0 <= p < |all| ==> j < |all[p]| && all[p][j].text == newLines[j]
  {
  }

  lemma VoteIsClaimed(parents: seq<seq<Tagged>>, all: seq<seq<Tagged>>, newLines: seq<string>, rev: Revision, j: nat, line: Tagged)
    requires |all| == |parents| > 0 && forall p :: 0 <= p < |all| ==> IsReannotation([parents[p]], newLines, rev, all[p])
    requires j < |newLines| && line.text == newLines[j]
    requires forall p :: 0 <= p < |all| ==> j < |all[p]|
    requires IsVote(ClaimsAt(all, j), rev, line)
    ensures line.origin == rev || Claimed(parents, line)
  {
    if line.origin != rev {
      var claims := ClaimsAt(all, j);
      var p :| 0 <= p < |claims| && claims[p].origin == line.origin;
      assert IsReannotation([parents[p]], newLines, rev, all[p]);
      assert all[p][j] == line;
      assert Claimed([parents[p]], line);
      assert line in parents[p];
    }
  }

  /** For any number of parents: the result by the rules, and that it is a reannotation. */
  method Reannotate(parents: seq<seq<Tagged>>, newLines: seq<string>, rev: Revision, hint: Option<seq<Block>>,
                    heads: Option<HeadsProvider>) returns (lines: seq<Tagged>)
    requires hint.Some? && parents != [] ==> IsBlockList(Plain(parents[0]), newLines, hint.value)
    requires heads.Some? ==> IsHeads(heads.value)
    ensures IsReannotation(parents, newLines, rev, lines)
    ensures IsResult(parents, newLines, rev, hint, heads, lines)
  {
    hide IsBlockList, IsReannotation, AllResolved, IsHeads, FromParent, Plain, MatchingBlocks, FromTwo, EachAlone, VotedOn;
    if |parents| == 0 {
      lines := NewLines(rev, newLines);
      AllNew(newLines, rev, lines);
    } else if |parents| == 1 {
      lines := ReannotateOne(parents[0], newLines, rev, hint);
      assert parents == [parents[0]];
    } else if |parents| == 2 {
      var left := ReannotateOne(parents[0], newLines, rev, hint);
      ReannotationIsText([parents[0]], newLines, rev, left);
      lines := ReannotateAnnotated(parents[1], newLines, rev, left, heads);
      TwoParents(parents, newLines, rev, left, heads.Some?, lines);
    } else {
      var all := ReannotateAll(parents, newLines, rev, hint);
      lines := VoteAll(parents, all, newLines, rev);
    }
  }

  lemma AllNew(newLines: seq<string>, rev: Revision, lines: seq<Tagged>)
    requires |lines| == |newLines| && forall i :: 0 <= i < |lines| ==> lines[i] == Tagged(rev, newLines[i])
    ensures IsReannotation([], newLines, rev, lines)
  {
  }

  lemma ReannotationIsText(parents: seq<seq<Tagged>>, newLines: seq<string>, rev: Revision, lines: seq<Tagged>)
    requires IsReannotation(parents, newLines, rev, lines)
    ensures IsText(lines, newLines)
  {
  }

  lemma TwoParents(parents: seq<seq<Tagged>>, newLines: seq<string>, rev: Revision, left: seq<Tagged>, decides: bool, lines: seq<Tagged>)
    requires |parents| == 2 && IsReannotation([parents[0]], newLines, rev, left)
    requires AllResolved(left, parents[1], rev, decides, |left|, lines)
    ensures IsReannotation(parents, newLines, rev, lines)
  {
    forall j | 0 <= j < |lines| ensures lines[j].text == newLines[j] && (lines[j].origin == rev || Claimed(parents, lines[j])) {
      assert Resolved(left[j], parents[1], rev, decides, lines[j]);
      if lines[j] == left[j] && left[j].origin != rev {
        assert Claimed([parents[0]], left[j]);
        assert lines[j] in parents[0];
      }
    }
  }
}
