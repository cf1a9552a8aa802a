/** The C matcher (bzrlib/_patiencediff_c.c), proved to give the answers of the Python one.

    Both are proved equal to the same definitions, so nothing that depends on the hash table,
    on the chains or on cursors kept from an earlier call can show in a result. */
module PatienceDiffC {
  import opened PatienceLcs
  import opened PatienceMatches
  import opened PatienceBlocks
  import opened PatienceEquate

  // ---------------------------------------------------------------------------
  // Chains and cursors
  // ---------------------------------------------------------------------------

  /** Line r is the only line of class e in [lo, hi). */
  ghost predicate OnlyIn<T>(lines: seq<Line<T>>, e: int, lo: int, hi: int, r: int) {
    && 0 <= lo <= r < hi <= |lines| && lines[r].equiv == e
    && forall k :: lo <= k < hi && lines[k].equiv == e ==> k == r
  }

  /** A search of the chain of class e for lines at or after lo may start at p. */
  ghost predicate CursorOk<T>(lines: seq<Line<T>>, e: int, p: int, lo: int) {
    if p == -1 then forall k :: 0 <= k < |lines| ==> lines[k].equiv != e
    else 0 <= p < |lines| && lines[p].equiv == e && forall k :: 0 <= k < p && lines[k].equiv == e ==> k < lo
  }

  /** A cursor stays usable while the low bound does not decrease. */
  ghost predicate Cursors<T>(lines: seq<Line<T>>, table: seq<Bucket>, inA: bool, lo: int) {
    forall e :: 0 <= e < |table| && table[e].bHead != -1 ==> CursorOk(lines, e, if inA then table[e].aPos else table[e].bPos, lo)
  }

  /** Only cursors differ. */
  ghost predicate SameHeads(p: seq<Bucket>, q: seq<Bucket>) {
    |p| == |q| && forall e :: 0 <= e < |p| ==>
      && p[e].aHead == q[e].aHead && p[e].aCount == q[e].aCount
      && p[e].bHead == q[e].bHead && p[e].bCount == q[e].bCount
  }

  /** Classes and chains describe the two texts. */
  ghost predicate Fits<T>(la: seq<Line<T>>, lb: seq<Line<T>>, table: seq<Bucket>, A: seq<T>, B: seq<T>) {
    && |la| == |A| && (forall k :: 0 <= k < |A| ==> la[k].data == A[k])
    && |lb| == |B| && (forall k :: 0 <= k < |B| ==> lb[k].data == B[k])
    && Equated(la, lb, table)
    && (forall i, j :: 0 <= i < |lb| && 0 <= j < |lb| ==> (lb[i].equiv == lb[j].equiv <==> lb[i].data == lb[j].data))
    && (forall i, j :: 0 <= i < |la| && 0 <= j < |lb| ==> (la[i].equiv == lb[j].equiv <==> la[i].data == lb[j].data))
  }

  lemma FitsIsEquated<T>(la: seq<Line<T>>, lb: seq<Line<T>>, table: seq<Bucket>, A: seq<T>, B: seq<T>)
    requires Fits(la, lb, table, A, B)
    ensures Equated(la, lb, table)
  {
  }

  lemma EquatedFits<T(!new)>(hashOf: T -> int, la: seq<Line<T>>, lb: seq<Line<T>>, table: seq<Bucket>, A: seq<T>, B: seq<T>)
    requires |la| == |A| && (forall k :: 0 <= k < |A| ==> la[k].data == A[k])
    requires |lb| == |B| && (forall k :: 0 <= k < |B| ==> lb[k].data == B[k])
    requires Probed(hashOf, lb, table) && Equated(la, lb, table)
    ensures Fits(la, lb, table, A, B)
  {
    hide Probed, Equated;
    ClassesAreEquality(hashOf, la, lb, table);
  }

  lemma FitsSurvives<T>(la: seq<Line<T>>, lb: seq<Line<T>>, p: seq<Bucket>, q: seq<Bucket>, A: seq<T>, B: seq<T>)
    requires Fits(la, lb, p, A, B) && SameHeads(p, q)
    ensures Fits(la, lb, q, A, B)
  {
    hide NextOf, CountOf;
    assert forall e :: 0 <= e < |p| ==> (Used(p, e) <==> Used(q, e));
    assert LinkedB(lb, q, 0);
    assert LinkedA(la, lb, q, 0);
  }

  lemma HeadsAreCursors<T>(la: seq<Line<T>>, lb: seq<Line<T>>, table: seq<Bucket>, lo: int)
    requires Equated(la, lb, table)
    ensures forall e :: 0 <= e < |table| && table[e].bHead != -1 ==>
      CursorOk(la, e, table[e].aHead, lo) && CursorOk(lb, e, table[e].bHead, lo)
  {
    hide NextOf, CountOf;
    forall e | 0 <= e < |table| && table[e].bHead != -1
      ensures CursorOk(la, e, table[e].aHead, lo) && CursorOk(lb, e, table[e].bHead, lo)
    {
      NextIsFirst(la, e, 0);
      NextIsFirst(lb, e, 0);
      assert Used(table, e);
    }
  }

  /** Where the walk along a chain stands: the lines of the class in [lo, i) are just r, if any. */
  ghost predicate Walked<T>(lines: seq<Line<T>>, e: int, lo: int, i: int, r: int) {
    && (i == -1 || (0 <= i < |lines| && lines[i].equiv == e))
    && (forall k :: lo <= k < (if i == -1 then |lines| else i) && 0 <= k && lines[k].equiv == e ==> k == r)
    && (r == -1 || (lo <= r < |lines| && 0 <= r && lines[r].equiv == e && (i == -1 || r < i)))
  }

  lemma WalkStarts<T>(lines: seq<Line<T>>, e: int, p: int, lo: int)
    requires CursorOk(lines, e, p, lo)
    ensures Walked(lines, e, lo, p, -1)
  {
  }

  /** One step along a chain, from line i that lies before lo or is the first one found. */
  lemma WalkStep<T>(lines: seq<Line<T>>, e: int, lo: int, i: int, r: int)
    requires Walked(lines, e, lo, i, r) && i != -1 && (i < lo || r == -1)
    ensures var n := NextOf(lines, e, i + 1);
            && Walked(lines, e, lo, n, if i < lo then r else i)
            && (n == -1 || i < n)
    ensures i < lo ==> CursorOk(lines, e, i, lo)
  {
    hide NextOf;
    NextIsFirst(lines, e, i + 1);
  }

  // ---------------------------------------------------------------------------
  // The matcher object
  // ---------------------------------------------------------------------------

  /** matching_blocks: a buffer of blocks and how many of them are in use. */
  class BlockBuffer {
    const matches: array<Block>
    var count: nat
    ghost var pairs: seq<Pair>

    ghost predicate Valid()
      reads this, matches
    {
      count <= matches.Length && matches[..count] == Collapse(pairs)
    }

    constructor (size: nat)
      ensures Valid() && fresh(matches) && matches.Length == size && pairs == []
    {
      matches := new Block[size];
      count := 0;
      pairs := [];
    }

    /** There is room for a line that comes after as many positions of b as lines were added. */
    method AddMatchingLine(a: int, b: int)
      requires Valid() && |pairs| < matches.Length
      modifies this, matches
      ensures Valid() && pairs == old(pairs) + [Pair(a, b)]
    {
      hide Collapse;
      CollapseIsMaximal(pairs);
      CollapseMore(pairs, Pair(a, b));
      var last := count - 1;
      if last >= 0 && a == matches[last].a + matches[last].len && b == matches[last].b + matches[last].len {
        matches[last] := matches[last].(len := matches[last].len + 1);
      } else {
        matches[last + 1] := Block(a, b, 1);
        count := count + 1;
      }
      pairs := pairs + [Pair(a, b)];
      assert matches[..count] == AddLine(old(matches[..count]), Pair(a, b));
    }
  }

  method LoadLines<T(==, !new)>(orig: seq<T>, hashOf: T -> int) returns (lines: array<Line<T>>)
    ensures fresh(lines) && lines.Length == |orig| && HashesAgree(hashOf, lines[..])
    ensures forall k :: 0 <= k < |orig| ==> lines[k].data == orig[k]
  {
    lines := new Line<T>[|orig|](i requires 0 <= i < |orig| => Line(hashOf(orig[i]), -1, 0, orig[i]));
  }

  class PatienceSequenceMatcher<T(==, !new)> {
    const a: array<Line<T>>
    const b: array<Line<T>>
    const table: array<Bucket>
    var lastAPos: int
    var lastBPos: int
    const backpointers: array<int>
    const stacks: array<int>
    const lasts: array<int>
    const btoa: array<int>

    ghost const A: seq<T>
    ghost const B: seq<T>

    ghost predicate Valid()
      reads this, a, b, table
    {
      && a != b
      && backpointers != stacks && backpointers != lasts && backpointers != btoa
      && stacks != lasts && stacks != btoa && lasts != btoa
      && backpointers.Length == stacks.Length == lasts.Length == btoa.Length == |B|
      && Fits(a[..], b[..], table[..], A, B)
      && lastAPos >= -1 && (lastAPos >= 0 ==> Cursors(a[..], table[..], true, lastAPos))
      && lastBPos >= -1 && (lastBPos >= 0 ==> Cursors(b[..], table[..], false, lastBPos))
    }

    constructor (aseq: seq<T>, bseq: seq<T>, hashOf: T -> int)
      ensures Valid() && A == aseq && B == bseq
      ensures fresh(a) && fresh(b) && fresh(table) && fresh(backpointers) && fresh(stacks) && fresh(lasts) && fresh(btoa)
    {
      hide Probed, Equated, Fits;
      A, B := aseq, bseq;
      var la := LoadLines(aseq, hashOf);
      var lb := LoadLines(bseq, hashOf);
      var t := EquateLines(hashOf, la, lb);
      a, b, table := la, lb, t;
      lastAPos, lastBPos := -1, -1;
      backpointers, stacks, lasts, btoa := new int[|bseq|], new int[|bseq|], new int[|bseq|], new int[|bseq|];
      EquatedFits(hashOf, la[..], lb[..], t[..], aseq, bseq);
    }

    /** Resetting the cursors, unless they can be used from alo and blo on. */
    method PrepareCursors(alo: nat, blo: nat)
      requires Valid()
      modifies this, table
      ensures Valid() && lastAPos == alo && lastBPos == blo
    {
      hide Fits, NextOf, CountOf, CursorOk;
      ghost var before := table[..];
      FitsIsEquated(a[..], b[..], before, A, B);
      HeadsAreCursors(a[..], b[..], before, alo);
      HeadsAreCursors(a[..], b[..], before, blo);
      if lastAPos == -1 || lastAPos > alo {
        for i := 0 to table.Length
          modifies table
          invariant forall e :: i <= e < table.Length ==> table[e] == before[e]
          invariant forall e :: 0 <= e < i ==> table[e] == before[e].(aPos := before[e].aHead)
        {
          table[i] := table[i].(aPos := table[i].aHead);
        }
      } else {
        LaterCursors(a[..], before, true, lastAPos, alo);
      }
      lastAPos := alo;
      assert Cursors(a[..], table[..], true, alo);
      ghost var middle := table[..];
      if lastBPos == -1 || lastBPos > blo {
        for i := 0 to table.Length
          modifies table
          invariant forall e :: i <= e < table.Length ==> table[e] == middle[e]
          invariant forall e :: 0 <= e < i ==> table[e] == middle[e].(bPos := middle[e].bHead)
        {
          table[i] := table[i].(bPos := table[i].bHead);
        }
      } else {
        LaterCursors(b[..], before, false, lastBPos, blo);
      }
      lastBPos := blo;
      FitsSurvives(a[..], b[..], before, table[..], A, B);
    }

    /** The only line of class e in a[alo..ahi]; -1 if there is none or more than one. */
    method FindInA(e: nat, alo: nat, ahi: nat) returns (apos: int)
      requires Valid() && e < table.Length && table[e].bHead != -1 && lastAPos == alo <= ahi <= |A|
      modifies table
      ensures Valid() && SameHeads(old(table[..]), table[..])
      ensures apos != -1 ==> OnlyIn(a[..], e, alo, ahi, apos)
      ensures apos == -1 ==> forall r :: !OnlyIn(a[..], e, alo, ahi, r)
    {
      hide Fits, NextOf, CountOf, CursorOk;
      ghost var before, la := table[..], a[..];
      NextLink(la, b[..], before, A, B);
      FitsLength(la, b[..], before, A, B);
      apos := -1;
      var i := table[e].aPos;
      WalkStarts(la, e, i, alo);
      while i != -1
        invariant SameHeads(before, table[..]) && Cursors(la, table[..], true, alo)
        invariant forall x :: 0 <= x < table.Length ==> table[x].bPos == before[x].bPos
        invariant Walked(la, e, alo, i, apos) && (apos == -1 || apos < ahi)
        decreases if i == -1 then 0 else a.Length - i
      {
        if i < alo {
          WalkStep(la, e, alo, i, apos);
          table[e] := table[e].(aPos := i);
          i := a[i].next;
          continue;
        }
        if i >= ahi {
          break;
        }
        if apos != -1 {
          FitsSurvives(la, b[..], before, table[..], A, B);
          TwoLines(la, e, alo, ahi, apos, i);
          return -1;
        }
        WalkStep(la, e, alo, i, apos);
        apos := i;
        i := a[i].next;
      }
      FitsSurvives(la, b[..], before, table[..], A, B);
      WalkEnds(la, e, alo, ahi, i, apos);
    }

    /** Whether line bpos is repeated in b[blo..bhi]. */
    method RepeatedInB(bpos: nat, blo: nat, bhi: nat) returns (repeated: bool)
      requires Valid() && blo <= bpos < bhi <= |B| && lastBPos == blo && bpos < b.Length
      modifies table
      ensures Valid() && SameHeads(old(table[..]), table[..])
      ensures repeated <==> !OnlyIn(b[..], b[bpos].equiv, blo, bhi, bpos)
    {
      hide Fits, NextOf, CountOf, CursorOk;
      ghost var before, lb := table[..], b[..];
      NextLink(a[..], lb, before, A, B);
      FitsLength(a[..], lb, before, A, B);
      var e := b[bpos].equiv;
      var i := table[e].bPos;
      ghost var seen := -1;
      WalkStarts(lb, e, i, blo);
      while i != -1
        invariant SameHeads(before, table[..]) && Cursors(lb, table[..], false, blo)
        invariant forall x :: 0 <= x < table.Length ==> table[x].aPos == before[x].aPos
        invariant Walked(lb, e, blo, i, seen) && (seen == -1 || seen == bpos)
        decreases if i == -1 then 0 else b.Length - i
      {
        if i < blo {
          WalkStep(lb, e, blo, i, seen);
          table[e] := table[e].(bPos := i);
          i := b[i].next;
          continue;
        }
        if i >= bhi {
          break;
        }
        if i != bpos {
          FitsSurvives(a[..], lb, before, table[..], A, B);
          TwoLines(lb, e, blo, bhi, bpos, i);
          return true;
        }
        WalkStep(lb, e, blo, i, seen);
        seen := i;
        i := b[i].next;
      }
      FitsSurvives(a[..], lb, before, table[..], A, B);
      WalkEnds(lb, e, blo, bhi, i, seen);
      return false;
    }

    /** The partner of line bpos within the box, or -1. */
    method FindPartner(bpos: nat, alo: nat, blo: nat, ahi: nat, bhi: nat) returns (apos: int)
      requires Valid() && Box(A, B, alo, blo, ahi, bhi) && blo <= bpos < bhi && lastAPos == alo && lastBPos == blo
      modifies table
      ensures Valid()
      ensures apos == -1 || alo <= apos < ahi
      ensures Table(A[alo..ahi], B[blo..bhi])[bpos - blo] == if apos == -1 then -1 else apos - alo
    {
      hide Fits, NextOf, CountOf, CursorOk, Cursors, OnlyIn;
      ghost var before := table[..];
      FitsLength(a[..], b[..], before, A, B);
      NextLink(a[..], b[..], before, A, B);
      var e := b[bpos].equiv;
      CountsAreExact(a[..], b[..], before, A, B, bpos, alo, ahi);
      if table[e].aCount == 0 || table[e].bCount == 0 {
        ClassPartner(a[..], b[..], before, A, B, alo, blo, ahi, bhi, bpos, -1);
        return -1;
      }
      apos := FindInA(e, alo, ahi);
      if apos == -1 {
        ClassPartner(a[..], b[..], before, A, B, alo, blo, ahi, bhi, bpos, -1);
        return;
      }
      var repeated := RepeatedInB(bpos, blo, bhi);
      ClassPartner(a[..], b[..], before, A, B, alo, blo, ahi, bhi, bpos, if repeated then -1 else apos);
      OnlyInBounds(a[..], e, alo, ahi, apos);
      if repeated {
        return -1;
      }
    }

    /** The first place of item in the top of the piles. */
    method BisectLeft(item: int, size: nat) returns (lo: int)
      requires size <= stacks.Length
      requires forall i, j :: 0 <= i < j < size ==> stacks[i] < stacks[j]
      ensures 0 <= lo <= size
      ensures forall i :: 0 <= i < lo ==> stacks[i] < item
      ensures forall i :: lo <= i < size ==> item <= stacks[i]
    {
      var hi := size;
      lo := 0;
      while lo < hi
        invariant 0 <= lo <= hi <= size
        invariant forall i :: 0 <= i < lo ==> stacks[i] < item
        invariant forall i :: hi <= i < size ==> item <= stacks[i]
      {
        var mid := lo / 2 + hi / 2 + (lo % 2 + hi % 2) / 2;
        if stacks[mid] < item { lo := mid + 1; } else { hi := mid; }
      }
    }

    /** The slot for the next entry, by either shortcut or by bisection. */
    method FindSlotC(ghost t: seq<int>, ghost n: nat, size: nat, guess: int, apos: int) returns (k: int)
      requires size <= stacks.Length && size <= lasts.Length
      requires Injective(t) && n < |t| && apos == t[n] >= 0 && Piles(t, n, stacks[..size], lasts[..size])
      requires size == 0 || 0 <= guess < size
      ensures IsSlot(stacks[..size], apos, k) && 0 <= k <= size
    {
      hide Piles, Injective;
      ghost var st := stacks[..size];
      PilesAreOrdered(t, n, st, lasts[..size]);
      assert forall i :: 0 <= i < size ==> stacks[i] == st[i];
      if size != 0 && stacks[size - 1] < apos {
        k := size;
      } else if size != 0 && stacks[guess] < apos && (guess == size - 1 || stacks[guess + 1] > apos) {
        k := guess + 1;
      } else {
        k := BisectLeft(apos, size);
      }
    }

    /** Put entry n on its pile, with a backpointer to the pile before. */
    method PlaceC(ghost t: seq<int>, n: nat, size: nat, apos: int, k: int) returns (size': nat)
      requires size <= n < backpointers.Length == stacks.Length == lasts.Length && |t| <= backpointers.Length
      requires backpointers != stacks && backpointers != lasts && stacks != lasts
      requires Injective(t) && n < |t| && apos == t[n] >= 0
      requires Piles(t, n, stacks[..size], lasts[..size]) && IsSlot(stacks[..size], apos, k) && 0 <= k <= size
      requires Backpointers(t, n, backpointers[..|t|])
      modifies backpointers, stacks, lasts
      ensures k < size' <= n + 1
      ensures Piles(t, n + 1, stacks[..size'], lasts[..size']) && Backpointers(t, n + 1, backpointers[..|t|])
    {
      hide Piles, Injective, IsSlot, Backpointers;
      ghost var st, ls, back := stacks[..size], lasts[..size], backpointers[..|t|];
      Place(t, n, st, ls, k);
      BackpointersNext(t, n, back, if k > 0 then ls[k - 1] else -1);
      if k > 0 {
        backpointers[n] := lasts[k - 1];
        assert backpointers[..|t|] == back[n := ls[k - 1]];
      }
      if k < size {
        stacks[k] := apos;
        lasts[k] := n;
        size' := size;
        assert stacks[..size] == st[k := apos] && lasts[..size] == ls[k := n];
      } else {
        stacks[size] := apos;
        lasts[size] := n;
        size' := size + 1;
        assert stacks[..size'] == st + [apos] && lasts[..size'] == ls + [n];
      }
    }

    method UniqueLcsC(answer: array<Pair>, alo: nat, blo: nat, ahi: nat, bhi: nat) returns (count: nat)
      requires Valid() && Box(A, B, alo, blo, ahi, bhi) && answer.Length >= bhi - blo
      modifies this, table, backpointers, stacks, lasts, btoa, answer
      ensures Valid() && count <= answer.Length
      ensures Reversed(answer[..count]) == UniqueLcs(A[alo..ahi], B[blo..bhi])
    {
      hide Fits, Piles, Injective, IsSlot, Backpointers, Cursors, UniqueLcs;
      ghost var t := Table(A[alo..ahi], B[blo..bhi]);
      var bsize := bhi - blo;
      for i := 0 to bsize
        modifies backpointers
        invariant forall j :: 0 <= j < i ==> backpointers[j] == -1
      {
        backpointers[i] := -1;
      }
      PrepareCursors(alo, blo);
      var k, size := 0, 0;
      NoPiles(t, backpointers[..bsize]);
      assert stacks[..0] == lasts[..0] == [];
      for bpos := blo to bhi
        modifies table, backpointers, stacks, lasts, btoa
        invariant Valid() && lastAPos == alo && lastBPos == blo
        invariant size <= bpos - blo && (size == 0 || 0 <= k < size)
        invariant Piles(t, bpos - blo, stacks[..size], lasts[..size])
        invariant Backpointers(t, bpos - blo, backpointers[..bsize])
        invariant forall q :: 0 <= q < bpos - blo && t[q] >= 0 ==> btoa[q] == t[q]
      {
        var apos := FindPartner(bpos, alo, blo, ahi, bhi);
        var normB := bpos - blo;
        if apos == -1 {
          Skip(t, normB, stacks[..size], lasts[..size]);
          BackpointersNext(t, normB, backpointers[..bsize], -1);
          continue;
        }
        var normA := apos - alo;
        btoa[normB] := normA;
        k := FindSlotC(t, normB, size, k, normA);
        size := PlaceC(t, normB, size, normA, k);
      }
      LcsFromPiles(A[alo..ahi], B[blo..bhi], stacks[..size], lasts[..size]);
      if size == 0 {
        return 0;
      }
      count := FollowBackpointersC(answer, t, lasts[size - 1]);
    }

    method FollowBackpointersC(answer: array<Pair>, ghost t: seq<int>, last: int) returns (i: nat)
      requires Injective(t) && |t| <= btoa.Length && |t| <= backpointers.Length && |t| <= answer.Length
      requires Backpointers(t, |t|, backpointers[..|t|])
      requires forall q :: 0 <= q < |t| && t[q] >= 0 ==> btoa[q] == t[q]
      requires 0 <= last < |t| && t[last] >= 0
      modifies answer
      ensures i <= answer.Length && Reversed(answer[..i]) == Chain(t, last)
    {
      hide Depth, Rank, Latest, Injective, Backpointers, Reversed, Chain;
      ChainEnds(t);
      ghost var back := backpointers[..|t|];
      BackFollowsChain(t, back);
      ChainFits(t, last);
      i := 0;
      var k := last;
      while k != -1
        invariant -1 <= k < |t| && (k >= 0 ==> t[k] >= 0)
        invariant i + |Chain(t, k)| <= |t|
        invariant Chain(t, last) == Chain(t, k) + Reversed(answer[..i])
        decreases k
      {
        answer[i] := Pair(btoa[k], k);
        assert answer[..i + 1] == answer[..i] + [Pair(t[k], k)];
        ReversedMore(answer[..i], Pair(t[k], k));
        k := backpointers[k];
        i := i + 1;
      }
    }

    /** recurse_matches; the buffer never needs more blocks than b has lines. */
    method RecurseMatchesC(answer: BlockBuffer, alo: nat, blo: nat, ahi: nat, bhi: nat, maxrecursion: int)
      requires Valid() && alo <= ahi <= |A| && blo <= bhi <= |B|
      requires answer.Valid() && answer.matches.Length >= |B| && |answer.pairs| <= blo
      modifies this, table, backpointers, stacks, lasts, btoa, answer, answer.matches
      ensures Valid() && answer.Valid()
      ensures answer.pairs == old(answer.pairs) + Matches(A, B, alo, blo, ahi, bhi, maxrecursion)
      ensures |answer.pairs| <= bhi
      decreases if maxrecursion < 0 then 0 else maxrecursion + 1, 2
    {
      hide Fits, Matches, BoxLcs, Between, PrefixLen, SuffixLen, UniqueLcs, SameLines, Run, Cursors, Collapse;
      if maxrecursion < 0 || alo == ahi || blo == bhi {
        MatchesNothing(A, B, alo, blo, ahi, bhi, maxrecursion);
        return;
      }
      MatchesFit(A, B, alo, blo, ahi, bhi, maxrecursion);
      var new_ := RecurseBetweenC(answer, alo, blo, ahi, bhi, maxrecursion);
      if new_ {
        MatchesUnique(A, B, alo, blo, ahi, bhi, maxrecursion);
      } else {
        RecurseEndsC(answer, alo, blo, ahi, bhi, maxrecursion);
      }
    }

    /** The part of recurse_matches for a box without unique lines: equal lines at the start, or at the end. */
    method RecurseEndsC(answer: BlockBuffer, alo: nat, blo: nat, ahi: nat, bhi: nat, maxrecursion: nat)
      requires Valid() && alo < ahi <= |A| && blo < bhi <= |B| && BoxLcs(A, B, alo, blo, ahi, bhi) == []
      requires answer.Valid() && answer.matches.Length >= |B| && |answer.pairs| <= blo
      modifies this, table, backpointers, stacks, lasts, btoa, answer, answer.matches
      ensures Valid() && answer.Valid()
      ensures answer.pairs == old(answer.pairs) + Matches(A, B, alo, blo, ahi, bhi, maxrecursion)
      decreases maxrecursion + 1, 1
    {
      hide Fits, Matches, BoxLcs, Between, PrefixLen, SuffixLen, UniqueLcs, SameLines, Run, Cursors, Collapse;
      ghost var start := answer.pairs;
      MatchesFit(A, B, alo, blo, ahi, bhi, maxrecursion);
      EquivIsEquality(a[..], b[..], table[..], A, B);
      if a[alo].equiv == b[blo].equiv {
        MatchesBeginning(A, B, alo, blo, ahi, bhi, maxrecursion);
        var i, j := MatchBeginningC(answer, alo, blo, ahi, bhi);
        RecurseMatchesC(answer, i, j, ahi, bhi, maxrecursion - 1);
        ghost var n := PrefixLen(A, B, alo, blo, ahi, bhi);
        assert answer.pairs == start + (Run(alo, blo, n) + Matches(A, B, i, j, ahi, bhi, maxrecursion - 1));
      } else if a[ahi - 1].equiv == b[bhi - 1].equiv {
        MatchesEnd(A, B, alo, blo, ahi, bhi, maxrecursion);
        var nahi, nbhi := SkipEndC(alo, blo, ahi, bhi);
        RecurseMatchesC(answer, alo, blo, nahi, nbhi, maxrecursion - 1);
        AppendRunC(answer, nahi, nbhi, ahi - nahi);
        assert answer.pairs == start + (Matches(A, B, alo, blo, nahi, nbhi, maxrecursion - 1) + Run(nahi, nbhi, ahi - nahi));
      } else {
        MatchesNoEnds(A, B, alo, blo, ahi, bhi, maxrecursion);
      }
    }

    method RecurseBetweenC(answer: BlockBuffer, alo: nat, blo: nat, ahi: nat, bhi: nat, maxrecursion: nat) returns (any: bool)
      requires Valid() && alo < ahi <= |A| && blo < bhi <= |B|
      requires answer.Valid() && answer.matches.Length >= |B| && |answer.pairs| <= blo
      modifies this, table, backpointers, stacks, lasts, btoa, answer, answer.matches
      ensures Valid() && answer.Valid()
      ensures any <==> BoxLcs(A, B, alo, blo, ahi, bhi) != []
      ensures answer.pairs == old(answer.pairs) +
        if any then Between(A, B, BoxLcs(A, B, alo, blo, ahi, bhi), 0, alo, blo, ahi, bhi, maxrecursion) else []
      ensures |answer.pairs| <= bhi
      decreases maxrecursion + 1, 1
    {
      hide Fits, Matches, BoxLcs, Between, UniqueLcs, SameLines, Cursors, Collapse, Reached, Increasing, InBox, EqualLines;
      any := false;
      var lastA, lastB := alo - 1, blo - 1;
      var lcs := new Pair[bhi - blo];
      var size := UniqueLcsC(lcs, alo, blo, ahi, bhi);
      ghost var pairs, box := lcs[..size], BoxLcs(A, B, alo, blo, ahi, bhi);
      BoxLcsIsCommon(A, B, alo, blo, ahi, bhi);
      BoxLcsIsShift(A, B, alo, blo, ahi, bhi);
      StartReached(box, alo, blo);
      ghost var start := answer.pairs;
      for i := size downto 0
        invariant lcs[..size] == pairs
        invariant Valid() && answer.Valid() && |answer.pairs| <= lastB + 1
        invariant Reached(box, size - i, alo, blo, lastA + 1, lastB + 1)
        invariant start + Between(A, B, box, 0, alo, blo, ahi, bhi, maxrecursion)
               == answer.pairs + Between(A, B, box, size - i, lastA + 1, lastB + 1, ahi, bhi, maxrecursion)
        invariant any <==> i < size
        invariant !any ==> answer.pairs == start
      {
        var apos, bpos := alo + lcs[i].a, blo + lcs[i].b;
        assert lcs[i] == pairs[i];
        assert box[size - i - 1] == Pair(apos, bpos);
        ReachedIsBox(box, size - i - 1, alo, blo, ahi, bhi, lastA + 1, lastB + 1);
        BetweenAdvances(A, B, box, size - i - 1, lastA + 1, lastB + 1, ahi, bhi, maxrecursion, answer.pairs);
        RecurseGapC(answer, lastA + 1, lastB + 1, apos, bpos, maxrecursion);
        lastA, lastB := apos, bpos;
        any := true;
      }
      ReachedIsBox(box, size, alo, blo, ahi, bhi, lastA + 1, lastB + 1);
      BetweenUnfolds(A, B, box, size, lastA + 1, lastB + 1, ahi, bhi, maxrecursion);
      if any {
        RecurseMatchesC(answer, lastA + 1, lastB + 1, ahi, bhi, maxrecursion - 1);
      }
    }

    /** The part before one unique match, and the match. */
    method RecurseGapC(answer: BlockBuffer, la: nat, lb: nat, apos: nat, bpos: nat, maxrecursion: nat)
      requires Valid() && la <= apos < |A| && lb <= bpos < |B|
      requires answer.Valid() && answer.matches.Length >= |B| && |answer.pairs| <= lb
      modifies this, table, backpointers, stacks, lasts, btoa, answer, answer.matches
      ensures Valid() && answer.Valid()
      ensures answer.pairs == old(answer.pairs) + Matches(A, B, la, lb, apos, bpos, maxrecursion - 1) + [Pair(apos, bpos)]
      ensures |answer.pairs| <= bpos + 1
      decreases maxrecursion + 1, 0
    {
      hide Fits, Matches, Collapse, Cursors;
      if la != apos || lb != bpos {
        RecurseMatchesC(answer, la, lb, apos, bpos, maxrecursion - 1);
      } else {
        MatchesNothing(A, B, apos, bpos, apos, bpos, maxrecursion - 1);
      }
      answer.AddMatchingLine(apos, bpos);
    }

    method MatchBeginningC(answer: BlockBuffer, alo: nat, blo: nat, ahi: nat, bhi: nat) returns (i: nat, j: nat)
      requires Valid() && alo <= ahi <= |A| && blo <= bhi <= |B|
      requires answer.Valid() && answer.matches.Length >= |B| && |answer.pairs| <= blo
      modifies answer, answer.matches
      ensures Valid() && answer.Valid()
      ensures var n := PrefixLen(A, B, alo, blo, ahi, bhi);
              i == alo + n && j == blo + n && answer.pairs == old(answer.pairs) + Run(alo, blo, n)
      ensures i - alo == j - blo && AgreeAtStart(A, B, alo, blo, ahi, bhi, i - alo)
    {
      hide Fits, Cursors, Collapse, AgreeAtStart;
      PrefixLenIs(A, B, alo, blo, ahi, bhi, PrefixLen(A, B, alo, blo, ahi, bhi));
      EquivIsEquality(a[..], b[..], table[..], A, B);
      i, j := alo, blo;
      while i < ahi && j < bhi && a[i].equiv == b[j].equiv
        invariant alo <= i <= ahi && blo <= j <= bhi && i - alo == j - blo
        invariant PrefixLen(A, B, alo, blo, ahi, bhi) == i - alo + PrefixLen(A, B, i, j, ahi, bhi)
        invariant answer.Valid() && answer.pairs == old(answer.pairs) + Run(alo, blo, i - alo)
      {
        answer.AddMatchingLine(i, j);
        i, j := i + 1, j + 1;
      }
    }

    method SkipEndC(alo: nat, blo: nat, ahi: nat, bhi: nat) returns (nahi: nat, nbhi: nat)
      requires Valid() && alo < ahi <= |A| && blo < bhi <= |B| && A[ahi - 1] == B[bhi - 1]
      ensures var n := SuffixLen(A, B, alo, blo, ahi, bhi); nahi == ahi - n && nbhi == bhi - n
      ensures ahi - nahi == bhi - nbhi > 0 && AgreeAtEnd(A, B, alo, blo, ahi, bhi, ahi - nahi)
    {
      hide Fits, Cursors, AgreeAtEnd;
      SuffixLenIs(A, B, alo, blo, ahi, bhi, SuffixLen(A, B, alo, blo, ahi, bhi));
      EquivIsEquality(a[..], b[..], table[..], A, B);
      nahi, nbhi := ahi - 1, bhi - 1;
      while nahi > alo && nbhi > blo && a[nahi - 1].equiv == b[nbhi - 1].equiv
        invariant alo <= nahi < ahi && blo <= nbhi < bhi && ahi - nahi == bhi - nbhi
        invariant SuffixLen(A, B, alo, blo, ahi, bhi) == ahi - nahi + SuffixLen(A, B, alo, blo, nahi, nbhi)
      {
        nahi, nbhi := nahi - 1, nbhi - 1;
      }
    }

    method AppendRunC(answer: BlockBuffer, i: nat, j: nat, n: nat)
      requires Valid() && answer.Valid() && |answer.pairs| <= j && j + n <= answer.matches.Length
      modifies answer, answer.matches
      ensures Valid() && answer.Valid() && answer.pairs == old(answer.pairs) + Run(i, j, n)
    {
      hide Fits, Cursors, Collapse;
      for k := 0 to n
        invariant answer.Valid() && answer.pairs == old(answer.pairs) + Run(i, j, k)
      {
        answer.AddMatchingLine(i + k, j + k);
      }
    }

    // -------------------------------------------------------------------------
    // get_matching_blocks and get_opcodes
    // -------------------------------------------------------------------------

    method GetMatchingBlocksC() returns (blocks: seq<Block>)
      requires Valid()
      modifies this, table, backpointers, stacks, lasts, btoa
      ensures Valid()
      ensures blocks == MatchingBlocks(A, B) && IsBlockList(A, B, blocks)
      ensures |blocks| <= |B| + 1
    {
      hide Fits, Cursors, Matches, Collapse, BlocksMatch;
      FitsLength(a[..], b[..], table[..], A, B);
      var matches := new BlockBuffer(b.Length);
      RecurseMatchesC(matches, 0, 0, a.Length, b.Length, 10);
      assert [] + Matches(A, B, 0, 0, |A|, |B|, 10) == Matches(A, B, 0, 0, |A|, |B|, 10);
      blocks := matches.matches[..matches.count] + [Block(a.Length, b.Length, 0)];
      FitsLength(a[..], b[..], table[..], A, B);
      MatchingBlocksAreValid(A, B);
    }

    method GetOpcodesC() returns (ops: seq<Opcode>)
      requires Valid()
      modifies this, table, backpointers, stacks, lasts, btoa
      ensures Valid() && ops == Opcodes(MatchingBlocks(A, B), 0, 0)
    {
      hide Fits, Cursors, Matches, Collapse, MatchingBlocks, Opcodes;
      var blocks := GetMatchingBlocksC();
      ops := BuildOpcodes(blocks);
    }
  }

  method BuildOpcodes(blocks: seq<Block>) returns (ops: seq<Opcode>)
    ensures ops == Opcodes(blocks, 0, 0)
  {
    hide Opcodes, BlockOpcodes;
    ops := [];
    var i, j := 0, 0;
    assert blocks[0..] == blocks;
    for k := 0 to |blocks|
      invariant Opcodes(blocks, 0, 0) == ops + Opcodes(blocks[k..], i, j)
    {
      var ai, bj := blocks[k].a, blocks[k].b;
      OpcodesUnfold(blocks, k, i, j);
      BlockOpcodesAre(ops, blocks[k], i, j, Opcodes(blocks[k + 1..], ai + blocks[k].len, bj + blocks[k].len));
      if i < ai && j < bj {
        ops := ops + [Opcode(Replace, i, ai, j, bj)];
      } else if i < ai {
        ops := ops + [Opcode(Delete, i, ai, j, bj)];
      } else if j < bj {
        ops := ops + [Opcode(Insert, i, ai, j, bj)];
      }
      i, j := ai + blocks[k].len, bj + blocks[k].len;
      if blocks[k].len > 0 {
        ops := ops + [Opcode(Equal, ai, i, bj, j)];
      }
    }
    NoOpcodes(blocks, i, j);
  }

  lemma BlockOpcodesAre(ops: seq<Opcode>, k: Block, i: int, j: int, rest: seq<Opcode>)
    ensures var gap := if i < k.a && j < k.b then ops + [Opcode(Replace, i, k.a, j, k.b)]
                       else if i < k.a then ops + [Opcode(Delete, i, k.a, j, k.b)]
                       else if j < k.b then ops + [Opcode(Insert, i, k.a, j, k.b)]
                       else ops;
            var both := if k.len > 0 then gap + [Opcode(Equal, k.a, k.a + k.len, k.b, k.b + k.len)] else gap;
            ops + (BlockOpcodes(k, i, j) + rest) == both + rest
  {
  }

  lemma NoOpcodes(blocks: seq<Block>, i: int, j: int)
    ensures Opcodes(blocks[|blocks|..], i, j) == []
  {
  }

  lemma FitsLength<T>(la: seq<Line<T>>, lb: seq<Line<T>>, table: seq<Bucket>, A: seq<T>, B: seq<T>)
    requires Fits(la, lb, table, A, B)
    ensures |la| == |A| && |lb| == |B|
  {
  }

  lemma OnlyInBounds<T>(lines: seq<Line<T>>, e: int, lo: int, hi: int, r: int)
    requires OnlyIn(lines, e, lo, hi, r)
    ensures lo <= r < hi
  {
  }

  lemma TwoLines<T>(lines: seq<Line<T>>, e: int, lo: int, hi: int, i: int, j: int)
    requires 0 <= lo <= i < hi && lo <= j < hi <= |lines| && i != j && lines[i].equiv == lines[j].equiv == e
    ensures forall r :: !OnlyIn(lines, e, lo, hi, r)
  {
  }

  lemma WalkEnds<T>(lines: seq<Line<T>>, e: int, lo: int, hi: int, i: int, r: int)
    requires 0 <= lo <= hi <= |lines| && Walked(lines, e, lo, i, r) && (i == -1 || hi <= i) && (r == -1 || r < hi)
    ensures r != -1 ==> OnlyIn(lines, e, lo, hi, r)
    ensures r == -1 ==> forall k :: lo <= k < hi ==> lines[k].equiv != e
    ensures r == -1 ==> forall k :: !OnlyIn(lines, e, lo, hi, k)
  {
  }

  lemma CountsAreExact<T>(la: seq<Line<T>>, lb: seq<Line<T>>, table: seq<Bucket>, A: seq<T>, B: seq<T>, bpos: nat, alo: int, ahi: int)
    requires Fits(la, lb, table, A, B) && bpos < |lb|
    ensures var e := lb[bpos].equiv;
            0 <= e < |table| && (table[e].aCount == 0 || table[e].bCount == 0 ==> forall r :: !OnlyIn(la, e, alo, ahi, r))
  {
    hide NextOf, CountOf;
    var e := lb[bpos].equiv;
    assert Used(table, e);
    CountIsZero(la, e, 0);
    CountIsZero(lb, e, 0);
    NextIsFirst(la, e, 0);
    NextIsFirst(lb, e, 0);
  }

  /** In terms of classes, the partner of a line is the line of its class that is alone in the box. */
  lemma ClassPartner<T>(la: seq<Line<T>>, lb: seq<Line<T>>, table: seq<Bucket>, A: seq<T>, B: seq<T>,
                        alo: int, blo: int, ahi: int, bhi: int, bpos: int, apos: int)
    requires Fits(la, lb, table, A, B) && Box(A, B, alo, blo, ahi, bhi) && blo <= bpos < bhi
    requires apos != -1 ==> OnlyIn(la, lb[bpos].equiv, alo, ahi, apos) && OnlyIn(lb, lb[bpos].equiv, blo, bhi, bpos)
    requires apos == -1 ==> (forall r :: !OnlyIn(la, lb[bpos].equiv, alo, ahi, r)) || !OnlyIn(lb, lb[bpos].equiv, blo, bhi, bpos)
    ensures Table(A[alo..ahi], B[blo..bhi])[bpos - blo] == if apos == -1 then -1 else apos - alo
  {
    hide Equated, Table;
    var s, t, j := A[alo..ahi], B[blo..bhi], bpos - blo;
    forall i ensures Partners(s, t, i, j) <==> OnlyIn(la, lb[bpos].equiv, alo, ahi, alo + i) && OnlyIn(lb, lb[bpos].equiv, blo, bhi, bpos) {
      PartnerIsAlone(la, lb, table, A, B, alo, blo, ahi, bhi, bpos, i);
    }
    if apos != -1 {
      assert Partners(s, t, apos - alo, j);
      PartnerIsTable(s, t, apos - alo, j);
    }
  }

  lemma PartnerIsAlone<T>(la: seq<Line<T>>, lb: seq<Line<T>>, table: seq<Bucket>, A: seq<T>, B: seq<T>,
                          alo: int, blo: int, ahi: int, bhi: int, bpos: int, i: int)
    requires Fits(la, lb, table, A, B) && Box(A, B, alo, blo, ahi, bhi) && blo <= bpos < bhi
    ensures Partners(A[alo..ahi], B[blo..bhi], i, bpos - blo)
       <==> OnlyIn(la, lb[bpos].equiv, alo, ahi, alo + i) && OnlyIn(lb, lb[bpos].equiv, blo, bhi, bpos)
  {
    hide Equated;
    var s, t, j, e := A[alo..ahi], B[blo..bhi], bpos - blo, lb[bpos].equiv;
    assert t[j] == B[bpos];
    if 0 <= i < |s| {
      assert s[i] == A[alo + i];
      assert forall k :: alo <= k < ahi ==> A[k] == s[k - alo];
      assert forall k :: blo <= k < bhi ==> B[k] == t[k - blo];
      assert forall k :: 0 <= k < |s| ==> (s[k] == t[j] <==> la[alo + k].equiv == e);
      assert forall k :: 0 <= k < |t| ==> (t[k] == t[j] <==> lb[blo + k].equiv == e);
    }
  }

  /** The matches of a box are no more than the box is wide. */
  lemma MatchesFit<T>(A: seq<T>, B: seq<T>, alo: int, blo: int, ahi: int, bhi: int, depth: int)
    requires Box(A, B, alo, blo, ahi, bhi)
    ensures |Matches(A, B, alo, blo, ahi, bhi, depth)| <= bhi - blo
  {
    hide Matches;
    MatchesAreCommon(A, B, alo, blo, ahi, bhi, depth);
    BoxBound(Matches(A, B, alo, blo, ahi, bhi, depth), alo, blo, ahi, bhi);
  }

  lemma EquivIsEquality<T>(la: seq<Line<T>>, lb: seq<Line<T>>, table: seq<Bucket>, A: seq<T>, B: seq<T>)
    requires Fits(la, lb, table, A, B)
    ensures |la| == |A| && |lb| == |B|
    ensures forall i, j :: 0 <= i < |A| && 0 <= j < |B| ==> (la[i].equiv == lb[j].equiv <==> A[i] == B[j])
  {
    hide Equated;
  }

  lemma LcsFromPiles<T>(a: seq<T>, b: seq<T>, stacks: seq<int>, lasts: seq<int>)
    requires Piles(Table(a, b), |b|, stacks, lasts)
    ensures |stacks| == |lasts|
    ensures if |lasts| == 0 then UniqueLcs(a, b) == []
            else var last := lasts[|lasts| - 1];
                 0 <= last < |b| && Table(a, b)[last] >= 0 && UniqueLcs(a, b) == Chain(Table(a, b), last)
  {
    hide Chain, Rank, Depth;
    UniqueLcsIsMatch(a, b);
    if |lasts| > 0 { PileTop(Table(a, b), |b|, |lasts|); }
  }

  /** Every backpointer leads one step back along the chain. */
  lemma BackFollowsChain(t: seq<int>, back: seq<int>)
    requires Injective(t) && |back| == |t| && Backpointers(t, |t|, back)
    ensures forall k :: 0 <= k < |t| && t[k] >= 0 ==>
      && -1 <= back[k] < k && (back[k] >= 0 ==> t[back[k]] >= 0)
      && Chain(t, k) == Chain(t, back[k]) + [Pair(t[k], k)]
  {
    hide Depth, Rank;
    forall k | 0 <= k < |t| && t[k] >= 0
      ensures -1 <= back[k] < k && (back[k] >= 0 ==> t[back[k]] >= 0)
      ensures Chain(t, k) == Chain(t, back[k]) + [Pair(t[k], k)]
    {
      StepBack(t, k);
    }
  }

  lemma ChainEnds(t: seq<int>)
    ensures Chain(t, -1) == [] && Reversed([]) == []
  {
  }

  lemma ChainFits(t: seq<int>, last: nat)
    requires Injective(t) && last < |t| && t[last] >= 0
    ensures |Chain(t, last)| <= |t|
  {
    ChainFacts(t, last);
    DepthBound(t, last, t[last]);
  }

  lemma NextLink<T>(la: seq<Line<T>>, lb: seq<Line<T>>, table: seq<Bucket>, A: seq<T>, B: seq<T>)
    requires Fits(la, lb, table, A, B)
    ensures forall i :: 0 <= i < |la| ==>
      && 0 <= la[i].equiv < |table|
      && (table[la[i].equiv].bHead != -1 ==> la[i].next == NextOf(la, la[i].equiv, i + 1))
    ensures forall i :: 0 <= i < |lb| ==>
      && 0 <= lb[i].equiv < |table|
      && table[lb[i].equiv].bHead != -1 && lb[i].next == NextOf(lb, lb[i].equiv, i + 1)
  {
    hide NextOf, CountOf;
    assert forall e :: 0 <= e < |table| ==> (Used(table, e) <==> table[e].bHead != -1);
  }

  lemma LaterCursors<T>(lines: seq<Line<T>>, table: seq<Bucket>, inA: bool, lo: int, lo': int)
    requires Cursors(lines, table, inA, lo) && lo <= lo'
    ensures Cursors(lines, table, inA, lo')
  {
  }
}
