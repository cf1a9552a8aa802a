/** The Python matcher (bzrlib/_patiencediff_py.py), proved against the definitions in
    PatienceLcs, PatienceMatches and PatienceBlocks.  -1 stands for Python's None. */
module PatienceDiffPy {
  import opened PatienceLcs
  import opened PatienceMatches
  import opened PatienceBlocks

  // ---------------------------------------------------------------------------
  // unique_lcs_py: the table of partners
  // ---------------------------------------------------------------------------

  /** How often a line occurs among the first n lines. */
  ghost function Seen<T>(s: seq<T>, n: nat, line: T): nat
    requires n <= |s|
  {
    if n == 0 then 0 else Seen(s, n - 1, line) + if s[n - 1] == line then 1 else 0
  }

  lemma {:induction false} SeenAt<T>(s: seq<T>, n: nat, q: nat)
    requires q < n <= |s|
    ensures Seen(s, n, s[q]) >= 1
    ensures Seen(s, n, s[q]) == 1 ==> forall k :: 0 <= k < n && s[k] == s[q] ==> k == q
  {
    if q == n - 1 {
      if Seen(s, n, s[q]) == 1 {
        forall k | 0 <= k < n - 1 ensures s[k] != s[q] {
          if s[k] == s[q] { SeenAt(s, n - 1, k); }
        }
      }
    } else {
      SeenAt(s, n - 1, q);
    }
  }

  lemma {:induction false} SeenWhere<T>(s: seq<T>, n: nat, line: T, k: nat)
    requires k < n <= |s| && s[k] == line && forall m :: 0 <= m < n && s[m] == line ==> m == k
    ensures Seen(s, n, line) == 1
  {
    if k == n - 1 { SeenNever(s, n - 1, line); } else { SeenWhere(s, n - 1, line, k); }
  }

  lemma {:induction false} SeenNever<T>(s: seq<T>, n: nat, line: T)
    requires n <= |s| && forall m :: 0 <= m < n ==> s[m] != line
    ensures Seen(s, n, line) == 0
  {
    if n > 0 { SeenNever(s, n - 1, line); }
  }

  lemma OnceIsSeenOnce<T>(s: seq<T>, q: nat)
    requires q < |s|
    ensures OnceAt(s, q) <==> Seen(s, |s|, s[q]) == 1
  {
    SeenAt(s, |s|, q);
    if OnceAt(s, q) { SeenWhere(s, |s|, s[q], q); }
  }

  /** index after the first n lines: the position of a line seen once, -1 for a repeated one. */
  ghost predicate UniqueIndex<T(!new)>(a: seq<T>, n: nat, index: map<T, int>)
    requires n <= |a|
  {
    forall line ::
      && (line in index <==> Seen(a, n, line) >= 1)
      && (line in index ==>
            if Seen(a, n, line) == 1 then 0 <= index[line] < n && a[index[line]] == line else index[line] == -1)
  }

  method IndexUniqueLines<T(==, !new)>(a: seq<T>) returns (index: map<T, int>)
    ensures UniqueIndex(a, |a|, index)
  {
    index := map[];
    for i := 0 to |a|
      invariant UniqueIndex(a, i, index)
    {
      if a[i] in index {
        index := index[a[i] := -1];
      } else {
        index := index[a[i] := i];
      }
    }
  }

  /** btoa after the first n lines of b. */
  ghost predicate PartnersSoFar<T>(b: seq<T>, n: nat, unique: map<T, int>, btoa: seq<int>)
    requires n <= |b|
  {
    && |btoa| == |b|
    && (forall q :: 0 <= q < n ==>
          btoa[q] == if b[q] in unique && Seen(b, n, b[q]) == 1 then unique[b[q]] else -1)
    && (forall q :: n <= q < |b| ==> btoa[q] == -1)
  }

  /** index loses the lines seen twice in b; index2 has those seen at least once. */
  ghost predicate Bookkeeping<T(!new)>(b: seq<T>, n: nat, unique: map<T, int>, index: map<T, int>, index2: map<T, int>)
    requires n <= |b|
  {
    forall line ::
      && (line in index ==> line in unique && index[line] == unique[line])
      && (line in index2 ==> line in unique && 0 <= index2[line] < n && b[index2[line]] == line)
      && (line in unique && unique[line] != -1 ==>
            && (line in index <==> Seen(b, n, line) <= 1)
            && (line in index2 <==> Seen(b, n, line) >= 1))
  }

  method FindPartners<T(==, !new)>(a: seq<T>, b: seq<T>) returns (btoa: seq<int>)
    ensures btoa == Table(a, b)
  {
    hide PartnersSoFar, Bookkeeping;
    var index := IndexUniqueLines(a);
    ghost var unique := index;
    btoa := seq(|b|, _ => -1);
    var index2: map<T, int> := map[];
    NoPartnersYet(b, index, btoa);
    for pos := 0 to |b|
      invariant |btoa| == |b|
      invariant PartnersSoFar(b, pos, unique, btoa)
      invariant Bookkeeping(b, pos, unique, index, index2)
    {
      var line := b[pos];
      var next := if line in index then index[line] else -1;
      PartnerStep(b, pos, unique, index, index2, btoa);
      if next != -1 {
        if line in index2 {
          btoa := btoa[index2[line] := -1];
          index := index - {line};
        } else {
          index2 := index2[line := pos];
          btoa := btoa[pos := next];
        }
      }
    }
    TableIsFound(a, b, unique, btoa);
  }

  lemma NoPartnersYet<T(!new)>(b: seq<T>, unique: map<T, int>, btoa: seq<int>)
    requires |btoa| == |b| && forall q :: 0 <= q < |b| ==> btoa[q] == -1
    ensures PartnersSoFar(b, 0, unique, btoa) && Bookkeeping(b, 0, unique, unique, map[])
  {
  }

  /** One line of b: unknown, met for the second time, or for the first. */
  lemma PartnerStep<T(!new)>(b: seq<T>, pos: nat, unique: map<T, int>, index: map<T, int>, index2: map<T, int>, btoa: seq<int>)
    requires pos < |b| && PartnersSoFar(b, pos, unique, btoa) && Bookkeeping(b, pos, unique, index, index2) && |btoa| == |b|
    ensures var line := b[pos];
            if line !in index || index[line] == -1 then
              PartnersSoFar(b, pos + 1, unique, btoa) && Bookkeeping(b, pos + 1, unique, index, index2)
            else if line in index2 then
              && 0 <= index2[line] < |b| && PartnersSoFar(b, pos + 1, unique, btoa[index2[line] := -1])
              && Bookkeeping(b, pos + 1, unique, index - {line}, index2)
            else
              && PartnersSoFar(b, pos + 1, unique, btoa[pos := index[line]])
              && Bookkeeping(b, pos + 1, unique, index, index2[line := pos])
  {
    hide Seen;
    var line := b[pos];
    SeenMore(b, pos);
    forall q | 0 <= q < pos ensures Seen(b, pos, b[q]) >= 1 && (Seen(b, pos, b[q]) == 1 && line == b[q] && line in index2 ==> q == index2[line]) {
      SeenAt(b, pos, q);
      if Seen(b, pos, b[q]) == 1 && line == b[q] && line in index2 { SeenOnce(b, pos, q, index2[line]); }
    }
  }

  lemma SeenMore<T(!new)>(b: seq<T>, pos: nat)
    requires pos < |b|
    ensures forall line :: Seen(b, pos + 1, line) == Seen(b, pos, line) + if b[pos] == line then 1 else 0
  {
  }

  lemma SeenOnce<T>(b: seq<T>, n: nat, q: nat, r: nat)
    requires q < n <= |b| && r < n && b[q] == b[r] && Seen(b, n, b[q]) == 1
    ensures q == r
  {
    SeenAt(b, n, q);
    SeenAt(b, n, r);
  }

  lemma TableIsFound<T(!new)>(a: seq<T>, b: seq<T>, unique: map<T, int>, btoa: seq<int>)
    requires UniqueIndex(a, |a|, unique) && PartnersSoFar(b, |b|, unique, btoa)
    ensures btoa == Table(a, b)
  {
    forall q | 0 <= q < |b| ensures btoa[q] == Table(a, b)[q] {
      OnceIsSeenOnce(b, q);
      if btoa[q] != -1 {
        OnceIsSeenOnce(a, btoa[q]);
        PartnerIsTable(a, b, btoa[q], q);
      } else if Table(a, b)[q] >= 0 {
        var i := Table(a, b)[q];
        assert Partners(a, b, i, q);
        OnceIsSeenOnce(a, i);
      }
    }
  }

  // ---------------------------------------------------------------------------
  // unique_lcs_py: patience sorting
  // ---------------------------------------------------------------------------

  /** Python's bisect on a sorted list. */
  method BisectRight(s: seq<int>, x: int) returns (k: int)
    requires forall i, j :: 0 <= i < j < |s| ==> s[i] <= s[j]
    ensures 0 <= k <= |s|
    ensures forall i :: 0 <= i < k ==> s[i] <= x
    ensures forall i :: k <= i < |s| ==> x < s[i]
  {
    var hi := |s|;
    k := 0;
    while k < hi
      invariant 0 <= k <= hi <= |s|
      invariant forall i :: 0 <= i < k ==> s[i] <= x
      invariant forall i :: hi <= i < |s| ==> x < s[i]
    {
      var mid := (k + hi) / 2;
      if x < s[mid] { hi := mid; } else { k := mid + 1; }
    }
  }

  /** The slot for the next entry, by either shortcut or by bisection. */
  method FindSlot(ghost t: seq<int>, ghost n: nat, stacks: seq<int>, ghost lasts: seq<int>, guess: int, apos: int) returns (k: int)
    requires Injective(t) && n < |t| && apos == t[n] >= 0 && Piles(t, n, stacks, lasts)
    requires stacks == [] || 0 <= guess < |stacks|
    ensures IsSlot(stacks, apos, k) && 0 <= k <= |stacks|
  {
    hide Piles, Injective, Depth, Rank, Latest, Height, Top;
    PilesAreOrdered(t, n, stacks, lasts);
    if stacks != [] && stacks[|stacks| - 1] < apos {
      k := |stacks|;
    } else if stacks != [] && stacks[guess] < apos && (guess == |stacks| - 1 || stacks[guess + 1] > apos) {
      k := guess + 1;
    } else {
      k := BisectRight(stacks, apos);
      NotOnAPile(t, n, stacks, lasts);
    }
  }

  method UniqueLcsPy<T(==, !new)>(a: seq<T>, b: seq<T>) returns (result: seq<Pair>)
    ensures result == UniqueLcs(a, b)
  {
    var btoa := FindPartners(a, b);
    var backpointers, lasts := BuildPiles(btoa);
    UniqueLcsIsMatch(a, b);
    if |lasts| == 0 {
      return [];
    }
    result := FollowBackpointers(btoa, backpointers, lasts[|lasts| - 1]);
  }

  method BuildPiles(btoa: seq<int>) returns (backpointers: seq<int>, lasts: seq<int>)
    requires Injective(btoa)
    ensures Backpointers(btoa, |btoa|, backpointers)
    ensures |lasts| == Height(btoa, |btoa|)
    ensures |lasts| > 0 ==> lasts[|lasts| - 1] == Latest(btoa, |btoa|, |lasts|) && 0 <= lasts[|lasts| - 1] < |btoa| && btoa[lasts[|lasts| - 1]] >= 0
  {
    hide *;
    AtLeastNone(btoa);
    backpointers := seq(|btoa|, _ => -1);
    var stacks: seq<int> := [];
    lasts := [];
    var k := 0;
    NoPiles(btoa, backpointers);
    for bpos := 0 to |btoa|
      invariant |backpointers| == |btoa| && |stacks| == |lasts|
      invariant Piles(btoa, bpos, stacks, lasts)
      invariant Backpointers(btoa, bpos, backpointers)
      invariant stacks == [] || 0 <= k < |stacks|
    {
      var apos := btoa[bpos];
      if apos == -1 {
        Skip(btoa, bpos, stacks, lasts);
        BackpointersNext(btoa, bpos, backpointers, -1);
        continue;
      }
      k := FindSlot(btoa, bpos, stacks, lasts, k, apos);
      Place(btoa, bpos, stacks, lasts, k);
      BackpointersNext(btoa, bpos, backpointers, if k > 0 then lasts[k - 1] else -1);
      if k > 0 {
        backpointers := backpointers[bpos := lasts[k - 1]];
      }
      if k < |stacks| {
        stacks, lasts := stacks[k := apos], lasts[k := bpos];
      } else {
        stacks, lasts := stacks + [apos], lasts + [bpos];
      }
    }
    TopOfLastPile(btoa, stacks, lasts);
  }

  lemma TopOfLastPile(t: seq<int>, stacks: seq<int>, lasts: seq<int>)
    requires Injective(t) && Piles(t, |t|, stacks, lasts)
    ensures |lasts| == Height(t, |t|)
    ensures |lasts| > 0 ==> lasts[|lasts| - 1] == Latest(t, |t|, |lasts|) && 0 <= lasts[|lasts| - 1] < |t| && t[lasts[|lasts| - 1]] >= 0
  {
    if |lasts| > 0 { PileTop(t, |t|, |lasts|); }
  }

  /** Going back from k and reversing what was found gives the chain that ends at k. */
  method FollowBackpointers(btoa: seq<int>, backpointers: seq<int>, last: int) returns (result: seq<Pair>)
    requires Injective(btoa) && Backpointers(btoa, |btoa|, backpointers)
    requires 0 <= last < |btoa| && btoa[last] >= 0
    ensures result == Chain(btoa, last) && |result| == Rank(btoa, last) && Increasing(result)
  {
    hide Depth, Rank, Latest, Height, Injective, Increasing;
    ChainLength(btoa, last);
    result := [];
    var k := last;
    while k != -1
      invariant -1 <= k < |btoa| && (k >= 0 ==> btoa[k] >= 0)
      invariant Chain(btoa, last) == Chain(btoa, k) + Reversed(result)
      decreases k
    {
      StepBack(btoa, k);
      result := result + [Pair(btoa[k], k)];
      k := backpointers[k];
    }
    result := Reversed(result);
  }

  // ---------------------------------------------------------------------------
  // recurse_matches_py
  // ---------------------------------------------------------------------------

  /** The list that the recursion appends matched lines to. */
  class MatchList {
    var pairs: seq<Pair>

    constructor ()
      ensures pairs == []
    {
      pairs := [];
    }

    method Append(p: Pair)
      modifies this
      ensures pairs == old(pairs) + [p]
    {
      pairs := pairs + [p];
    }
  }

  method RecurseMatchesPy<T(==, !new)>(a: seq<T>, b: seq<T>, alo: int, blo: int, ahi: int, bhi: int,
                                       answer: MatchList, maxrecursion: int)
    requires 0 <= alo <= ahi <= |a| && 0 <= blo <= bhi <= |b|
    modifies answer
    ensures answer.pairs == old(answer.pairs) + Matches(a, b, alo, blo, ahi, bhi, maxrecursion)
    decreases if maxrecursion < 0 then 0 else maxrecursion + 1, 1
  {
    hide Matches, BoxLcs, Between, PrefixLen, SuffixLen, UniqueLcs, SameLines;
    if maxrecursion < 0 {
      MatchesNothing(a, b, alo, blo, ahi, bhi, maxrecursion);
      return;
    }
    var oldLength := |answer.pairs|;
    if alo == ahi || blo == bhi {
      MatchesNothing(a, b, alo, blo, ahi, bhi, maxrecursion);
      return;
    }
    var lcs := UniqueLcsPy(a[alo..ahi], b[blo..bhi]);
    RecurseBetween(a, b, alo, blo, ahi, bhi, lcs, answer, maxrecursion);
    if |answer.pairs| > oldLength {
      // RecurseBetween has also searched behind the last match
      MatchesUnique(a, b, alo, blo, ahi, bhi, maxrecursion);
    } else if a[alo] == b[blo] {
      MatchesBeginning(a, b, alo, blo, ahi, bhi, maxrecursion);
      var alo', blo' := MatchBeginning(a, b, alo, blo, ahi, bhi, answer);
      RecurseMatchesPy(a, b, alo', blo', ahi, bhi, answer, maxrecursion - 1);
      ghost var n := PrefixLen(a, b, alo, blo, ahi, bhi);
      assert answer.pairs == old(answer.pairs) + (Run(alo, blo, n) + Matches(a, b, alo', blo', ahi, bhi, maxrecursion - 1));
    } else if a[ahi - 1] == b[bhi - 1] {
      MatchesEnd(a, b, alo, blo, ahi, bhi, maxrecursion);
      var nahi, nbhi := SkipEnd(a, b, alo, blo, ahi, bhi);
      RecurseMatchesPy(a, b, alo, blo, nahi, nbhi, answer, maxrecursion - 1);
      AppendRun(nahi, nbhi, ahi - nahi, answer);
    } else {
      MatchesNoEnds(a, b, alo, blo, ahi, bhi, maxrecursion);
    }
  }

  method AppendRun(a: int, b: int, n: nat, answer: MatchList)
    modifies answer
    ensures answer.pairs == old(answer.pairs) + Run(a, b, n)
  {
    for i := 0 to n
      invariant answer.pairs == old(answer.pairs) + Run(a, b, i)
    {
      answer.Append(Pair(a + i, b + i));
    }
  }

  /** The loop over the unique matches; with at least one of them, also the search after the last. */
  method RecurseBetween<T(==, !new)>(a: seq<T>, b: seq<T>, alo: int, blo: int, ahi: int, bhi: int,
                                     lcs: seq<Pair>, answer: MatchList, maxrecursion: nat)
    requires Box(a, b, alo, blo, ahi, bhi) && lcs == UniqueLcs(a[alo..ahi], b[blo..bhi])
    modifies answer
    ensures lcs == [] <==> BoxLcs(a, b, alo, blo, ahi, bhi) == []
    ensures lcs == [] ==> answer.pairs == old(answer.pairs)
    ensures lcs != [] ==>
      && |answer.pairs| > |old(answer.pairs)|
      && answer.pairs == old(answer.pairs) + Between(a, b, BoxLcs(a, b, alo, blo, ahi, bhi), 0, alo, blo, ahi, bhi, maxrecursion)
    decreases maxrecursion + 1, 0
  {
    hide UniqueLcs, Matches, Between, BoxLcs, Increasing, InBox, EqualLines, Reached, Shift, OnceAt;
    ghost var box := BoxLcs(a, b, alo, blo, ahi, bhi);
    BoxLcsIsCommon(a, b, alo, blo, ahi, bhi);
    BoxLcsIsShift(a, b, alo, blo, ahi, bhi);
    StartReached(box, alo, blo);
    ghost var start := answer.pairs;
    var lastA, lastB := alo - 1, blo - 1;
    for i := 0 to |lcs|
      invariant Reached(box, i, alo, blo, lastA + 1, lastB + 1)
      invariant start + Between(a, b, box, 0, alo, blo, ahi, bhi, maxrecursion)
             == answer.pairs + Between(a, b, box, i, lastA + 1, lastB + 1, ahi, bhi, maxrecursion)
      invariant if i == 0 then answer.pairs == start else |answer.pairs| > |start|
    {
      var apos, bpos := lcs[i].a + alo, lcs[i].b + blo;
      ReachedIsBox(box, i, alo, blo, ahi, bhi, lastA + 1, lastB + 1);
      BetweenAdvances(a, b, box, i, lastA + 1, lastB + 1, ahi, bhi, maxrecursion, answer.pairs);
      if lastA + 1 != apos || lastB + 1 != bpos {
        RecurseMatchesPy(a, b, lastA + 1, lastB + 1, apos, bpos, answer, maxrecursion - 1);
      } else {
        MatchesNothing(a, b, apos, bpos, apos, bpos, maxrecursion - 1);
      }
      lastA, lastB := apos, bpos;
      answer.Append(Pair(apos, bpos));
    }
    ReachedIsBox(box, |lcs|, alo, blo, ahi, bhi, lastA + 1, lastB + 1);
    BetweenUnfolds(a, b, box, |lcs|, lastA + 1, lastB + 1, ahi, bhi, maxrecursion);
    if lcs != [] {
      RecurseMatchesPy(a, b, lastA + 1, lastB + 1, ahi, bhi, answer, maxrecursion - 1);
    }
  }

  method MatchBeginning<T(==)>(a: seq<T>, b: seq<T>, alo: int, blo: int, ahi: int, bhi: int, answer: MatchList)
    returns (i: int, j: int)
    requires Box(a, b, alo, blo, ahi, bhi)
    modifies answer
    ensures var n := PrefixLen(a, b, alo, blo, ahi, bhi);
            i == alo + n && j == blo + n && answer.pairs == old(answer.pairs) + Run(alo, blo, n)
    ensures i - alo == j - blo >= 0 && AgreeAtStart(a, b, alo, blo, ahi, bhi, i - alo)
  {
    PrefixLenIs(a, b, alo, blo, ahi, bhi, PrefixLen(a, b, alo, blo, ahi, bhi));
    i, j := alo, blo;
    while i < ahi && j < bhi && a[i] == b[j]
      invariant alo <= i <= ahi && blo <= j <= bhi && i - alo == j - blo
      invariant PrefixLen(a, b, alo, blo, ahi, bhi) == i - alo + PrefixLen(a, b, i, j, ahi, bhi)
      invariant answer.pairs == old(answer.pairs) + Run(alo, blo, i - alo)
    {
      answer.Append(Pair(i, j));
      i, j := i + 1, j + 1;
    }
  }

  method SkipEnd<T(==)>(a: seq<T>, b: seq<T>, alo: int, blo: int, ahi: int, bhi: int) returns (nahi: int, nbhi: int)
    requires Box(a, b, alo, blo, ahi, bhi) && alo < ahi && blo < bhi && a[ahi - 1] == b[bhi - 1]
    ensures var n := SuffixLen(a, b, alo, blo, ahi, bhi); nahi == ahi - n && nbhi == bhi - n
    ensures ahi - nahi == bhi - nbhi > 0 && AgreeAtEnd(a, b, alo, blo, ahi, bhi, ahi - nahi)
  {
    SuffixLenIs(a, b, alo, blo, ahi, bhi, SuffixLen(a, b, alo, blo, ahi, bhi));
    nahi, nbhi := ahi - 1, bhi - 1;
    while nahi > alo && nbhi > blo && a[nahi - 1] == b[nbhi - 1]
      invariant alo <= nahi < ahi && blo <= nbhi < bhi && ahi - nahi == bhi - nbhi
      invariant SuffixLen(a, b, alo, blo, ahi, bhi) == ahi - nahi + SuffixLen(a, b, alo, blo, nahi, nbhi)
    {
      nahi, nbhi := nahi - 1, nbhi - 1;
    }
  }

  // ---------------------------------------------------------------------------
  // Blocks
  // ---------------------------------------------------------------------------

  method CollapseSequences(matches: seq<Pair>) returns (answer: seq<Block>)
    ensures answer == Collapse(matches)
  {
    answer := [];
    var startA, startB, length := -1, -1, 0;
    for i := 0 to |matches|
      invariant length >= 0 && (length == 0 <==> i == 0)
      invariant Collapse(matches[..i]) == if length == 0 then answer else answer + [Block(startA, startB, length)]
    {
      var p := matches[i];
      assert matches[..i + 1] == matches[..i] + [p];
      CollapseMore(matches[..i], p);
      if length != 0 && p.a == startA + length && p.b == startB + length {
        length := length + 1;
      } else {
        if length != 0 {
          answer := answer + [Block(startA, startB, length)];
        }
        startA, startB, length := p.a, p.b, 1;
      }
    }
    assert matches[..|matches|] == matches;
    if length != 0 {
      answer := answer + [Block(startA, startB, length)];
    }
  }

  /** Block k starts no earlier than the one before it ends. */
  ghost predicate InOrder(answer: seq<Block>, k: int)
    requires 0 <= k < |answer|
  {
    if k == 0 then answer[k].a >= -1 && answer[k].b >= -1
    else answer[k].a >= answer[k - 1].a + answer[k - 1].len && answer[k].b >= answer[k - 1].b + answer[k - 1].len
  }

  /** The consistency check; ok says that no ValueError is raised. */
  method CheckConsistency(answer: seq<Block>) returns (ok: bool)
    ensures ok <==> forall k :: 0 <= k < |answer| ==> InOrder(answer, k)
  {
    var nextA, nextB := -1, -1;
    for k := 0 to |answer|
      invariant nextA == (if k == 0 then -1 else answer[k - 1].a + answer[k - 1].len)
      invariant nextB == (if k == 0 then -1 else answer[k - 1].b + answer[k - 1].len)
      invariant forall m :: 0 <= m < k ==> InOrder(answer, m)
    {
      if answer[k].a < nextA || answer[k].b < nextB {
        assert !InOrder(answer, k);
        return false;
      }
      nextA, nextB := answer[k].a + answer[k].len, answer[k].b + answer[k].len;
    }
    return true;
  }

  /** get_matching_blocks; the consistency check at its end never fails. */
  method GetMatchingBlocksPy<T(==, !new)>(a: seq<T>, b: seq<T>) returns (blocks: seq<Block>, consistent: bool)
    ensures blocks == MatchingBlocks(a, b) && IsBlockList(a, b, blocks)
    ensures consistent
  {
    hide MatchingBlocks, Matches, Collapse;
    var matches := new MatchList();
    RecurseMatchesPy(a, b, 0, 0, |a|, |b|, matches, 10);
    blocks := CollapseSequences(matches.pairs);
    blocks := blocks + [Block(|a|, |b|, 0)];
    assert [] + Matches(a, b, 0, 0, |a|, |b|, 10) == Matches(a, b, 0, 0, |a|, |b|, 10);
    MatchingBlocksUnfolds(a, b);
    MatchingBlocksAreValid(a, b);
    consistent := CheckConsistency(blocks);
  }

  lemma MatchingBlocksUnfolds<T>(a: seq<T>, b: seq<T>)
    ensures MatchingBlocks(a, b) == Collapse(Matches(a, b, 0, 0, |a|, |b|, 10)) + [Block(|a|, |b|, 0)]
  {
  }
}
