/** What the recursive matcher finds, as a function of the two texts and the recursion limit.

    Matches is the reference for both recursive matchers and Collapse for both ways of
    joining matched lines into blocks.  The theorems at the end of each part say what the
    answer is worth: it is a common subsequence, the recursion limit decides exactly which
    lengths of text are sure to match themselves, and the blocks are maximal runs. */
module PatienceMatches {
  import opened PatienceLcs

  datatype Block = Block(a: int, b: int, len: int)

  ghost predicate Box<T>(a: seq<T>, b: seq<T>, alo: int, blo: int, ahi: int, bhi: int) {
    0 <= alo <= ahi <= |a| && 0 <= blo <= bhi <= |b|
  }

  ghost predicate InBox(ps: seq<Pair>, alo: int, blo: int, ahi: int, bhi: int) {
    forall i :: 0 <= i < |ps| ==> alo <= ps[i].a < ahi && blo <= ps[i].b < bhi
  }

  ghost function Shift(ps: seq<Pair>, da: int, db: int): (r: seq<Pair>)
    ensures |r| == |ps|
    ensures forall i :: 0 <= i < |r| ==> r[i] == Pair(ps[i].a + da, ps[i].b + db)
  {
    if ps == [] then [] else [Pair(ps[0].a + da, ps[0].b + db)] + Shift(ps[1..], da, db)
  }

  ghost function Run(a: int, b: int, n: nat): (r: seq<Pair>)
    ensures |r| == n
    ensures forall i :: 0 <= i < n ==> r[i] == Pair(a + i, b + i)
  {
    if n == 0 then [] else Run(a, b, n - 1) + [Pair(a + n - 1, b + n - 1)]
  }

  /** The n lines of a from i on are those of b from j on. */
  ghost predicate SameLines<T>(a: seq<T>, b: seq<T>, i: int, j: int, n: int) {
    && 0 <= i <= i + n <= |a| && 0 <= j <= j + n <= |b|
    && forall k :: i <= k < i + n ==> a[k] == b[k - i + j]
  }

  /** The unique-line matches of a box, as positions in the whole texts. */
  ghost function BoxLcs<T>(a: seq<T>, b: seq<T>, alo: int, blo: int, ahi: int, bhi: int): seq<Pair>
    requires Box(a, b, alo, blo, ahi, bhi)
  {
    Shift(UniqueLcs(a[alo..ahi], b[blo..bhi]), alo, blo)
  }

  /** How many lines agree at the beginning of a box. */
  ghost function PrefixLen<T>(a: seq<T>, b: seq<T>, alo: int, blo: int, ahi: int, bhi: int): nat
    decreases ahi - alo
  {
    if 0 <= alo < ahi <= |a| && 0 <= blo < bhi <= |b| && a[alo] == b[blo] then
      1 + PrefixLen(a, b, alo + 1, blo + 1, ahi, bhi)
    else 0
  }

  /** How many lines agree at the end of a box. */
  ghost function SuffixLen<T>(a: seq<T>, b: seq<T>, alo: int, blo: int, ahi: int, bhi: int): nat
    decreases ahi - alo
  {
    if 0 <= alo < ahi <= |a| && 0 <= blo < bhi <= |b| && a[ahi - 1] == b[bhi - 1] then
      1 + SuffixLen(a, b, alo, blo, ahi - 1, bhi - 1)
    else 0
  }

  /** The lines matched inside a box with the given number of further levels of recursion. */
  ghost function Matches<T>(a: seq<T>, b: seq<T>, alo: int, blo: int, ahi: int, bhi: int, depth: int): seq<Pair>
    decreases if depth < 0 then 0 else depth + 1, 1, 0
  {
    if depth < 0 || !(0 <= alo < ahi <= |a| && 0 <= blo < bhi <= |b|) then []
    else
      var lcs := BoxLcs(a, b, alo, blo, ahi, bhi);
      if lcs != [] then
        Between(a, b, lcs, 0, alo, blo, ahi, bhi, depth)
      else if a[alo] == b[blo] then
        var n := PrefixLen(a, b, alo, blo, ahi, bhi);
        Run(alo, blo, n) + Matches(a, b, alo + n, blo + n, ahi, bhi, depth - 1)
      else if a[ahi - 1] == b[bhi - 1] then
        var n := SuffixLen(a, b, alo, blo, ahi, bhi);
        Matches(a, b, alo, blo, ahi - n, bhi - n, depth - 1) + Run(ahi - n, bhi - n, n)
      else []
  }

  /** The pairs from i on with what is matched before, between and after them. */
  ghost function Between<T>(a: seq<T>, b: seq<T>, lcs: seq<Pair>, i: nat, la: int, lb: int, ahi: int, bhi: int, depth: nat): seq<Pair>
    decreases depth + 1, 0, |lcs| - i
  {
    if i >= |lcs| then Matches(a, b, la, lb, ahi, bhi, depth - 1)
    else
      Matches(a, b, la, lb, lcs[i].a, lcs[i].b, depth - 1) + [lcs[i]]
      + Between(a, b, lcs, i + 1, lcs[i].a + 1, lcs[i].b + 1, ahi, bhi, depth)
  }

  lemma StartReached(lcs: seq<Pair>, alo: int, blo: int)
    ensures Reached(lcs, 0, alo, blo, alo, blo)
  {
  }

  lemma BoxLcsIsShift<T>(a: seq<T>, b: seq<T>, alo: int, blo: int, ahi: int, bhi: int)
    requires Box(a, b, alo, blo, ahi, bhi)
    ensures var u, lcs := UniqueLcs(a[alo..ahi], b[blo..bhi]), BoxLcs(a, b, alo, blo, ahi, bhi);
            |lcs| == |u| && forall i :: 0 <= i < |u| ==> lcs[i] == Pair(u[i].a + alo, u[i].b + blo)
  {
  }

  // One level of the recursion, case by case.

  lemma MatchesNothing<T>(a: seq<T>, b: seq<T>, alo: int, blo: int, ahi: int, bhi: int, depth: int)
    requires depth < 0 || alo == ahi || blo == bhi
    ensures Matches(a, b, alo, blo, ahi, bhi, depth) == []
  {
    hide BoxLcs, Between, PrefixLen, SuffixLen, Run;
  }

  lemma MatchesUnique<T>(a: seq<T>, b: seq<T>, alo: int, blo: int, ahi: int, bhi: int, depth: nat)
    requires Box(a, b, alo, blo, ahi, bhi) && alo < ahi && blo < bhi && BoxLcs(a, b, alo, blo, ahi, bhi) != []
    ensures Matches(a, b, alo, blo, ahi, bhi, depth) ==
      Between(a, b, BoxLcs(a, b, alo, blo, ahi, bhi), 0, alo, blo, ahi, bhi, depth)
  {
    hide BoxLcs, Between, PrefixLen, SuffixLen, Run;
  }

  lemma MatchesBeginning<T>(a: seq<T>, b: seq<T>, alo: int, blo: int, ahi: int, bhi: int, depth: nat)
    requires Box(a, b, alo, blo, ahi, bhi) && alo < ahi && blo < bhi && BoxLcs(a, b, alo, blo, ahi, bhi) == []
    requires a[alo] == b[blo]
    ensures var n := PrefixLen(a, b, alo, blo, ahi, bhi);
            && alo + n <= ahi && blo + n <= bhi
            && Matches(a, b, alo, blo, ahi, bhi, depth) == Run(alo, blo, n) + Matches(a, b, alo + n, blo + n, ahi, bhi, depth - 1)
  {
    hide BoxLcs, Between, PrefixLen, SuffixLen, Run, SameLines;
    PrefixLenFits(a, b, alo, blo, ahi, bhi);
  }

  lemma MatchesEnd<T>(a: seq<T>, b: seq<T>, alo: int, blo: int, ahi: int, bhi: int, depth: nat)
    requires Box(a, b, alo, blo, ahi, bhi) && alo < ahi && blo < bhi && BoxLcs(a, b, alo, blo, ahi, bhi) == []
    requires a[alo] != b[blo] && a[ahi - 1] == b[bhi - 1]
    ensures var n := SuffixLen(a, b, alo, blo, ahi, bhi);
            && alo + n <= ahi && blo + n <= bhi
            && Matches(a, b, alo, blo, ahi, bhi, depth) == Matches(a, b, alo, blo, ahi - n, bhi - n, depth - 1) + Run(ahi - n, bhi - n, n)
  {
    hide BoxLcs, Between, PrefixLen, SuffixLen, Run, SameLines;
    SuffixLenFits(a, b, alo, blo, ahi, bhi);
  }

  lemma MatchesNoEnds<T>(a: seq<T>, b: seq<T>, alo: int, blo: int, ahi: int, bhi: int, depth: nat)
    requires Box(a, b, alo, blo, ahi, bhi) && alo < ahi && blo < bhi && BoxLcs(a, b, alo, blo, ahi, bhi) == []
    requires a[alo] != b[blo] && a[ahi - 1] != b[bhi - 1]
    ensures Matches(a, b, alo, blo, ahi, bhi, depth) == []
  {
    hide BoxLcs, Between, PrefixLen, SuffixLen, Run;
  }

  lemma BetweenUnfolds<T>(a: seq<T>, b: seq<T>, lcs: seq<Pair>, i: nat, la: int, lb: int, ahi: int, bhi: int, depth: nat)
    requires i <= |lcs|
    ensures Between(a, b, lcs, i, la, lb, ahi, bhi, depth) ==
      if i == |lcs| then Matches(a, b, la, lb, ahi, bhi, depth - 1)
      else Matches(a, b, la, lb, lcs[i].a, lcs[i].b, depth - 1) + [lcs[i]]
           + Between(a, b, lcs, i + 1, lcs[i].a + 1, lcs[i].b + 1, ahi, bhi, depth)
  {
    hide Matches;
  }

  lemma BetweenAdvances<T>(a: seq<T>, b: seq<T>, lcs: seq<Pair>, i: nat, la: int, lb: int, ahi: int, bhi: int, depth: nat, sofar: seq<Pair>)
    requires i < |lcs|
    ensures sofar + Between(a, b, lcs, i, la, lb, ahi, bhi, depth)
         == sofar + Matches(a, b, la, lb, lcs[i].a, lcs[i].b, depth - 1) + [lcs[i]]
            + Between(a, b, lcs, i + 1, lcs[i].a + 1, lcs[i].b + 1, ahi, bhi, depth)
  {
    hide Matches, Between;
    BetweenUnfolds(a, b, lcs, i, la, lb, ahi, bhi, depth);
  }

  // ---------------------------------------------------------------------------
  // The answer is a common subsequence inside the box
  // ---------------------------------------------------------------------------

  ghost predicate EqualLines<T>(a: seq<T>, b: seq<T>, ps: seq<Pair>) {
    forall i :: 0 <= i < |ps| ==>
      0 <= ps[i].a < |a| && 0 <= ps[i].b < |b| && a[ps[i].a] == b[ps[i].b]
  }

  ghost predicate CommonSubsequence<T>(a: seq<T>, b: seq<T>, alo: int, blo: int, ahi: int, bhi: int, ps: seq<Pair>) {
    InBox(ps, alo, blo, ahi, bhi) && Increasing(ps) && EqualLines(a, b, ps)
  }

  lemma NothingIsCommon<T>(a: seq<T>, b: seq<T>, alo: int, blo: int, ahi: int, bhi: int)
    ensures CommonSubsequence(a, b, alo, blo, ahi, bhi, [])
  {
  }

  /** Matches of two boxes, one below and before the other, join. */
  lemma Join<T>(a: seq<T>, b: seq<T>, alo: int, blo: int, am: int, bm: int, ahi: int, bhi: int, p: seq<Pair>, q: seq<Pair>)
    requires alo <= am <= ahi && blo <= bm <= bhi
    requires CommonSubsequence(a, b, alo, blo, am, bm, p) && CommonSubsequence(a, b, am, bm, ahi, bhi, q)
    ensures CommonSubsequence(a, b, alo, blo, ahi, bhi, p + q)
  {
  }

  lemma BoxLcsAt<T>(a: seq<T>, b: seq<T>, alo: int, blo: int, ahi: int, bhi: int, i: int)
    requires Box(a, b, alo, blo, ahi, bhi) && 0 <= i < |BoxLcs(a, b, alo, blo, ahi, bhi)|
    ensures var p := BoxLcs(a, b, alo, blo, ahi, bhi)[i];
            alo <= p.a < ahi && blo <= p.b < bhi && a[p.a] == b[p.b]
  {
    var s, t := a[alo..ahi], b[blo..bhi];
    UniqueLcsIsMatch(s, t);
    var p := UniqueLcs(s, t)[i];
    assert Partners(s, t, p.a, p.b);
    assert s[p.a] == a[alo + p.a] && t[p.b] == b[blo + p.b];
  }

  lemma BoxLcsIsCommon<T>(a: seq<T>, b: seq<T>, alo: int, blo: int, ahi: int, bhi: int)
    requires Box(a, b, alo, blo, ahi, bhi)
    ensures CommonSubsequence(a, b, alo, blo, ahi, bhi, BoxLcs(a, b, alo, blo, ahi, bhi))
  {
    var lcs := BoxLcs(a, b, alo, blo, ahi, bhi);
    UniqueLcsIsMatch(a[alo..ahi], b[blo..bhi]);
    assert Increasing(lcs);
    hide UniqueLcs, BoxLcs;
    forall i | 0 <= i < |lcs|
      ensures alo <= lcs[i].a < ahi && blo <= lcs[i].b < bhi && a[lcs[i].a] == b[lcs[i].b]
    {
      BoxLcsAt(a, b, alo, blo, ahi, bhi, i);
    }
  }

  lemma {:induction false} PrefixLenFits<T>(a: seq<T>, b: seq<T>, alo: int, blo: int, ahi: int, bhi: int)
    requires Box(a, b, alo, blo, ahi, bhi)
    ensures var n := PrefixLen(a, b, alo, blo, ahi, bhi);
            alo + n <= ahi && blo + n <= bhi && SameLines(a, b, alo, blo, n)
    decreases ahi - alo
  {
    if alo < ahi && blo < bhi && a[alo] == b[blo] { PrefixLenFits(a, b, alo + 1, blo + 1, ahi, bhi); }
  }

  lemma {:induction false} SuffixLenFits<T>(a: seq<T>, b: seq<T>, alo: int, blo: int, ahi: int, bhi: int)
    requires Box(a, b, alo, blo, ahi, bhi)
    ensures var n := SuffixLen(a, b, alo, blo, ahi, bhi);
            alo + n <= ahi && blo + n <= bhi && SameLines(a, b, ahi - n, bhi - n, n)
    decreases ahi - alo
  {
    if alo < ahi && blo < bhi && a[ahi - 1] == b[bhi - 1] { SuffixLenFits(a, b, alo, blo, ahi - 1, bhi - 1); }
  }

  /** The first n lines of the box agree, and behind them a side is used up or the lines differ. */
  ghost predicate AgreeAtStart<T>(a: seq<T>, b: seq<T>, alo: int, blo: int, ahi: int, bhi: int, n: nat)
    requires Box(a, b, alo, blo, ahi, bhi)
  {
    && alo + n <= ahi && blo + n <= bhi
    && (forall i :: alo <= i < alo + n ==> a[i] == b[i - alo + blo])
    && (alo + n == ahi || blo + n == bhi || a[alo + n] != b[blo + n])
  }

  /** The last n lines of the box agree, and before them a side is used up or the lines differ. */
  ghost predicate AgreeAtEnd<T>(a: seq<T>, b: seq<T>, alo: int, blo: int, ahi: int, bhi: int, n: nat)
    requires Box(a, b, alo, blo, ahi, bhi)
  {
    && alo + n <= ahi && blo + n <= bhi
    && (forall i :: ahi - n <= i < ahi ==> a[i] == b[i - ahi + bhi])
    && (alo + n == ahi || blo + n == bhi || a[ahi - n - 1] != b[bhi - n - 1])
  }

  lemma {:induction false} PrefixLenAgrees<T>(a: seq<T>, b: seq<T>, alo: int, blo: int, ahi: int, bhi: int)
    requires Box(a, b, alo, blo, ahi, bhi)
    ensures AgreeAtStart(a, b, alo, blo, ahi, bhi, PrefixLen(a, b, alo, blo, ahi, bhi))
    decreases ahi - alo
  {
    if alo < ahi && blo < bhi && a[alo] == b[blo] { PrefixLenAgrees(a, b, alo + 1, blo + 1, ahi, bhi); }
  }

  lemma {:induction false} SuffixLenAgrees<T>(a: seq<T>, b: seq<T>, alo: int, blo: int, ahi: int, bhi: int)
    requires Box(a, b, alo, blo, ahi, bhi)
    ensures AgreeAtEnd(a, b, alo, blo, ahi, bhi, SuffixLen(a, b, alo, blo, ahi, bhi))
    decreases ahi - alo
  {
    if alo < ahi && blo < bhi && a[ahi - 1] == b[bhi - 1] { SuffixLenAgrees(a, b, alo, blo, ahi - 1, bhi - 1); }
  }

  lemma PrefixLenIs<T>(a: seq<T>, b: seq<T>, alo: int, blo: int, ahi: int, bhi: int, n: nat)
    requires Box(a, b, alo, blo, ahi, bhi)
    ensures AgreeAtStart(a, b, alo, blo, ahi, bhi, n) <==> n == PrefixLen(a, b, alo, blo, ahi, bhi)
  {
    hide PrefixLen;
    PrefixLenAgrees(a, b, alo, blo, ahi, bhi);
    var m := PrefixLen(a, b, alo, blo, ahi, bhi);
    assert AgreeAtStart(a, b, alo, blo, ahi, bhi, n) ==> n >= m;
    assert AgreeAtStart(a, b, alo, blo, ahi, bhi, n) ==> m >= n;
  }

  lemma SuffixLenIs<T>(a: seq<T>, b: seq<T>, alo: int, blo: int, ahi: int, bhi: int, n: nat)
    requires Box(a, b, alo, blo, ahi, bhi)
    ensures AgreeAtEnd(a, b, alo, blo, ahi, bhi, n) <==> n == SuffixLen(a, b, alo, blo, ahi, bhi)
  {
    hide SuffixLen;
    SuffixLenAgrees(a, b, alo, blo, ahi, bhi);
    var m := SuffixLen(a, b, alo, blo, ahi, bhi);
    assert AgreeAtEnd(a, b, alo, blo, ahi, bhi, n) ==> n >= m;
    assert AgreeAtEnd(a, b, alo, blo, ahi, bhi, n) ==> m >= n;
  }

  /** Without common unique lines, the lines that agree at the start of a box are matched, one by one. */
  lemma StartIsMatched<T>(a: seq<T>, b: seq<T>, alo: int, blo: int, ahi: int, bhi: int, depth: nat, n: nat)
    requires Box(a, b, alo, blo, ahi, bhi) && AgreeAtStart(a, b, alo, blo, ahi, bhi, n) && n > 0
    requires BoxLcs(a, b, alo, blo, ahi, bhi) == []
    ensures |Matches(a, b, alo, blo, ahi, bhi, depth)| >= n
    ensures forall k :: 0 <= k < n ==> Matches(a, b, alo, blo, ahi, bhi, depth)[k] == Pair(alo + k, blo + k)
    ensures Matches(a, b, alo, blo, ahi, bhi, depth)[n..] == Matches(a, b, alo + n, blo + n, ahi, bhi, depth - 1)
  {
    hide BoxLcs, Matches, PrefixLen;
    PrefixLenIs(a, b, alo, blo, ahi, bhi, n);
    assert a[alo] == b[alo - alo + blo];
    MatchesBeginning(a, b, alo, blo, ahi, bhi, depth);
  }

  /** If moreover the first lines differ, those that agree at the end are. */
  lemma EndIsMatched<T>(a: seq<T>, b: seq<T>, alo: int, blo: int, ahi: int, bhi: int, depth: nat, n: nat)
    requires Box(a, b, alo, blo, ahi, bhi) && AgreeAtEnd(a, b, alo, blo, ahi, bhi, n) && n > 0
    requires BoxLcs(a, b, alo, blo, ahi, bhi) == [] && a[alo] != b[blo]
    ensures var ps := Matches(a, b, alo, blo, ahi, bhi, depth);
            && |ps| >= n && (forall i :: |ps| - n <= i < |ps| ==> ps[i] == Pair(ahi - (|ps| - i), bhi - (|ps| - i)))
            && ps[..|ps| - n] == Matches(a, b, alo, blo, ahi - n, bhi - n, depth - 1)
  {
    hide BoxLcs, Matches, SuffixLen;
    SuffixLenIs(a, b, alo, blo, ahi, bhi, n);
    assert a[ahi - 1] == b[ahi - 1 - ahi + bhi];
    MatchesEnd(a, b, alo, blo, ahi, bhi, depth);
    var ps := Matches(a, b, alo, blo, ahi, bhi, depth);
    var before := Matches(a, b, alo, blo, ahi - n, bhi - n, depth - 1);
    assert ps == before + Run(ahi - n, bhi - n, n);
  }

  lemma RunIsCommon<T>(a: seq<T>, b: seq<T>, alo: int, blo: int, n: nat)
    requires SameLines(a, b, alo, blo, n)
    ensures CommonSubsequence(a, b, alo, blo, alo + n, blo + n, Run(alo, blo, n))
  {
  }

  lemma {:induction false} MatchesAreCommon<T>(a: seq<T>, b: seq<T>, alo: int, blo: int, ahi: int, bhi: int, depth: int)
    requires Box(a, b, alo, blo, ahi, bhi)
    ensures CommonSubsequence(a, b, alo, blo, ahi, bhi, Matches(a, b, alo, blo, ahi, bhi, depth))
    decreases if depth < 0 then 0 else depth + 1, 1, 0
  {
    NothingIsCommon(a, b, alo, blo, ahi, bhi);
    hide CommonSubsequence, BoxLcs, Between, PrefixLen, SuffixLen, SameLines, Run;
    if depth < 0 || alo == ahi || blo == bhi {
    } else if BoxLcs(a, b, alo, blo, ahi, bhi) != [] {
      BoxLcsIsCommon(a, b, alo, blo, ahi, bhi);
      BetweenAreCommon(a, b, alo, blo, BoxLcs(a, b, alo, blo, ahi, bhi), 0, alo, blo, ahi, bhi, depth);
    } else if a[alo] == b[blo] {
      var n := PrefixLen(a, b, alo, blo, ahi, bhi);
      PrefixLenFits(a, b, alo, blo, ahi, bhi);
      RunIsCommon(a, b, alo, blo, n);
      MatchesAreCommon(a, b, alo + n, blo + n, ahi, bhi, depth - 1);
      Join(a, b, alo, blo, alo + n, blo + n, ahi, bhi, Run(alo, blo, n), Matches(a, b, alo + n, blo + n, ahi, bhi, depth - 1));
    } else if a[ahi - 1] == b[bhi - 1] {
      var n := SuffixLen(a, b, alo, blo, ahi, bhi);
      SuffixLenFits(a, b, alo, blo, ahi, bhi);
      RunIsCommon(a, b, ahi - n, bhi - n, n);
      MatchesAreCommon(a, b, alo, blo, ahi - n, bhi - n, depth - 1);
      Join(a, b, alo, blo, ahi - n, bhi - n, ahi, bhi, Matches(a, b, alo, blo, ahi - n, bhi - n, depth - 1), Run(ahi - n, bhi - n, n));
    }
  }

  /** la, lb is where the search goes on when the pairs before i have been handled. */
  ghost predicate Reached(lcs: seq<Pair>, i: nat, alo: int, blo: int, la: int, lb: int) {
    && i <= |lcs|
    && la == (if i == 0 then alo else lcs[i - 1].a + 1)
    && lb == (if i == 0 then blo else lcs[i - 1].b + 1)
  }

  /** Positions between two neighbouring pairs form a box. */
  lemma ReachedIsBox(lcs: seq<Pair>, i: nat, alo: int, blo: int, ahi: int, bhi: int, la: int, lb: int)
    requires Increasing(lcs) && InBox(lcs, alo, blo, ahi, bhi) && Reached(lcs, i, alo, blo, la, lb)
    requires alo <= ahi && blo <= bhi
    ensures i <= |lcs| && alo <= la <= ahi && blo <= lb <= bhi
    ensures i < |lcs| ==> la <= lcs[i].a < ahi && lb <= lcs[i].b < bhi
    ensures i < |lcs| ==> Reached(lcs, i + 1, alo, blo, lcs[i].a + 1, lcs[i].b + 1)
  {
  }

  lemma {:induction false} BetweenAreCommon<T>(a: seq<T>, b: seq<T>, alo: int, blo: int, lcs: seq<Pair>, i: nat,
                                               la: int, lb: int, ahi: int, bhi: int, depth: nat)
    requires Box(a, b, alo, blo, ahi, bhi) && CommonSubsequence(a, b, alo, blo, ahi, bhi, lcs)
    requires Reached(lcs, i, alo, blo, la, lb)
    ensures CommonSubsequence(a, b, la, lb, ahi, bhi, Between(a, b, lcs, i, la, lb, ahi, bhi, depth))
    decreases depth + 1, 0, |lcs| - i
  {
    hide CommonSubsequence, Matches, Between, BoxLcs, Run, UniqueLcs, Increasing, InBox, EqualLines, Reached;
    OneOfCommon(a, b, alo, blo, lcs, i, la, lb, ahi, bhi);
    BetweenUnfolds(a, b, lcs, i, la, lb, ahi, bhi, depth);
    if i == |lcs| {
      MatchesAreCommon(a, b, la, lb, ahi, bhi, depth - 1);
    } else {
      var p := lcs[i];
      var before := Matches(a, b, la, lb, p.a, p.b, depth - 1);
      MatchesAreCommon(a, b, la, lb, p.a, p.b, depth - 1);
      BetweenAreCommon(a, b, alo, blo, lcs, i + 1, p.a + 1, p.b + 1, ahi, bhi, depth);
      Join(a, b, la, lb, p.a, p.b, p.a + 1, p.b + 1, before, [p]);
      Join(a, b, la, lb, p.a + 1, p.b + 1, ahi, bhi, before + [p],
           Between(a, b, lcs, i + 1, p.a + 1, p.b + 1, ahi, bhi, depth));
    }
  }

  lemma OneOfCommon<T>(a: seq<T>, b: seq<T>, alo: int, blo: int, lcs: seq<Pair>, i: nat,
                       la: int, lb: int, ahi: int, bhi: int)
    requires Box(a, b, alo, blo, ahi, bhi) && CommonSubsequence(a, b, alo, blo, ahi, bhi, lcs)
    requires Reached(lcs, i, alo, blo, la, lb)
    ensures i <= |lcs| && alo <= la <= ahi && blo <= lb <= bhi
    ensures i < |lcs| ==>
      && la <= lcs[i].a < ahi && lb <= lcs[i].b < bhi
      && Reached(lcs, i + 1, alo, blo, lcs[i].a + 1, lcs[i].b + 1)
      && CommonSubsequence(a, b, lcs[i].a, lcs[i].b, lcs[i].a + 1, lcs[i].b + 1, [lcs[i]])
  {
    ReachedIsBox(lcs, i, alo, blo, ahi, bhi, la, lb);
  }

  /** An increasing sequence of pairs in a box has no more of them than either side has lines. */
  lemma {:induction false} BoxBound(ps: seq<Pair>, alo: int, blo: int, ahi: int, bhi: int)
    requires Increasing(ps) && InBox(ps, alo, blo, ahi, bhi)
    ensures |ps| <= (if alo <= ahi then ahi - alo else 0)
    ensures |ps| <= (if blo <= bhi then bhi - blo else 0)
  {
    if |ps| > 0 {
      var last := ps[|ps| - 1];
      BoxBound(ps[..|ps| - 1], alo, blo, last.a, last.b);
    }
  }

  lemma {:induction false} BetweenHas<T>(a: seq<T>, b: seq<T>, lcs: seq<Pair>, i: nat, la: int, lb: int, ahi: int, bhi: int,
                                         depth: nat, j: nat)
    requires i <= j < |lcs|
    ensures lcs[j] in Between(a, b, lcs, i, la, lb, ahi, bhi, depth)
    decreases |lcs| - i
  {
    hide Matches;
    if i < j { BetweenHas(a, b, lcs, i + 1, lcs[i].a + 1, lcs[i].b + 1, ahi, bhi, depth, j); }
  }

  /** At every remaining depth the longest list of common unique lines is matched, whatever else is. */
  lemma UniqueAreMatched<T>(a: seq<T>, b: seq<T>, alo: int, blo: int, ahi: int, bhi: int, depth: nat, p: Pair)
    requires Box(a, b, alo, blo, ahi, bhi) && alo < ahi && blo < bhi && p in BoxLcs(a, b, alo, blo, ahi, bhi)
    ensures p in Matches(a, b, alo, blo, ahi, bhi, depth)
  {
    hide BoxLcs, Matches, Between;
    var lcs := BoxLcs(a, b, alo, blo, ahi, bhi);
    var j :| 0 <= j < |lcs| && lcs[j] == p;
    BetweenHas(a, b, lcs, 0, alo, blo, ahi, bhi, depth, j);
    MatchesUnique(a, b, alo, blo, ahi, bhi, depth);
  }

  // ---------------------------------------------------------------------------
  // Which texts match themselves: length 2 * depth + 2 is the exact threshold
  // ---------------------------------------------------------------------------

  lemma SelfPairs<T>(s: seq<T>)
    ensures forall i :: 0 <= i < |UniqueLcs(s, s)| ==>
      UniqueLcs(s, s)[i].a == UniqueLcs(s, s)[i].b && OnceAt(s, UniqueLcs(s, s)[i].a) && 0 <= UniqueLcs(s, s)[i].a < |s|
    ensures UniqueLcs(s, s) != [] ==> OnceAt(s, UniqueLcs(s, s)[0].a)
  {
    UniqueLcsIsMatch(s, s);
    var u := UniqueLcs(s, s);
    forall i | 0 <= i < |u| ensures u[i].a == u[i].b && OnceAt(s, u[i].a) {
      assert Partners(s, s, u[i].a, u[i].b);
    }
  }

  lemma {:induction false} SelfPrefix<T>(a: seq<T>, lo: int, hi: int)
    requires 0 <= lo <= hi <= |a|
    ensures PrefixLen(a, a, lo, lo, hi, hi) == hi - lo
    decreases hi - lo
  {
    if lo < hi { SelfPrefix(a, lo + 1, hi); }
  }

  /** Without unique lines the first level already matches everything. */
  lemma SelfWithoutUnique<T>(a: seq<T>, lo: int, hi: int, depth: nat)
    requires 0 <= lo <= hi <= |a| && UniqueLcs(a[lo..hi], a[lo..hi]) == []
    ensures Matches(a, a, lo, lo, hi, hi, depth) == Run(lo, lo, hi - lo)
  {
    hide UniqueLcs;
    SelfPrefix(a, lo, hi);
  }

  /** A part of a short text that lies between unique matches is either shorter by two or
      has no unique line of its own. */
  lemma GapIsEasy<T>(a: seq<T>, lo: int, hi: int, depth: nat, l: int, r: int)
    requires 0 <= lo <= l <= r <= hi <= |a| && hi - lo <= 2 * depth + 2
    requires UniqueLcs(a[lo..hi], a[lo..hi]) != []
    requires forall i :: 0 <= i < |UniqueLcs(a[lo..hi], a[lo..hi])| ==>
               !(l <= UniqueLcs(a[lo..hi], a[lo..hi])[i].a + lo < r)
    ensures r - l <= 2 * depth || (depth > 0 && UniqueLcs(a[l..r], a[l..r]) == [])
  {
    hide *;
    var s, g := a[lo..hi], a[l..r];
    var u := UniqueLcs(s, s);
    SelfPairs(s);
    SelfPairs(g);
    UniqueLcsIsMatch(s, s);
    OneLineIsUnique(g);
    if r - l > 2 * depth && UniqueLcs(g, g) != [] {
      AtMostOneOutside(u, hi - lo, l - lo, r - lo);
      var q := UniqueLcs(g, g)[0].a;
      UniqueAcross(a, lo, hi, l, r, q, u[0].a);
      TwoUnique(s, u[0].a, l + q - lo);
    }
  }

  lemma OneLineIsUnique<T>(s: seq<T>)
    ensures |s| == 1 ==> UniqueLcs(s, s) != []
  {
    if |s| == 1 {
      UniqueLcsIsLongest(s, s, [Pair(0, 0)]);
    }
  }

  lemma AtMostOneOutside(u: seq<Pair>, n: int, l: int, r: int)
    requires Increasing(u) && 0 <= l <= r <= n <= r - l + 1
    requires forall i :: 0 <= i < |u| ==> 0 <= u[i].a < n && !(l <= u[i].a < r)
    ensures |u| <= 1
  {
    FirstTwo(u);
  }

  lemma FirstTwo(u: seq<Pair>)
    requires Increasing(u)
    ensures |u| > 1 ==> u[0].a < u[1].a
  {
  }

  lemma TwoUnique<T>(s: seq<T>, m: int, x: int)
    requires OnceAt(s, m) && OnceAt(s, x) && m != x
    ensures |UniqueLcs(s, s)| >= 2
  {
    var two := if m < x then [Pair(m, m), Pair(x, x)] else [Pair(x, x), Pair(m, m)];
    UniqueLcsIsLongest(s, s, two);
  }

  lemma OutsideIsOne(lo: int, hi: int, l: int, r: int, m: int, k: int)
    requires lo <= l <= r <= hi <= lo + (r - l) + 1
    requires 0 <= m < hi - lo && 0 <= k < hi - lo && !(l <= m + lo < r)
    ensures k == m || 0 <= k - (l - lo) < r - l
  {
  }

  /** When only one line of a box lies outside a part of it, and that line is unique in the
      box, the lines that are unique in the part are unique in the box. */
  lemma UniqueAcross<T>(a: seq<T>, lo: int, hi: int, l: int, r: int, q: int, m: int)
    requires 0 <= lo <= l <= r <= hi <= |a| && hi - lo <= r - l + 1
    requires OnceAt(a[l..r], q) && OnceAt(a[lo..hi], m) && !(l <= m + lo < r)
    ensures OnceAt(a[lo..hi], l + q - lo)
  {
    var s, g := a[lo..hi], a[l..r];
    var x := l + q - lo;
    assert forall i :: 0 <= i < |g| ==> g[i] == s[i + (l - lo)];
    assert g[q] == s[q + (l - lo)];
    forall k | 0 <= k < |s| && s[k] == s[x] ensures k == x {
      OutsideIsOne(lo, hi, l, r, m, k);
      if k != m {
        assert g[k - (l - lo)] == g[q];
      }
    }
  }

  lemma {:induction false} ShortTextMatchesItself<T>(a: seq<T>, lo: int, hi: int, depth: int)
    requires 0 <= lo <= hi <= |a| && depth >= -1 && hi - lo <= 2 * depth + 2
    ensures Matches(a, a, lo, lo, hi, hi, depth) == Run(lo, lo, hi - lo)
    decreases depth + 1, 2, 0
  {
    if lo < hi {
      var lcs := BoxLcs(a, a, lo, lo, hi, hi);
      if lcs == [] {
        SelfWithoutUnique(a, lo, hi, depth);
      } else {
        BoxLcsIsCommon(a, a, lo, lo, hi, hi);
        SelfBoxLcs(a, lo, hi);
        hide BoxLcs, Between;
        ShortTextBetween(a, lo, hi, lcs, 0, lo, depth);
      }
    }
  }

  lemma BoxLcsIsShifted<T>(a: seq<T>, lo: int, hi: int)
    requires 0 <= lo <= hi <= |a|
    ensures BoxLcs(a, a, lo, lo, hi, hi) == [] <==> UniqueLcs(a[lo..hi], a[lo..hi]) == []
  {
  }

  lemma SelfBoxLcs<T>(a: seq<T>, lo: int, hi: int)
    requires 0 <= lo <= hi <= |a|
    ensures forall k :: 0 <= k < |BoxLcs(a, a, lo, lo, hi, hi)| ==>
      BoxLcs(a, a, lo, lo, hi, hi)[k].a == BoxLcs(a, a, lo, lo, hi, hi)[k].b
  {
    SelfPairs(a[lo..hi]);
  }

  /** Between two neighbouring unique matches there is no other. */
  lemma GapHasNoMatch<T>(a: seq<T>, lo: int, hi: int, lcs: seq<Pair>, i: nat, l: int, r: int)
    requires 0 <= lo <= hi <= |a| && lcs == BoxLcs(a, a, lo, lo, hi, hi) && Increasing(lcs)
    requires Reached(lcs, i, lo, lo, l, l) && r == if i < |lcs| then lcs[i].a else hi
    ensures |UniqueLcs(a[lo..hi], a[lo..hi])| == |lcs|
    ensures forall k :: 0 <= k < |lcs| ==> !(l <= UniqueLcs(a[lo..hi], a[lo..hi])[k].a + lo < r)
  {
    hide UniqueLcs;
    var u := UniqueLcs(a[lo..hi], a[lo..hi]);
    forall k | 0 <= k < |u| ensures !(l <= u[k].a + lo < r) {
      assert lcs[k] == Pair(u[k].a + lo, u[k].b + lo);
    }
  }

  lemma {:induction false} ShortGap<T>(a: seq<T>, l: int, r: int, depth: nat)
    requires 0 <= l <= r <= |a|
    requires r - l <= 2 * depth || (depth > 0 && UniqueLcs(a[l..r], a[l..r]) == [])
    ensures Matches(a, a, l, l, r, r, depth - 1) == Run(l, l, r - l)
    decreases depth + 1, 0, 0
  {
    if r - l <= 2 * depth {
      ShortTextMatchesItself(a, l, r, depth - 1);
    } else {
      SelfWithoutUnique(a, l, r, depth - 1);
    }
  }

  lemma {:induction false} ShortTextBetween<T>(a: seq<T>, lo: int, hi: int, lcs: seq<Pair>, i: nat, l: int, depth: nat)
    requires 0 <= lo <= hi <= |a| && hi - lo <= 2 * depth + 2
    requires lcs == BoxLcs(a, a, lo, lo, hi, hi) != [] && Increasing(lcs) && InBox(lcs, lo, lo, hi, hi)
    requires forall k :: 0 <= k < |lcs| ==> lcs[k].a == lcs[k].b
    requires Reached(lcs, i, lo, lo, l, l)
    ensures lo <= l <= hi
    ensures Between(a, a, lcs, i, l, l, hi, hi, depth) == Run(l, l, hi - l)
    decreases depth + 1, 1, |lcs| - i
  {
    hide *;
    ReachedIsBox(lcs, i, lo, lo, hi, hi, l, l);
    BoxLcsIsShifted(a, lo, hi);
    var r := if i < |lcs| then lcs[i].a else hi;
    GapHasNoMatch(a, lo, hi, lcs, i, l, r);
    GapIsEasy(a, lo, hi, depth, l, r);
    ShortGap(a, l, r, depth);
    BetweenUnfolds(a, a, lcs, i, l, l, hi, hi, depth);
    if i < |lcs| {
      assert lcs[i] == Pair(r, r);
      ShortTextBetween(a, lo, hi, lcs, i + 1, r + 1, depth);
      RunJoins(l, r, hi);
    }
  }

  lemma RunJoins(l: int, r: int, hi: int)
    requires l <= r < hi
    ensures Run(l, l, hi - l) == Run(l, l, r - l) + [Pair(r, r)] + Run(r + 1, r + 1, hi - r - 1)
  {
  }

  /** A text of 2 * depth + 3 lines or more with one unique line per level of recursion. */
  function Nested(depth: nat, extra: nat): (s: seq<int>)
    ensures |s| == 2 * depth + 3 + extra
  {
    if depth == 0 then [0, -1, -1] + seq(extra, i => -1) else [depth - 1, depth] + Nested(depth - 1, extra)
  }

  lemma {:induction false} NestedContents(depth: nat, extra: nat)
    ensures forall k :: 0 <= k < |Nested(depth, extra)| ==> -1 <= Nested(depth, extra)[k] <= depth
    ensures forall q :: OnceAt(Nested(depth, extra), q) <==> q == if depth == 0 then 0 else 1
    ensures Nested(depth, extra)[if depth == 0 then 0 else 1] == depth
  {
    var s := Nested(depth, extra);
    if depth == 0 {
      assert s[1] == s[2] && forall k :: 2 <= k < |s| ==> s[k] == s[1];
    } else {
      NestedContents(depth - 1, extra);
      var t := Nested(depth - 1, extra);
      var v := if depth == 1 then 0 else 1;
      assert t == s[2..];
      assert s[0] == t[v] == s[v + 2];
      forall q | OnceAt(s, q) ensures q == 1 {
        if q >= 2 {
          assert OnceAt(t, q - 2);
        }
      }
    }
  }

  lemma NestedLcs(a: seq<int>, lo: int, hi: int, depth: nat, extra: nat)
    requires 0 <= lo <= hi <= |a| && a[lo..hi] == Nested(depth, extra)
    ensures var p := if depth == 0 then lo else lo + 1;
            BoxLcs(a, a, lo, lo, hi, hi) == [Pair(p, p)]
  {
    var s := Nested(depth, extra);
    var u := if depth == 0 then 0 else 1;
    NestedContents(depth, extra);
    SelfPairs(s);
    UniqueLcsIsMatch(s, s);
    assert AllPartners(s, s, [Pair(u, u)]);
    UniqueLcsIsLongest(s, s, [Pair(u, u)]);
    var lcs := UniqueLcs(s, s);
    assert forall i :: 0 <= i < |lcs| ==> lcs[i] == Pair(u, u);
  }

  /** Every longer length has a text that does not match itself whole. */
  lemma {:induction false} NestedIsTooDeep(a: seq<int>, lo: int, hi: int, depth: nat, extra: nat)
    requires 0 <= lo <= hi <= |a| && a[lo..hi] == Nested(depth, extra)
    ensures |Matches(a, a, lo, lo, hi, hi, depth)| < hi - lo
    decreases depth
  {
    hide BoxLcs, UniqueLcs, PrefixLen, SuffixLen, Run, Between, Matches, OnceAt, EqualLines, Table, Chain;
    NestedLcs(a, lo, hi, depth, extra);
    var p := if depth == 0 then lo else lo + 1;
    var before := Matches(a, a, lo, lo, p, p, depth - 1);
    var after := Matches(a, a, p + 1, p + 1, hi, hi, depth - 1);
    NestedUnfolds(a, lo, hi, p, depth);
    MatchesAreCommon(a, a, lo, lo, p, p, depth - 1);
    BoxBound(before, lo, lo, p, p);
    if depth > 0 {
      assert a[lo + 2..hi] == Nested(depth, extra)[2..] == Nested(depth - 1, extra);
      NestedIsTooDeep(a, lo + 2, hi, depth - 1, extra);
    } else {
      NoDepthNoMatches(a, p + 1, hi);
    }
  }

  lemma NoDepthNoMatches(a: seq<int>, lo: int, hi: int)
    ensures Matches(a, a, lo, lo, hi, hi, -1) == []
  {
  }

  lemma NestedUnfolds(a: seq<int>, lo: int, hi: int, p: int, depth: nat)
    requires 0 <= lo < hi <= |a| && BoxLcs(a, a, lo, lo, hi, hi) == [Pair(p, p)]
    ensures Matches(a, a, lo, lo, hi, hi, depth)
         == Matches(a, a, lo, lo, p, p, depth - 1) + [Pair(p, p)] + Matches(a, a, p + 1, p + 1, hi, hi, depth - 1)
  {
    hide BoxLcs, PrefixLen, SuffixLen, Run;
    assert Between(a, a, [Pair(p, p)], 1, p + 1, p + 1, hi, hi, depth) == Matches(a, a, p + 1, p + 1, hi, hi, depth - 1);
  }

  /** The threshold: all texts of n lines match themselves line for line exactly if n is at most 2 * depth + 2. */
  lemma SelfMatchThreshold(depth: nat, n: nat)
    ensures n <= 2 * depth + 2 <==> forall s: seq<int> :: |s| == n ==> Matches(s, s, 0, 0, n, n, depth) == Run(0, 0, n)
  {
    hide Matches;
    if n <= 2 * depth + 2 {
      forall s: seq<int> | |s| == n ensures Matches(s, s, 0, 0, n, n, depth) == Run(0, 0, n) {
        ShortTextMatchesItself(s, 0, n, depth);
      }
    } else {
      var extra := n - 2 * depth - 3;
      var t := Nested(depth, extra);
      assert t[0..n] == t;
      NestedIsTooDeep(t, 0, n, depth, extra);
    }
  }
}
