/** The longest common subsequence of unique lines, defined without piles.

    Both implementations of patience sorting (bzrlib/_patiencediff_py.py and
    bzrlib/_patiencediff_c.c) are proved equal to UniqueLcs, and UniqueLcs is proved
    to be a longest answer.  The definition is the textbook recurrence for increasing
    subsequences; piles, shortcuts, bisection and backpointers belong to the
    implementations only. */
module PatienceLcs {

  /** One matched line: its position in each sequence. */
  datatype Pair = Pair(a: int, b: int)

  // ---------------------------------------------------------------------------
  // Which lines may be matched
  // ---------------------------------------------------------------------------

  ghost predicate OnceAt<T>(s: seq<T>, i: int) {
    0 <= i < |s| && forall k :: 0 <= k < |s| && s[k] == s[i] ==> k == i
  }

  /** Line i of a and line j of b are equal and occur nowhere else. */
  ghost predicate Partners<T>(a: seq<T>, b: seq<T>, i: int, j: int) {
    OnceAt(a, i) && OnceAt(b, j) && a[i] == b[j]
  }

  /** The only possible partner of line j of b, or -1. */
  ghost function PartnerOf<T>(a: seq<T>, b: seq<T>, j: int): (i: int)
    requires 0 <= j < |b|
    ensures i >= 0 ==> Partners(a, b, i, j)
    ensures i < 0 ==> i == -1 && forall k :: !Partners(a, b, k, j)
  {
    if exists i :: Partners(a, b, i, j) then var i :| Partners(a, b, i, j); i else -1
  }

  /** The table the implementations call btoa. */
  ghost function Table<T>(a: seq<T>, b: seq<T>): (t: seq<int>)
    ensures |t| == |b|
    ensures forall j :: 0 <= j < |b| ==> t[j] == PartnerOf(a, b, j)
    ensures Injective(t)
  {
    seq(|b|, j requires 0 <= j < |b| => PartnerOf(a, b, j))
  }

  /** Entries are -1 or distinct. */
  ghost predicate Injective(t: seq<int>) {
    && (forall i :: 0 <= i < |t| ==> t[i] >= -1)
    && forall i, j :: 0 <= i < j < |t| && t[i] >= 0 ==> t[i] != t[j]
  }

  // ---------------------------------------------------------------------------
  // The recurrence
  // ---------------------------------------------------------------------------

  /** Length of a longest increasing run among the first n entries whose values are below v. */
  ghost function Depth(t: seq<int>, n: nat, v: int): nat
    requires n <= |t|
    decreases n, 0
  {
    if n == 0 then 0
    else
      var rest := Depth(t, n - 1, v);
      if 0 <= t[n - 1] < v && rest < Rank(t, n - 1) then Rank(t, n - 1) else rest
  }

  /** Length of a longest increasing run that ends at entry j. */
  ghost function Rank(t: seq<int>, j: nat): nat
    requires j < |t|
    decreases j, 1
  {
    1 + Depth(t, j, t[j])
  }

  /** The greatest rank among the first n entries. */
  ghost function Height(t: seq<int>, n: nat): nat
    requires n <= |t|
  {
    if n == 0 then 0
    else if t[n - 1] >= 0 && Height(t, n - 1) < Rank(t, n - 1) then Rank(t, n - 1)
    else Height(t, n - 1)
  }

  /** The last of the first n entries that has rank r, or -1. */
  ghost function Latest(t: seq<int>, n: nat, r: int): (i: int)
    requires n <= |t|
    ensures -1 <= i < n
    ensures i >= 0 ==> t[i] >= 0 && Rank(t, i) == r
  {
    if n == 0 then -1
    else if t[n - 1] >= 0 && Rank(t, n - 1) == r then n - 1
    else Latest(t, n - 1, r)
  }

  /** The matched pairs found by going back from entry j, one rank at a time. */
  ghost function Chain(t: seq<int>, j: int): seq<Pair>
    requires -1 <= j < |t|
    decreases j
  {
    if j == -1 then []
    else Chain(t, Latest(t, j, Rank(t, j) - 1)) + [Pair(t[j], j)]
  }

  ghost function UniqueLcs<T>(a: seq<T>, b: seq<T>): (ps: seq<Pair>)
  {
    var t := Table(a, b);
    Chain(t, Latest(t, |t|, Height(t, |t|)))
  }

  // ---------------------------------------------------------------------------
  // Facts about ranks
  // ---------------------------------------------------------------------------

  lemma {:induction false} DepthAtLeast(t: seq<int>, n: nat, v: int, i: nat)
    requires i < n <= |t| && 0 <= t[i] < v
    ensures Depth(t, n, v) >= Rank(t, i)
  {
    if i < n - 1 { DepthAtLeast(t, n - 1, v, i); }
  }

  /** Every rank up to the depth is attained below v. */
  lemma {:induction false} DepthWitness(t: seq<int>, n: nat, v: int, r: int) returns (i: nat)
    requires n <= |t| && 1 <= r <= Depth(t, n, v)
    ensures i < n && 0 <= t[i] < v && Rank(t, i) == r
    decreases n
  {
    if r <= Depth(t, n - 1, v) {
      i := DepthWitness(t, n - 1, v, r);
    } else if r == Rank(t, n - 1) {
      i := n - 1;
    } else {
      i := DepthWitness(t, n - 1, t[n - 1], r);
    }
  }

  lemma {:induction false} RankWithinHeight(t: seq<int>, n: nat, i: nat)
    requires i < n <= |t| && t[i] >= 0
    ensures Rank(t, i) <= Height(t, n)
  {
    if i < n - 1 { RankWithinHeight(t, n - 1, i); }
  }

  lemma {:induction false} HeightWitness(t: seq<int>, n: nat, r: int) returns (i: nat)
    requires n <= |t| && 1 <= r <= Height(t, n)
    ensures i < n && t[i] >= 0 && Rank(t, i) == r
  {
    if r <= Height(t, n - 1) {
      i := HeightWitness(t, n - 1, r);
    } else if r == Rank(t, n - 1) {
      i := n - 1;
    } else {
      i := DepthWitness(t, n - 1, t[n - 1], r);
    }
  }

  lemma {:induction false} LatestIsLast(t: seq<int>, n: nat, k: nat)
    requires k < n <= |t| && t[k] >= 0
    ensures k <= Latest(t, n, Rank(t, k))
  {
    if k < n - 1 { LatestIsLast(t, n - 1, k); }
  }

  /** Entries of equal rank decrease, so the latest one of a rank is the smallest. */
  lemma LatestIsLeast(t: seq<int>, n: nat, i: nat)
    requires Injective(t) && i < n <= |t| && t[i] >= 0
    ensures i <= Latest(t, n, Rank(t, i))
    ensures t[Latest(t, n, Rank(t, i))] <= t[i]
  {
    LatestIsLast(t, n, i);
    var l := Latest(t, n, Rank(t, i));
    if t[l] > t[i] {
      DepthAtLeast(t, l, t[l], i);
    }
  }

  /** Below an entry of rank r > 1 there is one of rank r - 1, and the latest such is smaller. */
  lemma StepBack(t: seq<int>, j: nat)
    requires Injective(t) && j < |t| && t[j] >= 0
    ensures var l := Latest(t, j, Rank(t, j) - 1);
            if Rank(t, j) == 1 then l == -1 else l >= 0 && t[l] < t[j]
  {
    if Rank(t, j) > 1 {
      var i := DepthWitness(t, j, t[j], Rank(t, j) - 1);
      LatestIsLeast(t, j, i);
    }
  }

  /** A backpointer: the run that ends there is one shorter and ends earlier in both texts. */
  lemma BackIsShorter(t: seq<int>, j: nat)
    requires Injective(t) && j < |t| && t[j] >= 0
    ensures var l := Latest(t, j, Rank(t, j) - 1);
            && -1 <= l < j && (l == -1 <==> Rank(t, j) == 1)
            && (l >= 0 ==> 0 <= t[l] < t[j] && Rank(t, l) == Rank(t, j) - 1)
  {
    hide Rank;
    StepBack(t, j);
  }

  // ---------------------------------------------------------------------------
  // UniqueLcs is increasing, matches only unique lines, and is as long as any such answer
  // ---------------------------------------------------------------------------

  ghost predicate Increasing(ps: seq<Pair>) {
    forall i, j :: 0 <= i < j < |ps| ==> ps[i].a < ps[j].a && ps[i].b < ps[j].b
  }

  lemma {:induction false} ChainFacts(t: seq<int>, j: nat)
    requires Injective(t) && j < |t| && t[j] >= 0
    ensures var c := Chain(t, j);
            && |c| == Rank(t, j)
            && Increasing(c)
            && c[|c| - 1] == Pair(t[j], j)
            && forall i :: 0 <= i < |c| ==> 0 <= c[i].b <= j && 0 <= c[i].a == t[c[i].b] <= t[j]
    decreases j
  {
    hide Rank, Latest, Chain, Increasing, Injective;
    BackIsShorter(t, j);
    ChainUnfolds(t, j);
    var l := Latest(t, j, Rank(t, j) - 1);
    if l >= 0 {
      ChainFacts(t, l);
    }
    IncreasingMore(Chain(t, l), Pair(t[j], j));
  }

  lemma ChainUnfolds(t: seq<int>, j: nat)
    requires j < |t|
    ensures Chain(t, -1) == [] && Chain(t, j) == Chain(t, Latest(t, j, Rank(t, j) - 1)) + [Pair(t[j], j)]
  {
  }

  lemma IncreasingMore(ps: seq<Pair>, p: Pair)
    requires Increasing(ps) && forall i :: 0 <= i < |ps| ==> ps[i].a < p.a && ps[i].b < p.b
    ensures Increasing(ps + [p])
  {
  }

  lemma ChainLength(t: seq<int>, j: nat)
    requires Injective(t) && j < |t| && t[j] >= 0
    ensures |Chain(t, j)| == Rank(t, j) && Increasing(Chain(t, j))
  {
    hide Rank, Chain, Increasing, Injective;
    ChainFacts(t, j);
  }

  /** No increasing run below v is longer than the depth. */
  lemma {:induction false} RunWithinDepth(t: seq<int>, n: nat, v: int, ps: seq<Pair>)
    requires n <= |t| && Increasing(ps)
    requires forall i :: 0 <= i < |ps| ==> 0 <= ps[i].b < n && 0 <= ps[i].a == t[ps[i].b] < v
    ensures |ps| <= Depth(t, n, v)
    decreases n
  {
    if |ps| > 0 {
      var last := ps[|ps| - 1];
      if last.b == n - 1 {
        RunWithinDepth(t, n - 1, t[n - 1], ps[..|ps| - 1]);
      } else {
        RunWithinDepth(t, n - 1, v, ps);
      }
    }
  }

  /** Every pair matches lines that are unique in both texts. */
  ghost predicate AllPartners<T>(a: seq<T>, b: seq<T>, ps: seq<Pair>) {
    forall i :: 0 <= i < |ps| ==> Partners(a, b, ps[i].a, ps[i].b)
  }

  lemma PartnerIsTable<T>(a: seq<T>, b: seq<T>, i: int, j: int)
    requires Partners(a, b, i, j)
    ensures Table(a, b)[j] == i
  {
    assert 0 <= j < |b|;
    var k := PartnerOf(a, b, j);
    assert Partners(a, b, k, j);
    assert a[k] == b[j] == a[i];
  }

  lemma UniqueLcsIsMatch<T>(a: seq<T>, b: seq<T>)
    ensures Increasing(UniqueLcs(a, b))
    ensures AllPartners(a, b, UniqueLcs(a, b))
    ensures |UniqueLcs(a, b)| == Height(Table(a, b), |b|)
  {
    var t := Table(a, b);
    if Height(t, |t|) > 0 {
      var i := HeightWitness(t, |t|, Height(t, |t|));
      LatestIsLeast(t, |t|, i);
      ChainFacts(t, Latest(t, |t|, Height(t, |t|)));
      forall k | 0 <= k < |UniqueLcs(a, b)|
        ensures Partners(a, b, UniqueLcs(a, b)[k].a, UniqueLcs(a, b)[k].b)
      {
        var p := UniqueLcs(a, b)[k];
        assert t[p.b] == PartnerOf(a, b, p.b);
      }
    } else {
      assert Latest(t, |t|, 0) == -1;
    }
  }

  lemma UniqueLcsIsLongest<T>(a: seq<T>, b: seq<T>, ps: seq<Pair>)
    requires Increasing(ps) && AllPartners(a, b, ps)
    ensures |ps| <= |UniqueLcs(a, b)|
  {
    UniqueLcsIsMatch(a, b);
    if |ps| > 0 {
      var t := Table(a, b);
      forall i | 0 <= i < |ps| ensures 0 <= ps[i].b < |b| && 0 <= ps[i].a == t[ps[i].b] {
        PartnerIsTable(a, b, ps[i].a, ps[i].b);
      }
      var last := ps[|ps| - 1];
      RunWithinDepth(t, last.b, last.a, ps[..|ps| - 1]);
      RankWithinHeight(t, |t|, last.b);
    }
  }

  // ---------------------------------------------------------------------------
  // Piles: what one step of patience sorting does
  // ---------------------------------------------------------------------------

  /** The value on top of the pile of rank r after n entries. */
  ghost function Top(t: seq<int>, n: nat, r: int): int
    requires n <= |t|
  {
    var l := Latest(t, n, r);
    if l >= 0 then t[l] else -1
  }

  /** The piles after n entries: stacks holds the top values, lasts the entries they came from. */
  ghost predicate Piles(t: seq<int>, n: nat, stacks: seq<int>, lasts: seq<int>)
    requires n <= |t|
  {
    && |stacks| == |lasts| == Height(t, n)
    && (forall k :: 0 <= k < |stacks| ==> stacks[k] == Top(t, n, k + 1))
    && (forall k :: 0 <= k < |lasts| ==> lasts[k] == Latest(t, n, k + 1))
  }

  lemma PileTop(t: seq<int>, n: nat, r: int)
    requires Injective(t) && n <= |t| && 1 <= r <= Height(t, n)
    ensures 0 <= Latest(t, n, r) < n && Top(t, n, r) == t[Latest(t, n, r)] >= 0
    ensures Rank(t, Latest(t, n, r)) == r
  {
    var i := HeightWitness(t, n, r);
    LatestIsLeast(t, n, i);
  }

  lemma PilesAreSorted(t: seq<int>, n: nat, q: int, r: int)
    requires Injective(t) && n <= |t| && 1 <= q < r <= Height(t, n)
    ensures Top(t, n, q) < Top(t, n, r)
  {
    PileTop(t, n, q);
    PileTop(t, n, r);
    var j := Latest(t, n, r);
    var i := DepthWitness(t, j, t[j], q);
    LatestIsLeast(t, n, i);
  }

  /** Where an entry goes on sorted piles: every way of finding the slot finds the depth. */
  ghost predicate IsSlot(s: seq<int>, x: int, k: int) {
    && 0 <= k <= |s|
    && (k > 0 ==> s[k - 1] < x)
    && (k < |s| ==> x <= s[k])
  }

  lemma DepthBelowSlot(t: seq<int>, n: nat, k: nat)
    requires Injective(t) && n < |t| && t[n] >= 0
    requires k < Height(t, n) ==> t[n] <= Top(t, n, k + 1)
    ensures Depth(t, n, t[n]) <= k
  {
    if k < Depth(t, n, t[n]) {
      var i := DepthWitness(t, n, t[n], k + 1);
      RankWithinHeight(t, n, i);
      LatestIsLeast(t, n, i);
    }
  }

  lemma DepthReachesSlot(t: seq<int>, n: nat, k: nat)
    requires Injective(t) && n < |t| && t[n] >= 0
    requires 0 < k <= Height(t, n) && Top(t, n, k) < t[n]
    ensures Depth(t, n, t[n]) >= k
  {
    PileTop(t, n, k);
    DepthAtLeast(t, n, t[n], Latest(t, n, k));
  }

  lemma SlotIsRank(t: seq<int>, n: nat, stacks: seq<int>, lasts: seq<int>, k: int)
    requires Injective(t) && n < |t| && t[n] >= 0
    requires Piles(t, n, stacks, lasts) && IsSlot(stacks, t[n], k)
    ensures Rank(t, n) == k + 1
  {
    DepthBelowSlot(t, n, k);
    if k > 0 { DepthReachesSlot(t, n, k); }
  }

  lemma HeightAfter(t: seq<int>, n: nat)
    requires n < |t| && t[n] >= 0
    ensures Height(t, n + 1) == if Height(t, n) < Rank(t, n) then Rank(t, n) else Height(t, n)
  {
  }

  lemma LatestAfter(t: seq<int>, n: nat, r: int)
    requires n < |t|
    ensures Latest(t, n + 1, r) == if t[n] >= 0 && Rank(t, n) == r then n else Latest(t, n, r)
    ensures Top(t, n + 1, r) == if t[n] >= 0 && Rank(t, n) == r then t[n] else Top(t, n, r)
  {
  }

  /** Placing entry n on its pile turns the piles after n entries into those after n + 1. */
  lemma Place(t: seq<int>, n: nat, stacks: seq<int>, lasts: seq<int>, k: int)
    requires Injective(t) && n < |t| && t[n] >= 0
    requires Piles(t, n, stacks, lasts) && IsSlot(stacks, t[n], k)
    ensures k < |stacks| ==> Piles(t, n + 1, stacks[k := t[n]], lasts[k := n])
    ensures k == |stacks| ==> Piles(t, n + 1, stacks + [t[n]], lasts + [n])
    ensures Latest(t, n, Rank(t, n) - 1) == if k > 0 then lasts[k - 1] else -1
  {
    hide Rank, Depth, Height, Latest, Top, Injective;
    SlotIsRank(t, n, stacks, lasts, k);
    StepBack(t, n);
    HeightAfter(t, n);
    var s := if k < |stacks| then stacks[k := t[n]] else stacks + [t[n]];
    var l := if k < |stacks| then lasts[k := n] else lasts + [n];
    assert |s| == |l| == Height(t, n + 1);
    forall q | 0 <= q < |s|
      ensures l[q] == Latest(t, n + 1, q + 1) && s[q] == Top(t, n + 1, q + 1)
    {
      LatestAfter(t, n, q + 1);
    }
  }

  lemma ReversedMore(ps: seq<Pair>, p: Pair)
    ensures Reversed(ps + [p]) == [p] + Reversed(ps)
  {
    assert (ps + [p])[..|ps|] == ps;
  }

  lemma {:induction false} DepthBound(t: seq<int>, n: nat, v: int)
    requires n <= |t|
    ensures Depth(t, n, v) <= n
    decreases n
  {
    if n > 0 {
      DepthBound(t, n - 1, v);
      DepthBound(t, n - 1, t[n - 1]);
    }
  }

  /** Stacks are strictly increasing, so that they can be bisected. */
  lemma PilesAreOrdered(t: seq<int>, n: nat, stacks: seq<int>, lasts: seq<int>)
    requires Injective(t) && n <= |t| && Piles(t, n, stacks, lasts)
    ensures forall i, j :: 0 <= i < j < |stacks| ==> stacks[i] < stacks[j]
    ensures forall k :: 0 <= k < |lasts| ==> 0 <= lasts[k] < n && t[lasts[k]] == stacks[k]
  {
    forall i, j | 0 <= i < j < |stacks| ensures stacks[i] < stacks[j] {
      PilesAreSorted(t, n, i + 1, j + 1);
    }
    forall k | 0 <= k < |lasts| ensures 0 <= lasts[k] < n && t[lasts[k]] == stacks[k] {
      PileTop(t, n, k + 1);
    }
  }

  /** A new entry is on no pile, so both kinds of bisection find the same slot. */
  lemma NotOnAPile(t: seq<int>, n: nat, stacks: seq<int>, lasts: seq<int>)
    requires Injective(t) && n < |t| && t[n] >= 0 && Piles(t, n, stacks, lasts)
    ensures t[n] !in stacks
  {
    PilesAreOrdered(t, n, stacks, lasts);
  }

  /** Backpointers lead to the latest entry of the rank below. */
  ghost predicate Backpointers(t: seq<int>, n: nat, back: seq<int>)
    requires n <= |t|
  {
    && n <= |back|
    && (forall j :: 0 <= j < n && t[j] >= 0 ==> back[j] == Latest(t, j, Rank(t, j) - 1))
    && (forall j :: n <= j < |back| ==> back[j] == -1)
  }

  lemma NoPiles(t: seq<int>, back: seq<int>)
    requires |back| == |t| && forall j :: 0 <= j < |t| ==> back[j] == -1
    ensures Piles(t, 0, [], []) && Backpointers(t, 0, back)
  {
  }

  lemma AtLeastNone(t: seq<int>)
    requires Injective(t)
    ensures forall j :: 0 <= j < |t| ==> t[j] >= -1
  {
  }

  lemma BackpointersNext(t: seq<int>, n: nat, back: seq<int>, i: int)
    requires n < |t| && n < |back| && Backpointers(t, n, back)
    requires if t[n] >= 0 then i == Latest(t, n, Rank(t, n) - 1) else i == -1
    ensures Backpointers(t, n + 1, back[n := i])
    ensures i == -1 ==> Backpointers(t, n + 1, back)
  {
  }

  function Reversed(ps: seq<Pair>): (r: seq<Pair>)
    ensures |r| == |ps|
    ensures forall i :: 0 <= i < |r| ==> r[i] == ps[|ps| - 1 - i]
  {
    if ps == [] then [] else [ps[|ps| - 1]] + Reversed(ps[..|ps| - 1])
  }

  /** An entry without a partner leaves the piles alone. */
  lemma Skip(t: seq<int>, n: nat, stacks: seq<int>, lasts: seq<int>)
    requires n < |t| && t[n] < 0 && Piles(t, n, stacks, lasts)
    ensures Piles(t, n + 1, stacks, lasts)
  {
    forall r ensures Latest(t, n + 1, r) == Latest(t, n, r) && Top(t, n + 1, r) == Top(t, n, r) {
      LatestAfter(t, n, r);
    }
  }
}
