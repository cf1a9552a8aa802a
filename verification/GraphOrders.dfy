/** What topo_sort() and gc_sort() return, and when a cycle is noticed. */
module GraphOrders {
  import opened Basics
  import opened Worklist
  import opened GraphDistance

  // ---------------------------------------------------------------------------
  // gdfo as the worklist leaves it: f holds the finished keys
  // ---------------------------------------------------------------------------

  ghost predicate Numbered(deps: Links, gdfo: map<Key, Option<nat>>, f: map<Key, nat>) {
    && gdfo.Keys == deps.Keys && Partial(deps, f) && Working(deps, f.Keys, [])
    && forall k :: k in deps ==> gdfo[k] == SoFar(deps[k], f)
  }

  ghost function Values(gdfo: map<Key, Option<nat>>): map<Key, nat> {
    map k | k in gdfo && gdfo[k].Some? :: gdfo[k].value
  }

  /** Every key has its gdfo. */
  ghost predicate Settled(deps: Links, gdfo: map<Key, Option<nat>>) {
    && gdfo.Keys == deps.Keys && (forall k :: k in gdfo ==> gdfo[k].Some?)
    && IsGdfo(deps, Values(gdfo))
  }

  lemma NumberedAcyclicIsSettled(deps: Links, gdfo: map<Key, Option<nat>>, f: map<Key, nat>)
    requires Numbered(deps, gdfo, f) && Acyclic(deps) && Closed(deps)
    ensures Settled(deps, gdfo)
  {
    hide Acyclic, Working;
    WorkEnds(deps, f.Keys);
    forall k | k in deps ensures gdfo[k] == Some(f[k]) {
      if deps[k] != [] {
        AllPositive(f, deps[k]);
      }
    }
    assert Values(gdfo) == f;
  }

  lemma SettledIsNumbered(deps: Links, gdfo: map<Key, Option<nat>>)
    requires Settled(deps, gdfo) && Closed(deps)
    ensures Numbered(deps, gdfo, Values(gdfo))
  {
    var f := Values(gdfo);
    assert f.Keys == deps.Keys;
    forall k | k in deps ensures gdfo[k] == SoFar(deps[k], f) && AllIn(deps[k], f.Keys) {
      assert AllIn(deps[k], f.Keys);
      if deps[k] != [] {
        AllPositive(f, deps[k]);
      }
    }
  }

  /** A path from k that comes back to a key it has been at. */
  ghost predicate Lasso(deps: Links, k: Key, p: seq<Key>, i: nat, j: nat) {
    i < j < |p| && IsPath(deps, p) && p[0] == k && p[i] == p[j]
  }

  /** Neither on a cycle nor a descendant of one. */
  ghost predicate Grounded(deps: Links, k: Key) {
    !exists p, i, j :: Lasso(deps, k, p, i, j)
  }

  lemma {:induction false} FinishedAlong(deps: Links, f: map<Key, nat>, p: seq<Key>, i: nat, j: nat)
    requires Partial(deps, f) && IsPath(deps, p) && i <= j < |p| && p[0] in f
    ensures p[i] in f && p[j] in f && (i < j ==> f[p[j]] < f[p[i]])
    decreases j
  {
    if j > 0 {
      FinishedAlong(deps, f, p, if i < j then i else j - 1, j - 1);
      var k, q := p[j - 1], p[j];
      assert k in f && p[j - 1 + 1] in deps[k];
      assert AllIn(deps[k], f.Keys);
      MaxBound(f, deps[k], q);
      assert f[q] < f[k];
    }
  }

  /** The worklist finishes exactly the grounded keys. */
  lemma FinishedIsGrounded(deps: Links, f: map<Key, nat>, k: Key)
    requires Partial(deps, f) && Working(deps, f.Keys, []) && Closed(deps) && k in deps
    ensures k in f <==> Grounded(deps, k)
  {
    if k in f {
      forall p, i: nat, j: nat ensures !Lasso(deps, k, p, i, j) {
        if Lasso(deps, k, p, i, j) { FinishedAlong(deps, f, p, i, j); }
      }
    } else {
      var stuck := deps.Keys - f.Keys;
      forall s | s in stuck ensures WaitsIn(deps, s, stuck) {
        NotAllIn(deps[s], f.Keys);
      }
      var walk := LongWalk(deps, stuck, k, |stuck|);
      var i, j := Repeated(walk, stuck);
      assert Lasso(deps, k, walk, i, j);
    }
  }

  ghost predicate NoGroundedParent(deps: Links, k: Key) {
    k in deps && deps[k] != [] && forall p :: p in deps[k] ==> !Grounded(deps, p)
  }

  ghost predicate CycleNoticed(deps: Links) {
    exists k :: NoGroundedParent(deps, k)
  }

  /** When a node is left without a gdfo, which is when topo_sort() reports a cycle: exactly when some
      node has parents and each of them is on a cycle or descends from one. */
  lemma WhenCyclesAreNoticed(deps: Links, gdfo: map<Key, Option<nat>>, f: map<Key, nat>)
    requires Numbered(deps, gdfo, f) && Closed(deps)
    ensures (exists k :: k in gdfo && gdfo[k].None?) <==> CycleNoticed(deps)
    ensures CycleNoticed(deps) ==> !Acyclic(deps)
  {
    hide Grounded, Working, Partial;
    forall k | k in deps ensures gdfo[k].None? <==> NoGroundedParent(deps, k) {
      NoneMeansUnfinished(deps, gdfo, f, k);
      forall p | p in deps[k] ensures p in f <==> Grounded(deps, p) {
        FinishedIsGrounded(deps, f, p);
      }
    }
    if Acyclic(deps) { NumberedAcyclicIsSettled(deps, gdfo, f); }
  }

  lemma NoneMeansUnfinished(deps: Links, gdfo: map<Key, Option<nat>>, f: map<Key, nat>, k: Key)
    requires Numbered(deps, gdfo, f) && k in deps
    ensures gdfo[k].None? <==> deps[k] != [] && forall p :: p in deps[k] ==> p !in f
  {
    MaxAttained(f, deps[k]);
    if p :| p in deps[k] && p in f {
      MaxBound(f, deps[k], p);
      assert f[p] > 0;
    }
  }

  /** So a cycle can stay unnoticed: 2 and 3 are each other's parents, but both also have parent 1. */
  lemma CycleUnnoticed(gdfo: map<Key, Option<nat>>, f: map<Key, nat>)
    requires Numbered(map[1 := [], 2 := [1, 3], 3 := [1, 2]], gdfo, f)
    ensures !Acyclic(map[1 := [], 2 := [1, 3], 3 := [1, 2]])
    ensures forall k :: k in gdfo ==> gdfo[k].Some?
  {
    var deps: Links := map[1 := [], 2 := [1, 3], 3 := [1, 2]];
    assert IsCycle(deps, [2, 3, 2]);
    assert AllIn(deps[1], f.Keys);
    assert 1 in f && f[1] > 0;
    assert 1 in deps[2] && 1 in deps[3];
    forall k | k in deps ensures gdfo[k].Some? {
      NoneMeansUnfinished(deps, gdfo, f, k);
    }
  }

  // ---------------------------------------------------------------------------
  // Parents first
  // ---------------------------------------------------------------------------

  ghost predicate ParentsFirst(deps: Links, ghosts: set<Key>, order: seq<Key>) {
    && Distinct(order)
    && (forall k :: k in order ==> k in deps && k !in ghosts)
    && forall i, p :: 0 <= i < |order| && p in deps[order[i]] && p !in ghosts ==> p in order[..i]
  }

  lemma ListNext(deps: Links, ghosts: set<Key>, order: seq<Key>, done: set<Key>, n: Key)
    requires ParentsFirst(deps, ghosts, order) && Lists(order, done - ghosts)
    requires n in deps && n !in done && AllIn(deps[n], done)
    ensures n in ghosts ==> Lists(order, done + {n} - ghosts)
    ensures n !in ghosts ==> ParentsFirst(deps, ghosts, order + [n]) && Lists(order + [n], done + {n} - ghosts)
  {
    var order' := order + [n];
    assert forall k :: k in order' <==> k in order || k == n;
    DistinctMore(order, n);
    forall i, p | 0 <= i < |order'| && p in deps[order'[i]] && p !in ghosts && n !in ghosts ensures p in order'[..i] {
      if i < |order| {
        assert order'[..i] == order[..i];
      } else {
        assert order'[..i] == order;
      }
    }
  }

  lemma {:induction false} EarlierAlong(deps: Links, ghosts: set<Key>, order: seq<Key>, p: seq<Key>, at: nat)
    requires ParentsFirst(deps, ghosts, order) && IsPath(deps, p) && |p| >= 2
    requires forall g :: g in ghosts && g in deps ==> deps[g] == []
    requires at < |order| && order[at] == p[0]
    ensures p[|p| - 1] in ghosts || p[|p| - 1] in order[..at]
    decreases |p|
  {
    var q := p[0 + 1];
    assert q in deps[p[0]];
    if |p| > 2 {
      assert q in deps && p[1 + 1] in deps[q];
      assert q !in ghosts;
      var at' :| 0 <= at' < at && order[at'] == q;
      PartOfPath(deps, p, 1, |p|);
      EarlierAlong(deps, ghosts, order, p[1..], at');
      assert p[1..][|p| - 2] == p[|p| - 1];
      assert forall k :: k in order[..at'] ==> k in order[..at];
    }
  }

  /** A complete listing, parents first, exists only for an acyclic graph. */
  lemma ListingProvesAcyclic(deps: Links, ghosts: set<Key>, order: seq<Key>)
    requires ParentsFirst(deps, ghosts, order) && Lists(order, deps.Keys - ghosts)
    requires forall g :: g in ghosts && g in deps ==> deps[g] == []
    ensures Acyclic(deps)
  {
    hide ParentsFirst;
    forall p ensures !IsCycle(deps, p) {
      if IsCycle(deps, p) {
        assert p[0] in deps && p[0 + 1] in deps[p[0]];
        assert p[0] in order;
        var at :| 0 <= at < |order| && order[at] == p[0];
        EarlierAlong(deps, ghosts, order, p, at);
        AtOnce(deps, ghosts, order, at);
      }
    }
  }

  lemma AtOnce(deps: Links, ghosts: set<Key>, order: seq<Key>, at: nat)
    requires ParentsFirst(deps, ghosts, order) && at < |order|
    ensures order[at] !in order[..at] && order[at] !in ghosts
  {
    assert order[at] in order;
  }

  // ---------------------------------------------------------------------------
  // Turning a graph round
  // ---------------------------------------------------------------------------

  lemma InverseIsSymmetric(deps: Links, succs: Links)
    requires Inverse(deps, succs)
    ensures Inverse(succs, deps)
  {
  }

  lemma InverseMeans(deps: Links, succs: Links, k: Key, p: Key)
    requires Inverse(deps, succs) && p in deps
    ensures k in deps && p in deps[k] <==> k in succs[p]
  {
    if k in deps { assert multiset(succs[p])[k] == multiset(deps[k])[p]; }
  }

  lemma CycleBackwards(deps: Links, succs: Links, p: seq<Key>) returns (q: seq<Key>)
    requires Inverse(deps, succs) && IsCycle(succs, p)
    ensures IsCycle(deps, q)
  {
    hide Inverse;
    InverseKeys(deps, succs);
    var n := |p|;
    q := seq(n, i requires 0 <= i < n => p[n - 1 - i]);
    forall i | 0 <= i < n - 1 ensures q[i] in deps && q[i + 1] in deps[q[i]] {
      var j := n - 2 - i;
      assert p[j] in succs && p[j + 1] in succs[p[j]];
      InverseMeans(deps, succs, p[j + 1], p[j]);
    }
  }

  lemma AcyclicBackwards(deps: Links, succs: Links)
    requires Inverse(deps, succs) && Acyclic(deps)
    ensures Acyclic(succs)
  {
    forall p ensures !IsCycle(succs, p) {
      if IsCycle(succs, p) { var q := CycleBackwards(deps, succs, p); }
    }
  }

  lemma InverseKeys(deps: Links, succs: Links)
    requires Inverse(deps, succs)
    ensures deps.Keys == succs.Keys && Closed(deps)
  {
  }

  // ---------------------------------------------------------------------------
  // Sorted lists
  // ---------------------------------------------------------------------------

  function InsertDescending(list: seq<Key>, k: Key): seq<Key> {
    if list == [] || list[0] <= k then [k] + list else [list[0]] + InsertDescending(list[1..], k)
  }

  /** sorted(list, reverse=True) */
  function SortDescending(list: seq<Key>): seq<Key> {
    if list == [] then [] else InsertDescending(SortDescending(list[1..]), list[0])
  }

  ghost predicate IsDescending(list: seq<Key>) {
    forall i, j :: 0 <= i < j < |list| ==> list[i] >= list[j]
  }

  lemma {:induction false} InsertCounts(list: seq<Key>, k: Key)
    ensures multiset(InsertDescending(list, k)) == multiset(list) + multiset{k}
  {
    if list != [] && list[0] > k {
      InsertCounts(list[1..], k);
      assert list == [list[0]] + list[1..];
    }
  }

  lemma InsertMembers(list: seq<Key>, k: Key)
    ensures forall x :: x in InsertDescending(list, k) <==> x in list || x == k
  {
    InsertCounts(list, k);
    assert forall x :: x in InsertDescending(list, k) <==> x in multiset(InsertDescending(list, k));
  }

  lemma {:induction false} InsertDescends(list: seq<Key>, k: Key)
    requires IsDescending(list)
    ensures IsDescending(InsertDescending(list, k))
  {
    if list != [] && list[0] > k {
      InsertDescends(list[1..], k);
      var rest := InsertDescending(list[1..], k);
      InsertMembers(list[1..], k);
      forall i | 0 <= i < |rest| ensures list[0] >= rest[i] {
        assert rest[i] in rest;
      }
    }
  }

  lemma {:induction false} SortFacts(list: seq<Key>)
    ensures IsDescending(SortDescending(list)) && multiset(SortDescending(list)) == multiset(list)
  {
    hide IsDescending;
    if list != [] {
      SortFacts(list[1..]);
      InsertDescends(SortDescending(list[1..]), list[0]);
      InsertCounts(SortDescending(list[1..]), list[0]);
      assert list == [list[0]] + list[1..];
    } else {
      NoneDescends();
    }
  }

  lemma NoneDescends()
    ensures IsDescending([])
  {
  }

  lemma {:induction false} HasMax(s: set<int>, k: int) returns (m: int)
    requires k in s
    ensures m in s && forall x :: x in s ==> x <= m
    decreases |s|
  {
    if other :| other in s - {k} {
      m := HasMax(s - {k}, other);
      assert forall x :: x in s ==> x == k || x in s - {k};
      if m < k { m := k; }
    } else {
      assert forall x :: x in s ==> x == k || x in s - {k};
      m := k;
    }
  }

  lemma AnyMax(s: set<int>)
    requires s != {}
    ensures exists m :: m in s && forall x :: x in s ==> x <= m
  {
    if forall k :: k !in s {
      NothingIn(s);
    } else {
      var k :| k in s;
      var m := HasMax(s, k);
    }
  }

  ghost function MaxIn(s: set<int>): (m: int)
    requires s != {}
    ensures m in s && forall x :: x in s ==> x <= m
  {
    assert exists m :: m in s && forall x :: x in s ==> x <= m by { AnyMax(s); }
    var m :| m in s && forall x :: x in s ==> x <= m;
    m
  }

  /** The elements of a set, largest first. */
  ghost function Descending(s: set<int>): seq<int> {
    if s == {} then [] else [MaxIn(s)] + Descending(s - {MaxIn(s)})
  }

  lemma {:induction false} DescendingFacts(s: set<int>)
    ensures IsDescending(Descending(s)) && Distinct(Descending(s)) && Lists(Descending(s), s)
  {
    if s != {} {
      var m := MaxIn(s);
      var rest := Descending(s - {m});
      DescendingFacts(s - {m});
      forall i | 0 <= i < |rest| ensures rest[i] < m {
        assert rest[i] in rest;
      }
    }
  }

  /** There is only one such list. */
  lemma {:induction false} DescendingIsUnique(list: seq<int>, s: set<int>)
    requires IsDescending(list) && Distinct(list) && Lists(list, s)
    ensures list == Descending(s)
  {
    if list == [] {
      assert forall k :: k in s <==> k in list;
      assert s == {};
    } else {
      var m, rest := list[0], list[1..];
      assert list == [m] + rest;
      forall x | x in s ensures x <= m { assert x in list; }
      assert m in list;
      assert forall x :: x in rest ==> x in list;
      assert m !in rest;
      DescendingIsUnique(rest, s - {m});
    }
  }
}
