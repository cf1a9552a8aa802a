/** When gc_sort() keeps its promise to group keys by prefix: exactly if prefixes lead is the order grouped
    whatever unrelated tips the graph has besides. */
module GraphGrouping {
  import opened Basics
  import opened Worklist
  import opened GraphDistance
  import opened GraphOrders
  import opened GraphStableOrder
  import opened GraphPrefixes

  // ---------------------------------------------------------------------------
  // The order lists every key of an acyclic graph
  // ---------------------------------------------------------------------------

  /** What waits for nobody is done, pending, or a tip of a later group; nothing is so twice. */
  ghost predicate Front(deps: Links, done: set<Key>, pending: seq<Key>, later: set<Key>) {
    && Distinct(pending) && done <= deps.Keys && later <= deps.Keys - done
    && (forall k :: k in pending ==> k in deps && k !in done && k !in later)
    && forall k :: k in deps ==> (Unblocked(deps, k, done) <==> k in done || k in pending || k in later)
  }

  ghost function AfterStep(deps: Links, done: set<Key>, pending: seq<Key>): seq<Key>
    requires pending != [] && pending[|pending| - 1] in deps
  {
    var n := pending[|pending| - 1];
    pending[..|pending| - 1] + Descending(Ready(deps, done + {n}, n))
  }

  lemma UnblockedMore(deps: Links, k: Key, done: set<Key>, n: Key)
    requires n in deps
    ensures Unblocked(deps, k, done) ==> Unblocked(deps, k, done + {n})
    ensures Unblocked(deps, k, done + {n}) ==> Unblocked(deps, k, done) || k in Ready(deps, done + {n}, n)
    ensures k in Ready(deps, done + {n}, n) ==> Unblocked(deps, k, done + {n}) && (Unblocked(deps, k, done) ==> n in done)
  {
  }

  lemma FrontStep(deps: Links, done: set<Key>, pending: seq<Key>, later: set<Key>)
    requires Closed(deps) && Front(deps, done, pending, later) && pending != []
    ensures var n := pending[|pending| - 1];
            n in deps && n !in done && Front(deps, done + {n}, AfterStep(deps, done, pending), later)
  {
    hide Unblocked, Ready, Distinct;
    var n, init := pending[|pending| - 1], pending[..|pending| - 1];
    assert n in pending;
    var done', more := done + {n}, Ready(deps, done + {n}, n);
    DescendingFacts(more);
    LastIsAlone(pending);
    forall k | k in deps
      ensures Unblocked(deps, k, done') <==> k in done' || k in init || k in more || k in later
      ensures k in more ==> k !in done' && k !in init && k !in later
    {
      UnblockedMore(deps, k, done, n);
    }
    ReadyInside(deps, done', n);
    JoinDistinct(init, Descending(more), Members(init), more);
    assert forall k :: k in init + Descending(more) <==> k in init || k in more;
  }

  ghost function Members(list: seq<Key>): (s: set<Key>)
    ensures forall k :: k in list <==> k in s
  {
    set k | k in list
  }

  lemma LastIsAlone(pending: seq<Key>)
    requires Distinct(pending) && pending != []
    ensures var n, init := pending[|pending| - 1], pending[..|pending| - 1];
            n !in init && Distinct(init) && forall k :: k in pending <==> k in init || k == n
  {
    assert pending == pending[..|pending| - 1] + [pending[|pending| - 1]];
  }

  lemma ReadyInside(deps: Links, done: set<Key>, n: Key)
    requires Closed(deps) && n in deps
    ensures Ready(deps, done, n) <= deps.Keys
  {
  }

  /** A group ends with nothing pending and lists what it has done. */
  lemma {:induction false} RunFront(deps: Links, ghosts: set<Key>, pending: seq<Key>, done: set<Key>, later: set<Key>)
    requires Closed(deps) && Front(deps, done, pending, later)
    ensures var run := GcRun(deps, ghosts, pending, done);
            && Front(deps, run.1, [], later) && done <= run.1
            && forall k :: k in run.0 <==> k in run.1 && k !in done && k !in ghosts
    decreases deps.Keys - done
  {
    hide Front, Ready;
    if pending != [] {
      var n := pending[|pending| - 1];
      FrontStep(deps, done, pending, later);
      RunStep(deps, ghosts, pending, done);
      assert n in deps.Keys - done && n !in deps.Keys - (done + {n});
      RunFront(deps, ghosts, AfterStep(deps, done, pending), done + {n}, later);
    } else {
      RunEnds(deps, ghosts, done);
    }
  }

  lemma FrontGroup(deps: Links, prefixOf: Key -> int, prefixes: seq<int>, done: set<Key>)
    requires Front(deps, done, [], TipsWith(deps, prefixOf, prefixes)) && Distinct(prefixes) && prefixes != []
    ensures var q, init := prefixes[|prefixes| - 1], prefixes[..|prefixes| - 1];
            Distinct(init) && Front(deps, done, Descending(TipsOf(deps, prefixOf, q)), TipsWith(deps, prefixOf, init))
  {
    hide Unblocked;
    var q, init := prefixes[|prefixes| - 1], prefixes[..|prefixes| - 1];
    LastIsAlone(prefixes);
    DescendingFacts(TipsOf(deps, prefixOf, q));
    forall k ensures k in TipsWith(deps, prefixOf, prefixes) <==> k in TipsOf(deps, prefixOf, q) || k in TipsWith(deps, prefixOf, init) {
    }
  }

  lemma {:induction false} GroupsFront(deps: Links, ghosts: set<Key>, prefixOf: Key -> int, prefixes: seq<int>, done: set<Key>)
      returns (all: set<Key>)
    requires Closed(deps) && Distinct(prefixes) && Front(deps, done, [], TipsWith(deps, prefixOf, prefixes))
    ensures Front(deps, all, [], {}) && done <= all
    ensures forall k :: k in GcGroups(deps, ghosts, prefixOf, prefixes, done) <==> k in all && k !in done && k !in ghosts
    decreases |prefixes|
  {
    hide Front, GcRun, TipsOf;
    if prefixes == [] {
      assert TipsWith(deps, prefixOf, []) == {};
      all := done;
    } else {
      var q, init := prefixes[|prefixes| - 1], prefixes[..|prefixes| - 1];
      var tips := Descending(TipsOf(deps, prefixOf, q));
      FrontGroup(deps, prefixOf, prefixes, done);
      RunFront(deps, ghosts, tips, done, TipsWith(deps, prefixOf, init));
      all := GroupsFront(deps, ghosts, prefixOf, init, GcRun(deps, ghosts, tips, done).1);
    }
  }

  lemma FrontStart(deps: Links, prefixOf: Key -> int)
    ensures var prefixes := Descending(TipPrefixes(deps, prefixOf));
            Distinct(prefixes) && Front(deps, {}, [], TipsWith(deps, prefixOf, prefixes))
  {
    hide Unblocked;
    DescendingFacts(TipPrefixes(deps, prefixOf));
    forall k | k in deps && Unblocked(deps, k, {}) ensures prefixOf(k) in Descending(TipPrefixes(deps, prefixOf)) {
      assert prefixOf(k) in TipPrefixes(deps, prefixOf);
    }
  }

  /** Of a key that is not done some child is not done either, and so on without end. */
  lemma {:induction false} Escapes(deps: Links, d: map<Key, nat>, done: set<Key>, k: Key, bound: nat)
    requires IsGdfo(deps, d) && k in deps && k !in done && Front(deps, done, [], {})
    requires forall x :: x in deps ==> d[x] <= bound
    ensures false
    decreases bound - d[k]
  {
    assert !Unblocked(deps, k, done);
    var c :| c in deps && k in deps[c] && c !in done;
    MaxBound(d, deps[c], k);
    Escapes(deps, d, done, c, bound);
  }

  lemma {:induction false} Bounded(d: map<Key, nat>) returns (bound: nat)
    ensures forall x :: x in d ==> d[x] <= bound
    decreases |d|
  {
    if x :| x in d {
      bound := Bounded(d - {x});
      bound := if d[x] > bound then d[x] else bound;
      assert forall y :: y in d ==> y == x || y in d - {x};
    } else {
      bound := 0;
    }
  }

  /** On every acyclic graph the order lists each key that is not a ghost. */
  lemma OrderIsComplete(deps: Links, ghosts: set<Key>, prefixOf: Key -> int)
    requires Closed(deps) && Acyclic(deps)
    ensures Lists(GcOrder(deps, ghosts, prefixOf), deps.Keys - ghosts)
  {
    hide Front, GcGroups, TipPrefixes, Acyclic;
    var prefixes := Descending(TipPrefixes(deps, prefixOf));
    FrontStart(deps, prefixOf);
    var all := GroupsFront(deps, ghosts, prefixOf, prefixes, {});
    var d := GdfoExists(deps);
    var bound := Bounded(d);
    forall k | k in deps ensures k in all {
      if k !in all { Escapes(deps, d, all, k, bound); }
    }
    DoneInside(deps, all);
  }

  lemma DoneInside(deps: Links, done: set<Key>)
    requires Front(deps, done, [], {})
    ensures done <= deps.Keys
  {
  }

  // ---------------------------------------------------------------------------
  // More tips
  // ---------------------------------------------------------------------------

  /** The keys of each prefix stand together. */
  ghost predicate Contiguous(list: seq<Key>, prefixOf: Key -> int) {
    forall i, j, k :: 0 <= i < j < k < |list| && prefixOf(list[i]) == prefixOf(list[k]) ==> prefixOf(list[j]) == prefixOf(list[i])
  }

  /** The same graph with further nodes that have neither parents nor children. */
  ghost predicate WithTips(deps: Links, ghosts: set<Key>, prefixOf: Key -> int, more: Links, prefixOf': Key -> int) {
    && (forall k :: k in deps ==> k in more && more[k] == deps[k] && prefixOf'(k) == prefixOf(k))
    && forall k :: k in more && k !in deps ==> more[k] == [] && k !in ghosts
  }

  ghost predicate StaysGrouped(deps: Links, ghosts: set<Key>, prefixOf: Key -> int) {
    forall more, prefixOf' :: WithTips(deps, ghosts, prefixOf, more, prefixOf') ==>
      Contiguous(GcOrder(more, ghosts, prefixOf'), prefixOf')
  }

  lemma AscendingIsContiguous(list: seq<Key>, prefixOf: Key -> int)
    requires PrefixesAscend(list, prefixOf)
    ensures Contiguous(list, prefixOf)
  {
  }

  lemma SameChildren(deps: Links, ghosts: set<Key>, prefixOf: Key -> int, more: Links, prefixOf': Key -> int, p: Key)
    requires Closed(deps) && WithTips(deps, ghosts, prefixOf, more, prefixOf') && p in more
    ensures p !in deps ==> IsTip(more, p)
    ensures forall c :: ChildOf(more, c, p) <==> ChildOf(deps, c, p)
    ensures IsTip(more, p) <==> IsTip(deps, p)
    ensures p in deps ==> (Leads(more, prefixOf', p) <==> Leads(deps, prefixOf, p))
  {
    forall c ensures ChildOf(more, c, p) <==> ChildOf(deps, c, p) {
    }
    if p in deps {
      assert forall c :: ChildOf(deps, c, p) ==> prefixOf'(c) == prefixOf(c);
      var q := prefixOf(p);
      assert LargestBelow(more, prefixOf', p, q) <==> LargestBelow(deps, prefixOf, p, q);
    }
  }

  lemma LeadingIsSame(deps: Links, ghosts: set<Key>, prefixOf: Key -> int, more: Links, prefixOf': Key -> int)
    requires Closed(deps) && WithTips(deps, ghosts, prefixOf, more, prefixOf')
    ensures PrefixesLead(more, ghosts, prefixOf') <==> PrefixesLead(deps, ghosts, prefixOf)
    ensures GhostsEnd(deps, ghosts) ==> GhostsEnd(more, ghosts)
  {
    hide IsTip, LargestBelow;
    forall p | p in more
      ensures p in deps ==> (Leads(more, prefixOf', p) <==> Leads(deps, prefixOf, p))
      ensures p !in deps ==> Leads(more, prefixOf', p)
    {
      SameChildren(deps, ghosts, prefixOf, more, prefixOf', p);
    }
  }

  // ---------------------------------------------------------------------------
  // Groups between their first and their last tip
  // ---------------------------------------------------------------------------

  /** The last of the group's tips closes it. */
  lemma {:induction false} RunEndsWith(deps: Links, ghosts: set<Key>, pending: seq<Key>, done: set<Key>, later: set<Key>)
    requires Closed(deps) && Front(deps, done, pending, later) && pending != []
    requires pending[0] in deps && deps[pending[0]] == [] && pending[0] !in ghosts
    ensures var run := GcRun(deps, ghosts, pending, done); run.0 != [] && run.0[|run.0| - 1] == pending[0]
    decreases deps.Keys - done
  {
    hide Front, Unblocked, GcRun;
    FrontStep(deps, done, pending, later);
    var n, next := pending[|pending| - 1], AfterStep(deps, done, pending);
    RunStep(deps, ghosts, pending, done);
    if |pending| == 1 {
      assert Ready(deps, done + {n}, n) == {};
      assert next == [];
      RunEnds(deps, ghosts, done + {n});
    } else {
      assert next[0] == pending[0];
      assert n in deps.Keys - done && n !in deps.Keys - (done + {n});
      RunEndsWith(deps, ghosts, next, done + {n}, later);
    }
  }

  /** The least and the greatest tip of the prefix are listed, and the greatest has no parents. */
  ghost predicate Capped(deps: Links, ghosts: set<Key>, prefixOf: Key -> int, q: int, a: Key, z: Key) {
    && a in TipsOf(deps, prefixOf, q) && z in TipsOf(deps, prefixOf, q) && a !in ghosts && z !in ghosts && deps[z] == []
    && forall t :: t in TipsOf(deps, prefixOf, q) ==> a <= t <= z
  }

  lemma EndsOfDescending(s: set<int>, a: int, z: int)
    requires a in s && z in s && forall t :: t in s ==> a <= t <= z
    ensures var list := Descending(s); list != [] && list[0] == z && list[|list| - 1] == a
  {
    var list := Descending(s);
    DescendingFacts(s);
    assert a in list && z in list;
    assert forall t :: t in list ==> a <= t <= z;
    assert list[0] in list && list[|list| - 1] in list;
    var i :| 0 <= i < |list| && list[i] == a;
    var j :| 0 <= j < |list| && list[j] == z;
    assert list[i] >= list[|list| - 1] && list[0] >= list[j];
  }

  lemma CappedRun(deps: Links, ghosts: set<Key>, prefixOf: Key -> int, q: int, a: Key, z: Key, done: set<Key>, later: set<Key>)
    requires Closed(deps) && Capped(deps, ghosts, prefixOf, q, a, z)
    requires Front(deps, done, Descending(TipsOf(deps, prefixOf, q)), later)
    ensures var run := GcRun(deps, ghosts, Descending(TipsOf(deps, prefixOf, q)), done).0;
            run != [] && run[0] == a && run[|run| - 1] == z && prefixOf(a) == prefixOf(z) == q
  {
    hide Front, Unblocked, GcRun;
    var tips := Descending(TipsOf(deps, prefixOf, q));
    EndsOfDescending(TipsOf(deps, prefixOf, q), a, z);
    FrontStep(deps, done, tips, later);
    RunStep(deps, ghosts, tips, done);
    RunEndsWith(deps, ghosts, tips, done, later);
  }

  lemma PureBetween(run: seq<Key>, rest: seq<Key>, prefixOf: Key -> int, q: int)
    requires Contiguous(run + rest, prefixOf) && run != [] && prefixOf(run[0]) == prefixOf(run[|run| - 1]) == q
    ensures AllPrefix(run, prefixOf, q) && Contiguous(rest, prefixOf)
  {
    var list := run + rest;
    forall i | 0 <= i < |run| ensures prefixOf(run[i]) == q {
      assert list[0] == run[0] && list[i] == run[i] && list[|run| - 1] == run[|run| - 1];
    }
    forall i, j, k | 0 <= i < j < k < |rest| && prefixOf(rest[i]) == prefixOf(rest[k]) ensures prefixOf(rest[j]) == prefixOf(rest[i]) {
      assert list[|run| + i] == rest[i] && list[|run| + j] == rest[j] && list[|run| + k] == rest[k];
    }
  }

  ghost predicate AllCapped(deps: Links, ghosts: set<Key>, prefixOf: Key -> int, prefixes: seq<int>) {
    forall q :: q in prefixes ==> exists a, z :: Capped(deps, ghosts, prefixOf, q, a, z)
  }

  lemma FewerCapped(deps: Links, ghosts: set<Key>, prefixOf: Key -> int, prefixes: seq<int>)
    requires prefixes != [] && AllCapped(deps, ghosts, prefixOf, prefixes)
    ensures AllCapped(deps, ghosts, prefixOf, prefixes[..|prefixes| - 1])
  {
    hide Capped;
    var init := prefixes[..|prefixes| - 1];
    forall q | q in init ensures exists a, z :: Capped(deps, ghosts, prefixOf, q, a, z) {
      assert q in prefixes;
    }
  }

  /** If each group has such tips, a grouped order has pure groups. */
  lemma {:induction false} GroupedIsPure(deps: Links, ghosts: set<Key>, prefixOf: Key -> int, prefixes: seq<int>, done: set<Key>)
    requires Closed(deps) && Distinct(prefixes) && Front(deps, done, [], TipsWith(deps, prefixOf, prefixes))
    requires AllCapped(deps, ghosts, prefixOf, prefixes)
    requires Contiguous(GcGroups(deps, ghosts, prefixOf, prefixes, done), prefixOf)
    ensures RunsArePure(deps, ghosts, prefixOf, prefixes, done)
    decreases |prefixes|
  {
    hide Front, GcRun, TipsOf, TipsWith, Contiguous, Capped, AllPrefix, Distinct;
    if prefixes != [] {
      var q, init := prefixes[|prefixes| - 1], prefixes[..|prefixes| - 1];
      var tips, later := Descending(TipsOf(deps, prefixOf, q)), TipsWith(deps, prefixOf, init);
      var run := GcRun(deps, ghosts, tips, done);
      FrontGroup(deps, prefixOf, prefixes, done);
      assert q in prefixes;
      var a, z :| Capped(deps, ghosts, prefixOf, q, a, z);
      CappedRun(deps, ghosts, prefixOf, q, a, z, done, later);
      PureBetween(run.0, GcGroups(deps, ghosts, prefixOf, init, run.1), prefixOf, q);
      FewerCapped(deps, ghosts, prefixOf, prefixes);
      RunFront(deps, ghosts, tips, done, later);
      GroupedIsPure(deps, ghosts, prefixOf, init, run.1);
    }
  }

  // ---------------------------------------------------------------------------
  // Two tips more for each prefix
  // ---------------------------------------------------------------------------

  ghost function NewTips(bound: int, n: nat): (tips: set<Key>)
    ensures forall k :: k in tips <==> bound <= k < bound + n || -bound - n < k <= -bound
  {
    if n == 0 then {} else NewTips(bound, n - 1) + {bound + n - 1, -bound - n + 1}
  }

  ghost function Capping(deps: Links, bound: int, n: nat): Links {
    map k | k in deps.Keys + NewTips(bound, n) :: if k in deps then deps[k] else []
  }

  ghost function CappedPrefix(prefixOf: Key -> int, bound: int, prefixes: seq<int>): Key -> int {
    k => if -bound < k < bound then prefixOf(k)
         else if bound <= k < bound + |prefixes| then prefixes[k - bound]
         else if -bound - |prefixes| < k <= -bound then prefixes[-bound - k]
         else 0
  }

  ghost predicate Within(s: set<Key>, bound: int) {
    forall k :: k in s ==> -bound < k < bound
  }

  lemma {:induction false} KeyBound(s: set<Key>) returns (bound: int)
    ensures Within(s, bound) && bound > 0
    decreases |s|
  {
    if k :| k in s {
      var rest := s - {k};
      bound := KeyBound(rest);
      assert forall x :: x in s <==> x == k || x in rest;
      assert forall x :: x in rest ==> -bound < x < bound;
      bound := if k >= bound then k + 1 else if -k >= bound then -k + 1 else bound;
    } else {
      assert forall x :: x !in s;
      bound := 1;
    }
  }

  lemma CappingIsWithTips(deps: Links, ghosts: set<Key>, prefixOf: Key -> int, bound: int, prefixes: seq<int>)
    requires Within(deps.Keys, bound) && Within(ghosts, bound)
    ensures WithTips(deps, ghosts, prefixOf, Capping(deps, bound, |prefixes|), CappedPrefix(prefixOf, bound, prefixes))
  {
  }

  lemma OldEdge(deps: Links, ghosts: set<Key>, prefixOf: Key -> int, more: Links, prefixOf': Key -> int, c: Key, p: Key)
    requires WithTips(deps, ghosts, prefixOf, more, prefixOf') && c in more && p in more[c]
    ensures c in deps && p in deps[c]
  {
  }

  lemma StillAcyclic(deps: Links, ghosts: set<Key>, prefixOf: Key -> int, more: Links, prefixOf': Key -> int)
    requires Closed(deps) && Acyclic(deps) && WithTips(deps, ghosts, prefixOf, more, prefixOf')
    ensures Closed(more) && Acyclic(more)
  {
    forall p ensures !IsCycle(more, p) {
      if IsCycle(more, p) {
        forall i | 0 <= i < |p| - 1 ensures p[i] in deps && p[i + 1] in deps[p[i]] {
          OldEdge(deps, ghosts, prefixOf, more, prefixOf', p[i], p[i + 1]);
        }
        assert IsCycle(deps, p);
      }
    }
  }

  lemma TipsOfCapping(deps: Links, ghosts: set<Key>, prefixOf: Key -> int, bound: int, prefixes: seq<int>, k: Key)
    requires Closed(deps) && Within(deps.Keys, bound) && Within(ghosts, bound)
    ensures var more, prefixOf' := Capping(deps, bound, |prefixes|), CappedPrefix(prefixOf, bound, prefixes);
            && (k in more && IsTip(more, k) <==> (k in deps && IsTip(deps, k)) || k in NewTips(bound, |prefixes|))
            && (k in deps ==> prefixOf'(k) == prefixOf(k) && -bound < k < bound)
  {
    var more, prefixOf' := Capping(deps, bound, |prefixes|), CappedPrefix(prefixOf, bound, prefixes);
    CappingIsWithTips(deps, ghosts, prefixOf, bound, prefixes);
    if k in more { SameChildren(deps, ghosts, prefixOf, more, prefixOf', k); }
  }

  lemma CappingCaps(deps: Links, ghosts: set<Key>, prefixOf: Key -> int, bound: int, prefixes: seq<int>, i: nat)
    requires Closed(deps) && Within(deps.Keys, bound) && Within(ghosts, bound) && bound > 0 && Distinct(prefixes) && i < |prefixes|
    ensures Capped(Capping(deps, bound, |prefixes|), ghosts, CappedPrefix(prefixOf, bound, prefixes), prefixes[i], -bound - i, bound + i)
  {
    hide Unblocked;
    var more, prefixOf' := Capping(deps, bound, |prefixes|), CappedPrefix(prefixOf, bound, prefixes);
    NewTipIs(deps, ghosts, prefixOf, bound, prefixes, i);
    forall t | t in TipsOf(more, prefixOf', prefixes[i]) ensures -bound - i <= t <= bound + i {
      TipsOfCapping(deps, ghosts, prefixOf, bound, prefixes, t);
    }
  }

  lemma NewTipIs(deps: Links, ghosts: set<Key>, prefixOf: Key -> int, bound: int, prefixes: seq<int>, i: nat)
    requires Closed(deps) && Within(deps.Keys, bound) && Within(ghosts, bound) && bound > 0 && i < |prefixes|
    ensures var more, prefixOf', a, z := Capping(deps, bound, |prefixes|), CappedPrefix(prefixOf, bound, prefixes), -bound - i, bound + i;
            && a in TipsOf(more, prefixOf', prefixes[i]) && z in TipsOf(more, prefixOf', prefixes[i])
            && a !in ghosts && z !in ghosts && more[z] == []
  {
    hide Unblocked;
    var more, a, z := Capping(deps, bound, |prefixes|), -bound - i, bound + i;
    assert a in NewTips(bound, |prefixes|) && z in NewTips(bound, |prefixes|);
    assert !(-bound < a < bound) && !(-bound < z < bound);
    TipsOfCapping(deps, ghosts, prefixOf, bound, prefixes, a);
    TipsOfCapping(deps, ghosts, prefixOf, bound, prefixes, z);
    assert z in deps.Keys ==> -bound < z < bound;
  }

  lemma SamePrefixes(deps: Links, ghosts: set<Key>, prefixOf: Key -> int, bound: int, prefixes: seq<int>)
    requires Closed(deps) && Within(deps.Keys, bound) && Within(ghosts, bound) && bound > 0 && Distinct(prefixes)
    requires Lists(prefixes, TipPrefixes(deps, prefixOf))
    ensures TipPrefixes(Capping(deps, bound, |prefixes|), CappedPrefix(prefixOf, bound, prefixes)) == TipPrefixes(deps, prefixOf)
  {
    hide Unblocked;
    var more, prefixOf' := Capping(deps, bound, |prefixes|), CappedPrefix(prefixOf, bound, prefixes);
    forall q ensures q in TipPrefixes(more, prefixOf') <==> q in TipPrefixes(deps, prefixOf) {
      if q in TipPrefixes(more, prefixOf') {
        var k :| k in more && Unblocked(more, k, {}) && prefixOf'(k) == q;
        TipsOfCapping(deps, ghosts, prefixOf, bound, prefixes, k);
        if k !in deps { assert q in prefixes; }
      }
      if q in TipPrefixes(deps, prefixOf) {
        var k :| k in deps && Unblocked(deps, k, {}) && prefixOf(k) == q;
        TipsOfCapping(deps, ghosts, prefixOf, bound, prefixes, k);
      }
    }
  }

  lemma GroupedMeansLeading(deps: Links, ghosts: set<Key>, prefixOf: Key -> int)
    requires Closed(deps) && Acyclic(deps) && GhostsEnd(deps, ghosts) && StaysGrouped(deps, ghosts, prefixOf)
    ensures PrefixesLead(deps, ghosts, prefixOf)
  {
    hide Front, GcGroups, TipPrefixes, Acyclic, Capping, CappedPrefix, Within, WithTips, GhostsEnd, PrefixesLead, Contiguous, RunsArePure, Capped;
    var prefixes := Descending(TipPrefixes(deps, prefixOf));
    DescendingFacts(TipPrefixes(deps, prefixOf));
    var bound := KeyBound(deps.Keys + ghosts);
    WithinBoth(deps.Keys, ghosts, bound);
    var more, prefixOf' := Capping(deps, bound, |prefixes|), CappedPrefix(prefixOf, bound, prefixes);
    CappingIsWithTips(deps, ghosts, prefixOf, bound, prefixes);
    StillAcyclic(deps, ghosts, prefixOf, more, prefixOf');
    SamePrefixes(deps, ghosts, prefixOf, bound, prefixes);
    FrontStart(more, prefixOf');
    forall q | q in prefixes ensures exists a, z :: Capped(more, ghosts, prefixOf', q, a, z) {
      var i :| 0 <= i < |prefixes| && prefixes[i] == q;
      CappingCaps(deps, ghosts, prefixOf, bound, prefixes, i);
    }
    GroupedIsPure(more, ghosts, prefixOf', prefixes, {});
    OrderIsComplete(more, ghosts, prefixOf');
    LeadingIsSame(deps, ghosts, prefixOf, more, prefixOf');
    GroupedByPrefix(more, ghosts, prefixOf');
  }

  lemma WithinBoth(s: set<Key>, t: set<Key>, bound: int)
    requires Within(s + t, bound)
    ensures Within(s, bound) && Within(t, bound)
  {
    assert forall k :: k in s + t ==> -bound < k < bound;
    assert forall k :: k in s ==> k in s + t;
    assert forall k :: k in t ==> k in s + t;
  }

  /** On acyclic graphs: the order is grouped by prefix, whatever further tips there are, exactly if the
      prefix of every key with children is the largest among its children. */
  lemma GroupedExactly(deps: Links, ghosts: set<Key>, prefixOf: Key -> int)
    requires Closed(deps) && Acyclic(deps) && GhostsEnd(deps, ghosts)
    ensures PrefixesLead(deps, ghosts, prefixOf) <==> StaysGrouped(deps, ghosts, prefixOf)
  {
    hide WithTips, GcOrder, PrefixesLead, Contiguous, Acyclic, GhostsEnd;
    if StaysGrouped(deps, ghosts, prefixOf) {
      GroupedMeansLeading(deps, ghosts, prefixOf);
    }
    if PrefixesLead(deps, ghosts, prefixOf) {
      forall more, prefixOf' | WithTips(deps, ghosts, prefixOf, more, prefixOf')
        ensures Contiguous(GcOrder(more, ghosts, prefixOf'), prefixOf')
      {
        LeadingIsSame(deps, ghosts, prefixOf, more, prefixOf');
        GroupedByPrefix(more, ghosts, prefixOf');
        AscendingIsContiguous(GcOrder(more, ghosts, prefixOf'), prefixOf');
      }
    }
  }

  // ---------------------------------------------------------------------------
  // The order itself
  // ---------------------------------------------------------------------------

  ghost predicate NoPrefixFalls(deps: Links, ghosts: set<Key>, prefixOf: Key -> int) {
    forall c, p :: ChildOf(deps, c, p) && p in deps && p !in ghosts ==> prefixOf(c) <= prefixOf(p)
  }

  /** A necessary condition: prefixes that ascend along the order do not fall from child to parent. */
  lemma AscendingNeeds(deps: Links, ghosts: set<Key>, prefixOf: Key -> int, order: seq<Key>)
    requires ChildrenFirst(deps, ghosts, order) && Lists(order, deps.Keys - ghosts) && PrefixesAscend(order, prefixOf)
    ensures NoPrefixFalls(deps, ghosts, prefixOf)
  {
    forall c, p | ChildOf(deps, c, p) && p in deps && p !in ghosts ensures prefixOf(c) <= prefixOf(p) {
      assert p in order;
      var j :| 0 <= j < |order| && order[j] == p;
      assert c in order[..j];
      var i :| 0 <= i < j && order[i] == c;
    }
  }

  /** Without further tips a graph can be grouped although a prefix does not lead. */
  lemma GroupedByChance()
    ensures var deps, prefixOf := map[1 := [2], 2 := []], (k: Key) => k - 1;
            && !PrefixesLead(deps, {}, prefixOf)
            && forall order :: ChildrenFirst(deps, {}, order) && Lists(order, {1, 2}) ==>
                 PrefixesAscend(order, prefixOf) && Contiguous(order, prefixOf)
  {
    var deps: Links, prefixOf := map[1 := [2], 2 := []], (k: Key) => k - 1;
    assert ChildOf(deps, 1, 2) && !IsTip(deps, 2);
    assert !LargestBelow(deps, prefixOf, 2, 1) && !Leads(deps, prefixOf, 2);
    forall order | ChildrenFirst(deps, {}, order) && Lists(order, {1, 2})
      ensures PrefixesAscend(order, prefixOf) && Contiguous(order, prefixOf)
    {
      AtMostTwo(order);
      forall i | 0 <= i < |order| ensures order[i] == 1 || order[i] == 2 { assert order[i] in order; }
    }
  }

  lemma AtMostTwo(order: seq<Key>)
    requires Distinct(order) && Lists(order, {1, 2})
    ensures |order| <= 2
  {
    MembersSize(order);
    assert forall k :: k in Members(order) <==> k == 1 || k == 2;
    assert Members(order) == {1, 2};
  }

  lemma {:induction false} MembersSize(list: seq<Key>)
    requires Distinct(list)
    ensures |Members(list)| == |list|
  {
    if list != [] {
      var init, last := list[..|list| - 1], list[|list| - 1];
      LastIsAlone(list);
      MembersSize(init);
      assert Members(list) == Members(init) + {last};
    } else {
      assert Members(list) == {};
    }
  }
}
