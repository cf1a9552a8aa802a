/** The order gc_sort() returns, as a function of nothing but the parent map and the prefixes, and the
    lemmas that tie the worklist to it. */
module GraphStableOrder {
  import opened Basics
  import opened Worklist
  import opened GraphDistance
  import opened GraphOrders
  import opened GraphUpdates

  // ---------------------------------------------------------------------------
  // The stable order: a function of the parent map
  // ---------------------------------------------------------------------------

  ghost predicate Unblocked(deps: Links, p: Key, done: set<Key>) {
    forall c :: c in deps && p in deps[c] ==> c in done
  }

  /** The parents of n that wait for no further child. */
  ghost function Ready(deps: Links, done: set<Key>, n: Key): set<Key>
    requires n in deps
  {
    set p | p in deps[n] && Unblocked(deps, p, done)
  }

  /** Always takes the last pending key; its parents that became ready go on top, smallest last. */
  ghost function GcRun(deps: Links, ghosts: set<Key>, pending: seq<Key>, done: set<Key>): (seq<Key>, set<Key>)
    decreases deps.Keys - done
  {
    if pending == [] || pending[|pending| - 1] !in deps || pending[|pending| - 1] in done then ([], done)
    else
      var n := pending[|pending| - 1];
      var done' := done + {n};
      var rest := GcRun(deps, ghosts, pending[..|pending| - 1] + Descending(Ready(deps, done', n)), done');
      ((if n in ghosts then [] else [n]) + rest.0, rest.1)
  }

  ghost function TipsOf(deps: Links, prefixOf: Key -> int, prefix: int): set<Key> {
    set k | k in deps && prefixOf(k) == prefix && Unblocked(deps, k, {})
  }

  ghost function TipPrefixes(deps: Links, prefixOf: Key -> int): set<int> {
    set k | k in deps && Unblocked(deps, k, {}) :: prefixOf(k)
  }

  /** prefixes is in descending order and is used up from its end. */
  ghost function GcGroups(deps: Links, ghosts: set<Key>, prefixOf: Key -> int, prefixes: seq<int>, done: set<Key>): seq<Key> {
    if prefixes == [] then []
    else
      var run := GcRun(deps, ghosts, Descending(TipsOf(deps, prefixOf, prefixes[|prefixes| - 1])), done);
      run.0 + GcGroups(deps, ghosts, prefixOf, prefixes[..|prefixes| - 1], run.1)
  }

  ghost function GcOrder(deps: Links, ghosts: set<Key>, prefixOf: Key -> int): seq<Key> {
    GcGroups(deps, ghosts, prefixOf, Descending(TipPrefixes(deps, prefixOf)), {})
  }

  // ---------------------------------------------------------------------------
  // Children first
  // ---------------------------------------------------------------------------

  ghost predicate ChildrenFirst(deps: Links, ghosts: set<Key>, order: seq<Key>) {
    && Distinct(order)
    && (forall k :: k in order ==> k in deps && k !in ghosts)
    && forall i, c :: 0 <= i < |order| && c in deps && order[i] in deps[c] ==> c in order[..i]
  }

  /** Ghosts have no parents, so no ghost is anybody's child. */
  lemma ChildrenAreFirst(parents: ParentMap, children: Links, order: seq<Key>)
    requires Inverse(DepsOf(parents), children) && ParentsFirst(children, GhostsOf(parents), order)
    ensures ChildrenFirst(DepsOf(parents), GhostsOf(parents), order)
  {
    hide Inverse;
    var deps := DepsOf(parents);
    InverseKeys(deps, children);
    forall i, c | 0 <= i < |order| && c in deps && order[i] in deps[c] ensures c in order[..i] {
      assert order[i] in order;
      InverseMeans(deps, children, c, order[i]);
      assert c in children[order[i]] && c !in GhostsOf(parents);
    }
    forall k | k in order ensures k in deps && k !in GhostsOf(parents) {
      assert k in children;
    }
  }

  /** If there is no cycle, everything is listed. */
  lemma AllAreListed(deps: Links, children: Links, ghosts: set<Key>, num: map<Key, nat>, done: set<Key>, order: seq<Key>)
    requires Inverse(deps, children) && Sorting(children, deps, num, done, []) && Listed(children, ghosts, done, order)
    ensures Acyclic(deps) ==> Lists(order, deps.Keys - ghosts)
  {
    hide Inverse, Working, Counted, Acyclic, ParentsFirst;
    if Acyclic(deps) {
      AcyclicBackwards(deps, children);
      InverseIsSymmetric(deps, children);
      InverseKeys(children, deps);
      assert Closed(children);
      WorkEnds(children, done);
    }
  }

  // ---------------------------------------------------------------------------
  // Sorted lists of sets
  // ---------------------------------------------------------------------------

  lemma {:induction false} DistinctCounts(list: seq<Key>)
    ensures Distinct(list) <==> forall x :: multiset(list)[x] <= 1
  {
    if list != [] {
      var init, last := list[..|list| - 1], list[|list| - 1];
      DistinctCounts(init);
      assert list == init + [last];
      if Distinct(list) {
        assert last !in init;
        assert forall x :: multiset(list)[x] <= 1;
      } else {
        if Distinct(init) {
          DistinctMore(init, last);
          assert multiset(list)[last] > 1;
        } else {
          var x :| multiset(init)[x] > 1;
          assert multiset(list)[x] > 1;
        }
      }
    }
  }

  lemma SortedSet(list: seq<Key>, s: set<Key>)
    requires Distinct(list) && Lists(list, s)
    ensures SortDescending(list) == Descending(s)
  {
    hide Distinct, IsDescending, SortDescending;
    SortFacts(list);
    DistinctCounts(list);
    DistinctCounts(SortDescending(list));
    assert forall k :: k in SortDescending(list) <==> k in multiset(SortDescending(list));
    assert forall k :: k in list <==> k in multiset(list);
    DescendingIsUnique(SortDescending(list), s);
  }

  // ---------------------------------------------------------------------------
  // The parents of one node
  // ---------------------------------------------------------------------------

  lemma UnblockedMeans(deps: Links, children: Links, p: Key, done: set<Key>)
    requires Inverse(deps, children) && p in deps
    ensures p in children && (Unblocked(deps, p, done) <==> AllIn(children[p], done))
  {
    hide Inverse;
    InverseKeys(deps, children);
    forall c ensures c in deps && p in deps[c] <==> c in children[p] {
      InverseMeans(deps, children, c, p);
    }
  }

  /** Of the first entries of the sorted parent list, those that became ready, largest first. */
  ghost predicate Added(children: Links, done: set<Key>, visited: seq<Key>, added: seq<Key>) {
    && IsDescending(added) && Distinct(added)
    && forall p :: p in added <==> p in visited && p in children && SeenOf(children, done, visited, p) == |children[p]|
  }

  lemma AddedMore(children: Links, done: set<Key>, list: seq<Key>, i: nat, added: seq<Key>)
    requires i < |list| && IsDescending(list) && Added(children, done, list[..i], added)
    requires list[i] in children && list[i] !in added
    ensures SeenOf(children, done, list[..i + 1], list[i]) == |children[list[i]]| ==>
              Added(children, done, list[..i + 1], added + [list[i]])
    ensures SeenOf(children, done, list[..i + 1], list[i]) != |children[list[i]]| ==>
              Added(children, done, list[..i + 1], added)
  {
    hide CountIn, Distinct;
    var c, visited, visited' := list[i], list[..i], list[..i + 1];
    assert visited' == visited + [c];
    DistinctMore(added, c);
    forall a | 0 <= a < |added| ensures added[a] >= c {
      assert added[a] in added;
      var at :| 0 <= at < i && list[at] == added[a];
    }
    forall p | p != c ensures p in visited' <==> p in visited {
    }
    forall p | p != c && p in children ensures SeenOf(children, done, visited', p) == SeenOf(children, done, visited, p) {
    }
  }

  /** One parent of n in the loop of gc_sort: counted, or ready and put on top. */
  lemma CountParent(children: Links, deps: Links, num: map<Key, nat>, done: set<Key>, n: Key, sorted: seq<Key>, i: nat,
                    later: seq<Key>, pending0: seq<Key>, added: seq<Key>)
    requires n in deps && multiset(sorted) == multiset(deps[n]) && i < |sorted| && IsDescending(sorted)
    requires Counting(children, deps, num, done, n, sorted[..i], later + (pending0 + added))
    requires Added(children, done, sorted[..i], added)
    ensures var p := sorted[i];
            && p in children && p in num
            && (num[p] + 1 == |children[p]| ==>
                  Counting(children, deps, num - {p}, done, n, sorted[..i + 1], later + (pending0 + added + [p]))
                  && Added(children, done, sorted[..i + 1], added + [p]))
            && (num[p] + 1 != |children[p]| ==>
                  Counting(children, deps, num[p := num[p] + 1], done, n, sorted[..i + 1], later + (pending0 + added))
                  && Added(children, done, sorted[..i + 1], added))
    ensures pending0 + (added + [sorted[i]]) == pending0 + added + [sorted[i]]
  {
    hide Counting, Added, SeenOf, IsDescending;
    var p, pending := sorted[i], pending0 + added;
    CountOne(children, deps, num, done, n, sorted, i, later + pending);
    NotAddedYet(later, pending0, added, p);
    AddedMore(children, done, sorted, i, added);
    assert (later + pending) + [p] == later + (pending + [p]);
  }

  lemma NotAddedYet(later: seq<Key>, pending0: seq<Key>, added: seq<Key>, p: Key)
    requires p !in later + (pending0 + added)
    ensures p !in added
  {
    assert forall k :: k in added ==> k in later + (pending0 + added);
  }

  lemma AddedNothing(children: Links, done: set<Key>)
    ensures Added(children, done, [], [])
  {
  }

  lemma AddedAll(deps: Links, children: Links, done: set<Key>, n: Key, list: seq<Key>, added: seq<Key>)
    requires Inverse(deps, children) && n in deps && multiset(list) == multiset(deps[n])
    requires Added(children, done, list, added)
    requires forall c :: c in children ==> SeenOf(children, done, list, c) == CountIn(children[c], done + {n})
    ensures added == Descending(Ready(deps, done + {n}, n))
  {
    hide Inverse, CountIn, SeenOf, Distinct, IsDescending, Unblocked, AllIn;
    InverseKeys(deps, children);
    forall p ensures p in added <==> p in Ready(deps, done + {n}, n) {
      assert p in list <==> p in multiset(list);
      assert p in deps[n] <==> p in multiset(deps[n]);
      if p in list {
        UnblockedMeans(deps, children, p, done + {n});
        CountIsAll(children[p], done + {n});
      }
    }
    DescendingIsUnique(added, Ready(deps, done + {n}, n));
  }

  /** A ghost has no parents. */
  lemma GhostAddsNothing(deps: Links, children: Links, num: map<Key, nat>, done: set<Key>, n: Key, pending: seq<Key>)
    requires Counting(children, deps, num, done, n, [], pending) && n in deps && deps[n] == []
    ensures Sorting(children, deps, num, done + {n}, pending)
    ensures Descending(Ready(deps, done + {n}, n)) == []
  {
    hide Counting, Sorting;
    CountLast(children, deps, num, done, n, [], pending);
    assert Ready(deps, done + {n}, n) == {};
  }

  lemma RunStep(deps: Links, ghosts: set<Key>, pending: seq<Key>, done: set<Key>)
    requires pending != [] && pending[|pending| - 1] in deps && pending[|pending| - 1] !in done
    ensures var n := pending[|pending| - 1];
            var rest := GcRun(deps, ghosts, pending[..|pending| - 1] + Descending(Ready(deps, done + {n}, n)), done + {n});
            GcRun(deps, ghosts, pending, done) == ((if n in ghosts then [] else [n]) + rest.0, rest.1)
  {
  }

  // ---------------------------------------------------------------------------
  // Prefix groups
  // ---------------------------------------------------------------------------

  ghost predicate Grouped(tips: seq<Key>, prefixOf: Key -> int, groups: map<int, seq<Key>>) {
    && (forall q :: q in groups ==> groups[q] != [] && IsGroup(tips, prefixOf, q, groups[q]))
    && forall k :: k in tips ==> prefixOf(k) in groups
  }

  ghost predicate IsGroup(tips: seq<Key>, prefixOf: Key -> int, q: int, group: seq<Key>) {
    Distinct(group) && forall k :: k in group <==> k in tips && prefixOf(k) == q
  }

  lemma GroupedMore(tips: seq<Key>, prefixOf: Key -> int, groups: map<int, seq<Key>>, k: Key)
    requires Grouped(tips, prefixOf, groups) && k !in tips
    ensures var group := if prefixOf(k) in groups then groups[prefixOf(k)] else [];
            Grouped(tips + [k], prefixOf, groups[prefixOf(k) := group + [k]])
  {
    var q := prefixOf(k);
    var group := if q in groups then groups[q] else [];
    var groups' := groups[q := group + [k]];
    assert IsGroup(tips, prefixOf, q, group);
    DistinctMore(group, k);
    forall x | x in groups' ensures groups'[x] != [] && IsGroup(tips + [k], prefixOf, x, groups'[x]) {
      if x != q { assert IsGroup(tips, prefixOf, x, groups[x]); }
    }
  }

  lemma GroupsAreTips(deps: Links, children: Links, tips: seq<Key>, prefixOf: Key -> int, groups: map<int, seq<Key>>)
    requires Inverse(deps, children) && AreTails(children, tips) && Grouped(tips, prefixOf, groups)
    ensures groups.Keys == TipPrefixes(deps, prefixOf)
    ensures forall q :: q in groups ==> SortDescending(groups[q]) == Descending(TipsOf(deps, prefixOf, q))
  {
    hide Inverse, Distinct, SortDescending, Unblocked;
    InverseKeys(deps, children);
    forall k | k in deps ensures k in tips <==> Unblocked(deps, k, {}) {
      UnblockedMeans(deps, children, k, {});
      NoneIn(children[k]);
    }
    forall q | q in groups ensures q in TipPrefixes(deps, prefixOf) {
      var k := groups[q][0];
      assert k in groups[q];
      assert IsGroup(tips, prefixOf, q, groups[q]);
      assert k in tips && k in children && k in deps && prefixOf(k) == q;
    }
    forall q | q in groups ensures SortDescending(groups[q]) == Descending(TipsOf(deps, prefixOf, q)) {
      SortedSet(groups[q], TipsOf(deps, prefixOf, q));
    }
  }

  /** The tips whose prefix is among those given. */
  ghost function TipsWith(deps: Links, prefixOf: Key -> int, prefixes: seq<int>): set<Key> {
    set k | k in deps && prefixOf(k) in prefixes && Unblocked(deps, k, {})
  }

  lemma WorkingSame(deps: Links, done: set<Key>, pending: seq<Key>, pending': seq<Key>)
    requires Working(deps, done, pending) && Distinct(pending') && forall k :: k in pending <==> k in pending'
    ensures Working(deps, done, pending')
  {
    hide AllIn, Distinct;
  }

  lemma IsListed(list: seq<int>, s: set<int>, q: int)
    requires Lists(list, s) && q in s
    ensures q in list
  {
  }

  lemma FirstGroups(deps: Links, children: Links, num: map<Key, nat>, tips: seq<Key>, prefixOf: Key -> int, prefixes: seq<int>)
    requires Sorting(children, deps, num, {}, tips) && AreTails(children, tips) && Inverse(deps, children)
    requires Lists(prefixes, TipPrefixes(deps, prefixOf))
    ensures Sorting(children, deps, num, {}, Descending(TipsWith(deps, prefixOf, prefixes)))
  {
    hide Inverse, Distinct, Unblocked, Working, Counted;
    InverseKeys(deps, children);
    DescendingFacts(TipsWith(deps, prefixOf, prefixes));
    forall k ensures k in tips <==> k in TipsWith(deps, prefixOf, prefixes) {
      if k in deps {
        UnblockedMeans(deps, children, k, {});
        NoneIn(children[k]);
        if k in tips {
          assert prefixOf(k) in TipPrefixes(deps, prefixOf);
          IsListed(prefixes, TipPrefixes(deps, prefixOf), prefixOf(k));
        }
      } else {
        assert k !in children;
      }
    }
    WorkingSame(children, {}, tips, Descending(TipsWith(deps, prefixOf, prefixes)));
  }

  lemma NextGroup(deps: Links, children: Links, num: map<Key, nat>, done: set<Key>, prefixOf: Key -> int, prefixes: seq<int>, i: nat)
    requires i < |prefixes| && Distinct(prefixes)
    requires Sorting(children, deps, num, done, Descending(TipsWith(deps, prefixOf, prefixes[..i + 1])))
    ensures Sorting(children, deps, num, done,
                    Descending(TipsWith(deps, prefixOf, prefixes[..i])) + Descending(TipsOf(deps, prefixOf, prefixes[i])))
  {
    hide Inverse, Unblocked, Working, Counted;
    var all, later, now := TipsWith(deps, prefixOf, prefixes[..i + 1]), TipsWith(deps, prefixOf, prefixes[..i]), TipsOf(deps, prefixOf, prefixes[i]);
    assert prefixes[..i + 1] == prefixes[..i] + [prefixes[i]];
    assert forall k :: k in all <==> k in later || k in now;
    assert forall k :: k in later ==> k !in now;
    DescendingFacts(all);
    DescendingFacts(later);
    DescendingFacts(now);
    JoinDistinct(Descending(later), Descending(now), later, now);
    WorkingSame(children, done, Descending(all), Descending(later) + Descending(now));
  }

  lemma JoinDistinct(a: seq<Key>, b: seq<Key>, s: set<Key>, t: set<Key>)
    requires Distinct(a) && Distinct(b) && Lists(a, s) && Lists(b, t) && forall k :: k in s ==> k !in t
    ensures Distinct(a + b) && Lists(a + b, s + t)
  {
    forall i | 0 <= i < |a| ensures a[i] in s { assert a[i] in a; }
    forall i | 0 <= i < |b| ensures b[i] in t { assert b[i] in b; }
    assert forall k :: k in a + b <==> k in a || k in b;
  }

  lemma NothingGrouped(prefixOf: Key -> int)
    ensures Grouped([], prefixOf, map[])
  {
  }

  lemma GroupsStart(deps: Links, ghosts: set<Key>, prefixOf: Key -> int, prefixes: seq<int>)
    requires prefixes == Descending(TipPrefixes(deps, prefixOf))
    ensures prefixes[..|prefixes|] == prefixes
    ensures [] + GcGroups(deps, ghosts, prefixOf, prefixes, {}) == GcOrder(deps, ghosts, prefixOf)
  {
    assert prefixes[..|prefixes|] == prefixes;
  }

  lemma GroupsStep(deps: Links, ghosts: set<Key>, prefixOf: Key -> int, prefixes: seq<int>, i: nat, done: set<Key>)
    requires i < |prefixes|
    ensures var run := GcRun(deps, ghosts, Descending(TipsOf(deps, prefixOf, prefixes[i])), done);
            GcGroups(deps, ghosts, prefixOf, prefixes[..i + 1], done) ==
            run.0 + GcGroups(deps, ghosts, prefixOf, prefixes[..i], run.1)
  {
    hide GcRun;
    assert prefixes[..i + 1][..i] == prefixes[..i];
  }

  lemma NoGroupsLeft(deps: Links, ghosts: set<Key>, prefixOf: Key -> int, prefixes: seq<int>, done: set<Key>)
    ensures GcGroups(deps, ghosts, prefixOf, prefixes[..0], done) == []
    ensures Descending(TipsWith(deps, prefixOf, prefixes[..0])) == []
  {
    assert TipsWith(deps, prefixOf, prefixes[..0]) == {};
  }

  lemma RunEnds(deps: Links, ghosts: set<Key>, done: set<Key>)
    ensures GcRun(deps, ghosts, [], done) == ([], done)
  {
  }

  lemma IsGroupKey(prefixes: seq<int>, groups: map<int, seq<Key>>, i: nat)
    requires Lists(prefixes, groups.Keys) && i < |prefixes|
    ensures prefixes[i] in groups
  {
    var q := prefixes[i];
    assert q in prefixes;
    assert forall k :: k in prefixes ==> k in groups.Keys;
  }

  lemma CountingKeys(deps: Links, succs: Links, num: map<Key, nat>, done: set<Key>, n: Key, pending: seq<Key>)
    requires Counting(deps, succs, num, done, n, [], pending)
    ensures n in deps && Inverse(deps, succs) && Inverse(succs, deps)
  {
    UnfoldVisiting(deps, succs, done, n, [], pending);
    InverseIsSymmetric(deps, succs);
  }
}
