/** When the order of gc_sort() is grouped by prefix, as its documentation says: exactly if the prefix of
    every key that has children is the largest prefix among its children. */
module GraphPrefixes {
  import opened Basics
  import opened Worklist
  import opened GraphOrders
  import opened GraphStableOrder

  /** Ghosts have no parents. */
  ghost predicate GhostsEnd(deps: Links, ghosts: set<Key>) {
    forall g :: g in ghosts && g in deps ==> deps[g] == []
  }

  ghost predicate IsTip(deps: Links, p: Key) {
    Unblocked(deps, p, {})
  }

  ghost predicate ChildOf(deps: Links, c: Key, p: Key) {
    c in deps && p in deps[c]
  }

  /** q is the largest prefix among the children of p. */
  ghost predicate LargestBelow(deps: Links, prefixOf: Key -> int, p: Key, q: int) {
    && (forall c :: ChildOf(deps, c, p) ==> prefixOf(c) <= q)
    && exists c :: ChildOf(deps, c, p) && prefixOf(c) == q
  }

  ghost predicate Leads(deps: Links, prefixOf: Key -> int, p: Key) {
    IsTip(deps, p) || LargestBelow(deps, prefixOf, p, prefixOf(p))
  }

  /** Can be checked on the parent map: prefixes go on to parents from their largest child. */
  ghost predicate PrefixesLead(deps: Links, ghosts: set<Key>, prefixOf: Key -> int) {
    forall p :: p in deps && p !in ghosts ==> Leads(deps, prefixOf, p)
  }

  ghost predicate AllPrefix(list: seq<Key>, prefixOf: Key -> int, q: int) {
    forall k :: k in list ==> prefixOf(k) == q
  }

  ghost predicate AllLead(deps: Links, prefixOf: Key -> int, list: seq<Key>) {
    forall k :: k in list ==> Leads(deps, prefixOf, k)
  }

  /** The group of each prefix holds keys of that prefix only. */
  ghost predicate RunsArePure(deps: Links, ghosts: set<Key>, prefixOf: Key -> int, prefixes: seq<int>, done: set<Key>) {
    prefixes == [] ||
    var q := prefixes[|prefixes| - 1];
    var run := GcRun(deps, ghosts, Descending(TipsOf(deps, prefixOf, q)), done);
    AllPrefix(run.0, prefixOf, q) && RunsArePure(deps, ghosts, prefixOf, prefixes[..|prefixes| - 1], run.1)
  }

  ghost predicate PureGroups(deps: Links, ghosts: set<Key>, prefixOf: Key -> int) {
    RunsArePure(deps, ghosts, prefixOf, Descending(TipPrefixes(deps, prefixOf)), {})
  }

  ghost predicate PrefixesAscend(list: seq<Key>, prefixOf: Key -> int) {
    forall i, j :: 0 <= i < j < |list| ==> prefixOf(list[i]) <= prefixOf(list[j])
  }

  // ---------------------------------------------------------------------------
  // One group
  // ---------------------------------------------------------------------------

  /** Pending in the group of q: a tip of that prefix, or a key whose largest child prefix is q. */
  ghost predicate Belongs(deps: Links, prefixOf: Key -> int, p: Key, q: int) {
    (IsTip(deps, p) && prefixOf(p) == q) || (!IsTip(deps, p) && LargestBelow(deps, prefixOf, p, q))
  }

  ghost predicate AllBelong(deps: Links, ghosts: set<Key>, prefixOf: Key -> int, pending: seq<Key>, q: int) {
    forall p :: p in pending && p !in ghosts ==> Belongs(deps, prefixOf, p, q)
  }

  ghost predicate DoneBelow(ghosts: set<Key>, prefixOf: Key -> int, done: set<Key>, q: int) {
    forall k :: k in done && k !in ghosts ==> prefixOf(k) <= q
  }

  lemma BelongsLeads(deps: Links, prefixOf: Key -> int, p: Key, q: int)
    requires Belongs(deps, prefixOf, p, q)
    ensures Leads(deps, prefixOf, p) <==> prefixOf(p) == q
  {
    hide IsTip;
  }

  lemma ReadyBelong(deps: Links, ghosts: set<Key>, prefixOf: Key -> int, done: set<Key>, n: Key, q: int)
    requires GhostsEnd(deps, ghosts) && n in deps && n in done && prefixOf(n) == q && DoneBelow(ghosts, prefixOf, done, q)
    ensures forall p :: p in Ready(deps, done, n) ==> Belongs(deps, prefixOf, p, q)
  {
    forall p | p in Ready(deps, done, n) ensures Belongs(deps, prefixOf, p, q) {
      assert ChildOf(deps, n, p);
      forall c | ChildOf(deps, c, p) ensures prefixOf(c) <= q {
        assert c in done && c !in ghosts;
      }
    }
  }

  lemma StillBelong(deps: Links, ghosts: set<Key>, prefixOf: Key -> int, pending: seq<Key>, done: set<Key>, q: int)
    requires GhostsEnd(deps, ghosts) && pending != [] && AllBelong(deps, ghosts, prefixOf, pending, q)
    requires DoneBelow(ghosts, prefixOf, done, q)
    requires var n := pending[|pending| - 1]; n in deps && (n !in ghosts ==> prefixOf(n) == q)
    ensures var n := pending[|pending| - 1];
            && DoneBelow(ghosts, prefixOf, done + {n}, q)
            && AllBelong(deps, ghosts, prefixOf, pending[..|pending| - 1] + Descending(Ready(deps, done + {n}, n)), q)
  {
    hide Belongs, Unblocked;
    var n, init := pending[|pending| - 1], pending[..|pending| - 1];
    var more := Ready(deps, done + {n}, n);
    DescendingFacts(more);
    if n in ghosts {
      assert more == {};
    } else {
      ReadyBelong(deps, ghosts, prefixOf, done + {n}, n, q);
    }
    forall p | p in init + Descending(more) && p !in ghosts ensures Belongs(deps, prefixOf, p, q) {
      assert p in init || p in more;
      assert p in init ==> p in pending;
    }
  }

  /** If prefixes lead, or the group is pure, then both hold as far as the group goes. */
  lemma {:induction false} RunIsPure(deps: Links, ghosts: set<Key>, prefixOf: Key -> int, pending: seq<Key>, done: set<Key>, q: int)
    requires GhostsEnd(deps, ghosts) && AllBelong(deps, ghosts, prefixOf, pending, q) && DoneBelow(ghosts, prefixOf, done, q)
    requires PrefixesLead(deps, ghosts, prefixOf) || AllPrefix(GcRun(deps, ghosts, pending, done).0, prefixOf, q)
    ensures var run := GcRun(deps, ghosts, pending, done);
            AllPrefix(run.0, prefixOf, q) && AllLead(deps, prefixOf, run.0) && DoneBelow(ghosts, prefixOf, run.1, q)
    decreases deps.Keys - done
  {
    hide Belongs, Leads, GhostsEnd, DoneBelow, Ready;
    if pending == [] || pending[|pending| - 1] !in deps || pending[|pending| - 1] in done {
    } else {
      var n := pending[|pending| - 1];
      var next := pending[..|pending| - 1] + Descending(Ready(deps, done + {n}, n));
      var run, rest := GcRun(deps, ghosts, pending, done), GcRun(deps, ghosts, next, done + {n});
      RunStep(deps, ghosts, pending, done);
      if n !in ghosts {
        assert n in pending;
        BelongsLeads(deps, prefixOf, n, q);
        assert run.0 == [n] + rest.0;
        assert n in run.0 && forall k :: k in rest.0 ==> k in run.0;
      } else {
        assert run.0 == rest.0;
      }
      StillBelong(deps, ghosts, prefixOf, pending, done, q);
      assert n in deps.Keys - done && n !in deps.Keys - (done + {n});
      RunIsPure(deps, ghosts, prefixOf, next, done + {n}, q);
    }
  }

  // ---------------------------------------------------------------------------
  // All groups
  // ---------------------------------------------------------------------------

  ghost predicate PrefixIn(list: seq<Key>, prefixOf: Key -> int, prefixes: seq<int>) {
    forall k :: k in list ==> prefixOf(k) in prefixes
  }

  lemma {:induction false} GroupsArePure(deps: Links, ghosts: set<Key>, prefixOf: Key -> int, prefixes: seq<int>, done: set<Key>)
    requires GhostsEnd(deps, ghosts) && IsDescending(prefixes)
    requires forall q :: q in prefixes ==> DoneBelow(ghosts, prefixOf, done, q)
    requires PrefixesLead(deps, ghosts, prefixOf) || RunsArePure(deps, ghosts, prefixOf, prefixes, done)
    ensures RunsArePure(deps, ghosts, prefixOf, prefixes, done)
    ensures AllLead(deps, prefixOf, GcGroups(deps, ghosts, prefixOf, prefixes, done))
    ensures PrefixesAscend(GcGroups(deps, ghosts, prefixOf, prefixes, done), prefixOf)
    ensures PrefixIn(GcGroups(deps, ghosts, prefixOf, prefixes, done), prefixOf, prefixes)
    decreases |prefixes|
  {
    hide GcRun, Leads, GhostsEnd, DoneBelow, PrefixesLead;
    if prefixes != [] {
      var q, init := prefixes[|prefixes| - 1], prefixes[..|prefixes| - 1];
      var tips := Descending(TipsOf(deps, prefixOf, q));
      var run := GcRun(deps, ghosts, tips, done);
      TipsBelong(deps, ghosts, prefixOf, q);
      RunIsPure(deps, ghosts, prefixOf, tips, done, q);
      forall r | r in init ensures DoneBelow(ghosts, prefixOf, run.1, r) { Higher(ghosts, prefixOf, prefixes, run.1, r); }
      GroupsArePure(deps, ghosts, prefixOf, init, run.1);
      JoinGroups(run.0, GcGroups(deps, ghosts, prefixOf, init, run.1), prefixOf, prefixes);
      LeadBoth(deps, prefixOf, run.0, GcGroups(deps, ghosts, prefixOf, init, run.1));
    }
  }

  lemma TipsBelong(deps: Links, ghosts: set<Key>, prefixOf: Key -> int, q: int)
    ensures AllBelong(deps, ghosts, prefixOf, Descending(TipsOf(deps, prefixOf, q)), q)
  {
    hide Unblocked;
    DescendingFacts(TipsOf(deps, prefixOf, q));
  }

  lemma Higher(ghosts: set<Key>, prefixOf: Key -> int, prefixes: seq<int>, done: set<Key>, r: int)
    requires prefixes != [] && IsDescending(prefixes) && r in prefixes[..|prefixes| - 1]
    requires DoneBelow(ghosts, prefixOf, done, prefixes[|prefixes| - 1])
    ensures DoneBelow(ghosts, prefixOf, done, r)
  {
    var i :| 0 <= i < |prefixes| - 1 && prefixes[i] == r;
    assert r >= prefixes[|prefixes| - 1];
  }

  lemma JoinGroups(run: seq<Key>, rest: seq<Key>, prefixOf: Key -> int, prefixes: seq<int>)
    requires prefixes != [] && IsDescending(prefixes) && AllPrefix(run, prefixOf, prefixes[|prefixes| - 1])
    requires PrefixesAscend(rest, prefixOf) && PrefixIn(rest, prefixOf, prefixes[..|prefixes| - 1])
    ensures PrefixesAscend(run + rest, prefixOf) && PrefixIn(run + rest, prefixOf, prefixes)
  {
    var q := prefixes[|prefixes| - 1];
    assert forall k :: k in run ==> prefixOf(k) == q;
    forall i | 0 <= i < |run| ensures prefixOf(run[i]) == q { assert run[i] in run; }
    forall i | 0 <= i < |rest| ensures prefixOf(rest[i]) >= q { AtLeast(rest, prefixOf, prefixes, i); }
    assert forall k :: k in run + rest <==> k in run || k in rest;
  }

  lemma AtLeast(rest: seq<Key>, prefixOf: Key -> int, prefixes: seq<int>, i: nat)
    requires prefixes != [] && IsDescending(prefixes) && PrefixIn(rest, prefixOf, prefixes[..|prefixes| - 1]) && i < |rest|
    ensures prefixOf(rest[i]) >= prefixes[|prefixes| - 1]
  {
    var k := rest[i];
    assert k in rest && prefixOf(k) in prefixes[..|prefixes| - 1];
    var j :| 0 <= j < |prefixes| - 1 && prefixes[j] == prefixOf(k);
  }

  lemma LeadBoth(deps: Links, prefixOf: Key -> int, a: seq<Key>, b: seq<Key>)
    requires AllLead(deps, prefixOf, a) && AllLead(deps, prefixOf, b)
    ensures AllLead(deps, prefixOf, a + b)
  {
    hide Leads;
  }

  /** On graphs whose keys are all listed, the groups are those of the prefixes exactly if the prefix of
      every key with children is the largest among its children; then the prefixes ascend. */
  lemma GroupedByPrefix(deps: Links, ghosts: set<Key>, prefixOf: Key -> int)
    requires GhostsEnd(deps, ghosts)
    ensures PrefixesLead(deps, ghosts, prefixOf) ==> PureGroups(deps, ghosts, prefixOf)
    ensures PureGroups(deps, ghosts, prefixOf) ==> PrefixesAscend(GcOrder(deps, ghosts, prefixOf), prefixOf)
    ensures Lists(GcOrder(deps, ghosts, prefixOf), deps.Keys - ghosts) && PureGroups(deps, ghosts, prefixOf) ==>
              PrefixesLead(deps, ghosts, prefixOf)
  {
    hide GcGroups, RunsArePure, Leads, GhostsEnd;
    var prefixes := Descending(TipPrefixes(deps, prefixOf));
    DescendingFacts(TipPrefixes(deps, prefixOf));
    if PrefixesLead(deps, ghosts, prefixOf) || PureGroups(deps, ghosts, prefixOf) {
      GroupsArePure(deps, ghosts, prefixOf, prefixes, {});
    }
  }

  /** Without that condition the keys of a prefix can be apart. */
  lemma PrefixesCanMix()
    ensures var deps, prefixOf := map[1 := [2], 2 := [3], 3 := []], (k: Key) => k % 2;
            forall order :: ChildrenFirst(deps, {}, order) && Lists(order, {1, 2, 3}) ==> !PrefixesAscend(order, prefixOf)
  {
  }
}
