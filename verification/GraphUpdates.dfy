/** The graph a parent map stands for, and what one step of each loop of bzrlib/_known_graph_py.py
    does to it: linking a parent, numbering a child, counting a dependency. */
module GraphUpdates {
  import opened Basics
  import opened Worklist
  import opened GraphDistance
  import opened GraphHeads
  import opened GraphOrders

  type ParentMap = map<Key, Option<seq<Key>>>

  // ---------------------------------------------------------------------------
  // Specification: the graph a parent map stands for
  // ---------------------------------------------------------------------------

  function ListOrEmpty(parents: Option<seq<Key>>): seq<Key> {
    if parents.Some? then parents.value else []
  }

  /** Ghosts, which have no parent list, have no parents. */
  ghost function DepsOf(parents: ParentMap): Links {
    map k | k in parents :: ListOrEmpty(parents[k])
  }

  ghost function GhostsOf(parents: ParentMap): set<Key> {
    set k | k in parents && parents[k].None?
  }

  ghost predicate Absent(parents: ParentMap, k: Key) {
    k !in parents || parents[k].None?
  }

  /** Adding a node: parents not known yet become ghosts. */
  ghost function WithNode(parents: ParentMap, key: Key, list: seq<Key>): ParentMap {
    map k | k in parents.Keys + {key} + (set p | p in list) ::
      if k == key then Some(list) else if k in parents then parents[k] else None
  }

  /** The parent map as it was given, with every key it mentions. */
  ghost function Mentioned(given: Links): set<Key> {
    set k, p | k in given && p in given[k] :: p
  }

  ghost function ParentsOf(given: Links): ParentMap {
    map k | k in given.Keys + Mentioned(given) :: if k in given then Some(given[k]) else None
  }

  lemma GivenMore(given: Links, key: Key, list: seq<Key>)
    requires key !in given
    ensures Absent(ParentsOf(given), key)
    ensures ParentsOf(given[key := list]) == WithNode(ParentsOf(given), key, list)
  {
    var given' := given[key := list];
    assert forall p :: p in Mentioned(given') <==> p in Mentioned(given) || p in list by {
      forall p | p in Mentioned(given) ensures p in Mentioned(given') {
        var k :| k in given && p in given[k];
        assert k in given' && p in given'[k];
      }
      forall p | p in list ensures p in Mentioned(given') {
        assert key in given' && p in given'[key];
      }
    }
  }

  ghost function WithGhost<V>(m: map<Key, V>, k: Key, v: V): map<Key, V> {
    if k in m then m else m[k := v]
  }

  lemma GhostCases<V>(m: map<Key, V>, k: Key, v: V)
    ensures WithGhost(m, k, v) == if k in m then m else m[k := v]
  {
  }

  lemma WithNodeMore(parents: ParentMap, key: Key, list: seq<Key>, p: Key)
    ensures WithNode(parents, key, list + [p])
         == WithGhost(WithNode(parents, key, list), p, None)[key := Some(list + [p])]
  {
    assert forall x :: x in list + [p] <==> x in list || x == p;
  }

  lemma WithNothing(parents: ParentMap, key: Key)
    requires Absent(parents, key)
    ensures WithNode(parents, key, []) == parents[key := Some([])]
    ensures key in parents ==> DepsOf(WithNode(parents, key, [])) == DepsOf(parents)
    ensures key !in parents ==> DepsOf(WithNode(parents, key, [])) == DepsOf(parents)[key := []]
  {
  }

  /** A cache entry is what heads() would compute. */
  ghost predicate CacheIsTrue(deps: Links, cache: map<set<Key>, set<Key>>) {
    forall keys :: keys in cache ==> keys <= deps.Keys && cache[keys] == HeadsAmong(deps, keys)
  }

  // ---------------------------------------------------------------------------
  // Linking one parent: the edge enters both directions
  // ---------------------------------------------------------------------------

  lemma InverseNewNode(deps: Links, succs: Links, k: Key)
    requires Inverse(deps, succs) && k !in deps
    ensures Inverse(deps[k := []], succs[k := []])
  {
    var deps', succs' := deps[k := []], succs[k := []];
    forall x, y | x in deps' && y in deps' ensures multiset(succs'[x])[y] == multiset(deps'[y])[x] {
      if x != k && y == k { assert y !in succs[x]; }
      if x == k && y != k { assert x !in deps[y]; }
    }
  }

  lemma InverseNewEdge(deps: Links, succs: Links, k: Key, p: Key)
    requires Inverse(deps, succs) && k in deps && p in deps
    ensures Inverse(deps[k := deps[k] + [p]], succs[p := succs[p] + [k]])
  {
    var deps', succs' := deps[k := deps[k] + [p]], succs[p := succs[p] + [k]];
    forall x, y | x in deps' && y in deps' ensures multiset(succs'[x])[y] == multiset(deps'[y])[x] {
      assert multiset(succs[x])[y] == multiset(deps[y])[x];
    }
  }

  /** While the parents of key are linked, its first i entries are in both directions. */
  ghost predicate Linking(before: ParentMap, key: Key, list: seq<Key>, i: nat, parents: ParentMap, children: Links) {
    && i <= |list|
    && parents == WithNode(before, key, list[..i])[key := Some(list)]
    && Inverse(DepsOf(WithNode(before, key, list[..i])), children)
  }

  lemma DepsMore(before: ParentMap, key: Key, list: seq<Key>, p: Key)
    ensures key in DepsOf(WithNode(before, key, list)) && DepsOf(WithNode(before, key, list))[key] == list
    ensures DepsOf(WithNode(before, key, list + [p]))
         == WithGhost(DepsOf(WithNode(before, key, list)), p, [])[key := list + [p]]
  {
    hide WithNode;
    WithNodeMore(before, key, list, p);
    HasNode(before, key, list);
  }

  lemma HasNode(before: ParentMap, key: Key, list: seq<Key>)
    ensures key in WithNode(before, key, list) && WithNode(before, key, list)[key] == Some(list)
  {
  }

  lemma LinkOneParents(before: ParentMap, key: Key, list: seq<Key>, i: nat)
    requires i < |list|
    ensures WithGhost(WithNode(before, key, list[..i])[key := Some(list)], list[i], None)
         == WithNode(before, key, list[..i + 1])[key := Some(list)]
  {
    hide WithNode;
    assert list[..i + 1] == list[..i] + [list[i]];
    WithNodeMore(before, key, list[..i], list[i]);
    HasNode(before, key, list[..i]);
  }

  lemma LinkOne(before: ParentMap, key: Key, list: seq<Key>, i: nat, parents: ParentMap, children: Links)
    requires Linking(before, key, list, i, parents, children) && i < |list|
    ensures Linking(before, key, list, i + 1, WithGhost(parents, list[i], None),
                    WithGhost(children, list[i], [])[list[i] := WithGhost(children, list[i], [])[list[i]] + [key]])
  {
    hide Inverse, WithNode, DepsOf;
    var p := list[i];
    assert list[..i + 1] == list[..i] + [p];
    LinkOneParents(before, key, list, i);
    DepsMore(before, key, list[..i], p);
    var deps := DepsOf(WithNode(before, key, list[..i]));
    SameKeys(deps, children);
    if p !in deps {
      InverseNewNode(deps, children, p);
    }
    InverseNewEdge(WithGhost(deps, p, []), WithGhost(children, p, []), key, p);
  }

  lemma SameKeys(deps: Links, succs: Links)
    requires Inverse(deps, succs)
    ensures deps.Keys == succs.Keys
  {
  }

  lemma LinkStart(before: ParentMap, key: Key, list: seq<Key>, children: Links)
    requires Absent(before, key) && Inverse(DepsOf(before), children)
    ensures Linking(before, key, list, 0, before[key := Some(list)], WithGhost(children, key, []))
  {
    hide Inverse;
    WithNothing(before, key);
    SameKeys(DepsOf(before), children);
    if key !in before { InverseNewNode(DepsOf(before), children, key); }
    assert list[..0] == [];
  }

  lemma LinkEnd(before: ParentMap, key: Key, list: seq<Key>, parents: ParentMap, children: Links)
    requires Linking(before, key, list, |list|, parents, children)
    ensures parents == WithNode(before, key, list) && Inverse(DepsOf(parents), children)
  {
    hide Inverse, WithNode, DepsOf;
    HasNode(before, key, list);
    assert list[..|list|] == list;
  }

  // ---------------------------------------------------------------------------
  // Counters of topo_sort() and gc_sort()
  // ---------------------------------------------------------------------------

  /** num[c] is how many entries of deps[c] were seen; a key leaves num when it was the last. */
  ghost predicate Counted(deps: Links, num: map<Key, nat>, done: set<Key>, visited: seq<Key>) {
    forall c :: c in deps ==>
      if c in num then num[c] == SeenOf(deps, done, visited, c) else SeenOf(deps, done, visited, c) == |deps[c]|
  }

  lemma PrefixCounts(list: seq<Key>, i: nat)
    requires i < |list|
    ensures list[..i + 1] == list[..i] + [list[i]] && multiset(list[..i + 1]) <= multiset(list)
  {
    assert list == list[..i + 1] + list[i + 1..];
  }

  lemma CountedMore(deps: Links, num: map<Key, nat>, done: set<Key>, visited: seq<Key>, c: Key)
    requires Counted(deps, num, done, visited) && c in deps && c in num
    requires num[c] + 1 == SeenOf(deps, done, visited + [c], c)
    ensures num[c] + 1 == |deps[c]| ==> Counted(deps, num - {c}, done, visited + [c])
    ensures num[c] + 1 != |deps[c]| ==> Counted(deps, num[c := num[c] + 1], done, visited + [c])
  {
    hide CountIn;
    forall k | k in deps && k != c ensures SeenOf(deps, done, visited + [c], k) == SeenOf(deps, done, visited, k) {
    }
  }

  lemma CountedStart(deps: Links, num: map<Key, nat>)
    requires num.Keys == deps.Keys && forall k :: k in num ==> num[k] == 0
    ensures Counted(deps, num, {}, [])
  {
    forall c | c in deps ensures CountIn(deps[c], {}) == 0 { CountNone(deps[c]); }
  }

  lemma {:induction false} CountNone(list: seq<Key>)
    ensures CountIn(list, {}) == 0
  {
    if list != [] { CountNone(list[..|list| - 1]); }
  }

  lemma CountedEnd(deps: Links, num: map<Key, nat>, done: set<Key>, n: Key, visited: seq<Key>)
    requires Counted(deps, num, done, visited)
    requires forall c :: c in deps ==> SeenOf(deps, done, visited, c) == CountIn(deps[c], done + {n})
    ensures Counted(deps, num, done + {n}, [])
  {
    hide CountIn;
    assert forall k: Key :: multiset([])[k] == 0;
  }

  ghost predicate AreTails(deps: Links, tails: seq<Key>) {
    Distinct(tails) && forall k :: k in tails <==> k in deps && deps[k] == []
  }

  lemma TailIsKey(deps: Links, tails: seq<Key>, i: nat)
    requires AreTails(deps, tails) && i < |tails|
    ensures tails[i] in deps
  {
    assert tails[i] in tails;
  }

  lemma Shrinks<V>(all: set<Key>, f: map<Key, V>, n: Key, v: V)
    requires n in all && n !in f
    ensures all - f[n := v].Keys < all - f.Keys
  {
    assert n in all - f.Keys && n !in all - f[n := v].Keys;
  }

  lemma WorkStarts(deps: Links, tails: seq<Key>)
    requires AreTails(deps, tails)
    ensures Working(deps, {}, tails)
  {
    forall k | k in deps ensures AllIn(deps[k], {}) <==> deps[k] == [] { NoneIn(deps[k]); }
  }

  lemma NoneIn(list: seq<Key>)
    ensures AllIn(list, {}) <==> list == []
  {
    CountNone(list);
    CountIsAll(list, {});
  }

  // ---------------------------------------------------------------------------
  // _find_gdfo(): while the children of n, whose gdfo is v, are updated
  // ---------------------------------------------------------------------------

  /** known[c] is how many entries of deps[c] were seen, for the keys that are neither untouched nor complete. */
  ghost predicate Known(deps: Links, known: map<Key, nat>, done: set<Key>, visited: seq<Key>) {
    forall c :: c in deps ==>
      if c in known then known[c] == SeenOf(deps, done, visited, c)
      else SeenOf(deps, done, visited, c) == 0 || SeenOf(deps, done, visited, c) == |deps[c]|
  }

  lemma KnownMore(deps: Links, known: map<Key, nat>, done: set<Key>, visited: seq<Key>, c: Key, seen: nat)
    requires Known(deps, known, done, visited) && c in deps
    requires seen == SeenOf(deps, done, visited + [c], c) == SeenOf(deps, done, visited, c) + 1 <= |deps[c]|
    ensures seen == (if c in known then known[c] else 0) + 1
    ensures seen == |deps[c]| ==> Known(deps, known - {c}, done, visited + [c])
    ensures seen != |deps[c]| ==> Known(deps, known[c := seen], done, visited + [c])
  {
    hide CountIn;
    forall k | k in deps && k != c ensures SeenOf(deps, done, visited + [c], k) == SeenOf(deps, done, visited, k) {
    }
  }

  lemma KnownEnd(deps: Links, known: map<Key, nat>, done: set<Key>, n: Key, visited: seq<Key>)
    requires Known(deps, known, done, visited)
    requires forall c :: c in deps ==> SeenOf(deps, done, visited, c) == CountIn(deps[c], done + {n})
    ensures Known(deps, known, done + {n}, [])
  {
    hide CountIn;
    assert forall k: Key :: multiset([])[k] == 0;
  }

  ghost predicate Numbering(deps: Links, gdfo: map<Key, Option<nat>>, f: map<Key, nat>, n: Key, v: nat, visited: seq<Key>) {
    && gdfo.Keys == deps.Keys
    && forall c :: c in deps ==> gdfo[c] == SoFar(deps[c], if c in visited then f[n := v] else f)
  }

  function Raised(old': Option<nat>, v: nat): nat {
    if old'.None? || v > old'.value then v else old'.value
  }

  lemma RaisedCases(gdfo: map<Key, Option<nat>>, c: Key, v: nat)
    requires c in gdfo
    ensures gdfo[c].None? || v > gdfo[c].value ==> Raised(gdfo[c], v) == v
    ensures !(gdfo[c].None? || v > gdfo[c].value) ==> gdfo[c := Some(Raised(gdfo[c], v))] == gdfo
  {
  }

  lemma SoFarWithOne(parents: seq<Key>, f: map<Key, nat>, n: Key, v: nat)
    requires n !in f && v > 0
    ensures n in parents ==> SoFar(parents, f[n := v]) == Some(Raised(SoFar(parents, f), v + 1))
    ensures n in parents ==> SoFar(parents, f[n := v]) == Some(Raised(SoFar(parents, f[n := v]), v + 1))
    ensures n !in parents ==> SoFar(parents, f[n := v]) == SoFar(parents, f)
  {
    hide MaxOf;
    MaxWithOne(f, n, v, parents);
  }

  lemma NumberOne(deps: Links, gdfo: map<Key, Option<nat>>, f: map<Key, nat>, n: Key, v: nat, visited: seq<Key>, c: Key)
    requires Numbering(deps, gdfo, f, n, v, visited) && n !in f && v > 0 && c in deps && n in deps[c]
    ensures Numbering(deps, gdfo[c := Some(Raised(gdfo[c], v + 1))], f, n, v, visited + [c])
  {
    hide SoFar;
    SoFarWithOne(deps[c], f, n, v);
    assert forall k :: k in visited + [c] <==> k in visited || k == c;
  }

  lemma NumberEnd(deps: Links, succs: Links, gdfo: map<Key, Option<nat>>, f: map<Key, nat>, n: Key, v: nat)
    requires Inverse(deps, succs) && n in deps && n !in f && v > 0
    requires Numbering(deps, gdfo, f, n, v, succs[n])
    ensures Numbering(deps, gdfo, f[n := v], n, v, [])
  {
    hide SoFar, Inverse;
    forall c | c in deps ensures gdfo[c] == SoFar(deps[c], f[n := v]) {
      InverseMeans(deps, succs, c, n);
      SoFarWithOne(deps[c], f, n, v);
    }
  }

  /** A pending key already has the gdfo its equation asks for. */
  lemma PendingIsRight(deps: Links, gdfo: map<Key, Option<nat>>, f: map<Key, nat>, n: Key)
    requires Partial(deps, f) && Numbering(deps, gdfo, f, n, 0, []) && n in deps && AllIn(deps[n], f.Keys) && n !in f
    ensures gdfo[n] == Some(1 + MaxOf(f, deps[n]))
    ensures Partial(deps, f[n := 1 + MaxOf(f, deps[n])])
  {
    if deps[n] != [] { AllPositive(f, deps[n]); }
    PartialMore(deps, f, n, 1 + MaxOf(f, deps[n]));
  }

  /** Between two rounds of the worklist. */
  ghost predicate BetweenRounds(deps: Links, succs: Links, gdfo: map<Key, Option<nat>>, known: map<Key, nat>, f: map<Key, nat>,
                          pending: seq<Key>) {
    && Inverse(deps, succs) && Partial(deps, f) && Working(deps, f.Keys, pending)
    && Known(deps, known, f.Keys, []) && Numbering(deps, gdfo, f, 0, 0, [])
  }

  /** Within a round. */
  ghost predicate Updating(deps: Links, succs: Links, gdfo: map<Key, Option<nat>>, known: map<Key, nat>, f: map<Key, nat>,
                           n: Key, v: nat, visited: seq<Key>, pending: seq<Key>) {
    && Visiting(deps, succs, f.Keys, n, visited, pending)
    && Known(deps, known, f.Keys, visited) && Numbering(deps, gdfo, f, n, v, visited)
    && Partial(deps, f[n := v]) && v > 0 && n in gdfo && gdfo[n] == Some(v)
  }

  lemma StartUpdate(deps: Links, succs: Links, gdfo: map<Key, Option<nat>>, known: map<Key, nat>, f: map<Key, nat>,
                    pending: seq<Key>) returns (v: nat)
    requires BetweenRounds(deps, succs, gdfo, known, f, pending) && pending != []
    ensures Updating(deps, succs, gdfo, known, f, pending[|pending| - 1], v, [], pending[..|pending| - 1])
    ensures pending[|pending| - 1] in deps && pending[|pending| - 1] !in f
  {
    hide Inverse, Known, Partial, SoFar, MaxOf;
    var n := pending[|pending| - 1];
    assert n in pending;
    StartVisit(deps, succs, f.Keys, pending);
    PendingIsRight(deps, gdfo, f, n);
    v := 1 + MaxOf(f, deps[n]);
  }

  lemma UpdateOne(deps: Links, succs: Links, gdfo: map<Key, Option<nat>>, known: map<Key, nat>, f: map<Key, nat>,
                  n: Key, v: nat, list: seq<Key>, i: nat, pending: seq<Key>) returns (seen: nat)
    requires i < |list| && Updating(deps, succs, gdfo, known, f, n, v, list[..i], pending)
    requires n in succs && list == succs[n]
    ensures list[i] in deps && n in gdfo && gdfo[n] == Some(v) && list[i] in gdfo
    ensures seen == (if list[i] in known then known[list[i]] else 0) + 1
    ensures seen == |deps[list[i]]| ==>
              Updating(deps, succs, gdfo[list[i] := Some(Raised(gdfo[list[i]], v + 1))], known - {list[i]}, f, n, v,
                       list[..i + 1], pending + [list[i]])
    ensures seen != |deps[list[i]]| ==>
              Updating(deps, succs, gdfo[list[i] := Some(Raised(gdfo[list[i]], v + 1))], known[list[i] := seen], f, n, v,
                       list[..i + 1], pending)
  {
    hide Known, Partial, SoFar, Inverse, SeenOf;
    var c, visited := list[i], list[..i];
    PrefixCounts(list, i);
    UnfoldVisiting(deps, succs, f.Keys, n, visited, pending);
    VisitOne(deps, succs, f.Keys, n, visited, c, pending);
    seen := SeenOf(deps, f.Keys, visited + [c], c);
    KnownMore(deps, known, f.Keys, visited, c, seen);
    NumberOne(deps, gdfo, f, n, v, visited, c);
  }

  lemma UnfoldVisiting(deps: Links, succs: Links, done: set<Key>, n: Key, visited: seq<Key>, pending: seq<Key>)
    requires Visiting(deps, succs, done, n, visited, pending)
    ensures n in deps && n !in done && Inverse(deps, succs)
  {
  }

  lemma EndUpdate(deps: Links, succs: Links, gdfo: map<Key, Option<nat>>, known: map<Key, nat>, f: map<Key, nat>,
                  n: Key, v: nat, pending: seq<Key>)
    requires n in succs && Updating(deps, succs, gdfo, known, f, n, v, succs[n], pending)
    ensures BetweenRounds(deps, succs, gdfo, known, f[n := v], pending)
  {
    hide Known, Partial, SoFar, Inverse, SeenOf, Visiting, Working, CountIn;
    UnfoldVisiting(deps, succs, f.Keys, n, succs[n], pending);
    EndVisit(deps, succs, f.Keys, n, succs[n], pending);
    assert f[n := v].Keys == f.Keys + {n};
    KnownEnd(deps, known, f.Keys, n, succs[n]);
    NumberEnd(deps, succs, gdfo, f, n, v);
  }

  /** The tails, which have no parents, have gdfo 1; no other key has one. */
  ghost predicate OnlyOnes(gdfo: map<Key, Option<nat>>, tails: seq<Key>) {
    forall k :: k in gdfo ==> gdfo[k] == if k in tails then Some(1) else None
  }

  lemma OnlyOnesStart(gdfo: map<Key, Option<nat>>)
    requires AllNone(gdfo)
    ensures OnlyOnes(gdfo, [])
  {
  }

  lemma OnlyOnesMore(gdfo: map<Key, Option<nat>>, tails: seq<Key>, k: Key)
    requires OnlyOnes(gdfo, tails)
    ensures OnlyOnes(gdfo[k := Some(1)], tails + [k])
  {
  }

  lemma DepsKeys(parents: ParentMap)
    ensures DepsOf(parents).Keys == parents.Keys
  {
  }

  lemma {:induction false} MaxOfNothing(list: seq<Key>)
    ensures MaxOf(map[], list) == 0
  {
    if list != [] { MaxOfNothing(list[..|list| - 1]); }
  }

  lemma NumberingStart(deps: Links, succs: Links, gdfo: map<Key, Option<nat>>, tails: seq<Key>)
    requires Inverse(deps, succs) && OnlyOnes(gdfo, tails) && gdfo.Keys == deps.Keys
    requires AreTails(deps, tails)
    ensures BetweenRounds(deps, succs, gdfo, map[], map[], tails)
  {
    hide Inverse;
    WorkStarts(deps, tails);
    var f: map<Key, nat> := map[];
    assert f.Keys == {};
    forall c | c in deps ensures SeenOf(deps, f.Keys, [], c) == 0 && gdfo[c] == SoFar(deps[c], f) {
      CountNone(deps[c]);
      MaxOfNothing(deps[c]);
    }
  }

  lemma NumberingDone(deps: Links, succs: Links, gdfo: map<Key, Option<nat>>, known: map<Key, nat>, f: map<Key, nat>)
    requires BetweenRounds(deps, succs, gdfo, known, f, [])
    ensures Numbered(deps, gdfo, f)
  {
  }

  ghost predicate AllNone(gdfo: map<Key, Option<nat>>) {
    forall k :: k in gdfo ==> gdfo[k] == None
  }

  lemma AllNoneMore(gdfo: map<Key, Option<nat>>, k: Key)
    requires AllNone(gdfo)
    ensures AllNone(gdfo[k := None]) && AllNone(WithGhost(gdfo, k, None))
  {
  }

  lemma NoneLeft<T>(all: set<T>, seen: set<T>)
    requires all - seen == {} && seen <= all
    ensures all == seen
  {
    assert all == all - seen + seen;
  }

  lemma AllSeen(given: Links, seen: Links, rest: set<Key>)
    requires rest == {} && rest == given.Keys - seen.Keys && seen.Keys <= given.Keys
    requires forall k :: k in seen ==> seen[k] == given[k]
    ensures seen == given
  {
    NoneLeft(given.Keys, seen.Keys);
    assert forall k :: k in seen ==> seen[k] == given[k];
  }

  // ---------------------------------------------------------------------------
  // add_node()
  // ---------------------------------------------------------------------------

  ghost predicate AllSome(gdfo: map<Key, Option<nat>>) {
    forall k :: k in gdfo ==> gdfo[k].Some?
  }

  /** The values from which add_node() starts: those there were, 1 for new ghosts, 0 for the new key. */
  ghost function StartValues(d: map<Key, nat>, key: Key, list: seq<Key>): map<Key, nat> {
    map k | k in d.Keys + {key} + (set p | p in list) :: if k == key then 0 else if k in d then d[k] else 1
  }

  /** While parents are linked: every key but the new one has its value. */
  ghost predicate Grown(d: map<Key, nat>, key: Key, list: seq<Key>, i: nat, gdfo: map<Key, Option<nat>>) {
    && i <= |list|
    && gdfo.Keys == d.Keys + {key} + (set p | p in list[..i])
    && forall k :: k in gdfo && k != key ==> gdfo[k] == Some(if k in d then d[k] else 1)
  }

  lemma GrownStart(d: map<Key, nat>, key: Key, list: seq<Key>, gdfo: map<Key, Option<nat>>)
    requires gdfo.Keys == d.Keys + {key} && forall k :: k in d && k != key ==> gdfo[k] == Some(d[k])
    ensures Grown(d, key, list, 0, gdfo)
  {
    assert list[..0] == [];
  }

  lemma GrownOne(d: map<Key, nat>, key: Key, list: seq<Key>, i: nat, gdfo: map<Key, Option<nat>>)
    requires Grown(d, key, list, i, gdfo) && i < |list| && key !in list
    ensures Grown(d, key, list, i + 1, WithGhost(gdfo, list[i], Some(1)))
    ensures WithGhost(gdfo, list[i], Some(1))[list[i]] == Some(At(StartValues(d, key, list), list[i]))
  {
    var p := list[i];
    assert list[..i + 1] == list[..i] + [p];
    assert forall x :: x in list[..i + 1] <==> x in list[..i] || x == p;
    assert p in list;
  }

  /** The values once the new key has its own. */
  lemma GrownEnd(d: map<Key, nat>, key: Key, list: seq<Key>, gdfo: map<Key, Option<nat>>, v: nat)
    requires Grown(d, key, list, |list|, gdfo)
    ensures AllSome(gdfo[key := Some(v)]) && Values(gdfo[key := Some(v)]) == StartValues(d, key, list)[key := v]
  {
    assert list[..|list|] == list;
    assert forall k :: k in gdfo && k != key ==> gdfo[k] == Some(if k in d then d[k] else 1);
  }

  /** The new graph has the old edges and those of the new key. */
  ghost predicate Extended(deps: Links, deps': Links, key: Key, list: seq<Key>) {
    && deps'.Keys == deps.Keys + {key} + (set p | p in list)
    && deps'[key] == list && (key in deps ==> deps[key] == [])
    && forall k :: k in deps' && k != key ==> deps'[k] == if k in deps then deps[k] else []
  }

  lemma WithNodeExtends(parents: ParentMap, key: Key, list: seq<Key>)
    requires Absent(parents, key)
    ensures Extended(DepsOf(parents), DepsOf(WithNode(parents, key, list)), key, list)
  {
  }

  lemma OldValuesAreLow(deps: Links, d: map<Key, nat>, deps': Links, goal: map<Key, nat>, key: Key, list: seq<Key>, k: Key)
    requires IsGdfo(deps, d) && IsGdfo(deps', goal) && Extended(deps, deps', key, list) && Closed(deps) && k in deps
    ensures 1 <= d[k] <= goal[k]
  {
    hide IsGdfo;
    var e := map x | x in deps :: At(goal, x);
    GdfoGrows(deps', goal);
    GdfoKeys(deps, d);
    GdfoKeys(deps', goal);
    assert Closed(deps);
    forall c, p | c in deps && p in deps[c] ensures At(e, p) + 1 <= e[c] {
      assert c in deps' && deps'[c] == deps[c];
    }
    GdfoIsLeast(deps, d, e, k);
  }

  lemma GdfoKeys(deps: Links, d: map<Key, nat>)
    requires IsGdfo(deps, d)
    ensures d.Keys == deps.Keys && forall k :: k in d ==> d[k] == 1 + MaxOf(d, deps[k])
  {
  }

  lemma StartAt(d: map<Key, nat>, key: Key, list: seq<Key>, k: Key)
    ensures k in StartValues(d, key, list) <==> k in d || k == key || k in list
    ensures k != key && k in d ==> StartValues(d, key, list)[k] == d[k]
    ensures k != key && k !in d && k in list ==> StartValues(d, key, list)[k] == 1
  {
  }

  lemma StartEdge(deps: Links, d: map<Key, nat>, deps': Links, key: Key, list: seq<Key>, c: Key, p: Key)
    requires IsGdfo(deps, d) && Extended(deps, deps', key, list) && Closed(deps) && key !in list
    requires c in deps' && p in deps'[c] && p != key
    ensures var d' := StartValues(d, key, list)[key := 1 + MaxOf(StartValues(d, key, list), list)];
            c in d' && At(d', p) + 1 <= d'[c]
  {
    hide MaxOf, StartValues, IsGdfo;
    StartAt(d, key, list, c);
    StartAt(d, key, list, p);
    GdfoKeys(deps, d);
    if c == key {
      MaxBound(StartValues(d, key, list), list, p);
    } else if c in deps {
      assert p in deps[c] && p in deps;
      MaxBound(d, deps[c], p);
    }
  }

  /** Before the children are updated only the new key may be followed by values that are too low. */
  lemma UprightStart(deps: Links, d: map<Key, nat>, deps': Links, goal: map<Key, nat>, key: Key, list: seq<Key>)
    requires IsGdfo(deps, d) && IsGdfo(deps', goal) && Extended(deps, deps', key, list) && Closed(deps) && key !in list
    ensures Upright(deps', StartValues(d, key, list)[key := 1 + MaxOf(StartValues(d, key, list), list)], goal, [key])
  {
    hide IsGdfo, MaxOf;
    GdfoKeys(deps, d);
    GdfoKeys(deps', goal);
    var start := StartValues(d, key, list);
    var d' := start[key := 1 + MaxOf(start, list)];
    forall p | p in list ensures At(start, p) <= At(goal, p) {
      if p in deps { OldValuesAreLow(deps, d, deps', goal, key, list, p); }
    }
    MaxMonotone(start, goal, list);
    forall c | c in deps' ensures 1 <= d'[c] <= goal[c] {
      if c != key && c in deps { OldValuesAreLow(deps, d, deps', goal, key, list, c); }
    }
    forall c, p | c in deps' && p in deps'[c] && p !in [key] ensures At(d', p) + 1 <= d'[c] {
      StartEdge(deps, d, deps', key, list, c, p);
    }
  }

  lemma NoSelfParent(deps: Links, key: Key)
    requires Acyclic(deps) && key in deps
    ensures key !in deps[key]
  {
    if key in deps[key] { assert IsCycle(deps, [key, key]); }
  }

  /** A node that was not known leaves every cached answer true. */
  lemma CacheStaysTrue(deps: Links, deps': Links, cache: map<set<Key>, set<Key>>, key: Key, list: seq<Key>)
    requires CacheIsTrue(deps, cache) && Closed(deps) && Extended(deps, deps', key, list) && key !in deps
    ensures CacheIsTrue(deps', cache)
  {
    hide HeadsAmong;
    assert Embedded(deps, deps');
    forall keys | keys in cache ensures keys <= deps'.Keys && cache[keys] == HeadsAmong(deps', keys) {
      HeadsKept(deps, deps', keys);
    }
  }

  /** The state while add_node() raises values. */
  ghost predicate Repairing(deps: Links, succs: Links, gdfo: map<Key, Option<nat>>, goal: map<Key, nat>, pending: seq<Key>) {
    && Inverse(deps, succs) && AllSome(gdfo) && IsGdfo(deps, goal) && gdfo.Keys == deps.Keys
    && Upright(deps, Values(gdfo), goal, pending) && forall k :: k in pending ==> k in deps
  }

  ghost predicate RepairingChildren(deps: Links, succs: Links, gdfo: map<Key, Option<nat>>, goal: map<Key, nat>,
                                    pending: seq<Key>, n: Key, visited: seq<Key>) {
    && Inverse(deps, succs) && AllSome(gdfo) && IsGdfo(deps, goal) && gdfo.Keys == deps.Keys && n in deps
    && Raising(deps, Values(gdfo), goal, pending, n, visited) && forall k :: k in pending ==> k in deps
  }

  lemma RepairFirst(deps: Links, succs: Links, gdfo: map<Key, Option<nat>>, goal: map<Key, nat>, pending: seq<Key>)
    requires Repairing(deps, succs, gdfo, goal, pending) && pending != []
    ensures RepairingChildren(deps, succs, gdfo, goal, pending[1..], pending[0], [])
  {
    hide Upright, Raising, Inverse, IsGdfo;
    assert forall k :: k in pending <==> k == pending[0] || k in pending[1..];
    RaisingStarts(deps, Values(gdfo), goal, pending);
  }

  lemma RepairChild(deps: Links, succs: Links, gdfo: map<Key, Option<nat>>, goal: map<Key, nat>, pending: seq<Key>,
                    n: Key, list: seq<Key>, i: nat)
    requires n in succs && list == succs[n] && i < |list|
    requires RepairingChildren(deps, succs, gdfo, goal, pending, n, list[..i])
    ensures n in gdfo && list[i] in gdfo && gdfo[n].Some? && gdfo[list[i]].Some?
    ensures gdfo[list[i]].value >= gdfo[n].value + 1 ==>
              RepairingChildren(deps, succs, gdfo, goal, pending, n, list[..i + 1])
    ensures gdfo[list[i]].value < gdfo[n].value + 1 ==>
              RepairingChildren(deps, succs, gdfo[list[i] := Some(gdfo[n].value + 1)], goal, pending + [list[i]], n, list[..i + 1])
  {
    hide Raising, Inverse, IsGdfo;
    var c, d := list[i], Values(gdfo);
    assert list[..i + 1] == list[..i] + [c];
    InverseMeans(deps, succs, c, n);
    assert c in succs[n];
    if gdfo[c].value < gdfo[n].value + 1 {
      RaiseChild(deps, d, goal, pending, n, list[..i], c);
      assert Values(gdfo[c := Some(gdfo[n].value + 1)]) == d[c := d[n] + 1];
    } else {
      KeepChild(deps, d, goal, pending, n, list[..i], c);
    }
  }

  lemma RepairLast(deps: Links, succs: Links, gdfo: map<Key, Option<nat>>, goal: map<Key, nat>, pending: seq<Key>, n: Key)
    requires n in succs && RepairingChildren(deps, succs, gdfo, goal, pending, n, succs[n])
    ensures Repairing(deps, succs, gdfo, goal, pending)
  {
    hide Raising, Upright, Inverse, IsGdfo;
    forall c | c in deps && n in deps[c] ensures c in succs[n] {
      InverseMeans(deps, succs, c, n);
    }
    RaisingStops(deps, Values(gdfo), goal, pending, n, succs[n]);
  }

  lemma Repaired(deps: Links, succs: Links, gdfo: map<Key, Option<nat>>, goal: map<Key, nat>)
    requires Repairing(deps, succs, gdfo, goal, [])
    ensures Settled(deps, gdfo)
  {
    hide Upright, Inverse, IsGdfo;
    InverseKeys(deps, succs);
    assert Closed(deps);
    RaisingEnds(deps, Values(gdfo), goal);
  }

  /** How much the values can still be raised. */
  ghost function Room(keys: seq<Key>, gdfo: map<Key, Option<nat>>, goal: map<Key, nat>): int {
    Slack(keys, Values(gdfo), goal)
  }

  lemma RoomFalls(keys: seq<Key>, gdfo: map<Key, Option<nat>>, goal: map<Key, nat>, c: Key, v: nat)
    requires Distinct(keys) && c in keys && c in gdfo && gdfo[c].Some? && gdfo[c].value < v
    ensures Room(keys, gdfo[c := Some(v)], goal) < Room(keys, gdfo, goal)
  {
    hide Distinct, Slack;
    SlackFalls(keys, Values(gdfo), goal, c, v);
    assert Values(gdfo[c := Some(v)]) == Values(gdfo)[c := v];
  }

  lemma RoomIsNatural(deps: Links, succs: Links, gdfo: map<Key, Option<nat>>, goal: map<Key, nat>, pending: seq<Key>,
                      keys: seq<Key>)
    requires Repairing(deps, succs, gdfo, goal, pending)
    ensures Room(keys, gdfo, goal) >= 0
  {
    hide Slack, Inverse, IsGdfo;
    SlackIsNatural(keys, Values(gdfo), goal);
  }

  /** Values computed step by step are those computed from scratch. */
  lemma OneNumbering(deps: Links, gdfo1: map<Key, Option<nat>>, gdfo2: map<Key, Option<nat>>)
    requires Settled(deps, gdfo1) && Settled(deps, gdfo2) && Closed(deps)
    ensures gdfo1 == gdfo2
  {
    assert Closed(deps);
    GdfoIsUnique(deps, Values(gdfo1), Values(gdfo2));
    forall k | k in deps ensures gdfo1[k] == gdfo2[k] {
      assert Values(gdfo1)[k] == Values(gdfo2)[k];
    }
  }

  lemma EmptyCacheIsTrue(deps: Links)
    ensures CacheIsTrue(deps, map[])
  {
  }

  lemma ValuesKeys(gdfo: map<Key, Option<nat>>)
    requires AllSome(gdfo)
    ensures Values(gdfo).Keys == gdfo.Keys
  {
    assert forall k :: k in gdfo ==> gdfo[k].Some?;
  }

  lemma GrownFrom(gdfo: map<Key, Option<nat>>, key: Key, list: seq<Key>)
    requires AllSome(gdfo)
    ensures key in gdfo ==> Grown(Values(gdfo), key, list, 0, gdfo)
    ensures key !in gdfo ==> Grown(Values(gdfo), key, list, 0, gdfo[key := None])
  {
    hide Grown;
    ValuesKeys(gdfo);
    GrownStart(Values(gdfo), key, list, if key in gdfo then gdfo else gdfo[key := None]);
  }

  lemma NotOwnParent(before: ParentMap, key: Key, list: seq<Key>)
    requires Acyclic(DepsOf(WithNode(before, key, list)))
    ensures key !in list
  {
    hide Acyclic, WithNode;
    HasNode(before, key, list);
    NoSelfParent(DepsOf(WithNode(before, key, list)), key);
  }

  lemma MaxOfStart(d: map<Key, nat>, list: seq<Key>)
    ensures MaxOf(d, list[..0]) == 0 && list[..|list|] == list
  {
  }

  lemma MaxOfMore(d: map<Key, nat>, list: seq<Key>, i: nat)
    requires i < |list|
    ensures MaxOf(d, list[..i + 1]) == if MaxOf(d, list[..i]) < At(d, list[i]) then At(d, list[i]) else MaxOf(d, list[..i])
  {
    assert list[..i + 1][..i] == list[..i];
  }

  lemma HasGhost<V>(m: map<Key, V>, k: Key, v: V)
    ensures k in WithGhost(m, k, v)
  {
  }

  lemma RepairStarts(before: ParentMap, deps: Links, succs: Links, gdfo: map<Key, Option<nat>>, d: map<Key, nat>,
                     key: Key, list: seq<Key>) returns (goal: map<Key, nat>)
    requires Absent(before, key) && deps == DepsOf(WithNode(before, key, list)) && Inverse(deps, succs)
    requires IsGdfo(DepsOf(before), d) && Closed(DepsOf(before)) && Acyclic(deps) && key !in list
    requires AllSome(gdfo) && Values(gdfo) == StartValues(d, key, list)[key := 1 + MaxOf(StartValues(d, key, list), list)]
    ensures Repairing(deps, succs, gdfo, goal, [key])
  {
    hide Inverse, WithNode, DepsOf, Acyclic, IsGdfo, Upright, StartValues, MaxOf;
    InverseKeys(deps, succs);
    assert Closed(deps);
    goal := GdfoExists(deps);
    WithNodeExtends(before, key, list);
    UprightStart(DepsOf(before), d, deps, goal, key, list);
    UprightKeys(deps, Values(gdfo), goal, [key]);
    ValuesKeys(gdfo);
    ExtendedHas(DepsOf(before), deps, key, list);
  }

  lemma UprightKeys(deps: Links, d: map<Key, nat>, goal: map<Key, nat>, pending: seq<Key>)
    requires Upright(deps, d, goal, pending)
    ensures d.Keys == deps.Keys
  {
  }

  lemma ExtendedHas(deps: Links, deps': Links, key: Key, list: seq<Key>)
    requires Extended(deps, deps', key, list)
    ensures key in deps'
  {
  }

  lemma RepairingKeys(deps: Links, succs: Links, gdfo: map<Key, Option<nat>>, goal: map<Key, nat>,
                      pending: seq<Key>, n: Key, visited: seq<Key>)
    requires RepairingChildren(deps, succs, gdfo, goal, pending, n, visited)
    ensures n in deps && gdfo.Keys == deps.Keys
  {
  }

  // ---------------------------------------------------------------------------
  // heads()
  // ---------------------------------------------------------------------------

  lemma ValueOf(gdfo: map<Key, Option<nat>>, k: Key)
    requires AllSome(gdfo) && k in gdfo
    ensures gdfo[k].Some? && At(Values(gdfo), k) == gdfo[k].value
  {
  }

  /** Fewer than two candidates are their own heads. */
  lemma HeadsOfFew(deps: Links, keys: set<Key>, gdfo: map<Key, Option<nat>>)
    requires Settled(deps, gdfo) && keys <= deps.Keys
    ensures keys - {NULL_REVISION} == {} ==>
              HeadsOf(deps, keys) == if NULL_REVISION in keys then {NULL_REVISION} else {}
    ensures keys - {NULL_REVISION} != {} ==> HeadsOf(deps, keys) == HeadsAmong(deps, keys - {NULL_REVISION})
    ensures keys - {NULL_REVISION} != {} && |keys - {NULL_REVISION}| < 2 ==> HeadsOf(deps, keys) == keys - {NULL_REVISION}
  {
    hide IsGdfo, ProperAncestor;
    var candidates := keys - {NULL_REVISION};
    if candidates == {} {
      assert keys <= candidates + {NULL_REVISION};
    } else if |candidates| < 2 {
      var k := AnyOf(candidates);
      OnlyOne(candidates, k);
      if ProperAncestor(deps, k, k) { AncestorIsLower(deps, Values(gdfo), k, k); }
      assert IsHead(deps, candidates, k);
    }
  }

  lemma OnlyOne(s: set<Key>, k: Key)
    requires k in s && |s| < 2
    ensures s == {k}
  {
    assert |s - {k}| == |s| - 1 == 0;
    assert s == s - {k} + {k};
  }

  lemma CachedAnswer(deps: Links, cache: map<set<Key>, set<Key>>, keys: set<Key>)
    requires CacheIsTrue(deps, cache) && keys in cache
    ensures cache[keys] == HeadsAmong(deps, keys)
  {
  }

  lemma CacheMore(deps: Links, cache: map<set<Key>, set<Key>>, keys: set<Key>)
    requires CacheIsTrue(deps, cache) && keys <= deps.Keys
    ensures CacheIsTrue(deps, cache[keys := HeadsAmong(deps, keys)])
  {
  }

  /** After some candidates were entered: their parents are pending, lowest is the least of their gdfos. */
  ghost predicate Starting(deps: Links, d: map<Key, nat>, keys: set<Key>, lowest: Option<nat>, pending: seq<Key>) {
    && (forall k :: k in keys ==> k in deps && Found(deps[k], {}, pending) && lowest.Some? && lowest.value <= At(d, k))
    && forall s :: s in pending ==> BelowQuery(deps, keys, s)
  }

  lemma SearchStarts(deps: Links, d: map<Key, nat>)
    ensures Starting(deps, d, {}, None, [])
  {
  }

  lemma StartMore(deps: Links, d: map<Key, nat>, keys: set<Key>, lowest: Option<nat>, pending: seq<Key>, k: Key)
    requires Starting(deps, d, keys, lowest, pending) && k in deps && Closed(deps)
    ensures Starting(deps, d, keys + {k}, if lowest.None? || At(d, k) < lowest.value then Some(At(d, k)) else lowest,
                     pending + deps[k])
  {
    hide ProperAncestor;
    forall s | s in pending + deps[k] ensures BelowQuery(deps, keys + {k}, s) {
      if s in deps[k] {
        ParentIsAncestor(deps, s, k);
        assert k in keys + {k};
      } else {
        assert BelowQuery(deps, keys, s);
        var o :| o in keys && ProperAncestor(deps, s, o);
        assert o in keys + {k};
      }
    }
  }

  lemma StartSearch(deps: Links, d: map<Key, nat>, keys: set<Key>, lowest: Option<nat>, pending: seq<Key>)
    requires Starting(deps, d, keys, lowest, pending) && keys != {}
    ensures lowest.Some? && Searching(deps, d, lowest.value, keys, {}, pending)
    ensures forall k :: k in keys ==> k in deps && lowest.value <= At(d, k)
  {
    hide BelowQuery, Found;
    var k := AnyOf(keys);
    assert k in deps;
  }

  lemma NextIsKey(deps: Links, d: map<Key, nat>, lowest: nat, keys: set<Key>, seen: set<Key>, pending: seq<Key>)
    requires Searching(deps, d, lowest, keys, seen, pending) && pending != []
    ensures pending[|pending| - 1] in deps
  {
    assert pending[|pending| - 1] in pending;
    BelowMeansPresent(deps, keys, pending[|pending| - 1]);
  }

  // ---------------------------------------------------------------------------
  // topo_sort() and gc_sort(): deps is what a node waits for, succs who waits for it
  // ---------------------------------------------------------------------------

  ghost predicate Listed(deps: Links, ghosts: set<Key>, done: set<Key>, order: seq<Key>) {
    ParentsFirst(deps, ghosts, order) && Lists(order, done - ghosts)
  }

  ghost predicate Sorting(deps: Links, succs: Links, num: map<Key, nat>, done: set<Key>, pending: seq<Key>) {
    Inverse(deps, succs) && Working(deps, done, pending) && Counted(deps, num, done, [])
  }

  ghost predicate Counting(deps: Links, succs: Links, num: map<Key, nat>, done: set<Key>, n: Key, visited: seq<Key>,
                           pending: seq<Key>) {
    Visiting(deps, succs, done, n, visited, pending) && Counted(deps, num, done, visited)
  }

  lemma SortStart(deps: Links, succs: Links, ghosts: set<Key>, num: map<Key, nat>, tails: seq<Key>)
    requires Inverse(deps, succs) && AreTails(deps, tails)
    requires num.Keys == deps.Keys && forall k :: k in num ==> num[k] == 0
    ensures Sorting(deps, succs, num, {}, tails) && Listed(deps, ghosts, {}, [])
  {
    hide Inverse, Working;
    WorkStarts(deps, tails);
    CountedStart(deps, num);
  }

  lemma SortNext(deps: Links, succs: Links, num: map<Key, nat>, done: set<Key>, pending: seq<Key>)
    requires Sorting(deps, succs, num, done, pending) && pending != []
    ensures Counting(deps, succs, num, done, pending[|pending| - 1], [], pending[..|pending| - 1])
    ensures pending[|pending| - 1] in deps && pending[|pending| - 1] !in done && done <= deps.Keys
    ensures AllIn(deps[pending[|pending| - 1]], done)
  {
    hide Inverse, Counted, Working, AllIn;
    StartVisit(deps, succs, done, pending);
  }

  lemma ListStep(deps: Links, ghosts: set<Key>, done: set<Key>, order: seq<Key>, n: Key)
    requires Listed(deps, ghosts, done, order) && n in deps && n !in done && AllIn(deps[n], done)
    ensures Listed(deps, ghosts, done + {n}, if n in ghosts then order else order + [n])
  {
    hide ParentsFirst, Lists;
    ListNext(deps, ghosts, order, done, n);
  }

  lemma CountOne(deps: Links, succs: Links, num: map<Key, nat>, done: set<Key>, n: Key, list: seq<Key>, i: nat, pending: seq<Key>)
    requires n in succs && multiset(list) == multiset(succs[n]) && i < |list|
    requires Counting(deps, succs, num, done, n, list[..i], pending)
    ensures list[i] in deps && list[i] in num && list[i] !in pending
    ensures num[list[i]] + 1 == SeenOf(deps, done, list[..i + 1], list[i])
    ensures num[list[i]] + 1 == |deps[list[i]]| ==>
              Counting(deps, succs, num - {list[i]}, done, n, list[..i + 1], pending + [list[i]])
    ensures num[list[i]] + 1 != |deps[list[i]]| ==>
              Counting(deps, succs, num[list[i] := num[list[i]] + 1], done, n, list[..i + 1], pending)
  {
    hide Inverse, SeenOf;
    PrefixCounts(list, i);
    VisitOne(deps, succs, done, n, list[..i], list[i], pending);
    hide Visiting;
    CountedHas(deps, num, done, list[..i], list[i]);
    CountedMore(deps, num, done, list[..i], list[i]);
  }

  lemma CountedHas(deps: Links, num: map<Key, nat>, done: set<Key>, visited: seq<Key>, c: Key)
    requires Counted(deps, num, done, visited) && c in deps && SeenOf(deps, done, visited, c) + 1 <= |deps[c]|
    ensures c in num && num[c] == SeenOf(deps, done, visited, c)
  {
  }

  lemma CountLast(deps: Links, succs: Links, num: map<Key, nat>, done: set<Key>, n: Key, list: seq<Key>, pending: seq<Key>)
    requires n in succs && multiset(list) == multiset(succs[n])
    requires Counting(deps, succs, num, done, n, list, pending)
    ensures Sorting(deps, succs, num, done + {n}, pending)
    ensures forall c :: c in deps ==> SeenOf(deps, done, list, c) == CountIn(deps[c], done + {n})
  {
    hide Inverse, SeenOf, Counted, Working, Visiting, CountIn;
    UnfoldVisiting(deps, succs, done, n, list, pending);
    EndVisit(deps, succs, done, n, list, pending);
    CountedEnd(deps, num, done, n, list);
  }

  /** All is listed exactly when there is no cycle. */
  lemma SortEnd(deps: Links, succs: Links, parents: ParentMap, num: map<Key, nat>, done: set<Key>, order: seq<Key>)
    requires deps == DepsOf(parents) && Sorting(deps, succs, num, done, []) && Listed(deps, GhostsOf(parents), done, order)
    ensures Lists(order, deps.Keys - GhostsOf(parents)) <==> Acyclic(deps)
  {
    hide Inverse, Working, Counted, Acyclic, ParentsFirst;
    InverseKeys(deps, succs);
    assert Closed(deps);
    WorkEnds(deps, done);
    if Lists(order, deps.Keys - GhostsOf(parents)) {
      ListingProvesAcyclic(deps, GhostsOf(parents), order);
    }
  }
}
