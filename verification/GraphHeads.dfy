/** What KnownGraph.heads() is asked for: the keys of a query that are no proper ancestor of
    another one, and why a search cut off by gdfo finds exactly those. */
module GraphHeads {
  import opened Basics
  import opened Worklist
  import opened GraphDistance

  /** The name of the empty revision, which yields to any other key. */
  const NULL_REVISION: Key := 0

  ghost predicate Joins(deps: Links, p: seq<Key>, first: Key, last: Key) {
    |p| >= 2 && IsPath(deps, p) && p[0] == first && p[|p| - 1] == last
  }

  ghost predicate ProperAncestor(deps: Links, a: Key, k: Key) {
    exists p :: Joins(deps, p, k, a)
  }

  ghost predicate IsHead(deps: Links, keys: set<Key>, k: Key) {
    k in keys && !exists other :: other in keys && ProperAncestor(deps, k, other)
  }

  ghost function HeadsAmong(deps: Links, keys: set<Key>): set<Key> {
    set k | k in keys && IsHead(deps, keys, k)
  }

  /** With the rule for the null revision. */
  ghost function HeadsOf(deps: Links, keys: set<Key>): set<Key> {
    var candidates := keys - {NULL_REVISION};
    if candidates == {} then keys else HeadsAmong(deps, candidates)
  }

  /** A key is a head unless it is a proper ancestor of another; the null revision is one only on its own. */
  lemma HeadsAre(deps: Links, keys: set<Key>, k: Key)
    ensures k in HeadsOf(deps, keys) <==>
      && k in keys
      && if k == NULL_REVISION then keys == {NULL_REVISION}
         else forall other :: other in keys && other != NULL_REVISION ==> !ProperAncestor(deps, k, other)
  {
    hide ProperAncestor;
    if keys - {NULL_REVISION} == {} && k in keys {
      assert k == NULL_REVISION by { assert k !in keys - {NULL_REVISION}; }
      forall x | x in keys ensures x == NULL_REVISION { assert x !in keys - {NULL_REVISION}; }
      assert keys == {NULL_REVISION};
    }
  }

  // ---------------------------------------------------------------------------
  // Ancestry
  // ---------------------------------------------------------------------------

  lemma ParentIsAncestor(deps: Links, p: Key, k: Key)
    requires k in deps && p in deps[k]
    ensures ProperAncestor(deps, p, k)
  {
    assert Joins(deps, [k, p], k, p);
  }

  lemma PathStep(deps: Links, p: seq<Key>, i: nat)
    requires IsPath(deps, p) && i + 1 < |p|
    ensures p[i] in deps && p[i + 1] in deps[p[i]]
  {
  }

  lemma JoinMore(deps: Links, path: seq<Key>, k: Key, a: Key, p: Key)
    requires Joins(deps, path, k, a) && a in deps && p in deps[a]
    ensures Joins(deps, path + [p], k, p)
  {
  }

  lemma AncestorOfAncestor(deps: Links, p: Key, a: Key, k: Key)
    requires ProperAncestor(deps, a, k) && a in deps && p in deps[a]
    ensures ProperAncestor(deps, p, k)
  {
    hide Joins;
    var path :| Joins(deps, path, k, a);
    JoinMore(deps, path, k, a, p);
  }

  lemma JoinBoth(deps: Links, first: seq<Key>, second: seq<Key>, k: Key, a: Key, b: Key)
    requires Joins(deps, first, k, a) && Joins(deps, second, a, b)
    ensures ProperAncestor(deps, b, k)
  {
    var both := first + second[1..];
    forall i | 0 <= i < |both| - 1 ensures both[i] in deps && both[i + 1] in deps[both[i]] {
      if i + 1 < |first| {
        PathStep(deps, first, i);
      } else {
        PathStep(deps, second, i + 1 - |first|);
      }
    }
    assert IsPath(deps, both);
    assert both[|both| - 1] == second[|second| - 1];
    assert Joins(deps, both, k, b);
  }

  lemma AncestryIsTransitive(deps: Links, b: Key, a: Key, k: Key)
    requires ProperAncestor(deps, a, k) && ProperAncestor(deps, b, a)
    ensures ProperAncestor(deps, b, k)
  {
    hide Joins;
    var first :| Joins(deps, first, k, a);
    var second :| Joins(deps, second, a, b);
    JoinBoth(deps, first, second, k, a, b);
  }

  lemma AncestorIsLower(deps: Links, d: map<Key, nat>, a: Key, k: Key)
    requires IsGdfo(deps, d) && ProperAncestor(deps, a, k)
    ensures k in d && At(d, a) < d[k]
  {
    var path :| Joins(deps, path, k, a);
    GdfoAlongPath(deps, d, path);
  }

  /** In an acyclic graph the heads stand for the whole query: each other key is an ancestor of one. */
  lemma {:induction false} HeadsCover(deps: Links, d: map<Key, nat>, keys: set<Key>, k: Key, bound: nat)
    requires IsGdfo(deps, d) && k in keys && keys <= deps.Keys
    requires forall c :: c in keys ==> d[c] <= bound
    ensures k in HeadsAmong(deps, keys) || exists h :: h in HeadsAmong(deps, keys) && ProperAncestor(deps, k, h)
    decreases bound - d[k]
  {
    hide ProperAncestor;
    if !IsHead(deps, keys, k) {
      var other :| other in keys && ProperAncestor(deps, k, other);
      AncestorIsLower(deps, d, k, other);
      HeadsCover(deps, d, keys, other, bound);
      if other !in HeadsAmong(deps, keys) {
        var h :| h in HeadsAmong(deps, keys) && ProperAncestor(deps, other, h);
        AncestryIsTransitive(deps, k, other, h);
      }
    }
  }

  // ---------------------------------------------------------------------------
  // The search
  // ---------------------------------------------------------------------------

  ghost predicate Found(list: seq<Key>, seen: set<Key>, pending: seq<Key>) {
    forall p :: p in list ==> p in seen || p in pending
  }

  ghost predicate BelowQuery(deps: Links, keys: set<Key>, s: Key) {
    s in deps && exists o :: o in keys && ProperAncestor(deps, s, o)
  }

  /** seen and pending hold ancestors only, and every parent of what was expanded. */
  ghost predicate Searching(deps: Links, d: map<Key, nat>, lowest: nat, keys: set<Key>, seen: set<Key>, pending: seq<Key>) {
    && (forall k :: k in keys ==> k in deps && Found(deps[k], seen, pending))
    && (forall s :: s in seen ==> s in deps && (At(d, s) > lowest ==> Found(deps[s], seen, pending)))
    && (forall s :: s in seen ==> BelowQuery(deps, keys, s))
    && (forall s :: s in pending ==> BelowQuery(deps, keys, s))
  }

  lemma SearchSkip(deps: Links, d: map<Key, nat>, lowest: nat, keys: set<Key>, seen: set<Key>, pending: seq<Key>)
    requires Searching(deps, d, lowest, keys, seen, pending) && |pending| > 0
    requires pending[|pending| - 1] in seen || At(d, pending[|pending| - 1]) <= lowest
    ensures Searching(deps, d, lowest, keys, seen + {pending[|pending| - 1]}, pending[..|pending| - 1])
  {
    hide BelowQuery;
    var n, rest := pending[|pending| - 1], pending[..|pending| - 1];
    assert forall p :: p in pending <==> p in rest || p == n;
    assert BelowQuery(deps, keys, n);
    assert n in deps by { BelowMeansPresent(deps, keys, n); }
  }

  lemma BelowMeansPresent(deps: Links, keys: set<Key>, n: Key)
    requires BelowQuery(deps, keys, n)
    ensures n in deps
  {
  }

  lemma BelowParent(deps: Links, keys: set<Key>, n: Key, p: Key)
    requires BelowQuery(deps, keys, n) && p in deps[n] && p in deps
    ensures BelowQuery(deps, keys, p)
  {
    var o :| o in keys && ProperAncestor(deps, n, o);
    AncestorOfAncestor(deps, p, n, o);
  }

  lemma SearchExpand(deps: Links, d: map<Key, nat>, lowest: nat, keys: set<Key>, seen: set<Key>, pending: seq<Key>)
    requires Closed(deps)
    requires Searching(deps, d, lowest, keys, seen, pending) && |pending| > 0
    requires pending[|pending| - 1] in deps
    ensures Searching(deps, d, lowest, keys, seen + {pending[|pending| - 1]},
                      pending[..|pending| - 1] + deps[pending[|pending| - 1]])
  {
    hide BelowQuery;
    var n, rest := pending[|pending| - 1], pending[..|pending| - 1];
    assert forall p :: p in pending <==> p in rest || p == n;
    assert BelowQuery(deps, keys, n);
    forall p | p in deps[n] ensures BelowQuery(deps, keys, p) {
      BelowParent(deps, keys, n, p);
    }
    assert forall p :: p in rest + deps[n] <==> p in rest || p in deps[n];
  }

  lemma FoundIsSeen(list: seq<Key>, seen: set<Key>, p: Key)
    requires Found(list, seen, []) && p in list
    ensures p in seen
  {
  }

  lemma {:induction false} SearchReaches(deps: Links, d: map<Key, nat>, lowest: nat, keys: set<Key>, seen: set<Key>,
                                         path: seq<Key>, i: nat)
    requires IsGdfo(deps, d) && Searching(deps, d, lowest, keys, seen, [])
    requires |path| >= 2 && IsPath(deps, path) && path[0] in keys && 1 <= i < |path|
    requires At(d, path[|path| - 1]) >= lowest
    ensures path[i] in seen
  {
    hide IsGdfo, BelowQuery;
    PathStep(deps, path, i - 1);
    if i > 1 {
      SearchReaches(deps, d, lowest, keys, seen, path, i - 1);
      var rest := path[i - 1..];
      PartOfPath(deps, path, i - 1, |path|);
      GdfoAlongPath(deps, d, rest);
      assert rest[0] == path[i - 1] && rest[|rest| - 1] == path[|path| - 1];
      FoundIsSeen(deps[path[i - 1]], seen, path[i]);
    } else {
      var k := path[0];
      assert k in keys && Found(deps[k], seen, []);
      FoundIsSeen(deps[k], seen, path[i]);
    }
  }

  /** The search finds every key of the query that is an ancestor of another, and no other. */
  lemma SearchIsExact(deps: Links, d: map<Key, nat>, lowest: nat, keys: set<Key>, seen: set<Key>)
    requires IsGdfo(deps, d) && Searching(deps, d, lowest, keys, seen, [])
    requires forall k :: k in keys ==> k in deps && lowest <= At(d, k)
    ensures keys - seen == HeadsAmong(deps, keys)
  {
    hide IsPath;
    forall k | k in keys ensures k in seen <==> !IsHead(deps, keys, k) {
      if !IsHead(deps, keys, k) {
        var other :| other in keys && ProperAncestor(deps, k, other);
        var path :| Joins(deps, path, other, k);
        SearchReaches(deps, d, lowest, keys, seen, path, |path| - 1);
      }
      if k in seen {
        assert BelowQuery(deps, keys, k);
      }
    }
  }

  // ---------------------------------------------------------------------------
  // Adding a node that was not there before leaves every earlier answer true
  // ---------------------------------------------------------------------------

  /** The old graph, closed under dependencies, lies unchanged inside the new one. */
  ghost predicate Embedded(deps: Links, deps': Links) {
    && (forall k :: k in deps ==> k in deps' && deps'[k] == deps[k])
    && forall k, p :: k in deps && p in deps[k] ==> p in deps
  }

  lemma SameStep(deps: Links, deps': Links, k: Key, p: Key)
    requires Embedded(deps, deps') && k in deps
    ensures k in deps' && deps'[k] == deps[k]
    ensures p in deps[k] ==> p in deps
  {
  }

  lemma {:induction false} PathStays(deps: Links, deps': Links, path: seq<Key>, i: nat)
    requires Embedded(deps, deps') && IsPath(deps', path) && i < |path| && path[0] in deps
    ensures path[i] in deps
  {
    if i > 0 {
      PathStays(deps, deps', path, i - 1);
      PathStep(deps', path, i - 1);
      SameStep(deps, deps', path[i - 1], path[i]);
    }
  }

  lemma AncestryKept(deps: Links, deps': Links, a: Key, k: Key)
    requires Embedded(deps, deps') && k in deps
    ensures ProperAncestor(deps, a, k) <==> ProperAncestor(deps', a, k)
  {
    if ProperAncestor(deps, a, k) {
      var path :| Joins(deps, path, k, a);
      forall i | 0 <= i < |path| - 1 ensures path[i] in deps' && path[i + 1] in deps'[path[i]] {
        PathStep(deps, path, i);
        SameStep(deps, deps', path[i], path[i + 1]);
      }
      assert Joins(deps', path, k, a);
    }
    if ProperAncestor(deps', a, k) {
      var path :| Joins(deps', path, k, a);
      forall i | 0 <= i < |path| - 1 ensures path[i] in deps && path[i + 1] in deps[path[i]] {
        PathStays(deps, deps', path, i);
        PathStep(deps', path, i);
        SameStep(deps, deps', path[i], path[i + 1]);
      }
      assert Joins(deps, path, k, a);
    }
  }

  lemma HeadsKept(deps: Links, deps': Links, keys: set<Key>)
    requires Embedded(deps, deps') && keys <= deps.Keys
    ensures HeadsAmong(deps, keys) == HeadsAmong(deps', keys)
  {
    hide ProperAncestor, Embedded;
    forall k | k in keys ensures IsHead(deps, keys, k) <==> IsHead(deps', keys, k) {
      forall other | other in keys ensures ProperAncestor(deps, k, other) <==> ProperAncestor(deps', k, other) {
        AncestryKept(deps, deps', k, other);
      }
    }
  }

  /** Filling in a ghost does change answers: here 1 stops being a head beside 2. */
  lemma GhostsChangeHeads()
    ensures HeadsAmong(map[1 := [], 2 := []], {1, 2}) == {1, 2}
    ensures HeadsAmong(map[1 := [], 2 := [1]], {1, 2}) == {2}
  {
    hide ProperAncestor;
    var before, after: Links := map[1 := [], 2 := []], map[1 := [], 2 := [1]];
    NoParentsNoAncestors(before, 1);
    NoParentsNoAncestors(before, 2);
    NoParentsNoAncestors(after, 1);
    ParentIsAncestor(after, 1, 2);
    var d: map<Key, nat> := map[1 := 1, 2 := 2];
    assert MaxOf(d, [1]) == 1 by { assert [1][..0] == []; }
    if ProperAncestor(after, 2, 2) { AncestorIsLower(after, d, 2, 2); }
    assert IsHead(before, {1, 2}, 1) && IsHead(before, {1, 2}, 2);
    assert !IsHead(after, {1, 2}, 1);
    assert IsHead(after, {1, 2}, 2);
  }

  lemma NoParentsNoAncestors(deps: Links, k: Key)
    requires k in deps && deps[k] == []
    ensures forall a :: !ProperAncestor(deps, a, k)
  {
    forall a, path ensures !Joins(deps, path, k, a) {
      if |path| >= 2 && path[0] == k { assert path[0 + 1] !in deps[path[0]]; }
    }
  }
}
