/** Greatest distance from origin (gdfo): what it is, that it is unique, and how it changes when
    a node is added.

    The gdfo of a key is 1 plus the largest gdfo of its parents, and 1 without parents.  That
    equation is the specification; both algorithms of bzrlib/_known_graph_py.py that compute it,
    from scratch and incrementally, are proved to establish it. */
module GraphDistance {
  import opened Basics
  import opened Worklist

  /** The value of a key, 0 if it has none. */
  ghost function At(d: map<Key, nat>, k: Key): nat {
    if k in d then d[k] else 0
  }

  ghost function MaxOf(d: map<Key, nat>, list: seq<Key>): nat {
    if list == [] then 0
    else
      var m, v := MaxOf(d, list[..|list| - 1]), At(d, list[|list| - 1]);
      if m < v then v else m
  }

  ghost predicate IsGdfo(deps: Links, d: map<Key, nat>) {
    d.Keys == deps.Keys && forall k :: k in deps ==> d[k] == 1 + MaxOf(d, deps[k])
  }

  lemma {:induction false} MaxBound(d: map<Key, nat>, list: seq<Key>, p: Key)
    requires p in list
    ensures At(d, p) <= MaxOf(d, list)
  {
    var init := list[..|list| - 1];
    if p in init {
      MaxBound(d, init, p);
    } else {
      assert list == init + [list[|list| - 1]];
    }
  }

  lemma {:induction false} MaxAttained(d: map<Key, nat>, list: seq<Key>)
    ensures MaxOf(d, list) > 0 ==> exists p :: p in list && At(d, p) == MaxOf(d, list)
  {
    if list != [] {
      var init, last := list[..|list| - 1], list[|list| - 1];
      MaxAttained(d, init);
      assert forall p :: p in list <==> p in init || p == last;
      if MaxOf(d, list) > 0 {
        if MaxOf(d, list) == At(d, last) {
          assert last in list;
        } else {
          var p :| p in init && At(d, p) == MaxOf(d, init);
          assert p in list;
        }
      }
    }
  }

  lemma {:induction false} MaxMonotone(d: map<Key, nat>, e: map<Key, nat>, list: seq<Key>)
    requires forall p :: p in list ==> At(d, p) <= At(e, p)
    ensures MaxOf(d, list) <= MaxOf(e, list)
  {
    if list != [] {
      var init := list[..|list| - 1];
      assert forall p :: p in init ==> p in list;
      MaxMonotone(d, e, init);
      assert list[|list| - 1] in list;
    }
  }

  lemma MaxSame(d: map<Key, nat>, e: map<Key, nat>, list: seq<Key>)
    requires forall p :: p in list ==> At(d, p) == At(e, p)
    ensures MaxOf(d, list) == MaxOf(e, list)
  {
    MaxMonotone(d, e, list);
    MaxMonotone(e, d, list);
  }

  // ---------------------------------------------------------------------------
  // One solution, exactly on acyclic graphs
  // ---------------------------------------------------------------------------

  /** A solution of the equations is at most any over-solution. */
  lemma {:induction false} GdfoIsLeast(deps: Links, d: map<Key, nat>, e: map<Key, nat>, k: Key)
    requires IsGdfo(deps, d) && e.Keys == deps.Keys && k in deps
    requires forall c, p :: c in deps && p in deps[c] ==> p in deps
    requires forall c, p :: c in deps && p in deps[c] ==> At(e, p) + 1 <= e[c]
    requires forall c :: c in deps ==> e[c] >= 1
    ensures d[k] <= e[k]
    decreases d[k]
  {
    MaxAttained(d, deps[k]);
    if MaxOf(d, deps[k]) > 0 {
      var p :| p in deps[k] && At(d, p) == MaxOf(d, deps[k]);
      GdfoIsLeast(deps, d, e, p);
      assert d[k] == 1 + d[p] && At(e, p) + 1 <= e[k];
    }
  }

  lemma GdfoGrows(deps: Links, d: map<Key, nat>)
    requires IsGdfo(deps, d)
    ensures forall c, p :: c in deps && p in deps[c] ==> At(d, p) + 1 <= d[c]
  {
    forall c, p | c in deps && p in deps[c] ensures At(d, p) + 1 <= d[c] {
      MaxBound(d, deps[c], p);
    }
  }

  lemma GdfoIsUnique(deps: Links, d: map<Key, nat>, e: map<Key, nat>)
    requires IsGdfo(deps, d) && IsGdfo(deps, e)
    requires forall c, p :: c in deps && p in deps[c] ==> p in deps
    ensures d == e
  {
    GdfoGrows(deps, d);
    GdfoGrows(deps, e);
    forall k | k in deps ensures d[k] == e[k] {
      GdfoIsLeast(deps, d, e, k);
      GdfoIsLeast(deps, e, d, k);
    }
  }

  lemma {:induction false} GdfoAlongPath(deps: Links, d: map<Key, nat>, p: seq<Key>)
    requires IsGdfo(deps, d) && IsPath(deps, p) && |p| >= 2
    ensures p[0] in d && At(d, p[|p| - 1]) < d[p[0]]
  {
    var k, q := p[0], p[0 + 1];
    assert k in deps && q in deps[k];
    MaxBound(d, deps[k], q);
    assert d[k] == 1 + MaxOf(d, deps[k]);
    if |p| > 2 {
      PartOfPath(deps, p, 1, |p|);
      GdfoAlongPath(deps, d, p[1..]);
      assert p[1..][|p| - 2] == p[|p| - 1];
    } else {
      assert p[|p| - 1] == p[1];
    }
  }

  lemma GdfoMeansAcyclic(deps: Links, d: map<Key, nat>)
    requires IsGdfo(deps, d)
    ensures Acyclic(deps)
  {
    forall p ensures !IsCycle(deps, p) {
      if IsCycle(deps, p) { GdfoAlongPath(deps, d, p); }
    }
  }

  /** The partial solution on a set closed under dependencies. */
  ghost predicate Partial(deps: Links, d: map<Key, nat>) {
    && d.Keys <= deps.Keys
    && (forall k :: k in d ==> AllIn(deps[k], d.Keys))
    && forall k :: k in d ==> d[k] == 1 + MaxOf(d, deps[k])
  }

  lemma PartialMore(deps: Links, d: map<Key, nat>, n: Key, v: nat)
    requires Partial(deps, d) && n in deps && n !in d && AllIn(deps[n], d.Keys) && v == 1 + MaxOf(d, deps[n])
    ensures Partial(deps, d[n := v])
  {
    var e := d[n := v];
    forall k | k in e ensures AllIn(deps[k], e.Keys) && e[k] == 1 + MaxOf(e, deps[k]) {
      assert forall p :: p in deps[k] ==> p in d.Keys;
      MaxSame(d, e, deps[k]);
    }
  }

  lemma {:induction false} SolveFrom(deps: Links, d: map<Key, nat>) returns (e: map<Key, nat>)
    requires Partial(deps, d) && Acyclic(deps) && forall c, p :: c in deps && p in deps[c] ==> p in deps
    ensures IsGdfo(deps, e)
    decreases deps.Keys - d.Keys
  {
    if n :| n in deps && n !in d && AllIn(deps[n], d.Keys) {
      PartialMore(deps, d, n, 1 + MaxOf(d, deps[n]));
      e := SolveFrom(deps, d[n := 1 + MaxOf(d, deps[n])]);
    } else {
      assert Working(deps, d.Keys, []);
      WorkEnds(deps, d.Keys);
      e := d;
    }
  }

  lemma GdfoExists(deps: Links) returns (d: map<Key, nat>)
    requires Acyclic(deps) && forall c, p :: c in deps && p in deps[c] ==> p in deps
    ensures IsGdfo(deps, d)
  {
    d := SolveFrom(deps, map[]);
  }

  // ---------------------------------------------------------------------------
  // Computing it with a worklist
  // ---------------------------------------------------------------------------

  /** The gdfo of a key after some of its parents have been visited, whose values are in f. */
  ghost function SoFar(parents: seq<Key>, f: map<Key, nat>): Option<nat> {
    if parents == [] then Some(1)
    else if MaxOf(f, parents) == 0 then None
    else Some(1 + MaxOf(f, parents))
  }

  lemma {:induction false} MaxWithOne(f: map<Key, nat>, n: Key, v: nat, list: seq<Key>)
    requires n !in f
    ensures MaxOf(f[n := v], list) == if n in list && MaxOf(f, list) < v then v else MaxOf(f, list)
  {
    if list != [] {
      var init, last := list[..|list| - 1], list[|list| - 1];
      MaxWithOne(f, n, v, init);
      assert forall p :: p in list <==> p in init || p == last;
    }
  }

  lemma AllPositive(f: map<Key, nat>, list: seq<Key>)
    requires list != [] && AllIn(list, f.Keys) && forall k :: k in f ==> f[k] > 0
    ensures MaxOf(f, list) > 0
  {
    assert list[0] in list;
    MaxBound(f, list, list[0]);
  }

  // ---------------------------------------------------------------------------
  // Repairing it after a node was added
  // ---------------------------------------------------------------------------

  /** Raising values towards the solution goal: they never pass it, and only children of pending
      keys may still be too low. */
  ghost predicate Upright(deps: Links, d: map<Key, nat>, goal: map<Key, nat>, pending: seq<Key>) {
    && d.Keys == deps.Keys == goal.Keys
    && (forall c :: c in deps ==> 1 <= d[c] <= goal[c])
    && forall c, p :: c in deps && p in deps[c] && p !in pending ==> At(d, p) + 1 <= d[c]
  }

  /** While the children of n are visited, those not visited yet may be too low as well. */
  ghost predicate Raising(deps: Links, d: map<Key, nat>, goal: map<Key, nat>, pending: seq<Key>, n: Key, visited: seq<Key>) {
    && d.Keys == deps.Keys == goal.Keys
    && (forall c :: c in deps ==> 1 <= d[c] <= goal[c])
    && forall c, p :: c in deps && p in deps[c] && p !in pending && !(p == n && c !in visited) ==> At(d, p) + 1 <= d[c]
  }

  lemma RaisingStarts(deps: Links, d: map<Key, nat>, goal: map<Key, nat>, pending: seq<Key>)
    requires Upright(deps, d, goal, pending) && pending != []
    ensures Raising(deps, d, goal, pending[1..], pending[0], [])
  {
    assert forall k :: k in pending <==> k == pending[0] || k in pending[1..];
  }

  lemma RaisingStops(deps: Links, d: map<Key, nat>, goal: map<Key, nat>, pending: seq<Key>, n: Key, visited: seq<Key>)
    requires Raising(deps, d, goal, pending, n, visited) && forall c :: c in deps && n in deps[c] ==> c in visited
    ensures Upright(deps, d, goal, pending)
  {
  }

  lemma RaisingEnds(deps: Links, d: map<Key, nat>, goal: map<Key, nat>)
    requires IsGdfo(deps, goal) && forall c, p :: c in deps && p in deps[c] ==> p in deps
    requires Upright(deps, d, goal, [])
    ensures d == goal
  {
    forall k | k in deps ensures d[k] == goal[k] {
      GdfoIsLeast(deps, goal, d, k);
    }
    assert d.Keys == goal.Keys;
  }

  lemma RaiseChild(deps: Links, d: map<Key, nat>, goal: map<Key, nat>, pending: seq<Key>, n: Key, visited: seq<Key>, c: Key)
    requires IsGdfo(deps, goal) && Raising(deps, d, goal, pending, n, visited) && c in deps && n in deps && n in deps[c]
    requires d[c] < d[n] + 1
    ensures c != n && Raising(deps, d[c := d[n] + 1], goal, pending + [c], n, visited + [c])
  {
    GdfoGrows(deps, goal);
    assert At(goal, n) + 1 <= goal[c];
    var e := d[c := d[n] + 1];
    assert forall x :: x in visited + [c] <==> x in visited || x == c;
    assert forall x :: x in pending + [c] <==> x in pending || x == c;
    forall x, p | x in deps && p in deps[x] && p !in pending + [c] && !(p == n && x !in visited + [c])
      ensures At(e, p) + 1 <= e[x]
    {
      assert At(e, p) == At(d, p);
      if p == n && x == c {
        assert e[x] == d[n] + 1;
      } else {
        assert At(d, p) + 1 <= d[x] <= e[x];
      }
    }
  }

  lemma KeepChild(deps: Links, d: map<Key, nat>, goal: map<Key, nat>, pending: seq<Key>, n: Key, visited: seq<Key>, c: Key)
    requires Raising(deps, d, goal, pending, n, visited) && c in deps && n in deps
    requires d[c] >= d[n] + 1
    ensures Raising(deps, d, goal, pending, n, visited + [c])
  {
    assert forall x :: x in visited + [c] <==> x in visited || x == c;
  }

  /** How far the values are below the goal, over a list of keys. */
  ghost function Slack(keys: seq<Key>, d: map<Key, nat>, goal: map<Key, nat>): int {
    if keys == [] then 0 else Slack(keys[1..], d, goal) + At(goal, keys[0]) - At(d, keys[0])
  }

  lemma {:induction false} SlackFalls(keys: seq<Key>, d: map<Key, nat>, goal: map<Key, nat>, c: Key, v: nat)
    requires Distinct(keys) && At(d, c) < v
    ensures c in keys ==> Slack(keys, d[c := v], goal) < Slack(keys, d, goal)
    ensures c !in keys ==> Slack(keys, d[c := v], goal) == Slack(keys, d, goal)
  {
    if keys != [] {
      SlackFalls(keys[1..], d, goal, c, v);
      assert keys[0] == c ==> c !in keys[1..];
      assert c in keys <==> keys[0] == c || c in keys[1..];
    }
  }

  lemma {:induction false} SlackIsNatural(keys: seq<Key>, d: map<Key, nat>, goal: map<Key, nat>)
    requires forall k :: k in keys ==> At(d, k) <= At(goal, k)
    ensures Slack(keys, d, goal) >= 0
  {
    if keys != [] {
      assert forall k :: k in keys[1..] ==> k in keys;
      SlackIsNatural(keys[1..], d, goal);
      assert keys[0] in keys;
    }
  }

  lemma {:induction false} ListOf(s: set<Key>) returns (list: seq<Key>)
    ensures Distinct(list) && forall k :: k in list <==> k in s
  {
    if k :| k in s {
      var rest := ListOf(s - {k});
      list := [k] + rest;
    } else {
      list := [];
    }
  }
}
