/** Counting worklists over a finite dependency graph.

    The graph walks of bzrlib/_known_graph_py.py keep a list of pending keys and, for each other
    key, a count of the dependencies seen so far; a key becomes pending when its last one is seen.
    deps[k] lists what k waits for and succs[k] lists who waits for k, both with repetitions. */
module Worklist {
  import opened Basics

  type Links = map<Key, seq<Key>>

  /** succs is deps turned round: each edge as often in one as in the other. */
  ghost predicate Inverse(deps: Links, succs: Links) {
    && deps.Keys == succs.Keys
    && (forall k, p :: k in deps && p in deps[k] ==> p in deps)
    && (forall k, c :: k in succs && c in succs[k] ==> c in succs)
    && forall k, c :: k in deps && c in deps ==> multiset(succs[k])[c] == multiset(deps[c])[k]
  }

  /** Whatever is waited for is itself a key. */
  ghost predicate Closed(deps: Links) {
    forall k, p :: k in deps && p in deps[k] ==> p in deps
  }

  /** How many entries of a list are in a set. */
  ghost function CountIn(list: seq<Key>, s: set<Key>): nat {
    if list == [] then 0 else (if list[|list| - 1] in s then 1 else 0) + CountIn(list[..|list| - 1], s)
  }

  ghost predicate AllIn(list: seq<Key>, s: set<Key>) {
    forall k :: k in list ==> k in s
  }

  lemma {:induction false} CountIsAll(list: seq<Key>, s: set<Key>)
    ensures CountIn(list, s) <= |list|
    ensures CountIn(list, s) == |list| <==> AllIn(list, s)
  {
    if list != [] {
      var init, last := list[..|list| - 1], list[|list| - 1];
      CountIsAll(init, s);
      assert forall k :: k in list <==> k in init || k == last;
    }
  }

  lemma {:induction false} CountOneMore(list: seq<Key>, s: set<Key>, n: Key)
    requires n !in s
    ensures CountIn(list, s + {n}) == CountIn(list, s) + multiset(list)[n]
  {
    if list != [] {
      var init, last := list[..|list| - 1], list[|list| - 1];
      CountOneMore(init, s, n);
      assert list == init + [last];
    }
  }

  // ---------------------------------------------------------------------------
  // Paths and cycles
  // ---------------------------------------------------------------------------

  /** Each key waits for the next one. */
  ghost predicate IsPath(deps: Links, p: seq<Key>) {
    forall i :: 0 <= i < |p| - 1 ==> p[i] in deps && p[i + 1] in deps[p[i]]
  }

  ghost predicate IsCycle(deps: Links, p: seq<Key>) {
    |p| >= 2 && IsPath(deps, p) && p[0] == p[|p| - 1]
  }

  ghost predicate Acyclic(deps: Links) {
    forall p :: !IsCycle(deps, p)
  }

  ghost predicate WaitsIn(deps: Links, k: Key, s: set<Key>) {
    k in deps && exists p :: p in deps[k] && p in s
  }

  /** A finite set in which every key waits for another of the set has a cycle. */
  lemma StuckMeansCycle(deps: Links, stuck: set<Key>, start: Key) returns (cycle: seq<Key>)
    requires start in stuck && forall k :: k in stuck ==> WaitsIn(deps, k, stuck)
    ensures IsCycle(deps, cycle)
  {
    hide WaitsIn, IsPath;
    var walk := LongWalk(deps, stuck, start, |stuck|);
    var i, j := Repeated(walk, stuck);
    cycle := walk[i..j + 1];
    PartOfPath(deps, walk, i, j + 1);
  }

  lemma PartOfPath(deps: Links, p: seq<Key>, i: nat, j: nat)
    requires i <= j <= |p| && IsPath(deps, p)
    ensures IsPath(deps, p[i..j])
  {
  }

  lemma LongerPath(deps: Links, k: Key, p: seq<Key>)
    requires IsPath(deps, p) && |p| > 0 && k in deps && p[0] in deps[k]
    ensures IsPath(deps, [k] + p)
  {
  }

  lemma {:induction false} LongWalk(deps: Links, stuck: set<Key>, start: Key, n: nat) returns (walk: seq<Key>)
    requires start in stuck && forall k :: k in stuck ==> WaitsIn(deps, k, stuck)
    ensures |walk| == n + 1 && walk[0] == start && IsPath(deps, walk) && forall i :: 0 <= i <= n ==> walk[i] in stuck
    decreases n
  {
    hide IsPath;
    if n == 0 {
      walk := [start];
      OneIsPath(deps, start);
    } else {
      assert WaitsIn(deps, start, stuck);
      var p :| p in deps[start] && p in stuck;
      var rest := LongWalk(deps, stuck, p, n - 1);
      walk := [start] + rest;
      LongerPath(deps, start, rest);
    }
  }

  lemma OneIsPath(deps: Links, k: Key)
    ensures IsPath(deps, [k])
  {
  }

  /** A list of more entries than the set it draws from repeats one. */
  lemma {:induction false} Repeated(list: seq<Key>, s: set<Key>) returns (i: nat, j: nat)
    requires |list| > |s| && forall k :: 0 <= k < |list| ==> list[k] in s
    ensures i < j < |list| && list[i] == list[j]
    decreases |list|
  {
    var last := |list| - 1;
    if k :| 0 <= k < last && list[k] == list[last] {
      i, j := k, last;
    } else {
      i, j := Repeated(list[..last], s - {list[last]});
    }
  }

  // ---------------------------------------------------------------------------
  // The worklist
  // ---------------------------------------------------------------------------

  ghost predicate Distinct(list: seq<Key>) {
    forall i, j :: 0 <= i < j < |list| ==> list[i] != list[j]
  }

  /** The pending keys are those whose dependencies are all done and that are not done themselves. */
  ghost predicate Working(deps: Links, done: set<Key>, pending: seq<Key>) {
    && Distinct(pending) && done <= deps.Keys
    && (forall k :: k in pending ==> k in deps && k !in done)
    && forall k :: k in deps ==> ((k in done || k in pending) <==> AllIn(deps[k], done))
  }

  /** While the first i entries of succs[n] have been visited: how many dependencies of c were seen. */
  ghost function SeenOf(deps: Links, done: set<Key>, visited: seq<Key>, c: Key): nat
    requires c in deps
  {
    CountIn(deps[c], done) + multiset(visited)[c]
  }

  /** The worklist while the successors of n are visited. */
  ghost predicate Visiting(deps: Links, succs: Links, done: set<Key>, n: Key, visited: seq<Key>, pending: seq<Key>) {
    && Inverse(deps, succs) && done <= deps.Keys && n in deps && n !in done
    && AllIn(deps[n], done)
    && multiset(visited) <= multiset(succs[n])
    && Distinct(pending)
    && (forall k :: k in pending ==> k in deps && k !in done && k != n)
    && forall c :: c in deps ==>
         ((c in done || c == n || c in pending) <==> SeenOf(deps, done, visited, c) == |deps[c]|)
  }

  /** No count exceeds the number of dependencies. */
  lemma SeenBound(deps: Links, succs: Links, done: set<Key>, n: Key, visited: seq<Key>, c: Key)
    requires Inverse(deps, succs) && n in deps && n !in done && c in deps && multiset(visited) <= multiset(succs[n])
    ensures SeenOf(deps, done, visited, c) <= |deps[c]|
    ensures multiset(visited)[c] <= multiset(deps[c])[n]
  {
    CountOneMore(deps[c], done, n);
    CountIsAll(deps[c], done + {n});
  }

  lemma Successor(deps: Links, succs: Links, n: Key, c: Key)
    requires Inverse(deps, succs) && n in deps && multiset(succs[n])[c] > 0
    ensures c in deps && n in deps[c]
  {
    assert c in succs[n];
    assert multiset(deps[c])[n] > 0;
  }

  /** Taking the last pending key. */
  lemma StartVisit(deps: Links, succs: Links, done: set<Key>, pending: seq<Key>)
    requires Inverse(deps, succs) && Working(deps, done, pending) && pending != []
    ensures Visiting(deps, succs, done, pending[|pending| - 1], [], pending[..|pending| - 1])
  {
    hide Inverse, CountIn, AllIn;
    var n, rest := pending[|pending| - 1], pending[..|pending| - 1];
    assert forall k :: k in pending <==> k in rest || k == n;
    assert n in pending;
    forall c | c in deps
      ensures (c in done || c == n || c in rest) <==> SeenOf(deps, done, [], c) == |deps[c]|
    {
      CountIsAll(deps[c], done);
    }
  }

  /** Visiting one more successor: it becomes pending exactly if this was its last dependency. */
  lemma VisitOne(deps: Links, succs: Links, done: set<Key>, n: Key, visited: seq<Key>, c: Key, pending: seq<Key>)
    requires Visiting(deps, succs, done, n, visited, pending)
    requires multiset(visited + [c]) <= multiset(succs[n])
    ensures c in deps && c !in done && c != n && c !in pending && n in deps[c]
    ensures SeenOf(deps, done, visited + [c], c) == SeenOf(deps, done, visited, c) + 1 <= |deps[c]|
    ensures Visiting(deps, succs, done, n, visited + [c],
                     if SeenOf(deps, done, visited + [c], c) == |deps[c]| then pending + [c] else pending)
  {
    hide CountIn, AllIn, Distinct;
    var visited' := visited + [c];
    assert forall k :: multiset(visited')[k] == multiset(visited)[k] + if k == c then 1 else 0;
    assert multiset(succs[n])[c] >= multiset(visited')[c] > 0;
    Successor(deps, succs, n, c);
    SeenBound(deps, succs, done, n, visited', c);
    var full := SeenOf(deps, done, visited', c) == |deps[c]|;
    DistinctMore(pending, c);
    var pending' := if full then pending + [c] else pending;
    forall k | k in deps
      ensures (k in done || k == n || k in pending') <==> SeenOf(deps, done, visited', k) == |deps[k]|
    {
      assert SeenOf(deps, done, visited', k) == SeenOf(deps, done, visited, k) + if k == c then 1 else 0;
    }
  }

  lemma DistinctMore(list: seq<Key>, c: Key)
    requires Distinct(list)
    ensures c !in list ==> Distinct(list + [c])
  {
  }

  /** When all successors of n are visited, n is done. */
  lemma EndVisit(deps: Links, succs: Links, done: set<Key>, n: Key, visited: seq<Key>, pending: seq<Key>)
    requires Visiting(deps, succs, done, n, visited, pending) && multiset(visited) == multiset(succs[n])
    ensures Working(deps, done + {n}, pending)
    ensures forall c :: c in deps ==> SeenOf(deps, done, visited, c) == CountIn(deps[c], done + {n})
  {
    forall c | c in deps
      ensures SeenOf(deps, done, visited, c) == CountIn(deps[c], done + {n})
      ensures (c in done + {n} || c in pending) <==> AllIn(deps[c], done + {n})
    {
      CountOneMore(deps[c], done, n);
      CountIsAll(deps[c], done + {n});
    }
  }

  /** Nothing pending: either all is done, or what is left contains a cycle. */
  lemma WorkEnds(deps: Links, done: set<Key>)
    requires Working(deps, done, []) && forall k, p :: k in deps && p in deps[k] ==> p in deps
    ensures Acyclic(deps) ==> done == deps.Keys
  {
    if Acyclic(deps) {
      forall start | start in deps ensures start in done {
        if start !in done {
          var stuck := deps.Keys - done;
          forall k | k in stuck ensures WaitsIn(deps, k, stuck) {
            NotAllIn(deps[k], done);
          }
          var cycle := StuckMeansCycle(deps, stuck, start);
        }
      }
      assert done == deps.Keys;
    }
  }

  lemma NotAllIn(list: seq<Key>, s: set<Key>)
    ensures !AllIn(list, s) ==> exists p :: p in list && p !in s
  {
  }
}
