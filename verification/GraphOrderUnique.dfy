/** What the order of gc_sort() is, without a stack: the one complete order with children first in which a key
    follows the last of its children as soon as it can, smaller keys first. */
module GraphOrderUnique {
  import opened Basics
  import opened Worklist
  import opened GraphDistance
  import opened GraphOrders
  import opened GraphStableOrder
  import opened GraphPrefixes
  import opened GraphGrouping

  /** Where the last child of k stands in the list; -1 if none does. */
  ghost function LastChild(deps: Links, out: seq<Key>, k: Key): (i: int)
    ensures -1 <= i < |out|
  {
    if out == [] then -1
    else
      var init, last := out[..|out| - 1], out[|out| - 1];
      if last in deps && k in deps[last] then |out| - 1 else LastChild(deps, init, k)
  }

  lemma LastChildMore(deps: Links, out: seq<Key>, n: Key, k: Key)
    ensures LastChild(deps, out + [n], k) == if n in deps && k in deps[n] then |out| else LastChild(deps, out, k)
  {
    assert (out + [n])[..|out|] == out;
  }

  lemma {:induction false} LastChildPrefix(deps: Links, out: seq<Key>, t: nat, k: Key)
    requires t <= |out| && forall i :: t <= i < |out| ==> !(out[i] in deps && k in deps[out[i]])
    ensures LastChild(deps, out, k) == LastChild(deps, out[..t], k)
  {
    if t < |out| {
      LastChildPrefix(deps, out[..|out| - 1], t, k);
      assert out[..|out| - 1][..t] == out[..t];
    } else {
      assert out[..t] == out;
    }
  }

  ghost predicate Lower(prefixOf: Key -> int, x: Key, y: Key) {
    prefixOf(x) < prefixOf(y) || (prefixOf(x) == prefixOf(y) && x < y)
  }

  /** Of two keys with the same last child the smaller one comes first, and so do lower tips; between a key and
      its last child stand only keys whose own last child is there too, or is that same one. */
  ghost predicate WellPlaced(deps: Links, prefixOf: Key -> int, out: seq<Key>, a: int, b: int)
    requires 0 <= a < b < |out|
  {
    var ra, rb := LastChild(deps, out, out[a]), LastChild(deps, out, out[b]);
    && (ra == rb >= 0 ==> out[a] < out[b])
    && (ra == rb == -1 ==> Lower(prefixOf, out[a], out[b]))
    && (0 <= rb < a ==> ra >= rb)
  }

  ghost predicate IsStable(deps: Links, prefixOf: Key -> int, out: seq<Key>) {
    forall a, b :: 0 <= a < b < |out| ==> WellPlaced(deps, prefixOf, out, a, b)
  }

  // ---------------------------------------------------------------------------
  // There is only one such order
  // ---------------------------------------------------------------------------

  lemma NotInFront(list: seq<Key>, t: nat, i: nat)
    requires Distinct(list) && t <= i < |list|
    ensures list[i] !in list[..t]
  {
    assert forall j :: 0 <= j < t ==> list[..t][j] != list[i];
  }

  lemma InFront(list: seq<Key>, t: nat, i: nat)
    requires i < |list| && t < |list|
    ensures i <= t ==> list[i] in list[..t + 1]
  {
    if i <= t { assert list[..t + 1][i] == list[i]; }
  }

  lemma IsBefore(deps: Links, before: seq<Key>, k: Key, c: Key)
    requires forall c :: c in deps && k in deps[c] ==> c in before
    ensures c in deps && k in deps[c] ==> c in before
  {
  }

  lemma NotAChildLater(deps: Links, ghosts: set<Key>, out: seq<Key>, t: nat, k: Key)
    requires ChildrenFirst(deps, ghosts, out) && t < |out|
    requires forall c :: c in deps && k in deps[c] ==> c in out[..t]
    ensures LastChild(deps, out, k) == LastChild(deps, out[..t], k)
  {
    assert forall c :: c in deps && k in deps[c] ==> c in out[..t];
    forall i | t <= i < |out| ensures !(out[i] in deps && k in deps[out[i]]) {
      NotInFront(out, t, i);
      IsBefore(deps, out[..t], k, out[i]);
    }
    LastChildPrefix(deps, out, t, k);
  }

  /** The keys at the first place where two orders differ, in the order that has x there. */
  lemma Behind(deps: Links, ghosts: set<Key>, prefixOf: Key -> int, out: seq<Key>, t: nat, y: Key)
    requires ChildrenFirst(deps, ghosts, out) && IsStable(deps, prefixOf, out) && t < |out|
    requires y in out && y !in out[..t + 1] && forall c :: c in deps && y in deps[c] ==> c in out[..t]
    ensures var x, rx, ry := out[t], LastChild(deps, out[..t], out[t]), LastChild(deps, out[..t], y);
            && rx >= ry && (rx == ry >= 0 ==> x < y) && (rx == ry == -1 ==> Lower(prefixOf, x, y))
  {
    var j :| 0 <= j < |out| && out[j] == y;
    InFront(out, t, j);
    assert WellPlaced(deps, prefixOf, out, t, j);
    NotAChildLater(deps, ghosts, out, t, y);
    ChildrenBefore(deps, ghosts, out, t);
    NotAChildLater(deps, ghosts, out, t, out[t]);
  }

  lemma ChildrenBefore(deps: Links, ghosts: set<Key>, out: seq<Key>, t: nat)
    requires ChildrenFirst(deps, ghosts, out) && t < |out|
    ensures forall c :: c in deps && out[t] in deps[c] ==> c in out[..t]
  {
  }

  lemma Elsewhere(x: seq<Key>, y: seq<Key>, t: nat)
    requires Distinct(x) && Distinct(y) && t < |x| && t < |y| && x[..t] == y[..t] && x[t] != y[t]
    requires forall k :: k in x <==> k in y
    ensures y[t] in x && y[t] !in x[..t + 1]
  {
    assert y[t] in y;
    NotInFront(y, t, t);
    assert x[..t + 1] == x[..t] + [x[t]];
  }

  lemma SameUpTo(deps: Links, ghosts: set<Key>, prefixOf: Key -> int, x: seq<Key>, y: seq<Key>, t: nat)
    requires ChildrenFirst(deps, ghosts, x) && IsStable(deps, prefixOf, x)
    requires ChildrenFirst(deps, ghosts, y) && IsStable(deps, prefixOf, y)
    requires (forall k :: k in x <==> k in y) && t < |x| && t < |y| && x[..t] == y[..t]
    ensures x[t] == y[t]
  {
    if x[t] != y[t] {
      Elsewhere(x, y, t);
      Elsewhere(y, x, t);
      ChildrenBefore(deps, ghosts, x, t);
      ChildrenBefore(deps, ghosts, y, t);
      Behind(deps, ghosts, prefixOf, x, t, y[t]);
      Behind(deps, ghosts, prefixOf, y, t, x[t]);
    }
  }

  lemma {:induction false} SamePrefix(deps: Links, ghosts: set<Key>, prefixOf: Key -> int, x: seq<Key>, y: seq<Key>, t: nat)
    requires ChildrenFirst(deps, ghosts, x) && IsStable(deps, prefixOf, x)
    requires ChildrenFirst(deps, ghosts, y) && IsStable(deps, prefixOf, y)
    requires (forall k :: k in x <==> k in y) && t <= |x| && t <= |y|
    ensures x[..t] == y[..t]
  {
    hide ChildrenFirst, IsStable;
    if t > 0 {
      SamePrefix(deps, ghosts, prefixOf, x, y, t - 1);
      SameUpTo(deps, ghosts, prefixOf, x, y, t - 1);
      assert x[..t] == x[..t - 1] + [x[t - 1]] && y[..t] == y[..t - 1] + [y[t - 1]];
    }
  }

  /** Two such orders of the same keys are equal. */
  lemma StableIsUnique(deps: Links, ghosts: set<Key>, prefixOf: Key -> int, x: seq<Key>, y: seq<Key>)
    requires ChildrenFirst(deps, ghosts, x) && IsStable(deps, prefixOf, x)
    requires ChildrenFirst(deps, ghosts, y) && IsStable(deps, prefixOf, y)
    requires forall k :: k in x <==> k in y
    ensures x == y
  {
    hide IsStable;
    SameCount(x, y);
    SamePrefix(deps, ghosts, prefixOf, x, y, |x|);
    assert x[..|x|] == x && y[..|y|] == y;
  }

  lemma SameCount(x: seq<Key>, y: seq<Key>)
    requires Distinct(x) && Distinct(y) && forall k :: k in x <==> k in y
    ensures |x| == |y|
  {
    MembersSize(x);
    MembersSize(y);
    assert Members(x) == Members(y);
  }

  // ---------------------------------------------------------------------------
  // The stack of gc_sort keeps its keys in the order in which they are to come
  // ---------------------------------------------------------------------------

  /** From bottom to top of the stack: an earlier last child, or the same one and a larger key. */
  ghost predicate InTurn(deps: Links, out: seq<Key>, pending: seq<Key>) {
    forall i, j :: 0 <= i < j < |pending| ==>
      var ri, rj := LastChild(deps, out, pending[i]), LastChild(deps, out, pending[j]);
      ri < rj || (ri == rj && pending[i] > pending[j])
  }

  /** Key p can be put behind the list: it is well placed behind every key that is there. */
  ghost predicate MayFollow(deps: Links, prefixOf: Key -> int, out: seq<Key>, p: Key) {
    forall a :: 0 <= a < |out| ==>
      var ra, rp := LastChild(deps, out, out[a]), LastChild(deps, out, p);
      && (ra == rp >= 0 ==> out[a] < p)
      && (ra == rp == -1 ==> Lower(prefixOf, out[a], p))
      && (0 <= rp < a ==> ra >= rp)
  }

  ghost predicate AllMayFollow(deps: Links, prefixOf: Key -> int, out: seq<Key>, keys: set<Key>) {
    forall p :: p in keys ==> MayFollow(deps, prefixOf, out, p)
  }

  /** The tips on the stack have one prefix. */
  ghost predicate TipsTogether(deps: Links, prefixOf: Key -> int, out: seq<Key>, pending: seq<Key>, q: int) {
    forall p :: p in pending && LastChild(deps, out, p) == -1 ==> prefixOf(p) == q
  }

  ghost predicate LaterTips(deps: Links, prefixOf: Key -> int, later: set<Key>, q: int) {
    forall p :: p in later ==> p in deps && Unblocked(deps, p, {}) && prefixOf(p) > q
  }

  ghost predicate Stacked(deps: Links, ghosts: set<Key>, prefixOf: Key -> int, out: seq<Key>, pending: seq<Key>,
                          done: set<Key>, later: set<Key>, q: int) {
    && Front(deps, done, pending, later) && Members(out) == done - ghosts && Distinct(out)
    && IsStable(deps, prefixOf, out) && InTurn(deps, out, pending)
    && AllMayFollow(deps, prefixOf, out, Members(pending) + later)
    && TipsTogether(deps, prefixOf, out, pending, q) && LaterTips(deps, prefixOf, later, q)
  }

  /** The last child of a key whose children are all done does not change any more. */
  lemma Settled(deps: Links, done: set<Key>, out: seq<Key>, n: Key, k: Key)
    requires n in deps && n !in done && Unblocked(deps, k, done)
    ensures LastChild(deps, out + [n], k) == LastChild(deps, out, k)
  {
    LastChildMore(deps, out, n, k);
  }

  lemma ReadyIsLast(deps: Links, done: set<Key>, out: seq<Key>, n: Key, k: Key)
    requires n in deps && k in Ready(deps, done, n)
    ensures LastChild(deps, out + [n], k) == |out|
  {
    LastChildMore(deps, out, n, k);
  }

  lemma TipHasNone(deps: Links, out: seq<Key>, k: Key)
    requires Unblocked(deps, k, {})
    ensures LastChild(deps, out, k) == -1
    decreases |out|
  {
    if out != [] { TipHasNone(deps, out[..|out| - 1], k); }
  }

  lemma StillStable(deps: Links, ghosts: set<Key>, prefixOf: Key -> int, out: seq<Key>, done: set<Key>, n: Key)
    requires IsStable(deps, prefixOf, out) && MayFollow(deps, prefixOf, out, n) && n in deps && n !in done
    requires Unblocked(deps, n, done) && forall k :: k in out ==> Unblocked(deps, k, done)
    ensures IsStable(deps, prefixOf, out + [n])
  {
    hide Unblocked, LastChild, Lower;
    var more := out + [n];
    forall k | k in more ensures LastChild(deps, more, k) == LastChild(deps, out, k) { Settled(deps, done, out, n, k); }
    forall a, b | 0 <= a < b < |more| ensures WellPlaced(deps, prefixOf, more, a, b) {
      assert more[a] in more && more[b] in more;
      if b < |out| { assert WellPlaced(deps, prefixOf, out, a, b); }
    }
  }

  lemma TurnAfter(deps: Links, done: set<Key>, out: seq<Key>, pending: seq<Key>, n: Key, more: set<Key>)
    requires pending != [] && n == pending[|pending| - 1] && n in deps && n !in done && InTurn(deps, out, pending)
    requires (forall k :: k in pending ==> Unblocked(deps, k, done)) && more <= Ready(deps, done + {n}, n)
    ensures InTurn(deps, out + [n], pending[..|pending| - 1] + Descending(more))
  {
    hide Unblocked, LastChild, Ready;
    var init, out', list := pending[..|pending| - 1], out + [n], Descending(more);
    DescendingFacts(more);
    forall k | k in pending ensures LastChild(deps, out', k) == LastChild(deps, out, k) { Settled(deps, done, out, n, k); }
    forall k | k in list ensures LastChild(deps, out', k) == |out| { ReadyIsLast(deps, done + {n}, out, n, k); }
    forall i, j | 0 <= i < j < |init + list|
      ensures var ri, rj := LastChild(deps, out', (init + list)[i]), LastChild(deps, out', (init + list)[j]);
              ri < rj || (ri == rj && (init + list)[i] > (init + list)[j])
    {
      if i < |init| { assert (init + list)[i] == pending[i] && pending[i] in pending; }
      if j < |init| {
        assert (init + list)[j] == pending[j] && pending[j] in pending;
      } else {
        assert (init + list)[j] == list[j - |init|] && list[j - |init|] in list;
        if i >= |init| { assert (init + list)[i] == list[i - |init|] && list[i - |init|] in list; }
      }
    }
  }

  lemma FollowAfter(deps: Links, prefixOf: Key -> int, done: set<Key>, out: seq<Key>, n: Key, p: Key)
    requires n in deps && n !in done && Unblocked(deps, n, done) && Unblocked(deps, p, done)
    requires (forall k :: k in out ==> Unblocked(deps, k, done)) && MayFollow(deps, prefixOf, out, p)
    requires var rp, rn := LastChild(deps, out, p), LastChild(deps, out, n);
             rp < rn || (rp == rn && (if rn == -1 then Lower(prefixOf, n, p) else n < p))
    ensures MayFollow(deps, prefixOf, out + [n], p)
  {
    hide Unblocked, LastChild, Lower;
    var more := out + [n];
    Settled(deps, done, out, n, p);
    Settled(deps, done, out, n, n);
    forall a | 0 <= a < |more|
      ensures LastChild(deps, more, more[a]) == LastChild(deps, out, more[a])
      ensures a < |out| ==> more[a] == out[a]
    {
      if a < |out| {
        assert out[a] in out;
        Settled(deps, done, out, n, out[a]);
      }
    }
  }

  lemma ReadyFollows(deps: Links, prefixOf: Key -> int, done: set<Key>, out: seq<Key>, n: Key, p: Key)
    requires n in deps && n !in done && Unblocked(deps, n, done) && p in Ready(deps, done + {n}, n)
    requires forall k :: k in out ==> Unblocked(deps, k, done)
    ensures MayFollow(deps, prefixOf, out + [n], p)
  {
    hide Unblocked, LastChild, Lower, Ready;
    var more := out + [n];
    ReadyIsLast(deps, done + {n}, out, n, p);
    Settled(deps, done, out, n, n);
    forall a | 0 <= a < |more| ensures LastChild(deps, more, more[a]) < |out| {
      if a < |out| {
        assert out[a] in out;
        Settled(deps, done, out, n, out[a]);
        assert more[a] == out[a];
      }
    }
  }

  /** Everything that is done, pending or a later tip waits for no child that is not done. */
  lemma FrontIsUnblocked(deps: Links, ghosts: set<Key>, prefixOf: Key -> int, out: seq<Key>, pending: seq<Key>,
                         done: set<Key>, later: set<Key>, q: int)
    requires Stacked(deps, ghosts, prefixOf, out, pending, done, later, q)
    ensures forall k :: k in out || k in pending || k in later ==> k in deps && Unblocked(deps, k, done)
    ensures forall k :: k in out ==> k in done
    ensures forall k :: k in pending ==> k !in done && k !in later
  {
    hide Unblocked, IsStable, InTurn, AllMayFollow, TipsTogether, LaterTips;
    assert forall k :: k in out ==> k in Members(out);
  }

  lemma FollowAll(deps: Links, ghosts: set<Key>, prefixOf: Key -> int, out: seq<Key>, pending: seq<Key>,
                  done: set<Key>, later: set<Key>, q: int, n: Key, more: set<Key>)
    requires Stacked(deps, ghosts, prefixOf, out, pending, done, later, q) && pending != [] && n == pending[|pending| - 1]
    requires more <= Ready(deps, done + {n}, n)
    ensures AllMayFollow(deps, prefixOf, out + [n], Members(pending[..|pending| - 1]) + more + later)
  {
    hide Front, Unblocked, LastChild, Lower, Ready, IsStable, MayFollow;
    FrontIsUnblocked(deps, ghosts, prefixOf, out, pending, done, later, q);
    var init := pending[..|pending| - 1];
    assert n in pending;
    forall p | p in Members(init) + more + later ensures MayFollow(deps, prefixOf, out + [n], p) {
      if p in more {
        ReadyFollows(deps, prefixOf, done, out, n, p);
      } else if p in init {
        var i :| 0 <= i < |init| && init[i] == p;
        assert pending[i] == p && p in Members(pending) + later;
        TipsLower(deps, prefixOf, out, pending, q, i);
        FollowAfter(deps, prefixOf, done, out, n, p);
      } else {
        assert p in later && p in Members(pending) + later;
        TipHasNone(deps, out, p);
        LaterIsLower(deps, prefixOf, out, pending, later, q, n, p);
        FollowAfter(deps, prefixOf, done, out, n, p);
      }
    }
  }

  lemma TipsLower(deps: Links, prefixOf: Key -> int, out: seq<Key>, pending: seq<Key>, q: int, i: nat)
    requires i + 1 < |pending| && InTurn(deps, out, pending) && TipsTogether(deps, prefixOf, out, pending, q)
    ensures var p, n := pending[i], pending[|pending| - 1];
            var rp, rn := LastChild(deps, out, p), LastChild(deps, out, n);
            rp < rn || (rp == rn && (if rn == -1 then Lower(prefixOf, n, p) else n < p))
  {
    assert pending[i] in pending && pending[|pending| - 1] in pending;
  }

  lemma LaterIsLower(deps: Links, prefixOf: Key -> int, out: seq<Key>, pending: seq<Key>, later: set<Key>, q: int, n: Key, p: Key)
    requires n in pending && p in later && LastChild(deps, out, p) == -1
    requires TipsTogether(deps, prefixOf, out, pending, q) && LaterTips(deps, prefixOf, later, q)
    ensures var rp, rn := LastChild(deps, out, p), LastChild(deps, out, n);
            rp < rn || (rp == rn && (if rn == -1 then Lower(prefixOf, n, p) else n < p))
  {
  }

  lemma PopKey(deps: Links, ghosts: set<Key>, prefixOf: Key -> int, out: seq<Key>, pending: seq<Key>,
               done: set<Key>, later: set<Key>, q: int)
    requires Closed(deps) && Stacked(deps, ghosts, prefixOf, out, pending, done, later, q)
    requires pending != [] && pending[|pending| - 1] !in ghosts
    ensures var n := pending[|pending| - 1];
            n in deps && n !in done
            && Stacked(deps, ghosts, prefixOf, out + [n], AfterStep(deps, done, pending), done + {n}, later, q)
  {
    hide Unblocked, LastChild, Lower, Ready, IsStable, InTurn, AllMayFollow, MayFollow, LaterTips, TipsTogether, Front, Distinct;
    var n, init := pending[|pending| - 1], pending[..|pending| - 1];
    FrontIsUnblocked(deps, ghosts, prefixOf, out, pending, done, later, q);
    assert n in pending;
    FrontStep(deps, done, pending, later);
    var more := Ready(deps, done + {n}, n);
    TurnAfter(deps, done, out, pending, n, more);
    FollowAll(deps, ghosts, prefixOf, out, pending, done, later, q, n, more);
    MayFollowTop(deps, prefixOf, out, pending, later);
    StillStable(deps, ghosts, prefixOf, out, done, n);
    TogetherAfter(deps, prefixOf, done, out, pending, q, n, more);
    OneMoreDone(out, done, ghosts, n);
    MembersAfter(init, more);
  }

  lemma MayFollowTop(deps: Links, prefixOf: Key -> int, out: seq<Key>, pending: seq<Key>, later: set<Key>)
    requires pending != [] && AllMayFollow(deps, prefixOf, out, Members(pending) + later)
    ensures MayFollow(deps, prefixOf, out, pending[|pending| - 1])
  {
    hide MayFollow;
    assert pending[|pending| - 1] in Members(pending) + later;
  }

  lemma TogetherAfter(deps: Links, prefixOf: Key -> int, done: set<Key>, out: seq<Key>, pending: seq<Key>, q: int, n: Key, more: set<Key>)
    requires pending != [] && n == pending[|pending| - 1] && n in deps && n !in done && TipsTogether(deps, prefixOf, out, pending, q)
    requires (forall k :: k in pending ==> Unblocked(deps, k, done)) && more <= Ready(deps, done + {n}, n)
    ensures TipsTogether(deps, prefixOf, out + [n], pending[..|pending| - 1] + Descending(more), q)
  {
    hide Unblocked, LastChild, Ready;
    DescendingFacts(more);
    var init := pending[..|pending| - 1];
    forall p | p in init + Descending(more) && LastChild(deps, out + [n], p) == -1 ensures prefixOf(p) == q {
      if p in more {
        ReadyIsLast(deps, done + {n}, out, n, p);
      } else {
        assert p in init && p in pending;
        Settled(deps, done, out, n, p);
      }
    }
  }

  lemma OneMoreDone(out: seq<Key>, done: set<Key>, ghosts: set<Key>, n: Key)
    requires Members(out) == done - ghosts && Distinct(out) && n !in ghosts && n !in done
    ensures Members(out + [n]) == done + {n} - ghosts && Distinct(out + [n])
  {
    assert forall k :: k in out + [n] <==> k in out || k == n;
    assert n !in Members(out);
  }

  lemma MembersAfter(init: seq<Key>, more: set<Key>)
    ensures Members(init + Descending(more)) == Members(init) + more
  {
    DescendingFacts(more);
    assert forall k :: k in init + Descending(more) <==> k in init || k in Descending(more);
  }

  lemma PopGhost(deps: Links, ghosts: set<Key>, prefixOf: Key -> int, out: seq<Key>, pending: seq<Key>,
                 done: set<Key>, later: set<Key>, q: int)
    requires Closed(deps) && GhostsEnd(deps, ghosts) && Stacked(deps, ghosts, prefixOf, out, pending, done, later, q)
    requires pending != [] && pending[|pending| - 1] in ghosts
    ensures var n := pending[|pending| - 1];
            n in deps && n !in done
            && Stacked(deps, ghosts, prefixOf, out, AfterStep(deps, done, pending), done + {n}, later, q)
  {
    hide Unblocked, LastChild, IsStable, MayFollow, LaterTips, Front, Distinct;
    var n, init := pending[|pending| - 1], pending[..|pending| - 1];
    FrontIsUnblocked(deps, ghosts, prefixOf, out, pending, done, later, q);
    assert n in pending;
    FrontStep(deps, done, pending, later);
    assert deps[n] == [] && Ready(deps, done + {n}, n) == {};
    assert Descending({}) == [] && init + [] == init;
    assert forall k :: k in init ==> k in pending;
    assert Members(init) <= Members(pending);
    assert done + {n} - ghosts == done - ghosts;
  }

  /** A group keeps the stack in turn, down to the empty stack. */
  lemma {:induction false} RunStacked(deps: Links, ghosts: set<Key>, prefixOf: Key -> int, out: seq<Key>, pending: seq<Key>,
                                      done: set<Key>, later: set<Key>, q: int)
    requires Closed(deps) && GhostsEnd(deps, ghosts) && Stacked(deps, ghosts, prefixOf, out, pending, done, later, q)
    ensures var run := GcRun(deps, ghosts, pending, done);
            Stacked(deps, ghosts, prefixOf, out + run.0, [], run.1, later, q)
    decreases deps.Keys - done
  {
    hide Stacked, GcRun, GhostsEnd, Ready;
    if pending == [] {
      RunEnds(deps, ghosts, done);
      assert out + [] == out;
    } else {
      var n := pending[|pending| - 1];
      if n in ghosts {
        PopGhost(deps, ghosts, prefixOf, out, pending, done, later, q);
      } else {
        PopKey(deps, ghosts, prefixOf, out, pending, done, later, q);
      }
      var out' := if n in ghosts then out else out + [n];
      var next := AfterStep(deps, done, pending);
      RunStep(deps, ghosts, pending, done);
      assert n in deps.Keys - done && n !in deps.Keys - (done + {n});
      RunStacked(deps, ghosts, prefixOf, out', next, done + {n}, later, q);
      var rest := GcRun(deps, ghosts, next, done + {n}).0;
      assert out + ((if n in ghosts then [] else [n]) + rest) == out' + rest;
    }
  }

  /** The tips of the next prefix go on the empty stack. */
  lemma NextTips(deps: Links, ghosts: set<Key>, prefixOf: Key -> int, out: seq<Key>, prefixes: seq<int>, done: set<Key>, q0: int)
    requires prefixes != [] && Distinct(prefixes) && IsDescending(prefixes)
    requires Stacked(deps, ghosts, prefixOf, out, [], done, TipsWith(deps, prefixOf, prefixes), q0)
    ensures var q, init := prefixes[|prefixes| - 1], prefixes[..|prefixes| - 1];
            Distinct(init) && IsDescending(init)
            && Stacked(deps, ghosts, prefixOf, out, Descending(TipsOf(deps, prefixOf, q)), done, TipsWith(deps, prefixOf, init), q)
  {
    hide Unblocked, LastChild, IsStable, MayFollow, Front;
    var q, init := prefixes[|prefixes| - 1], prefixes[..|prefixes| - 1];
    var tips, now, later := Descending(TipsOf(deps, prefixOf, q)), TipsOf(deps, prefixOf, q), TipsWith(deps, prefixOf, init);
    FrontGroup(deps, prefixOf, prefixes, done);
    DescendingFacts(now);
    forall p | p in now + later ensures p in TipsWith(deps, prefixOf, prefixes) && LastChild(deps, out, p) == -1 {
      TipHasNone(deps, out, p);
    }
    assert forall p :: p in Members(tips) <==> p in now;
    assert AllMayFollow(deps, prefixOf, out, Members(tips) + later);
    forall i | 0 <= i < |tips| ensures LastChild(deps, out, tips[i]) == -1 { assert tips[i] in tips; }
    assert InTurn(deps, out, tips);
    forall p | p in later ensures prefixOf(p) > q { PrefixAbove(prefixes, prefixOf(p)); }
  }

  lemma PrefixAbove(prefixes: seq<int>, r: int)
    requires prefixes != [] && Distinct(prefixes) && IsDescending(prefixes) && r in prefixes[..|prefixes| - 1]
    ensures r > prefixes[|prefixes| - 1]
  {
    var i :| 0 <= i < |prefixes| - 1 && prefixes[i] == r;
  }

  lemma {:induction false} GroupsStacked(deps: Links, ghosts: set<Key>, prefixOf: Key -> int, out: seq<Key>, prefixes: seq<int>,
                                         done: set<Key>, q0: int)
    requires Closed(deps) && GhostsEnd(deps, ghosts) && Distinct(prefixes) && IsDescending(prefixes)
    requires Stacked(deps, ghosts, prefixOf, out, [], done, TipsWith(deps, prefixOf, prefixes), q0)
    ensures var list := out + GcGroups(deps, ghosts, prefixOf, prefixes, done);
            IsStable(deps, prefixOf, list) && Distinct(list) && forall k :: k in list ==> k in deps && k !in ghosts
    decreases |prefixes|
  {
    hide GcRun, GhostsEnd, IsStable, Front, InTurn, AllMayFollow, TipsTogether, LaterTips, Distinct, IsDescending, TipsOf, TipsWith;
    if prefixes == [] {
      assert out + [] == out;
      ListedAreKeys(deps, ghosts, prefixOf, out, done, TipsWith(deps, prefixOf, prefixes), q0);
    } else {
      NextTips(deps, ghosts, prefixOf, out, prefixes, done, q0);
      var q, init := prefixes[|prefixes| - 1], prefixes[..|prefixes| - 1];
      var tips := Descending(TipsOf(deps, prefixOf, q));
      RunStacked(deps, ghosts, prefixOf, out, tips, done, TipsWith(deps, prefixOf, init), q);
      var run := GcRun(deps, ghosts, tips, done);
      GroupsStacked(deps, ghosts, prefixOf, out + run.0, init, run.1, q);
      var rest := GcGroups(deps, ghosts, prefixOf, init, run.1);
      assert (out + run.0) + rest == out + (run.0 + rest);
    }
  }

  lemma ListedAreKeys(deps: Links, ghosts: set<Key>, prefixOf: Key -> int, out: seq<Key>, done: set<Key>, later: set<Key>, q: int)
    requires Stacked(deps, ghosts, prefixOf, out, [], done, later, q)
    ensures forall k :: k in out ==> k in deps && k !in ghosts
  {
    hide Unblocked, IsStable, InTurn, AllMayFollow, TipsTogether, LaterTips;
    assert forall k :: k in out ==> k in Members(out);
  }

  lemma StackedStart(deps: Links, ghosts: set<Key>, prefixOf: Key -> int) returns (q: int)
    ensures var prefixes := Descending(TipPrefixes(deps, prefixOf));
            Distinct(prefixes) && IsDescending(prefixes)
            && Stacked(deps, ghosts, prefixOf, [], [], {}, TipsWith(deps, prefixOf, prefixes), q)
  {
    hide Unblocked, Front;
    var prefixes := Descending(TipPrefixes(deps, prefixOf));
    DescendingFacts(TipPrefixes(deps, prefixOf));
    FrontStart(deps, prefixOf);
    q := if prefixes == [] then 0 else prefixes[|prefixes| - 1] - 1;
    assert Members([]) == {};
    forall p | p in TipsWith(deps, prefixOf, prefixes) ensures prefixOf(p) > q {
      var i :| 0 <= i < |prefixes| && prefixes[i] == prefixOf(p);
    }
  }

  /** The order of gc_sort is well placed, and no other complete order with children first is. */
  lemma GcOrderIsStable(deps: Links, ghosts: set<Key>, prefixOf: Key -> int, order: seq<Key>)
    requires Closed(deps) && GhostsEnd(deps, ghosts)
    requires ChildrenFirst(deps, ghosts, GcOrder(deps, ghosts, prefixOf))
    requires ChildrenFirst(deps, ghosts, order) && forall k :: k in order <==> k in GcOrder(deps, ghosts, prefixOf)
    ensures IsStable(deps, prefixOf, GcOrder(deps, ghosts, prefixOf))
    ensures IsStable(deps, prefixOf, order) <==> order == GcOrder(deps, ghosts, prefixOf)
  {
    hide Stacked, IsStable, ChildrenFirst, GcGroups, TipPrefixes, GhostsEnd;
    var q := StackedStart(deps, ghosts, prefixOf);
    var list := GcOrder(deps, ghosts, prefixOf);
    GroupsStacked(deps, ghosts, prefixOf, [], Descending(TipPrefixes(deps, prefixOf)), {}, q);
    assert [] + list == list;
    if IsStable(deps, prefixOf, order) { StableIsUnique(deps, ghosts, prefixOf, order, list); }
  }
}
