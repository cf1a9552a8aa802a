/** Looking up many keys at once by probing positions: bisect_multi_bytes of bzrlib/bisect_multi.py. */
module BisectMulti {
  import opened Basics

  type Value = string

  /** What the lookup says of a key at a position; the original encodes the first three as -1, +1 and False. */
  datatype Status = Earlier | Later | Absent | Found(value: Value)

  /** The positions at which the lookup must have a final answer for a key, and that answer. */
  datatype Extent = Extent(lo: int, hi: int, answer: Status)

  datatype Probe = Probe(location: int, key: Key)
  datatype Reply = Reply(probe: Probe, status: Status)

  /** A lookup is given all probes of a round, and the number of the round stands for what it remembers
      of earlier ones. */
  type Lookup = (nat, seq<Probe>) --> seq<Reply>

  function Asked(replies: seq<Reply>): (probes: seq<Probe>)
    ensures |probes| == |replies| && forall i :: 0 <= i < |probes| ==> probes[i] == replies[i].probe
  {
    seq(|replies|, i requires 0 <= i < |replies| => replies[i].probe)
  }

  ghost predicate InContent(probes: seq<Probe>, size: nat, extents: map<Key, Extent>) {
    forall i :: 0 <= i < |probes| ==> 0 <= probes[i].location < size && probes[i].key in extents
  }

  /** A lookup may be asked for known keys at the positions of the content only. */
  ghost predicate Defined(lookup: Lookup, size: nat, extents: map<Key, Extent>) {
    forall round: nat, probes :: InContent(probes, size, extents) ==> lookup.requires(round, probes)
  }

  /** Earlier is said only behind the extent of the key, later only before it, and every final answer is
      that of the key, wherever it is given. */
  ghost predicate HonestReply(r: Reply, e: Extent) {
    match r.status
    case Earlier => e.hi <= r.probe.location
    case Later => r.probe.location < e.lo
    case _ => r.status == e.answer
  }

  /** Every probe of a round is answered once, in any order. */
  ghost predicate HonestReplies(probes: seq<Probe>, replies: seq<Reply>, extents: map<Key, Extent>) {
    && multiset(Asked(replies)) == multiset(probes)
    && forall i :: 0 <= i < |replies| ==>
         replies[i].probe.key in extents && HonestReply(replies[i], extents[replies[i].probe.key])
  }

  ghost predicate Honest(lookup: Lookup, size: nat, extents: map<Key, Extent>)
    requires Defined(lookup, size, extents)
  {
    forall round: nat, probes :: InContent(probes, size, extents) ==> HonestReplies(probes, lookup(round, probes), extents)
  }

  ghost predicate GoodExtent(e: Extent, size: nat) {
    0 <= e.lo < e.hi <= size && (e.answer.Absent? || e.answer.Found?)
  }

  /** Each key has somewhere in the content where its answer, found or absent, must be final. */
  ghost predicate Extents(keys: seq<Key>, extents: map<Key, Extent>, size: nat) {
    forall k :: k in keys ==> k in extents && GoodExtent(extents[k], size)
  }

  // ---------------------------------------------------------------------------
  // How far the probes can still move while delta is above 1
  // ---------------------------------------------------------------------------

  ghost function Jumps(delta: nat): nat {
    if delta <= 1 then 0 else delta / 2 + Jumps(delta / 2)
  }

  lemma {:induction false} JumpsBound(delta: nat)
    ensures delta > 0 ==> Jumps(delta) < delta
  {
    if delta > 1 { JumpsBound(delta / 2); }
  }

  /** No probe can leave the content before delta is 1. */
  ghost predicate Inside(probe: Probe, delta: nat, size: nat) {
    Jumps(delta) <= probe.location && probe.location + Jumps(delta) < size
  }

  lemma StartsInside(size: nat, k: Key)
    requires size > 0
    ensures Inside(Probe(size / 2, k), size / 2, size)
  {
    JumpsBound(size / 2);
  }

  function Halved(delta: nat): nat {
    if delta > 1 then delta / 2 else delta
  }

  // ---------------------------------------------------------------------------
  // How far the probes are from where their keys are answered
  // ---------------------------------------------------------------------------

  ghost function Distance(probe: Probe, e: Extent): nat {
    if probe.location < e.lo then e.lo - probe.location
    else if probe.location < e.hi then 0 else probe.location - e.hi + 1
  }

  ghost predicate AllKnown(probes: seq<Probe>, extents: map<Key, Extent>) {
    forall i :: 0 <= i < |probes| ==> probes[i].key in extents
  }

  ghost function Cost(probes: seq<Probe>, extents: map<Key, Extent>): nat
    requires AllKnown(probes, extents)
  {
    if probes == [] then 0
    else Cost(probes[..|probes| - 1], extents) + Distance(probes[|probes| - 1], extents[probes[|probes| - 1].key]) + 1
  }

  /** Where a probe goes that was told earlier or later. */
  function Moved(r: Reply, delta: nat): Probe {
    Probe(if r.status.Earlier? then r.probe.location - delta else r.probe.location + delta, r.probe.key)
  }

  lemma MovesInside(r: Reply, e: Extent, delta: nat, size: nat)
    requires HonestReply(r, e) && GoodExtent(e, size) && Inside(r.probe, delta, size)
    requires r.status.Earlier? || r.status.Later?
    ensures var next := Moved(r, Halved(delta));
            && Inside(next, Halved(delta), size)
            && (delta == 1 ==> Distance(next, e) < Distance(r.probe, e))
    ensures delta == 0 ==> size > 1
  {
  }

  // ---------------------------------------------------------------------------
  // How many rounds it takes
  // ---------------------------------------------------------------------------

  function Log2(n: nat): nat {
    if n <= 1 then 0 else 1 + Log2(n / 2)
  }

  /** How far a probe can be from its answer after so many rounds, when the delta has come down from a start
      with the given logarithm: halving leaves at most one more position each time. */
  ghost predicate Near(probe: Probe, e: Extent, delta: nat, round: nat, log: nat) {
    if delta > 1 then round + Log2(delta) == log && Distance(probe, e) <= delta + 1 + round
    else log <= round && Distance(probe, e) + round <= 2 * log + 2
  }

  lemma MovesNear(r: Reply, e: Extent, delta: nat, size: nat, round: nat, log: nat)
    requires HonestReply(r, e) && GoodExtent(e, size) && Inside(r.probe, delta, size) && Near(r.probe, e, delta, round, log)
    requires (r.status.Earlier? || r.status.Later?) && delta > 0
    ensures Near(Moved(r, Halved(delta)), e, Halved(delta), round + 1, log)
  {
    hide Inside, Log2, Distance, Moved;
    HalfLog(delta);
    if delta / 2 <= 1 { SmallLog(delta / 2); }
    MovedDistance(r, e, delta, size);
  }

  lemma HalfLog(n: nat)
    ensures n > 1 ==> Log2(n) == 1 + Log2(n / 2)
  {
  }

  /** A move towards the extent takes off its length, or passes the extent by no more than what is left of it. */
  lemma MovedDistance(r: Reply, e: Extent, delta: nat, size: nat)
    requires HonestReply(r, e) && GoodExtent(e, size) && (r.status.Earlier? || r.status.Later?)
    ensures var before, after := Distance(r.probe, e), Distance(Moved(r, Halved(delta)), e);
            before > 0 && after <= if Halved(delta) < before then before - Halved(delta) else Halved(delta) - before
  {
  }

  lemma StartsNear(size: nat, k: Key, e: Extent)
    requires GoodExtent(e, size)
    ensures Near(Probe(size / 2, k), e, size / 2, 0, Log2(size / 2))
  {
    hide Log2;
    if size / 2 <= 1 { SmallLog(size / 2); }
  }

  lemma SmallLog(n: nat)
    requires n <= 1
    ensures Log2(n) == 0
  {
  }

  ghost predicate AllNear(probes: seq<Probe>, extents: map<Key, Extent>, delta: nat, round: nat, log: nat) {
    forall i :: 0 <= i < |probes| ==> probes[i].key in extents && Near(probes[i], extents[probes[i].key], delta, round, log)
  }

  lemma NearEnds(probes: seq<Probe>, extents: map<Key, Extent>, delta: nat, round: nat, log: nat)
    requires probes != [] && AllNear(probes, extents, delta, round, log)
    ensures round <= 2 * log + 2
  {
    assert Near(probes[0], extents[probes[0].key], delta, round, log);
  }

  lemma CostMore(probes: seq<Probe>, probe: Probe, extents: map<Key, Extent>)
    requires AllKnown(probes, extents) && probe.key in extents
    ensures AllKnown(probes + [probe], extents)
    ensures Cost(probes + [probe], extents) == Cost(probes, extents) + Distance(probe, extents[probe.key]) + 1
  {
    assert (probes + [probe])[..|probes|] == probes;
  }

  lemma {:induction false} CostInside(before: seq<Probe>, probe: Probe, after: seq<Probe>, extents: map<Key, Extent>)
    requires AllKnown(before, extents) && probe.key in extents && AllKnown(after, extents)
    ensures AllKnown(before + after, extents) && AllKnown(before + [probe] + after, extents)
    ensures Cost(before + [probe] + after, extents) ==
            Cost(before + after, extents) + Distance(probe, extents[probe.key]) + 1
    decreases |after|
  {
    if after == [] {
      assert before + [] == before && before + [probe] + [] == before + [probe];
      CostMore(before, probe, extents);
    } else {
      var init, last := after[..|after| - 1], after[|after| - 1];
      CostInside(before, probe, init, extents);
      assert before + after == (before + init) + [last];
      assert before + [probe] + after == (before + [probe] + init) + [last];
      CostMore(before + init, last, extents);
      CostMore(before + [probe] + init, last, extents);
    }
  }

  /** Taking the last of a out of b, where the order is another. */
  lemma Elsewhere(a: seq<Probe>, b: seq<Probe>) returns (before: seq<Probe>, after: seq<Probe>)
    requires multiset(a) == multiset(b) && a != []
    ensures var last := a[|a| - 1];
            b == before + [last] + after && multiset(a[..|a| - 1]) == multiset(before + after)
  {
    var init, last := a[..|a| - 1], a[|a| - 1];
    assert last in multiset(b);
    var i :| 0 <= i < |b| && b[i] == last;
    before, after := b[..i], b[i + 1..];
    assert a == init + [last] && b == before + [last] + after;
    Removed(init, before, last, after);
  }

  lemma Removed(init: seq<Probe>, before: seq<Probe>, last: Probe, after: seq<Probe>)
    requires multiset(init + [last]) == multiset(before + [last] + after)
    ensures multiset(init) == multiset(before + after)
  {
    calc {
      multiset(init);
      multiset(init) + multiset{last} - multiset{last};
      multiset(init + [last]) - multiset{last};
      multiset(before) + multiset{last} + multiset(after) - multiset{last};
      multiset(before + after);
    }
  }

  lemma NothingElse(b: seq<Probe>)
    requires |multiset(b)| == 0
    ensures b == []
  {
  }

  lemma KnownElsewhere(a: seq<Probe>, b: seq<Probe>, extents: map<Key, Extent>)
    requires multiset(a) == multiset(b) && AllKnown(a, extents)
    ensures AllKnown(b, extents)
  {
    forall i | 0 <= i < |b| ensures b[i].key in extents {
      assert b[i] in multiset(a);
      var j :| 0 <= j < |a| && a[j] == b[i];
    }
  }

  /** Neither what a round asks for nor its cost depends on the order of the probes. */
  lemma {:induction false} SameKeysInAnyOrder(a: seq<Probe>, b: seq<Probe>)
    requires multiset(a) == multiset(b)
    ensures multiset(ProbedKeys(a)) == multiset(ProbedKeys(b))
    decreases |a|
  {
    if a == [] {
      NothingElse(b);
    } else {
      var before, after := Elsewhere(a, b);
      var init, last := a[..|a| - 1], a[|a| - 1];
      SameKeysInAnyOrder(init, before + after);
      assert ProbedKeys(a) == ProbedKeys(init) + [last.key];
      assert ProbedKeys(b) == ProbedKeys(before) + [last.key] + ProbedKeys(after);
      assert ProbedKeys(before + after) == ProbedKeys(before) + ProbedKeys(after);
    }
  }

  lemma {:induction false} SameCostInAnyOrder(a: seq<Probe>, b: seq<Probe>, extents: map<Key, Extent>)
    requires multiset(a) == multiset(b) && AllKnown(a, extents)
    ensures AllKnown(b, extents) && Cost(a, extents) == Cost(b, extents)
    decreases |a|
  {
    hide AllKnown, Cost;
    KnownElsewhere(a, b, extents);
    if a == [] {
      NothingElse(b);
    } else {
      var before, after := Elsewhere(a, b);
      var init, last := a[..|a| - 1], a[|a| - 1];
      assert a == init + [last] == init + [last] + [];
      KnownParts(init, last, [], extents);
      KnownParts(before, last, after, extents);
      SameCostInAnyOrder(init, before + after, extents);
      CostMore(init, last, extents);
      CostInside(before, last, after, extents);
    }
  }

  lemma KnownParts(before: seq<Probe>, probe: Probe, after: seq<Probe>, extents: map<Key, Extent>)
    requires AllKnown(before + [probe] + after, extents)
    ensures AllKnown(before, extents) && probe.key in extents && AllKnown(after, extents)
  {
    var all := before + [probe] + after;
    forall i | 0 <= i < |before| ensures before[i].key in extents { assert all[i] == before[i]; }
    forall i | 0 <= i < |after| ensures after[i].key in extents { assert all[|before| + 1 + i] == after[i]; }
    assert all[|before|] == probe;
  }

  // ---------------------------------------------------------------------------
  // Results
  // ---------------------------------------------------------------------------

  function KeysOf(results: seq<(Key, Value)>): (keys: seq<Key>)
    ensures |keys| == |results| && forall i :: 0 <= i < |keys| ==> keys[i] == results[i].0
  {
    seq(|results|, i requires 0 <= i < |results| => results[i].0)
  }

  function ProbedKeys(probes: seq<Probe>): (keys: seq<Key>)
    ensures |keys| == |probes| && forall i :: 0 <= i < |keys| ==> keys[i] == probes[i].key
  {
    seq(|probes|, i requires 0 <= i < |probes| => probes[i].key)
  }

  ghost function Counted(results: seq<(Key, Value)>, probes: seq<Probe>, k: Key): nat {
    multiset(KeysOf(results))[k] + multiset(ProbedKeys(probes))[k]
  }

  /** Each asked key that is present is a result as often as it was asked for, or is still being looked
      for; absent keys are no results; values are the lookup's. */
  ghost predicate Tallied(extents: map<Key, Extent>, keys: seq<Key>, results: seq<(Key, Value)>, probes: seq<Probe>) {
    && (forall k :: k in extents && extents[k].answer.Found? ==> multiset(keys)[k] == Counted(results, probes, k))
    && forall i :: 0 <= i < |results| ==>
         results[i].0 in keys && results[i].0 in extents && extents[results[i].0].answer == Found(results[i].1)
  }

  lemma TalliedAgain(extents: map<Key, Extent>, keys: seq<Key>, results: seq<(Key, Value)>, a: seq<Probe>, b: seq<Probe>)
    requires Tallied(extents, keys, results, a) && multiset(ProbedKeys(a)) == multiset(ProbedKeys(b))
    ensures Tallied(extents, keys, results, b)
  {
  }

  lemma KeysOfMore(results: seq<(Key, Value)>, r: (Key, Value))
    ensures KeysOf(results + [r]) == KeysOf(results) + [r.0]
  {
  }

  /** One probe of a round: answered, or moved. */
  lemma TalliedStep(extents: map<Key, Extent>, keys: seq<Key>, results: seq<(Key, Value)>, moved: seq<Probe>,
                    rest: seq<Probe>, r: Reply, delta: nat)
    requires rest != [] && r.probe == rest[0] && r.probe.key in extents && r.probe.key in keys
    requires HonestReply(r, extents[r.probe.key])
    requires Tallied(extents, keys, results, moved + rest)
    ensures r.status.Earlier? || r.status.Later? ==> Tallied(extents, keys, results, moved + [Moved(r, delta)] + rest[1..])
    ensures r.status.Absent? ==> Tallied(extents, keys, results, moved + rest[1..])
    ensures r.status.Found? ==> Tallied(extents, keys, results + [(r.probe.key, r.status.value)], moved + rest[1..])
  {
    hide Counted;
    forall k: Key
      ensures Counted(results, moved + [Moved(r, delta)] + rest[1..], k) == Counted(results, moved + rest, k)
      ensures k != r.probe.key ==> Counted(results, moved + rest[1..], k) == Counted(results, moved + rest, k)
      ensures r.status.Found? ==>
                Counted(results + [(r.probe.key, r.status.value)], moved + rest[1..], k) == Counted(results, moved + rest, k)
    {
      CountedAgain(results, moved, rest, Moved(r, delta), k);
      CountedAnswer(results, moved, rest, r.status, k);
    }
  }

  lemma CountedAgain(results: seq<(Key, Value)>, moved: seq<Probe>, rest: seq<Probe>, q: Probe, k: Key)
    requires rest != [] && q.key == rest[0].key
    ensures Counted(results, moved + [q] + rest[1..], k) == Counted(results, moved + rest, k)
  {
    assert ProbedKeys(moved + [q] + rest[1..]) == ProbedKeys(moved + rest);
  }

  lemma CountedAnswer(results: seq<(Key, Value)>, moved: seq<Probe>, rest: seq<Probe>, s: Status, k: Key)
    requires rest != []
    ensures k != rest[0].key ==> Counted(results, moved + rest[1..], k) == Counted(results, moved + rest, k)
    ensures s.Found? ==> Counted(results + [(rest[0].key, s.value)], moved + rest[1..], k) == Counted(results, moved + rest, k)
  {
    var before, after, x := ProbedKeys(moved), ProbedKeys(rest[1..]), rest[0].key;
    assert ProbedKeys(moved + rest) == before + [x] + after;
    assert ProbedKeys(moved + rest[1..]) == before + after;
    if s.Found? { KeysOfMore(results, (x, s.value)); }
  }

  // ---------------------------------------------------------------------------
  // The loop
  // ---------------------------------------------------------------------------

  ghost predicate Probing(keys: seq<Key>, extents: map<Key, Extent>, delta: nat, size: nat, probes: seq<Probe>) {
    forall i :: 0 <= i < |probes| ==> Inside(probes[i], delta, size) && probes[i].key in extents && probes[i].key in keys
  }

  ghost function CostOf(probes: seq<Probe>, extents: map<Key, Extent>): nat {
    if AllKnown(probes, extents) then Cost(probes, extents) else 0
  }

  /** All keys are probed at once; one round moves or answers every probe. */
  method Round(lookup: Lookup, round: nat, size: nat, keys: seq<Key>, probes: seq<Probe>, delta: nat,
               results0: seq<(Key, Value)>, ghost extents: map<Key, Extent>, ghost log: nat)
      returns (results: seq<(Key, Value)>, next: seq<Probe>)
    requires Defined(lookup, size, extents) && Honest(lookup, size, extents) && Extents(keys, extents, size)
    requires Probing(keys, extents, delta, size, probes) && (delta == 0 ==> size <= 1)
    requires Tallied(extents, keys, results0, probes) && AllNear(probes, extents, delta, round, log)
    ensures Probing(keys, extents, Halved(delta), size, next) && AllNear(next, extents, Halved(delta), round + 1, log)
    ensures Tallied(extents, keys, results, next)
    ensures delta <= 1 && probes != [] ==> CostOf(next, extents) < CostOf(probes, extents)
  {
    hide *;
    InsideContent(keys, extents, delta, size, probes);
    MayBeAsked(lookup, round, size, probes, extents);
    var replies := lookup(round, probes);
    ghost var asked := Asked(replies);
    SameRound(keys, extents, delta, size, probes, replies, results0);
    SameNear(extents, delta, round, log, probes, asked);
    results, next := results0, [];
    NothingMoved(keys, extents, Halved(delta), size, asked);
    NothingNear(extents, Halved(delta), round + 1, log);
    for i := 0 to |replies|
      invariant |asked| == |replies| && Moving(keys, extents, delta, size, asked, i, next)
      invariant Tallied(extents, keys, results, next + asked[i..])
      invariant AllNear(next, extents, Halved(delta), round + 1, log)
    {
      var r := replies[i];
      ReplyFacts(keys, extents, delta, size, replies, i);
      TalliedStep(extents, keys, results, next, asked[i..], r, Halved(delta));
      MovesOn(keys, extents, delta, size, asked, i, next, r);
      NearOn(keys, extents, delta, size, asked, i, next, r, round, log);
      if r.status.Earlier? || r.status.Later? {
        next := next + [Moved(r, Halved(delta))];
      } else if r.status.Found? {
        results := results + [(r.probe.key, r.status.value)];
      }
    }
    AllMoved(keys, extents, delta, size, asked, next);
  }

  lemma SameNear(extents: map<Key, Extent>, delta: nat, round: nat, log: nat, probes: seq<Probe>, asked: seq<Probe>)
    requires AllNear(probes, extents, delta, round, log) && multiset(asked) == multiset(probes)
    ensures AllNear(asked, extents, delta, round, log)
  {
    hide Near;
    forall i | 0 <= i < |asked|
      ensures asked[i].key in extents && Near(asked[i], extents[asked[i].key], delta, round, log)
    {
      assert asked[i] in multiset(probes);
      var j :| 0 <= j < |probes| && probes[j] == asked[i];
    }
  }

  lemma NothingNear(extents: map<Key, Extent>, delta: nat, round: nat, log: nat)
    ensures AllNear([], extents, delta, round, log)
  {
  }

  lemma NearOn(keys: seq<Key>, extents: map<Key, Extent>, delta: nat, size: nat, asked: seq<Probe>, i: nat,
               next: seq<Probe>, r: Reply, round: nat, log: nat)
    requires i < |asked| && r.probe == asked[i] && Replied(keys, extents, delta, size, r) && (delta == 0 ==> size <= 1)
    requires AllNear(asked, extents, delta, round, log) && AllNear(next, extents, Halved(delta), round + 1, log)
    ensures AllNear(if r.status.Earlier? || r.status.Later? then next + [Moved(r, Halved(delta))] else next,
                    extents, Halved(delta), round + 1, log)
  {
    hide Near, Inside, Distance, HonestReply, GoodExtent, Moved;
    if r.status.Earlier? || r.status.Later? {
      MovesInside(r, extents[r.probe.key], delta, size);
      MovesNear(r, extents[r.probe.key], delta, size, round, log);
      MovedKey(r, Halved(delta));
    }
  }

  /** After the first i replies of a round. */
  ghost predicate Moving(keys: seq<Key>, extents: map<Key, Extent>, delta: nat, size: nat, asked: seq<Probe>, i: nat, next: seq<Probe>) {
    && i <= |asked| && Probing(keys, extents, Halved(delta), size, next)
    && AllKnown(next, extents) && AllKnown(asked[..i], extents)
    && (delta <= 1 ==> Cost(next, extents) + i <= Cost(asked[..i], extents))
  }

  lemma InsideContent(keys: seq<Key>, extents: map<Key, Extent>, delta: nat, size: nat, probes: seq<Probe>)
    requires Probing(keys, extents, delta, size, probes)
    ensures InContent(probes, size, extents) && AllKnown(probes, extents)
  {
  }

  lemma MayBeAsked(lookup: Lookup, round: nat, size: nat, probes: seq<Probe>, extents: map<Key, Extent>)
    requires Defined(lookup, size, extents) && Honest(lookup, size, extents) && InContent(probes, size, extents)
    ensures lookup.requires(round, probes) && HonestReplies(probes, lookup(round, probes), extents)
  {
  }

  lemma SameRound(keys: seq<Key>, extents: map<Key, Extent>, delta: nat, size: nat, probes: seq<Probe>,
                  replies: seq<Reply>, results: seq<(Key, Value)>)
    requires Probing(keys, extents, delta, size, probes) && AllKnown(probes, extents)
    requires HonestReplies(probes, replies, extents) && Extents(keys, extents, size)
    requires Tallied(extents, keys, results, probes)
    ensures AllReplied(keys, extents, delta, size, replies)
    ensures |Asked(replies)| == |replies| && AllKnown(Asked(replies), extents)
    ensures Cost(Asked(replies), extents) == CostOf(probes, extents) && (probes != [] ==> replies != [])
    ensures Tallied(extents, keys, results, [] + Asked(replies)[0..])
  {
    hide Tallied, Inside, Cost, HonestReply, GoodExtent;
    var asked := Asked(replies);
    assert [] + asked[0..] == asked;
    SameKeysInAnyOrder(probes, asked);
    SameCostInAnyOrder(probes, asked, extents);
    TalliedAgain(extents, keys, results, probes, asked);
    assert |multiset(probes)| == |multiset(asked)|;
    forall i | 0 <= i < |asked| ensures Inside(asked[i], delta, size) && asked[i].key in keys {
      assert asked[i] in multiset(probes);
      var j :| 0 <= j < |probes| && probes[j] == asked[i];
    }
  }

  ghost predicate AllReplied(keys: seq<Key>, extents: map<Key, Extent>, delta: nat, size: nat, replies: seq<Reply>) {
    forall i :: 0 <= i < |replies| ==> Replied(keys, extents, delta, size, replies[i])
  }

  ghost predicate Replied(keys: seq<Key>, extents: map<Key, Extent>, delta: nat, size: nat, r: Reply) {
    && r.probe.key in keys && r.probe.key in extents && Inside(r.probe, delta, size)
    && GoodExtent(extents[r.probe.key], size) && HonestReply(r, extents[r.probe.key])
  }

  lemma NothingMoved(keys: seq<Key>, extents: map<Key, Extent>, step: nat, size: nat, asked: seq<Probe>)
    ensures forall delta :: Halved(delta) == step ==> Moving(keys, extents, delta, size, asked, 0, [])
  {
    assert asked[..0] == [];
  }

  lemma ReplyFacts(keys: seq<Key>, extents: map<Key, Extent>, delta: nat, size: nat, replies: seq<Reply>, i: nat)
    requires AllReplied(keys, extents, delta, size, replies) && i < |replies|
    ensures Replied(keys, extents, delta, size, replies[i])
    ensures replies[i].probe.key in keys && replies[i].probe.key in extents && HonestReply(replies[i], extents[replies[i].probe.key])
    ensures Asked(replies)[i..] != [] && Asked(replies)[i..][0] == replies[i].probe
    ensures Asked(replies)[i..][1..] == Asked(replies)[i + 1..]
  {
  }

  lemma MovesOn(keys: seq<Key>, extents: map<Key, Extent>, delta: nat, size: nat, asked: seq<Probe>, i: nat,
                next: seq<Probe>, r: Reply)
    requires i < |asked| && r.probe == asked[i] && Replied(keys, extents, delta, size, r)
    requires Moving(keys, extents, delta, size, asked, i, next) && (delta == 0 ==> size <= 1)
    ensures Moving(keys, extents, delta, size, asked, i + 1,
                   if r.status.Earlier? || r.status.Later? then next + [Moved(r, Halved(delta))] else next)
  {
    hide Inside, Cost, HonestReply, GoodExtent, Distance, Moved;
    assert asked[..i + 1] == asked[..i] + [r.probe];
    CostMore(asked[..i], r.probe, extents);
    if r.status.Earlier? || r.status.Later? {
      MovesInside(r, extents[r.probe.key], delta, size);
      MovedKey(r, Halved(delta));
      CostMore(next, Moved(r, Halved(delta)), extents);
    }
  }

  lemma MovedKey(r: Reply, step: nat)
    ensures Moved(r, step).key == r.probe.key
  {
  }

  lemma AllMoved(keys: seq<Key>, extents: map<Key, Extent>, delta: nat, size: nat, asked: seq<Probe>, next: seq<Probe>)
    requires Moving(keys, extents, delta, size, asked, |asked|, next) && AllKnown(asked, extents)
    ensures Probing(keys, extents, Halved(delta), size, next) && next + asked[|asked|..] == next
    ensures delta <= 1 ==> CostOf(next, extents) + |asked| <= Cost(asked, extents)
  {
    assert asked[..|asked|] == asked;
  }

  /** Ends for every honest lookup, which is asked inside the content only, after a number of rounds that is
      logarithmic in its size; each key that is present is a result as often as it was asked for, with its
      value, and no other key is. */
  method BisectMultiBytes(lookup: Lookup, size: nat, keys: seq<Key>, ghost extents: map<Key, Extent>)
      returns (results: seq<(Key, Value)>, ghost rounds: nat)
    requires Defined(lookup, size, extents) && Honest(lookup, size, extents) && Extents(keys, extents, size)
    ensures rounds <= 2 * Log2(size / 2) + 3
    ensures forall k :: k in keys ==>
              multiset(KeysOf(results))[k] == if extents[k].answer.Found? then multiset(keys)[k] else 0
    ensures forall i :: 0 <= i < |results| ==>
              results[i].0 in keys && results[i].0 in extents && extents[results[i].0].answer == Found(results[i].1)
  {
    hide Honest, Tallied, Inside, Defined, Probing, AllNear, Log2;
    results := [];
    rounds := 0;
    ghost var log := Log2(size / 2);
    var delta: nat := size / 2;
    var probes := seq(|keys|, i requires 0 <= i < |keys| => Probe(delta, keys[i]));
    Start(size, keys, probes, extents);
    var round := 0;
    while probes != []
      invariant Probing(keys, extents, delta, size, probes) && (delta == 0 ==> size <= 1)
      invariant Tallied(extents, keys, results, probes)
      invariant rounds == round && AllNear(probes, extents, delta, round, log) && (round > 0 ==> round <= 2 * log + 3)
      decreases delta, CostOf(probes, extents)
    {
      NearEnds(probes, extents, delta, round, log);
      results, probes := Round(lookup, round, size, keys, probes, delta, results, extents, log);
      round := round + 1;
      rounds := round;
      delta := Halved(delta);
    }
    Done(extents, keys, results);
  }

  lemma Start(size: nat, keys: seq<Key>, probes: seq<Probe>, extents: map<Key, Extent>)
    requires Extents(keys, extents, size)
    requires |probes| == |keys| && forall i :: 0 <= i < |probes| ==> probes[i] == Probe(size / 2, keys[i])
    ensures Probing(keys, extents, size / 2, size, probes)
    ensures Tallied(extents, keys, [], probes) && AllNear(probes, extents, size / 2, 0, Log2(size / 2))
  {
    hide Inside, Near, Log2;
    assert ProbedKeys(probes) == keys;
    forall i | 0 <= i < |probes|
      ensures Inside(probes[i], size / 2, size) && probes[i].key in extents && probes[i].key in keys
      ensures Near(probes[i], extents[probes[i].key], size / 2, 0, Log2(size / 2))
    {
      assert keys[i] in keys;
      StartsInside(size, keys[i]);
      StartsNear(size, keys[i], extents[keys[i]]);
    }
  }

  lemma Done(extents: map<Key, Extent>, keys: seq<Key>, results: seq<(Key, Value)>)
    requires (forall k :: k in keys ==> k in extents) && Tallied(extents, keys, results, [])
    ensures forall k :: k in keys ==>
              multiset(KeysOf(results))[k] == if extents[k].answer.Found? then multiset(keys)[k] else 0
    ensures forall i :: 0 <= i < |results| ==>
              results[i].0 in keys && results[i].0 in extents && extents[results[i].0].answer == Found(results[i].1)
  {
    forall k | k in keys && !extents[k].answer.Found? ensures multiset(KeysOf(results))[k] == 0 {
      forall i | 0 <= i < |results| ensures KeysOf(results)[i] != k { }
    }
  }
}
