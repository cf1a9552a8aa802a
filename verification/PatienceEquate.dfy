/** Equivalence classes of lines, as the C matcher (bzrlib/_patiencediff_c.c) builds them.

    An open-addressed hash table holds one bucket for each different line of b; the lines of
    each class are linked in ascending order in both texts.  -1 is the sentinel.  A hash is any
    function of the line, so equal lines have equal hashes; masking with size - 1, where size
    is a power of two, is taking the remainder. */
module PatienceEquate {

  datatype Line<T> = Line(hash: int, next: int, equiv: int, data: T)

  datatype Bucket = Bucket(aHead: int, aCount: int, bHead: int, bCount: int, aPos: int, bPos: int)

  // ---------------------------------------------------------------------------
  // Chains of lines of one equivalence class
  // ---------------------------------------------------------------------------

  /** The first line at or after `from` that belongs to class e, or -1. */
  ghost function NextOf<T>(lines: seq<Line<T>>, e: int, from: nat): int
    decreases |lines| - from
  {
    if from >= |lines| then -1
    else if lines[from].equiv == e then from
    else NextOf(lines, e, from + 1)
  }

  ghost function CountOf<T>(lines: seq<Line<T>>, e: int, from: nat): nat
    decreases |lines| - from
  {
    if from >= |lines| then 0
    else (if lines[from].equiv == e then 1 else 0) + CountOf(lines, e, from + 1)
  }

  lemma {:induction false} NextIsFirst<T>(lines: seq<Line<T>>, e: int, from: nat)
    requires from <= |lines|
    ensures var n := NextOf(lines, e, from);
            if n == -1 then forall k :: from <= k < |lines| ==> lines[k].equiv != e
            else from <= n < |lines| && lines[n].equiv == e && forall k :: from <= k < n ==> lines[k].equiv != e
    decreases |lines| - from
  {
    if from < |lines| && lines[from].equiv != e { NextIsFirst(lines, e, from + 1); }
  }

  lemma {:induction false} CountIsZero<T>(lines: seq<Line<T>>, e: int, from: nat)
    ensures CountOf(lines, e, from) == 0 <==> NextOf(lines, e, from) == -1
    decreases |lines| - from
  {
    if from < |lines| && lines[from].equiv != e { CountIsZero(lines, e, from + 1); }
  }

  lemma ChainUnfolds<T>(lines: seq<Line<T>>, e: int, i: nat)
    requires i < |lines|
    ensures NextOf(lines, e, i) == if lines[i].equiv == e then i else NextOf(lines, e, i + 1)
    ensures CountOf(lines, e, i) == (if lines[i].equiv == e then 1 else 0) + CountOf(lines, e, i + 1)
  {
  }

  /** Chains from `from` on do not depend on the lines before. */
  lemma {:induction false} ChainFrame<T>(p: seq<Line<T>>, q: seq<Line<T>>, e: int, from: nat)
    requires |p| == |q| && forall k :: from <= k < |p| ==> p[k].equiv == q[k].equiv
    ensures NextOf(p, e, from) == NextOf(q, e, from) && CountOf(p, e, from) == CountOf(q, e, from)
    decreases |p| - from
  {
    if from < |p| { ChainFrame(p, q, e, from + 1); }
  }

  // ---------------------------------------------------------------------------
  // The hash table
  // ---------------------------------------------------------------------------

  /** x is met when probing from s before j is reached. */
  predicate OnPath(s: int, j: int, x: int) {
    if s <= j then s <= x < j else x >= s || x < j
  }

  ghost predicate Used(table: seq<Bucket>, j: int)
    requires 0 <= j < |table|
  {
    table[j].bHead != -1
  }

  ghost predicate HashesAgree<T(!new)>(hashOf: T -> int, lines: seq<Line<T>>) {
    forall k :: 0 <= k < |lines| ==> lines[k].hash == hashOf(lines[k].data)
  }

  /** Every used slot stands for one line of b, was reached by probing over used slots only,
      and differs from all other used slots. */
  ghost predicate Probed<T(!new)>(hashOf: T -> int, lb: seq<Line<T>>, table: seq<Bucket>) {
    && |table| > 0
    && (forall j :: 0 <= j < |table| && Used(table, j) ==>
          && 0 <= table[j].bHead < |lb|
          && forall x :: 0 <= x < |table| && OnPath(hashOf(lb[table[j].bHead].data) % |table|, j, x) ==> Used(table, x))
    && forall i, j :: 0 <= i < j < |table| && Used(table, i) && Used(table, j) ==>
         lb[table[i].bHead].data != lb[table[j].bHead].data
  }

  ghost predicate HasFree(table: seq<Bucket>) {
    exists z :: 0 <= z < |table| && !Used(table, z)
  }

  /** j is the slot for the line: the slot of its class, or the free slot where probing ends. */
  ghost predicate IsClass<T(!new)>(hashOf: T -> int, lb: seq<Line<T>>, table: seq<Bucket>, data: T, j: int) {
    && 0 <= j < |table|
    && (Used(table, j) ==> 0 <= table[j].bHead < |lb| && lb[table[j].bHead].data == data)
    && (!Used(table, j) ==> forall y :: 0 <= y < |table| && Used(table, y) && 0 <= table[y].bHead < |lb| ==> lb[table[y].bHead].data != data)
    && forall x :: 0 <= x < |table| && OnPath(hashOf(data) % |table|, j, x) ==> Used(table, x)
  }

  method FindEquivalenceClass<T(==, !new)>(ghost hashOf: T -> int, table: array<Bucket>, line: Line<T>, refLines: array<Line<T>>)
    returns (j: int)
    requires Probed(hashOf, refLines[..], table[..]) && HasFree(table[..])
    requires HashesAgree(hashOf, refLines[..]) && line.hash == hashOf(line.data)
    ensures IsClass(hashOf, refLines[..], table[..], line.data, j)
  {
    ghost var z :| 0 <= z < table.Length && !Used(table[..], z);
    ghost var home := line.hash % table.Length;
    j := line.hash % table.Length;
    while table[j].bHead != -1
      invariant 0 <= j < table.Length
      invariant forall x :: 0 <= x < table.Length && OnPath(home, j, x) ==>
        table[x].bHead != -1 && refLines[table[x].bHead].data != line.data
      decreases if j <= z then z - j else z - j + table.Length
    {
      var ref := refLines[table[j].bHead];
      if line.hash == ref.hash && line.data == ref.data {
        break;
      }
      j := if j + 1 == table.Length then 0 else j + 1;
    }
  }

  /** Distinct members of a set are no more than the set has. */
  lemma {:induction false} DistinctBound(f: seq<int>, s: set<int>)
    requires forall i :: 0 <= i < |f| ==> f[i] in s
    requires forall i, j :: 0 <= i < j < |f| ==> f[i] != f[j]
    ensures |f| <= |s|
  {
    if |f| > 0 {
      var last := f[|f| - 1];
      DistinctBound(f[..|f| - 1], s - {last});
    }
  }

  ghost function Range(n: nat): (s: set<int>)
    ensures |s| == n
    ensures forall x :: x in s <==> 0 <= x < n
  {
    if n == 0 then {} else Range(n - 1) + {n - 1}
  }

  /** A table with more slots than there are lines always has a free slot, so probing ends. */
  lemma FreeSlot<T(!new)>(hashOf: T -> int, lb: seq<Line<T>>, table: seq<Bucket>)
    requires Probed(hashOf, lb, table) && |table| > |lb|
    ensures HasFree(table)
  {
    if forall z :: 0 <= z < |table| ==> Used(table, z) {
      var heads := seq(|table|, z requires 0 <= z < |table| => table[z].bHead);
      DistinctBound(heads, Range(|lb|));
    }
  }

  // ---------------------------------------------------------------------------
  // equate_lines
  // ---------------------------------------------------------------------------

  /** The lines of b from i on are linked and have their slots. */
  ghost predicate LinkedB<T>(lb: seq<Line<T>>, table: seq<Bucket>, i: nat) {
    && (forall e :: 0 <= e < |table| ==> table[e].bHead == NextOf(lb, e, i) && table[e].bCount == CountOf(lb, e, i))
    && (forall k :: i <= k < |lb| ==>
          && 0 <= lb[k].equiv < |table|
          && lb[k].next == NextOf(lb, lb[k].equiv, k + 1)
          && 0 <= table[lb[k].equiv].bHead < |lb|
          && lb[table[lb[k].equiv].bHead].data == lb[k].data)
  }

  /** The lines of a from i on are linked and have their slots. */
  ghost predicate LinkedA<T>(la: seq<Line<T>>, lb: seq<Line<T>>, table: seq<Bucket>, i: nat) {
    && (forall e :: 0 <= e < |table| ==>
          if Used(table, e) then table[e].aHead == NextOf(la, e, i) && table[e].aCount == CountOf(la, e, i)
          else table[e].aHead == -1 && table[e].aCount == 0)
    && (forall k :: i <= k < |la| ==>
          && 0 <= la[k].equiv < |table|
          && (Used(table, la[k].equiv) ==> la[k].next == NextOf(la, la[k].equiv, k + 1))
          && (Used(table, la[k].equiv) ==> 0 <= table[la[k].equiv].bHead < |lb| && lb[table[la[k].equiv].bHead].data == la[k].data)
          && (!Used(table, la[k].equiv) ==> forall m :: 0 <= m < |lb| ==> lb[m].data != la[k].data))
  }

  function SetB<T>(lb: seq<Line<T>>, table: seq<Bucket>, i: nat, j: int): (r: seq<Line<T>>)
    requires i < |lb| && 0 <= j < |table|
  {
    lb[i := lb[i].(equiv := j, next := table[j].bHead)]
  }

  lemma LinkB<T(!new)>(hashOf: T -> int, lb: seq<Line<T>>, table: seq<Bucket>, i: nat, j: int)
    requires i < |lb| && LinkedB(lb, table, i + 1) && IsClass(hashOf, lb, table, lb[i].data, j)
    ensures LinkedB(SetB(lb, table, i, j), table[j := table[j].(bHead := i, bCount := table[j].bCount + 1)], i)
  {
    hide NextOf, CountOf;
    var lb' := SetB(lb, table, i, j);
    var table' := table[j := table[j].(bHead := i, bCount := table[j].bCount + 1)];
    forall e, k | i + 1 <= k <= |lb|
      ensures NextOf(lb', e, k) == NextOf(lb, e, k) && CountOf(lb', e, k) == CountOf(lb, e, k)
    {
      ChainFrame(lb', lb, e, k);
    }
    forall e
      ensures NextOf(lb', e, i) == if e == j then i else NextOf(lb, e, i + 1)
      ensures CountOf(lb', e, i) == CountOf(lb, e, i + 1) + if e == j then 1 else 0
    {
      ChainUnfolds(lb', e, i);
    }
  }

  lemma ProbeB<T(!new)>(hashOf: T -> int, lb: seq<Line<T>>, table: seq<Bucket>, i: nat, j: int)
    requires i < |lb| && Probed(hashOf, lb, table) && IsClass(hashOf, lb, table, lb[i].data, j)
    ensures Probed(hashOf, SetB(lb, table, i, j), table[j := table[j].(bHead := i, bCount := table[j].bCount + 1)])
  {
    var lb' := SetB(lb, table, i, j);
    var table' := table[j := table[j].(bHead := i, bCount := table[j].bCount + 1)];
    assert forall x :: 0 <= x < |table| ==> (Used(table', x) <==> Used(table, x) || x == j);
    assert forall x :: 0 <= x < |table| && Used(table', x) ==>
      lb'[table'[x].bHead].data == if x == j then lb[i].data else lb[table[x].bHead].data;
  }

  lemma LinkA<T(!new)>(hashOf: T -> int, la: seq<Line<T>>, lb: seq<Line<T>>, table: seq<Bucket>, i: nat, j: int)
    requires i < |la| && LinkedA(la, lb, table, i + 1) && IsClass(hashOf, lb, table, la[i].data, j)
    requires table[j].bHead == -1 ==> forall m :: 0 <= m < |lb| ==> lb[m].data != la[i].data
    ensures table[j].bHead != -1 ==>
      LinkedA(la[i := la[i].(equiv := j, next := table[j].aHead)], lb, table[j := table[j].(aHead := i, aCount := table[j].aCount + 1)], i)
    ensures table[j].bHead == -1 ==> LinkedA(la[i := la[i].(equiv := j)], lb, table, i)
  {
    hide NextOf, CountOf;
    var la' := if Used(table, j) then la[i := la[i].(equiv := j, next := table[j].aHead)] else la[i := la[i].(equiv := j)];
    forall e, k | i + 1 <= k <= |la|
      ensures NextOf(la', e, k) == NextOf(la, e, k) && CountOf(la', e, k) == CountOf(la, e, k)
    {
      ChainFrame(la', la, e, k);
    }
    forall e
      ensures NextOf(la', e, i) == if e == j then i else NextOf(la, e, i + 1)
      ensures CountOf(la', e, i) == CountOf(la, e, i + 1) + if e == j then 1 else 0
    {
      ChainUnfolds(la', e, i);
    }
  }

  /** What equate_lines leaves behind: classes, chains and buckets that fit together. */
  ghost predicate Equated<T>(la: seq<Line<T>>, lb: seq<Line<T>>, table: seq<Bucket>) {
    LinkedB(lb, table, 0) && LinkedA(la, lb, table, 0)
  }

  /** Two lines, at least one of them from b, share a class exactly when they are equal. */
  lemma ClassesAreEquality<T(!new)>(hashOf: T -> int, la: seq<Line<T>>, lb: seq<Line<T>>, table: seq<Bucket>)
    requires Probed(hashOf, lb, table) && Equated(la, lb, table)
    ensures forall i, j :: 0 <= i < |lb| && 0 <= j < |lb| ==> (lb[i].equiv == lb[j].equiv <==> lb[i].data == lb[j].data)
    ensures forall i, j :: 0 <= i < |la| && 0 <= j < |lb| ==> (la[i].equiv == lb[j].equiv <==> la[i].data == lb[j].data)
  {
    hide Probed, Equated;
    forall i, j | 0 <= i < |lb| && 0 <= j < |lb| ensures lb[i].equiv == lb[j].equiv <==> lb[i].data == lb[j].data {
      EqualInB(hashOf, la, lb, table, i, j);
    }
    forall i, j | 0 <= i < |la| && 0 <= j < |lb| ensures la[i].equiv == lb[j].equiv <==> la[i].data == lb[j].data {
      EqualInBoth(hashOf, la, lb, table, i, j);
    }
  }

  lemma EqualInB<T(!new)>(hashOf: T -> int, la: seq<Line<T>>, lb: seq<Line<T>>, table: seq<Bucket>, i: nat, j: nat)
    requires Probed(hashOf, lb, table) && Equated(la, lb, table) && i < |lb| && j < |lb|
    ensures lb[i].equiv == lb[j].equiv <==> lb[i].data == lb[j].data
  {
    hide NextOf, CountOf;
  }

  lemma EqualInBoth<T(!new)>(hashOf: T -> int, la: seq<Line<T>>, lb: seq<Line<T>>, table: seq<Bucket>, i: nat, j: nat)
    requires Probed(hashOf, lb, table) && Equated(la, lb, table) && i < |la| && j < |lb|
    ensures la[i].equiv == lb[j].equiv <==> la[i].data == lb[j].data
  {
    hide NextOf, CountOf;
  }

  method EquateLines<T(==, !new)>(ghost hashOf: T -> int, a: array<Line<T>>, b: array<Line<T>>) returns (table: array<Bucket>)
    requires a != b && HashesAgree(hashOf, a[..]) && HashesAgree(hashOf, b[..])
    modifies a, b
    ensures fresh(table) && b.Length < table.Length
    ensures Probed(hashOf, b[..], table[..]) && Equated(a[..], b[..], table[..])
    ensures SameText(a[..], old(a[..])) && SameText(b[..], old(b[..]))
  {
    hide Probed, LinkedB, LinkedA, NextOf, CountOf;
    // the table size is the next power of two above the number of lines of b
    var hsize := 1;
    while hsize < b.Length + 1
      invariant hsize >= 1
      decreases b.Length + 1 - hsize
    {
      hsize := hsize * 2;
    }
    table := new Bucket[hsize];
    for i := 0 to hsize
      modifies table
      invariant forall j :: 0 <= j < i ==> table[j].aHead == table[j].bHead == -1 && table[j].aCount == table[j].bCount == 0
    {
      table[i] := table[i].(aCount := 0, bCount := 0, aHead := -1, bHead := -1);
    }
    NothingLinkedB(hashOf, b[..], table[..]);
    EquateB(hashOf, b, table);
    NothingLinkedA(a[..], b[..], table[..]);
    EquateA(hashOf, a, b, table);
  }

  ghost predicate SameText<T>(p: seq<Line<T>>, q: seq<Line<T>>) {
    |p| == |q| && forall k :: 0 <= k < |p| ==> p[k].data == q[k].data && p[k].hash == q[k].hash
  }

  lemma NothingLinkedB<T(!new)>(hashOf: T -> int, lb: seq<Line<T>>, table: seq<Bucket>)
    requires |table| > 0
    requires forall j :: 0 <= j < |table| ==> table[j].bHead == -1 && table[j].bCount == 0
    ensures Probed(hashOf, lb, table) && LinkedB(lb, table, |lb|)
  {
  }

  lemma NothingLinkedA<T>(la: seq<Line<T>>, lb: seq<Line<T>>, table: seq<Bucket>)
    requires forall j :: 0 <= j < |table| ==> table[j].aHead == -1 && table[j].aCount == 0
    ensures LinkedA(la, lb, table, |la|)
  {
  }

  /** The lines of b, from the last to the first, so that each chain ascends. */
  method EquateB<T(==, !new)>(ghost hashOf: T -> int, b: array<Line<T>>, table: array<Bucket>)
    requires table.Length > b.Length && HashesAgree(hashOf, b[..])
    requires Probed(hashOf, b[..], table[..]) && LinkedB(b[..], table[..], b.Length)
    requires forall e :: 0 <= e < table.Length ==> table[e].aHead == -1 && table[e].aCount == 0
    modifies b, table
    ensures Probed(hashOf, b[..], table[..]) && LinkedB(b[..], table[..], 0)
    ensures forall e :: 0 <= e < table.Length ==> table[e].aHead == -1 && table[e].aCount == 0
    ensures SameText(b[..], old(b[..]))
  {
    hide Probed, LinkedB, IsClass, HasFree, Used, OnPath, NextOf, CountOf;
    for i := b.Length downto 0
      invariant Probed(hashOf, b[..], table[..]) && LinkedB(b[..], table[..], i)
      invariant forall e :: 0 <= e < table.Length ==> table[e].aHead == -1 && table[e].aCount == 0
      invariant SameText(b[..], old(b[..]))
    {
      ghost var lb, tb := b[..], table[..];
      FreeSlot(hashOf, lb, tb);
      var j := FindEquivalenceClass(hashOf, table, b[i], b);
      LinkB(hashOf, lb, tb, i, j);
      ProbeB(hashOf, lb, tb, i, j);
      b[i] := b[i].(equiv := j, next := table[j].bHead);
      table[j] := table[j].(bHead := i, bCount := table[j].bCount + 1);
      assert b[..] == SetB(lb, tb, i, j);
      assert table[..] == tb[j := tb[j].(bHead := i, bCount := tb[j].bCount + 1)];
    }
  }

  /** The lines of a, matched to the classes of b. */
  method EquateA<T(==, !new)>(ghost hashOf: T -> int, a: array<Line<T>>, b: array<Line<T>>, table: array<Bucket>)
    requires a != b && table.Length > b.Length && HashesAgree(hashOf, a[..]) && HashesAgree(hashOf, b[..])
    requires Probed(hashOf, b[..], table[..]) && LinkedB(b[..], table[..], 0) && LinkedA(a[..], b[..], table[..], a.Length)
    modifies a, table
    ensures Probed(hashOf, b[..], table[..]) && Equated(a[..], b[..], table[..])
    ensures SameText(a[..], old(a[..]))
  {
    hide Probed, LinkedB, LinkedA, IsClass, HasFree, OnPath, NextOf, CountOf, Used;
    for i := a.Length downto 0
      invariant Probed(hashOf, b[..], table[..]) && LinkedB(b[..], table[..], 0) && LinkedA(a[..], b[..], table[..], i)
      invariant SameText(a[..], old(a[..]))
    {
      FreeSlot(hashOf, b[..], table[..]);
      var j := FindEquivalenceClass(hashOf, table, a[i], b);
      LinkLineOfA(hashOf, a, b, table, i, j);
    }
  }

  method LinkLineOfA<T(!new)>(ghost hashOf: T -> int, a: array<Line<T>>, b: array<Line<T>>, table: array<Bucket>, i: nat, j: int)
    requires a != b && i < a.Length
    requires Probed(hashOf, b[..], table[..]) && LinkedB(b[..], table[..], 0) && LinkedA(a[..], b[..], table[..], i + 1)
    requires IsClass(hashOf, b[..], table[..], a[i].data, j)
    modifies a, table
    ensures Probed(hashOf, b[..], table[..]) && LinkedB(b[..], table[..], 0) && LinkedA(a[..], b[..], table[..], i)
    ensures SameText(a[..], old(a[..]))
  {
    hide Probed, LinkedB, LinkedA, IsClass, HasFree, OnPath, NextOf, CountOf, Used;
    ghost var la, lb, tb := a[..], b[..], table[..];
    AbsentFromB(hashOf, lb, tb, la[i].data, j);
    LinkA(hashOf, la, lb, tb, i, j);
    a[i] := a[i].(equiv := j);
    if table[j].bHead == -1 {
      // a class without lines of b stays unlinked
      assert a[..] == la[i := la[i].(equiv := j)];
      return;
    }
    a[i] := a[i].(next := table[j].aHead);
    table[j] := table[j].(aHead := i, aCount := table[j].aCount + 1);
    assert a[..] == la[i := la[i].(equiv := j, next := tb[j].aHead)];
    assert table[..] == tb[j := tb[j].(aHead := i, aCount := tb[j].aCount + 1)];
    HeadsOfB(hashOf, lb, tb, table[..]);
  }

  lemma AbsentFromB<T(!new)>(hashOf: T -> int, lb: seq<Line<T>>, table: seq<Bucket>, data: T, j: int)
    requires LinkedB(lb, table, 0) && IsClass(hashOf, lb, table, data, j)
    ensures 0 <= j < |table|
    ensures table[j].bHead == -1 ==> forall m :: 0 <= m < |lb| ==> lb[m].data != data
  {
  }

  /** Filling in the a side of a bucket leaves the b side alone. */
  lemma HeadsOfB<T(!new)>(hashOf: T -> int, lb: seq<Line<T>>, table: seq<Bucket>, table': seq<Bucket>)
    requires Probed(hashOf, lb, table) && LinkedB(lb, table, 0) && |table'| == |table|
    requires forall e :: 0 <= e < |table| ==> table'[e].bHead == table[e].bHead && table'[e].bCount == table[e].bCount
    ensures Probed(hashOf, lb, table') && LinkedB(lb, table', 0)
  {
  }
}
