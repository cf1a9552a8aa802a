/** Merging sorted streams of entries: BTreeBuilder._iter_smallest of bzrlib/btree_index.py. */
module BTreeMerge {
  import opened Basics
  import opened BTreePages
  import opened BTreeBuild

  ghost predicate AllSorted(lists: seq<seq<Entry>>) {
    forall i :: 0 <= i < |lists| ==> Sorted(lists[i])
  }

  /** No key is in two of the lists. */
  ghost predicate NoDuplicates(lists: seq<seq<Entry>>) {
    forall i, j, e, f :: 0 <= i < j < |lists| && e in lists[i] && f in lists[j] ==> e.key != f.key
  }

  ghost function TotalLength(lists: seq<seq<Entry>>): nat {
    if lists == [] then 0 else TotalLength(lists[..|lists| - 1]) + |lists[|lists| - 1]|
  }

  ghost predicate InSome(lists: seq<seq<Entry>>, e: Entry) {
    exists i :: 0 <= i < |lists| && e in lists[i]
  }

  ghost predicate InTwo(lists: seq<seq<Entry>>, k: Key) {
    exists i, j, e, f :: 0 <= i < j < |lists| && e in lists[i] && f in lists[j] && e.key == f.key == k
  }

  // ---------------------------------------------------------------------------
  // The state of a merge: how far each list has been read
  // ---------------------------------------------------------------------------

  ghost function Sum(at: seq<nat>): nat {
    if at == [] then 0 else Sum(at[..|at| - 1]) + at[|at| - 1]
  }

  lemma {:induction false} SumOneMore(at: seq<nat>, i: nat)
    requires i < |at|
    ensures Sum(at[i := at[i] + 1]) == Sum(at) + 1
  {
    var more := at[i := at[i] + 1];
    if i < |at| - 1 {
      SumOneMore(at[..|at| - 1], i);
      assert more[..|at| - 1] == at[..|at| - 1][i := at[i] + 1];
    } else {
      assert more[..|at| - 1] == at[..|at| - 1];
    }
  }

  lemma {:induction false} SumOfZeros(at: seq<nat>)
    requires forall i :: 0 <= i < |at| ==> at[i] == 0
    ensures Sum(at) == 0
  {
    if at != [] { SumOfZeros(at[..|at| - 1]); }
  }

  lemma {:induction false} SumOfAll(at: seq<nat>, lists: seq<seq<Entry>>)
    requires |at| == |lists| && forall i :: 0 <= i < |at| ==> at[i] == |lists[i]|
    ensures Sum(at) == TotalLength(lists)
  {
    if at != [] { SumOfAll(at[..|at| - 1], lists[..|lists| - 1]); }
  }

  ghost predicate Reading(lists: seq<seq<Entry>>, at: seq<nat>) {
    |at| == |lists| && forall i :: 0 <= i < |at| ==> at[i] <= |lists[i]|
  }

  ghost predicate IsRead(lists: seq<seq<Entry>>, at: seq<nat>, i: int, t: int) {
    0 <= i < |lists| == |at| && 0 <= t < at[i] <= |lists[i]|
  }

  ghost predicate LastRead(lists: seq<seq<Entry>>, at: seq<nat>, i: int, e: Entry) {
    0 <= i < |lists| == |at| && 0 < at[i] <= |lists[i]| && lists[i][at[i] - 1] == e
  }

  ghost predicate IsAhead(lists: seq<seq<Entry>>, at: seq<nat>, i: int, t: int) {
    0 <= i < |lists| == |at| && at[i] <= t < |lists[i]|
  }

  /** out is what was read, in key order; what is ahead is not below its last key; nothing was read twice. */
  ghost predicate Merging(lists: seq<seq<Entry>>, at: seq<nat>, out: seq<Entry>, from: int) {
    && Reading(lists, at) && Sorted(out) && |out| == Sum(at)
    && (forall i, t :: IsRead(lists, at, i, t) ==> lists[i][t] in out)
    && (forall e :: e in out ==> exists i, t :: IsRead(lists, at, i, t) && lists[i][t] == e)
    && (forall i, j, s, t :: IsRead(lists, at, i, s) && IsRead(lists, at, j, t) && i != j ==> lists[i][s].key != lists[j][t].key)
    && if out == [] then forall i :: 0 <= i < |at| ==> at[i] == 0
       else
         && LastRead(lists, at, from, out[|out| - 1])
         && forall i, t :: IsAhead(lists, at, i, t) ==> out[|out| - 1].key <= lists[i][t].key
  }

  /** List i has the smallest entry ahead. */
  ghost predicate IsNext(lists: seq<seq<Entry>>, at: seq<nat>, i: nat) {
    && i < |lists| == |at| && at[i] < |lists[i]|
    && forall j :: 0 <= j < |lists| && at[j] < |lists[j]| ==> lists[i][at[i]].key <= lists[j][at[j]].key
  }

  lemma NextIsSmallest(lists: seq<seq<Entry>>, at: seq<nat>, i: nat, j: int, t: int)
    requires AllSorted(lists) && IsNext(lists, at, i) && IsAhead(lists, at, j, t)
    ensures lists[i][at[i]].key <= lists[j][t].key
  {
    assert Sorted(lists[j]);
    assert at[j] < t ==> lists[j][at[j]].key < lists[j][t].key;
  }

  lemma ReadOneMore(lists: seq<seq<Entry>>, at: seq<nat>, i: nat)
    requires Reading(lists, at) && i < |lists| && at[i] < |lists[i]|
    ensures Reading(lists, at[i := at[i] + 1])
    ensures forall j, t :: IsRead(lists, at[i := at[i] + 1], j, t) <==> IsRead(lists, at, j, t) || (j == i && t == at[i])
    ensures forall j, t :: IsAhead(lists, at[i := at[i] + 1], j, t) <==> IsAhead(lists, at, j, t) && !(j == i && t == at[i])
  {
    var more := at[i := at[i] + 1];
    forall j, t ensures IsRead(lists, more, j, t) <==> IsRead(lists, at, j, t) || (j == i && t == at[i]) {
    }
  }

  /** What was read is not above the last entry put out. */
  lemma ReadIsBelow(lists: seq<seq<Entry>>, at: seq<nat>, out: seq<Entry>, from: int, i: int, t: int)
    requires Merging(lists, at, out, from) && IsRead(lists, at, i, t)
    ensures out != [] && lists[i][t].key <= out[|out| - 1].key
  {
    assert lists[i][t] in out;
    var n :| 0 <= n < |out| && out[n] == lists[i][t];
    assert n < |out| - 1 ==> out[n].key < out[|out| - 1].key;
  }

  /** A new smallest key is put out. */
  lemma MergeNext(lists: seq<seq<Entry>>, at: seq<nat>, out: seq<Entry>, from: int, i: nat)
    requires AllSorted(lists) && Merging(lists, at, out, from) && IsNext(lists, at, i)
    requires out == [] || out[|out| - 1].key != lists[i][at[i]].key
    ensures Merging(lists, at[i := at[i] + 1], out + [lists[i][at[i]]], i)
  {
    hide Sorted, Sum;
    var at', x := at[i := at[i] + 1], lists[i][at[i]];
    var out' := out + [x];
    ReadOneMore(lists, at, i);
    SumOneMore(at, i);
    assert IsAhead(lists, at, i, at[i]);
    SortedLonger(out, x);
    forall j, t | IsRead(lists, at, j, t) ensures lists[j][t].key < x.key {
      ReadIsBelow(lists, at, out, from, j, t);
    }
    forall j, t | IsAhead(lists, at', j, t) ensures x.key <= lists[j][t].key {
      NextIsSmallest(lists, at, i, j, t);
    }
    forall e | e in out' ensures exists j, t :: IsRead(lists, at', j, t) && lists[j][t] == e {
      if e in out {
        var j, t :| IsRead(lists, at, j, t) && lists[j][t] == e;
        assert IsRead(lists, at', j, t);
      } else {
        assert IsRead(lists, at', i, at[i]);
      }
    }
  }

  lemma SortedLonger(out: seq<Entry>, x: Entry)
    requires Sorted(out) && (out != [] ==> out[|out| - 1].key < x.key)
    ensures Sorted(out + [x])
  {
    SortedMore(out, x);
  }

  /** The smallest key ahead was put out before: it is in two lists. */
  lemma MergeDuplicate(lists: seq<seq<Entry>>, at: seq<nat>, out: seq<Entry>, from: int, i: nat)
    requires AllSorted(lists) && Merging(lists, at, out, from) && IsNext(lists, at, i)
    requires out != [] && out[|out| - 1].key == lists[i][at[i]].key
    ensures InTwo(lists, lists[i][at[i]].key)
  {
    var x, y := lists[i][at[i]], lists[from][at[from] - 1];
    assert x in lists[i] && y in lists[from] && x.key == y.key;
    assert Sorted(lists[i]);
    assert at[i] > 0 ==> lists[i][at[i] - 1].key < lists[i][at[i]].key;
    assert i != from;
  }

  lemma MergeEnds(lists: seq<seq<Entry>>, at: seq<nat>, out: seq<Entry>, from: int)
    requires Merging(lists, at, out, from) && forall i :: 0 <= i < |lists| ==> at[i] == |lists[i]|
    ensures NoDuplicates(lists) && |out| == TotalLength(lists)
    ensures forall e :: e in out <==> InSome(lists, e)
  {
    hide Sorted;
    SumOfAll(at, lists);
    MergedHasAll(lists, at, out, from);
    forall i, j, e, f | 0 <= i < j < |lists| && e in lists[i] && f in lists[j] ensures e.key != f.key {
      var s :| 0 <= s < |lists[i]| && lists[i][s] == e;
      var t :| 0 <= t < |lists[j]| && lists[j][t] == f;
      assert IsRead(lists, at, i, s) && IsRead(lists, at, j, t);
    }
  }

  lemma MergedHasAll(lists: seq<seq<Entry>>, at: seq<nat>, out: seq<Entry>, from: int)
    requires Merging(lists, at, out, from) && forall i :: 0 <= i < |lists| ==> at[i] == |lists[i]|
    ensures forall e :: e in out <==> InSome(lists, e)
  {
    hide Sorted, Sum, LastRead, IsAhead;
    forall e | InSome(lists, e) ensures e in out {
      var i :| 0 <= i < |lists| && e in lists[i];
      var t :| 0 <= t < |lists[i]| && lists[i][t] == e;
      assert IsRead(lists, at, i, t);
    }
    forall e | e in out ensures InSome(lists, e) {
      var i, t :| IsRead(lists, at, i, t) && lists[i][t] == e;
    }
  }

  /** min() over the entries ahead. */
  method Smallest(lists: seq<seq<Entry>>, at: seq<nat>) returns (selected: Option<nat>)
    requires Reading(lists, at)
    ensures selected.Some? ==> IsNext(lists, at, selected.value)
    ensures selected.None? ==> forall i :: 0 <= i < |lists| ==> at[i] == |lists[i]|
  {
    selected := None;
    for i := 0 to |lists|
      invariant selected.Some? ==> selected.value < i && at[selected.value] < |lists[selected.value]|
      invariant selected.Some? ==> forall j :: 0 <= j < i && at[j] < |lists[j]| ==>
                                     lists[selected.value][at[selected.value]].key <= lists[j][at[j]].key
      invariant selected.None? ==> forall j :: 0 <= j < i ==> at[j] == |lists[j]|
    {
      if at[i] < |lists[i]| {
        if selected.None? || lists[i][at[i]].key < lists[selected.value][at[selected.value]].key {
          selected := Some(i);
        }
      }
    }
  }

  /** All entries of all lists in key order; an error exactly if some key is in two of them. */
  method IterSmallest(lists: seq<seq<Entry>>) returns (r: Result<seq<Entry>, Error>)
    requires AllSorted(lists) && lists != []
    ensures r.Ok? <==> NoDuplicates(lists)
    ensures r.Ok? ==> Sorted(r.value) && |r.value| == TotalLength(lists) && forall e :: e in r.value <==> InSome(lists, e)
    ensures r.Err? ==> r.error.BadIndexDuplicateKey? && InTwo(lists, r.error.key)
  {
    if |lists| == 1 {
      OneList(lists);
      return Ok(lists[0]);
    }
    r := MergeLists(lists);
  }

  method MergeLists(lists: seq<seq<Entry>>) returns (r: Result<seq<Entry>, Error>)
    requires AllSorted(lists)
    ensures r.Ok? <==> NoDuplicates(lists)
    ensures r.Ok? ==> Sorted(r.value) && |r.value| == TotalLength(lists) && forall e :: e in r.value <==> InSome(lists, e)
    ensures r.Err? ==> r.error.BadIndexDuplicateKey? && InTwo(lists, r.error.key)
  {
    hide *;
    var out: seq<Entry> := [];
    var at: seq<nat> := Zeros(|lists|);
    ghost var from: int := 0;
    MergeStarts(lists, at);
    while true
      invariant Merging(lists, at, out, from) && Reading(lists, at)
      decreases TotalLength(lists) - Sum(at)
    {
      var selected := Smallest(lists, at);
      if selected.None? {
        MergeEnds(lists, at, out, from);
        MergeIsSorted(lists, at, out, from);
        return Ok(out);
      }
      var pos := selected.value;
      NextFacts(lists, at, pos);
      var node := lists[pos][at[pos]];
      if out != [] && out[|out| - 1].key == node.key {
        MergeDuplicate(lists, at, out, from, pos);
        TwoAreDuplicates(lists, node.key);
        return Err(BadIndexDuplicateKey(node.key));
      }
      MergeNext(lists, at, out, from, pos);
      StillReading(lists, at, pos);
      out := out + [node];
      at := at[pos := at[pos] + 1];
      from := pos;
    }
  }

  function Zeros(n: nat): (at: seq<nat>)
    ensures |at| == n && forall i :: 0 <= i < n ==> at[i] == 0
  {
    seq(n, i => 0)
  }

  lemma OneList(lists: seq<seq<Entry>>)
    requires |lists| == 1 && AllSorted(lists)
    ensures NoDuplicates(lists) && TotalLength(lists) == |lists[0]| && Sorted(lists[0])
    ensures forall e :: e in lists[0] <==> InSome(lists, e)
  {
    assert lists[..0] == [];
  }

  lemma MergeStarts(lists: seq<seq<Entry>>, at: seq<nat>)
    requires |at| == |lists| && forall i :: 0 <= i < |at| ==> at[i] == 0
    ensures Merging(lists, at, [], 0) && Reading(lists, at)
  {
    SumOfZeros(at);
  }

  lemma MergeIsSorted(lists: seq<seq<Entry>>, at: seq<nat>, out: seq<Entry>, from: int)
    requires Merging(lists, at, out, from)
    ensures Sorted(out)
  {
  }

  lemma NextFacts(lists: seq<seq<Entry>>, at: seq<nat>, i: nat)
    requires IsNext(lists, at, i)
    ensures i < |lists| == |at| && at[i] < |lists[i]|
  {
  }

  lemma TwoAreDuplicates(lists: seq<seq<Entry>>, k: Key)
    requires InTwo(lists, k)
    ensures !NoDuplicates(lists)
  {
  }

  lemma {:induction false} SumAtMost(at: seq<nat>, lists: seq<seq<Entry>>)
    requires Reading(lists, at)
    ensures Sum(at) <= TotalLength(lists)
  {
    if at != [] { SumAtMost(at[..|at| - 1], lists[..|lists| - 1]); }
  }

  lemma StillReading(lists: seq<seq<Entry>>, at: seq<nat>, i: nat)
    requires Reading(lists, at) && i < |lists| && at[i] < |lists[i]|
    ensures Reading(lists, at[i := at[i] + 1])
    ensures Sum(at) < Sum(at[i := at[i] + 1]) <= TotalLength(lists)
  {
    SumOneMore(at, i);
    SumAtMost(at[i := at[i] + 1], lists);
  }
}
