/** The graph of bzrlib/_known_graph_py.py: nodes are objects that are updated in place.

    Three functions of the heap say what a graph is: Parents, Children and Gdfos.  Small methods
    change one field of one node; the algorithms are proved about the maps. */
module KnownGraphs {
  import opened Basics
  import opened Worklist
  import opened GraphDistance
  import opened GraphHeads
  import opened GraphOrders
  import opened GraphStableOrder
  import opened GraphPrefixes
  import opened GraphGrouping
  import GraphOrderUnique
  import opened GraphUpdates

  datatype Error = KeyError | ValueError | GraphCycleError

  // ---------------------------------------------------------------------------
  // The nodes
  // ---------------------------------------------------------------------------

  class KnownGraphNode {
    const key: Key
    var parentKeys: Option<seq<Key>>
    var childKeys: seq<Key>
    var gdfo: Option<nat>

    constructor (key: Key, parentKeys: Option<seq<Key>>, gdfo: Option<nat>)
      ensures this.key == key && this.parentKeys == parentKeys && childKeys == [] && this.gdfo == gdfo
    {
      this.key := key;
      this.parentKeys := parentKeys;
      this.childKeys := [];
      this.gdfo := gdfo;
    }
  }

  class KnownGraph {
    var nodes: map<Key, KnownGraphNode>
    var knownHeads: map<set<Key>, set<Key>>
    const doCache: bool

    ghost predicate Wired()
      reads this`nodes, nodes.Values
    {
      forall k :: k in nodes ==> nodes[k].key == k
    }

    ghost function Parents(): ParentMap
      reads this`nodes, nodes.Values
    {
      map k | k in nodes :: nodes[k].parentKeys
    }

    ghost function Children(): Links
      reads this`nodes, nodes.Values
    {
      map k | k in nodes :: nodes[k].childKeys
    }

    ghost function Gdfos(): map<Key, Option<nat>>
      reads this`nodes, nodes.Values
    {
      map k | k in nodes :: nodes[k].gdfo
    }

    /** What holds of every graph, even one with cycles. */
    ghost predicate Formed()
      reads this, nodes.Values
    {
      && Wired() && Inverse(DepsOf(Parents()), Children())
      && (exists f :: Numbered(DepsOf(Parents()), Gdfos(), f))
      && CacheIsTrue(DepsOf(Parents()), knownHeads)
    }

    /** Every gdfo is what its equation says, which also means that there is no cycle. */
    ghost predicate Valid()
      reads this, nodes.Values
    {
      && Wired() && Inverse(DepsOf(Parents()), Children())
      && Settled(DepsOf(Parents()), Gdfos())
      && CacheIsTrue(DepsOf(Parents()), knownHeads)
    }

    // -------------------------------------------------------------------------
    // One step on one node
    // -------------------------------------------------------------------------

    method NewNode(key: Key, parentKeys: Option<seq<Key>>, gdfo: Option<nat>)
      requires Wired() && key !in nodes
      modifies this`nodes
      ensures Wired() && key in nodes && fresh(nodes[key]) && nodes == old(nodes)[key := nodes[key]]
      ensures Parents() == old(Parents())[key := parentKeys]
      ensures Children() == old(Children())[key := []]
      ensures Gdfos() == old(Gdfos())[key := gdfo]
    {
      var node := new KnownGraphNode(key, parentKeys, gdfo);
      Attach(node);
    }

    method Attach(node: KnownGraphNode)
      requires Wired() && node.key !in nodes
      modifies this`nodes
      ensures Wired() && nodes == old(nodes)[node.key := node]
      ensures Parents() == old(Parents())[node.key := node.parentKeys]
      ensures Children() == old(Children())[node.key := node.childKeys]
      ensures Gdfos() == old(Gdfos())[node.key := node.gdfo]
    {
      nodes := nodes[node.key := node];
      AttachedMaps(old(Parents()), old(Children()), old(Gdfos()), node);
    }

    lemma AttachedMaps(parents: ParentMap, children: Links, gdfos: map<Key, Option<nat>>, node: KnownGraphNode)
      requires node.key in nodes && nodes[node.key] == node
      requires parents.Keys == children.Keys == gdfos.Keys == nodes.Keys - {node.key}
      requires forall k :: k in parents ==> parents[k] == nodes[k].parentKeys
      requires forall k :: k in children ==> children[k] == nodes[k].childKeys
      requires forall k :: k in gdfos ==> gdfos[k] == nodes[k].gdfo
      ensures Parents() == parents[node.key := node.parentKeys]
      ensures Children() == children[node.key := node.childKeys]
      ensures Gdfos() == gdfos[node.key := node.gdfo]
    {
      assert forall k :: k in nodes <==> k in parents || k == node.key;
      assert forall k :: k in parents ==> parents[k] == nodes[k].parentKeys;
      assert forall k :: k in children ==> children[k] == nodes[k].childKeys;
      assert forall k :: k in gdfos ==> gdfos[k] == nodes[k].gdfo;
    }

    method SetParents(key: Key, parentKeys: seq<Key>)
      requires Wired() && key in nodes
      modifies nodes[key]
      ensures Wired() && Parents() == old(Parents())[key := Some(parentKeys)]
      ensures Children() == old(Children()) && Gdfos() == old(Gdfos())
    {
      assert forall k :: k in nodes && k != key ==> nodes[k] != nodes[key];
      nodes[key].parentKeys := Some(parentKeys);
    }

    method SetGdfo(key: Key, gdfo: nat)
      requires Wired() && key in nodes
      modifies nodes[key]
      ensures Wired() && Gdfos() == old(Gdfos())[key := Some(gdfo)]
      ensures Parents() == old(Parents()) && Children() == old(Children())
    {
      assert forall k :: k in nodes && k != key ==> nodes[k] != nodes[key];
      nodes[key].gdfo := Some(gdfo);
    }

    method AddChild(key: Key, child: Key)
      requires Wired() && key in nodes
      modifies nodes[key]
      ensures Wired() && Children() == old(Children())[key := old(Children())[key] + [child]]
      ensures Parents() == old(Parents()) && Gdfos() == old(Gdfos())
    {
      assert forall k :: k in nodes && k != key ==> nodes[k] != nodes[key];
      nodes[key].childKeys := nodes[key].childKeys + [child];
    }

    /** The edge from key to one of its parents, which becomes a ghost if it is not known. */
    method LinkParent(key: Key, list: seq<Key>, i: nat, ghostGdfo: Option<nat>, ghost before: ParentMap)
      requires Wired() && Linking(before, key, list, i, Parents(), Children()) && i < |list|
      modifies this`nodes, nodes.Values
      ensures Wired() && Linking(before, key, list, i + 1, Parents(), Children())
      ensures Gdfos() == WithGhost(old(Gdfos()), list[i], ghostGdfo)
      ensures fresh(nodes.Values - old(nodes.Values))
    {
      hide WithNode, Inverse;
      var parentKey := list[i];
      LinkOne(before, key, list, i, Parents(), Children());
      if parentKey !in nodes {
        NewNode(parentKey, None, ghostGdfo);
      }
      AddChild(parentKey, key);
    }

    ghost predicate Initialized(seen: Links)
      reads this`nodes, nodes.Values
    {
      && Wired() && Parents() == ParentsOf(seen) && Inverse(DepsOf(Parents()), Children())
      && AllNone(Gdfos())
    }

    method InitializeNodes(given: Links)
      requires nodes == map[]
      modifies this`nodes
      ensures Initialized(given) && fresh(nodes.Values)
    {
      hide *;
      var rest := given.Keys;
      ghost var seen: Links := map[];
      NothingInitialized();
      while rest != {}
        invariant Initialized(seen) && fresh(nodes.Values)
        invariant rest == given.Keys - seen.Keys && seen.Keys <= given.Keys
        invariant forall k :: k in seen ==> seen[k] == given[k]
      {
        ghost var some := AnyOf(rest);
        var key: Key :| key in rest;
        InitializeNode(key, given[key], seen);
        seen := seen[key := given[key]];
        rest := rest - {key};
      }
      AllSeen(given, seen, rest);
    }

    lemma UnfoldInitialized(seen: Links)
      requires Initialized(seen)
      ensures Wired() && Parents() == ParentsOf(seen) && Inverse(DepsOf(Parents()), Children()) && AllNone(Gdfos())
    {
    }

    lemma FoldInitialized(seen: Links)
      requires Wired() && Parents() == ParentsOf(seen) && Inverse(DepsOf(Parents()), Children()) && AllNone(Gdfos())
      ensures Initialized(seen)
    {
    }

    lemma KeysOfNodes()
      ensures Parents().Keys == Children().Keys == Gdfos().Keys == nodes.Keys
    {
    }

    lemma NothingInitialized()
      requires nodes == map[]
      ensures Initialized(map[])
    {
      assert Parents() == map[];
    }

    method InitializeNode(key: Key, list: seq<Key>, ghost seen: Links)
      requires Initialized(seen) && key !in seen
      modifies this`nodes, nodes.Values
      ensures Initialized(seen[key := list])
      ensures fresh(nodes.Values - old(nodes.Values))
    {
      hide *;
      ghost var before := Parents();
      UnfoldInitialized(seen);
      KeysOfNodes();
      GivenMore(seen, key, list);
      AllNoneMore(Gdfos(), key);
      LinkStart(before, key, list, Children());
      GhostCases(Children(), key, []);
      if key in nodes {
        SetParents(key, list);
      } else {
        NewNode(key, Some(list), None);
      }
      LinkAll(key, list, before);
      LinkEnd(before, key, list, Parents(), Children());
      FoldInitialized(seen[key := list]);
    }

    method LinkAll(key: Key, list: seq<Key>, ghost before: ParentMap)
      requires Wired() && Linking(before, key, list, 0, Parents(), Children()) && AllNone(Gdfos())
      modifies this`nodes, nodes.Values
      ensures Wired() && Linking(before, key, list, |list|, Parents(), Children()) && AllNone(Gdfos())
      ensures fresh(nodes.Values - old(nodes.Values)) && knownHeads == old(knownHeads)
    {
      hide *;
      for i := 0 to |list|
        invariant Wired() && Linking(before, key, list, i, Parents(), Children())
        invariant AllNone(Gdfos())
        invariant fresh(nodes.Values - old(nodes.Values))
      {
        AllNoneMore(Gdfos(), list[i]);
        LinkParent(key, list, i, None, before);
      }
    }

    method FindTails() returns (tails: seq<Key>)
      ensures AreTails(DepsOf(Parents()), tails)
    {
      tails := [];
      var rest := nodes.Keys;
      while rest != {}
        invariant rest <= nodes.Keys && Distinct(tails)
        invariant forall k :: k in tails <==> k in nodes && k !in rest && ListOrEmpty(nodes[k].parentKeys) == []
      {
        ghost var some := AnyOf(rest);
        var key: Key :| key in rest;
        if ListOrEmpty(nodes[key].parentKeys) == [] {
          tails := tails + [key];
        }
        rest := rest - {key};
      }
    }

    method StartFromTails() returns (pending: seq<Key>)
      requires Wired() && AllNone(Gdfos())
      modifies nodes.Values
      ensures Wired() && Parents() == old(Parents()) && Children() == old(Children())
      ensures AreTails(DepsOf(Parents()), pending)
      ensures OnlyOnes(Gdfos(), pending)
    {
      hide *;
      var tails := FindTails();
      KeysOfNodes();
      DepsKeys(Parents());
      pending := [];
      assert tails[..0] == [];
      OnlyOnesStart(Gdfos());
      for i := 0 to |tails|
        invariant Wired() && Parents() == old(Parents()) && Children() == old(Children())
        invariant pending == tails[..i] && OnlyOnes(Gdfos(), pending)
      {
        KeysOfNodes();
        OnlyOnesMore(Gdfos(), pending, tails[i]);
        TailIsKey(DepsOf(Parents()), tails, i);
        DepsKeys(Parents());
        SetGdfo(tails[i], 1);
        pending := pending + [tails[i]];
        assert tails[..i + 1] == tails[..i] + [tails[i]];
      }
      assert tails[..|tails|] == tails;
    }

    method FindGdfo() returns (ghost f: map<Key, nat>)
      requires Wired() && Inverse(DepsOf(Parents()), Children()) && AllNone(Gdfos())
      modifies nodes.Values
      ensures Wired() && Parents() == old(Parents()) && Children() == old(Children())
      ensures Numbered(DepsOf(Parents()), Gdfos(), f)
    {
      hide *;
      ghost var deps, succs := DepsOf(Parents()), Children();
      var pending := StartFromTails();
      var known: map<Key, nat> := map[];
      f := map[];
      KeysOfNodes();
      DepsKeys(Parents());
      NumberingStart(deps, succs, Gdfos(), pending);
      while pending != []
        invariant Wired() && DepsOf(Parents()) == deps && Children() == succs && Parents() == old(Parents())
        invariant BetweenRounds(deps, succs, Gdfos(), known, f, pending)
        decreases deps.Keys - f.Keys
      {
        var n := pending[|pending| - 1];
        ghost var v := StartUpdate(deps, succs, Gdfos(), known, f, pending);
        known, pending := UpdateChildren(n, known, pending[..|pending| - 1], f, v);
        Shrinks(deps.Keys, f, n, v);
        f := f[n := v];
      }
      NumberingDone(deps, succs, Gdfos(), known, f);
    }

    /** One round of the worklist: the children of n take its gdfo v into account. */
    method UpdateChildren(n: Key, known0: map<Key, nat>, pending0: seq<Key>, ghost f: map<Key, nat>, ghost v: nat)
        returns (known: map<Key, nat>, pending: seq<Key>)
      requires Wired() && Updating(DepsOf(Parents()), Children(), Gdfos(), known0, f, n, v, [], pending0) && n in nodes
      modifies nodes.Values
      ensures Wired() && Parents() == old(Parents()) && Children() == old(Children())
      ensures BetweenRounds(DepsOf(Parents()), Children(), Gdfos(), known, f[n := v], pending)
    {
      hide *;
      ghost var deps, succs := DepsOf(Parents()), Children();
      known, pending := known0, pending0;
      KeysOfNodes();
      var childKeys := nodes[n].childKeys;
      ChildrenOf(n);
      assert childKeys[..0] == [];
      for i := 0 to |childKeys|
        invariant Wired() && DepsOf(Parents()) == deps && Children() == succs && Parents() == old(Parents())
        invariant Updating(deps, succs, Gdfos(), known, f, n, v, childKeys[..i], pending)
      {
        ghost var seen := UpdateOne(deps, succs, Gdfos(), known, f, n, v, childKeys, i, pending);
        KeysOfNodes();
        DepsKeys(Parents());
        var childKey := childKeys[i];
        GdfoOf(n);
        GdfoOf(childKey);
        RaisedCases(Gdfos(), childKey, v + 1);
        var knownGdfo := (if childKey in known then known[childKey] else 0) + 1;
        if nodes[childKey].gdfo.None? || nodes[n].gdfo.value + 1 > nodes[childKey].gdfo.value {
          SetGdfo(childKey, nodes[n].gdfo.value + 1);
        }
        ParentsAre(childKey);
        if knownGdfo == |ListOrEmpty(nodes[childKey].parentKeys)| {
          pending := pending + [childKey];
          known := known - {childKey};
        } else {
          known := known[childKey := knownGdfo];
        }
      }
      assert childKeys[..|childKeys|] == childKeys;
      EndUpdate(deps, succs, Gdfos(), known, f, n, v, pending);
    }

    lemma ChildrenOf(k: Key)
      requires k in nodes
      ensures k in Children() && Children()[k] == nodes[k].childKeys
    {
    }

    lemma GdfoOf(k: Key)
      requires k in nodes
      ensures k in Gdfos() && Gdfos()[k] == nodes[k].gdfo
    {
    }

    lemma ParentsAre(k: Key)
      requires k in nodes
      ensures k in DepsOf(Parents()) && DepsOf(Parents())[k] == ListOrEmpty(nodes[k].parentKeys)
    {
    }

    constructor (given: Links, doCache: bool)
      ensures Formed() && Parents() == ParentsOf(given) && this.doCache == doCache
      ensures Acyclic(DepsOf(ParentsOf(given))) ==> Valid()
      ensures fresh(nodes.Values)
    {
      nodes := map[];
      knownHeads := map[];
      this.doCache := doCache;
      new;
      InitializeNodes(given);
      UnfoldInitialized(given);
      ghost var f := FindGdfo();
      SetUp(f);
    }

    lemma SetUp(f: map<Key, nat>)
      requires Wired() && Inverse(DepsOf(Parents()), Children()) && Numbered(DepsOf(Parents()), Gdfos(), f)
      requires knownHeads == map[]
      ensures Formed() && (Acyclic(DepsOf(Parents())) ==> Valid())
    {
      hide Inverse, Numbered, DepsOf;
      InverseKeys(DepsOf(Parents()), Children());
      if Acyclic(DepsOf(Parents())) { AcyclicMeansValid(); }
    }

    /** A valid graph has no cycle, and an acyclic one is valid. */
    lemma ValidMeansAcyclic()
      requires Valid()
      ensures Formed() && Acyclic(DepsOf(Parents()))
    {
      hide Inverse, Numbered, DepsOf;
      InverseKeys(DepsOf(Parents()), Children());
      SettledIsNumbered(DepsOf(Parents()), Gdfos());
      GdfoMeansAcyclic(DepsOf(Parents()), Values(Gdfos()));
    }

    lemma AcyclicMeansValid()
      requires Formed() && Acyclic(DepsOf(Parents()))
      ensures Valid()
    {
      hide Inverse, Numbered, DepsOf;
      InverseKeys(DepsOf(Parents()), Children());
      var f :| Numbered(DepsOf(Parents()), Gdfos(), f);
      NumberedAcyclicIsSettled(DepsOf(Parents()), Gdfos(), f);
    }

    /** However a graph came about, its gdfos are those of the graph newly made from its parent map. */
    lemma SameAsRebuilt(rebuilt: KnownGraph)
      requires Valid() && rebuilt.Formed() && rebuilt.Parents() == Parents()
      ensures rebuilt.Valid() && rebuilt.Gdfos() == Gdfos()
    {
      hide DepsOf, Settled, Acyclic;
      ValidMeansAcyclic();
      rebuilt.AcyclicMeansValid();
      UnfoldValid();
      rebuilt.UnfoldValid();
      OneNumbering(DepsOf(Parents()), Gdfos(), rebuilt.Gdfos());
    }

    // -------------------------------------------------------------------------
    // add_node()
    // -------------------------------------------------------------------------

    method AddNode(key: Key, parentKeys: seq<Key>) returns (r: Result<(), Error>)
      requires Valid()
      requires Absent(Parents(), key) ==> Acyclic(DepsOf(WithNode(Parents(), key, parentKeys)))
      modifies this, nodes.Values
      ensures Valid() && fresh(nodes.Values - old(nodes.Values))
      ensures old(Absent(Parents(), key)) ==> r == Ok(()) && Parents() == WithNode(old(Parents()), key, parentKeys)
      ensures !old(Absent(Parents(), key)) ==>
                && r == (if old(Parents())[key] == Some(parentKeys) then Ok(()) else Err(ValueError))
                && Parents() == old(Parents()) && Children() == old(Children()) && Gdfos() == old(Gdfos())
                && knownHeads == old(knownHeads)
    {
      hide *;
      ghost var before, d := Parents(), Values(Gdfos());
      UnfoldValid();
      if key in nodes && nodes[key].parentKeys.Some? {
        PresentIsPresent(key);
        if parentKeys == nodes[key].parentKeys.value {
          return Ok(());
        } else {
          return Err(ValueError);
        }
      }
      NotPresentIsAbsent(key);
      EnterNode(key, parentKeys);
      LinkNewNode(key, parentKeys, before, d);
      FoldValid();
      return Ok(());
    }

    /** The node gets its parent list; if it was a ghost, cached answers may change. */
    method EnterNode(key: Key, parentKeys: seq<Key>)
      requires Valid() && Absent(Parents(), key)
      modifies this, nodes.Values
      ensures Wired() && Linking(old(Parents()), key, parentKeys, 0, Parents(), Children())
      ensures Grown(Values(old(Gdfos())), key, parentKeys, 0, Gdfos())
      ensures CacheIsTrue(DepsOf(WithNode(old(Parents()), key, parentKeys)), knownHeads)
      ensures fresh(nodes.Values - old(nodes.Values))
    {
      hide *;
      ghost var before, gdfo, deps := Parents(), Gdfos(), DepsOf(WithNode(Parents(), key, parentKeys));
      UnfoldValid();
      KeysOfNodes();
      DepsKeys(Parents());
      LinkStart(before, key, parentKeys, Children());
      GhostCases(Children(), key, []);
      GrownFrom(gdfo, key, parentKeys);
      if key in nodes {
        SetParents(key, parentKeys);
        knownHeads := map[];
        EmptyCacheIsTrue(deps);
      } else {
        WithNodeExtends(before, key, parentKeys);
        CacheStaysTrue(DepsOf(before), deps, knownHeads, key, parentKeys);
        NewNode(key, Some(parentKeys), None);
      }
    }

    /** Links a new or filled-in node to its parents; their largest gdfo is returned. */
    method LinkToParents(key: Key, parentKeys: seq<Key>, ghost before: ParentMap, ghost d: map<Key, nat>)
        returns (parentGdfo: nat)
      requires Wired() && Linking(before, key, parentKeys, 0, Parents(), Children()) && Grown(d, key, parentKeys, 0, Gdfos())
      requires key !in parentKeys
      modifies this`nodes, nodes.Values
      ensures Wired() && Linking(before, key, parentKeys, |parentKeys|, Parents(), Children())
      ensures Grown(d, key, parentKeys, |parentKeys|, Gdfos())
      ensures parentGdfo == MaxOf(StartValues(d, key, parentKeys), parentKeys)
      ensures fresh(nodes.Values - old(nodes.Values))
    {
      hide *;
      ghost var start := StartValues(d, key, parentKeys);
      parentGdfo := 0;
      MaxOfStart(start, parentKeys);
      for i := 0 to |parentKeys|
        invariant Wired() && Linking(before, key, parentKeys, i, Parents(), Children())
        invariant Grown(d, key, parentKeys, i, Gdfos())
        invariant parentGdfo == MaxOf(start, parentKeys[..i])
        invariant fresh(nodes.Values - old(nodes.Values))
      {
        GrownOne(d, key, parentKeys, i, Gdfos());
        HasGhost(Gdfos(), parentKeys[i], Some(1));
        LinkParent(key, parentKeys, i, Some(1), before);
        KeysOfNodes();
        GdfoOf(parentKeys[i]);
        MaxOfMore(start, parentKeys, i);
        if parentGdfo < nodes[parentKeys[i]].gdfo.value {
          parentGdfo := nodes[parentKeys[i]].gdfo.value;
        }
      }
    }

    /** Links the node, sets its gdfo and repairs its descendants. */
    method LinkNewNode(key: Key, parentKeys: seq<Key>, ghost before: ParentMap, ghost d: map<Key, nat>)
      requires Wired() && Linking(before, key, parentKeys, 0, Parents(), Children()) && Grown(d, key, parentKeys, 0, Gdfos())
      requires Absent(before, key) && IsGdfo(DepsOf(before), d) && Closed(DepsOf(before))
      requires Acyclic(DepsOf(WithNode(before, key, parentKeys)))
      modifies this`nodes, nodes.Values
      ensures Wired() && Parents() == WithNode(before, key, parentKeys) && Inverse(DepsOf(Parents()), Children())
      ensures Settled(DepsOf(Parents()), Gdfos())
      ensures fresh(nodes.Values - old(nodes.Values))
    {
      hide *;
      NotOwnParent(before, key, parentKeys);
      var parentGdfo := LinkToParents(key, parentKeys, before, d);
      LinkEnd(before, key, parentKeys, Parents(), Children());
      GrownEnd(d, key, parentKeys, Gdfos(), parentGdfo + 1);
      KeysOfNodes();
      HasNode(before, key, parentKeys);
      SetGdfo(key, parentGdfo + 1);
      ghost var goal := RepairStarts(before, DepsOf(Parents()), Children(), Gdfos(), d, key, parentKeys);
      UpdateDescendants(key, goal);
    }

    method UpdateDescendants(key: Key, ghost goal: map<Key, nat>)
      requires Wired() && Repairing(DepsOf(Parents()), Children(), Gdfos(), goal, [key])
      modifies nodes.Values
      ensures Wired() && Parents() == old(Parents()) && Children() == old(Children())
      ensures Settled(DepsOf(Parents()), Gdfos())
    {
      hide *;
      ghost var deps, succs := DepsOf(Parents()), Children();
      ghost var keys := ListOf(deps.Keys);
      var pending := [key];
      while pending != []
        invariant Wired() && Parents() == old(Parents()) && Children() == succs
        invariant Repairing(deps, succs, Gdfos(), goal, pending)
        decreases Room(keys, Gdfos(), goal), |pending|
      {
        RoomIsNatural(deps, succs, Gdfos(), goal, pending, keys);
        RepairFirst(deps, succs, Gdfos(), goal, pending);
        pending := RaiseChildrenOf(pending[0], pending[1..], goal, keys);
      }
      Repaired(deps, succs, Gdfos(), goal);
    }

    method RaiseChildrenOf(n: Key, pending0: seq<Key>, ghost goal: map<Key, nat>, ghost keys: seq<Key>)
        returns (pending: seq<Key>)
      requires Wired() && RepairingChildren(DepsOf(Parents()), Children(), Gdfos(), goal, pending0, n, [])
      requires Distinct(keys) && forall k :: k in keys <==> k in DepsOf(Parents()).Keys
      modifies nodes.Values
      ensures Wired() && Parents() == old(Parents()) && Children() == old(Children())
      ensures Repairing(DepsOf(Parents()), Children(), Gdfos(), goal, pending)
      ensures || (pending == pending0 && Gdfos() == old(Gdfos()))
              || Room(keys, Gdfos(), goal) < old(Room(keys, Gdfos(), goal))
    {
      hide *;
      ghost var deps, succs := DepsOf(Parents()), Children();
      ghost var room := Room(keys, Gdfos(), goal);
      RepairingKeys(deps, succs, Gdfos(), goal, pending0, n, []);
      DepsKeys(Parents());
      KeysOfNodes();
      ChildrenOf(n);
      pending := pending0;
      var childKeys := nodes[n].childKeys;
      assert childKeys[..0] == [];
      for i := 0 to |childKeys|
        invariant Wired() && Parents() == old(Parents()) && Children() == succs
        invariant RepairingChildren(deps, succs, Gdfos(), goal, pending, n, childKeys[..i])
        invariant (pending == pending0 && Gdfos() == old(Gdfos())) || Room(keys, Gdfos(), goal) < room
      {
        var childKey := childKeys[i];
        KeysOfNodes();
        RepairChild(deps, succs, Gdfos(), goal, pending, n, childKeys, i);
        GdfoOf(n);
        GdfoOf(childKey);
        var nextGdfo := nodes[n].gdfo.value + 1;
        if nodes[childKey].gdfo.value < nextGdfo {
          RoomFalls(keys, Gdfos(), goal, childKey, nextGdfo);
          SetGdfo(childKey, nextGdfo);
          pending := pending + [childKey];
        }
      }
      assert childKeys[..|childKeys|] == childKeys;
      RepairLast(deps, succs, Gdfos(), goal, pending, n);
    }

    lemma UnfoldValid()
      requires Valid()
      ensures Wired() && Inverse(DepsOf(Parents()), Children()) && Closed(DepsOf(Parents()))
      ensures AllSome(Gdfos()) && IsGdfo(DepsOf(Parents()), Values(Gdfos()))
      ensures Settled(DepsOf(Parents()), Gdfos())
      ensures CacheIsTrue(DepsOf(Parents()), knownHeads)
    {
      hide Inverse, IsGdfo, CacheIsTrue, DepsOf;
      InverseKeys(DepsOf(Parents()), Children());
      assert forall k :: k in Gdfos() ==> Gdfos()[k].Some?;
    }

    lemma FoldValid()
      requires Wired() && Inverse(DepsOf(Parents()), Children())
      requires Settled(DepsOf(Parents()), Gdfos()) && CacheIsTrue(DepsOf(Parents()), knownHeads)
      ensures Valid()
    {
    }

    lemma PresentIsPresent(key: Key)
      requires key in nodes && nodes[key].parentKeys.Some?
      ensures !Absent(Parents(), key) && key in Parents() && Parents()[key] == nodes[key].parentKeys
    {
    }

    lemma NotPresentIsAbsent(key: Key)
      requires !(key in nodes && nodes[key].parentKeys.Some?)
      ensures Absent(Parents(), key)
    {
    }

    // -------------------------------------------------------------------------
    // heads()
    // -------------------------------------------------------------------------

    /** The answer is the specification's, cached or not; only the cache changes. */
    method Heads(keys: set<Key>) returns (r: Result<set<Key>, Error>)
      requires Valid()
      modifies this`knownHeads
      ensures Valid()
      ensures r == if keys <= nodes.Keys then Ok(HeadsOf(DepsOf(Parents()), keys)) else Err(KeyError)
    {
      hide *;
      ghost var deps := DepsOf(Parents());
      UnfoldValid();
      if !(keys <= nodes.Keys) {
        return Err(KeyError);
      }
      KeysOfNodes();
      DepsKeys(Parents());
      var candidates := keys - {NULL_REVISION};
      HeadsOfFew(deps, keys, Gdfos());
      if candidates == {} || |candidates| < 2 {
        return Ok(if NULL_REVISION in keys && candidates == {} then {NULL_REVISION} else candidates);
      }
      if candidates in knownHeads {
        CachedAnswer(deps, knownHeads, candidates);
        return Ok(knownHeads[candidates]);
      }
      var heads := SearchHeads(candidates);
      if doCache {
        CacheMore(deps, knownHeads, candidates);
        knownHeads := knownHeads[candidates := heads];
        FoldValid();
      }
      return Ok(heads);
    }

    method SearchHeads(candidates: set<Key>) returns (heads: set<Key>)
      requires Valid() && candidates <= nodes.Keys && candidates != {}
      ensures heads == HeadsAmong(DepsOf(Parents()), candidates)
    {
      hide *;
      ghost var deps, d := DepsOf(Parents()), Values(Gdfos());
      UnfoldValid();
      KeysOfNodes();
      DepsKeys(Parents());
      ValuesKeys(Gdfos());
      var pending: seq<Key>, minGdfo: Option<nat> := [], None;
      var rest := candidates;
      ghost var entered: set<Key> := {};
      SearchStarts(deps, d);
      while rest != {}
        invariant entered + rest == candidates
        invariant Starting(deps, d, entered, minGdfo, pending)
      {
        ghost var some := AnyOf(rest);
        var key: Key :| key in rest;
        ParentsAre(key);
        GdfoOf(key);
        ValueOf(Gdfos(), key);
        StartMore(deps, d, entered, minGdfo, pending, key);
        pending := pending + ListOrEmpty(nodes[key].parentKeys);
        if minGdfo.None? || nodes[key].gdfo.value < minGdfo.value {
          minGdfo := nodes[key].gdfo;
        }
        entered := entered + {key};
        rest := rest - {key};
      }
      assert entered == candidates;
      StartSearch(deps, d, candidates, minGdfo, pending);
      var seen := Search(candidates, pending, minGdfo.value);
      SearchIsExact(deps, d, minGdfo.value, candidates, seen);
      heads := candidates - seen;
    }

    method Search(ghost candidates: set<Key>, pending0: seq<Key>, minGdfo: nat) returns (seen: set<Key>)
      requires Valid() && Searching(DepsOf(Parents()), Values(Gdfos()), minGdfo, candidates, {}, pending0)
      ensures Searching(DepsOf(Parents()), Values(Gdfos()), minGdfo, candidates, seen, [])
    {
      hide *;
      ghost var deps, d := DepsOf(Parents()), Values(Gdfos());
      UnfoldValid();
      KeysOfNodes();
      DepsKeys(Parents());
      seen := {};
      var pending := pending0;
      while pending != []
        invariant Searching(deps, d, minGdfo, candidates, seen, pending) && seen <= deps.Keys
        decreases deps.Keys - seen, |pending|
      {
        var n := pending[|pending| - 1];
        NextIsKey(deps, d, minGdfo, candidates, seen, pending);
        if n in seen {
          SearchSkip(deps, d, minGdfo, candidates, seen, pending);
          assert seen + {n} == seen;
          pending := pending[..|pending| - 1];
        } else {
          ParentsAre(n);
          GdfoOf(n);
          ValueOf(Gdfos(), n);
          assert n in deps.Keys - seen && n !in deps.Keys - (seen + {n});
          if nodes[n].gdfo.value <= minGdfo {
            SearchSkip(deps, d, minGdfo, candidates, seen, pending);
            pending := pending[..|pending| - 1];
          } else {
            SearchExpand(deps, d, minGdfo, candidates, seen, pending);
            pending := pending[..|pending| - 1] + ListOrEmpty(nodes[n].parentKeys);
          }
          seen := seen + {n};
        }
      }
    }

    // -------------------------------------------------------------------------
    // topo_sort()
    // -------------------------------------------------------------------------

    /** Fails exactly if some node has parents and all of them are on a cycle or descend from one.
        Otherwise parents come first, and every node that is no ghost is listed exactly if there is no cycle. */
    method TopoSort() returns (r: Result<seq<Key>, Error>)
      requires Formed()
      ensures r.Err? <==> CycleNoticed(DepsOf(Parents()))
      ensures r.Err? ==> r.error == GraphCycleError && !Acyclic(DepsOf(Parents()))
      ensures r.Ok? ==> ParentsFirst(DepsOf(Parents()), GhostsOf(Parents()), r.value)
      ensures r.Ok? ==> (Lists(r.value, DepsOf(Parents()).Keys - GhostsOf(Parents())) <==> Acyclic(DepsOf(Parents())))
    {
      hide *;
      ghost var deps, succs, ghosts := DepsOf(Parents()), Children(), GhostsOf(Parents());
      UnfoldFormed();
      var numbered := EveryNodeIsNumbered();
      if !numbered {
        return Err(GraphCycleError);
      }
      var pending := FindTails();
      var num: map<Key, nat> := map k | k in nodes.Keys :: 0;
      var order: seq<Key> := [];
      ghost var done: set<Key> := {};
      KeysOfNodes();
      DepsKeys(Parents());
      SortStart(deps, succs, ghosts, num, pending);
      while pending != []
        invariant Sorting(deps, succs, num, done, pending) && Listed(deps, ghosts, done, order)
        decreases deps.Keys - done
      {
        var n := pending[|pending| - 1];
        SortNext(deps, succs, num, done, pending);
        ListStep(deps, ghosts, done, order, n);
        GhostIs(n);
        if nodes[n].parentKeys.Some? {
          order := order + [n];
        }
        num, pending := CountChildren(n, num, pending[..|pending| - 1], done);
        assert n in deps.Keys - done && n !in deps.Keys - (done + {n});
        done := done + {n};
      }
      SortEnd(deps, succs, Parents(), num, done, order);
      ListedIsOrdered(deps, ghosts, done, order);
      return Ok(order);
    }

    method CountChildren(n: Key, num0: map<Key, nat>, pending0: seq<Key>, ghost done: set<Key>)
        returns (num: map<Key, nat>, pending: seq<Key>)
      requires n in nodes && Counting(DepsOf(Parents()), Children(), num0, done, n, [], pending0)
      ensures Sorting(DepsOf(Parents()), Children(), num, done + {n}, pending)
    {
      hide *;
      ghost var deps, succs := DepsOf(Parents()), Children();
      ChildrenOf(n);
      KeysOfNodes();
      DepsKeys(Parents());
      num, pending := num0, pending0;
      var childKeys := nodes[n].childKeys;
      assert childKeys[..0] == [];
      for i := 0 to |childKeys|
        invariant Counting(deps, succs, num, done, n, childKeys[..i], pending)
      {
        var childKey := childKeys[i];
        CountOne(deps, succs, num, done, n, childKeys, i, pending);
        ParentsAre(childKey);
        var seenParents := num[childKey] + 1;
        if seenParents == |ListOrEmpty(nodes[childKey].parentKeys)| {
          pending := pending + [childKey];
          num := num - {childKey};
        } else {
          num := num[childKey := seenParents];
        }
      }
      assert childKeys[..|childKeys|] == childKeys;
      CountLast(deps, succs, num, done, n, childKeys, pending);
    }

    method EveryNodeIsNumbered() returns (all: bool)
      ensures all <==> AllSome(Gdfos())
    {
      var rest := nodes.Keys;
      all := true;
      while rest != {}
        invariant rest <= nodes.Keys
        invariant all <==> forall k :: k in nodes && k !in rest ==> nodes[k].gdfo.Some?
      {
        ghost var some := AnyOf(rest);
        var key: Key :| key in rest;
        if nodes[key].gdfo.None? {
          all := false;
        }
        rest := rest - {key};
      }
      KeysOfNodes();
      assert forall k :: k in nodes ==> Gdfos()[k] == nodes[k].gdfo;
    }

    lemma UnfoldFormed()
      requires Formed()
      ensures Wired() && Inverse(DepsOf(Parents()), Children()) && Closed(DepsOf(Parents()))
      ensures AllSome(Gdfos()) <==> !CycleNoticed(DepsOf(Parents()))
      ensures CycleNoticed(DepsOf(Parents())) ==> !Acyclic(DepsOf(Parents()))
    {
      hide Inverse, DepsOf, Numbered, Acyclic, CycleNoticed;
      InverseKeys(DepsOf(Parents()), Children());
      var f :| Numbered(DepsOf(Parents()), Gdfos(), f);
      WhenCyclesAreNoticed(DepsOf(Parents()), Gdfos(), f);
    }

    lemma GhostIs(k: Key)
      requires k in DepsOf(Parents())
      ensures k in nodes && (k in GhostsOf(Parents()) <==> nodes[k].parentKeys.None?)
    {
    }

    lemma ListedIsOrdered(deps: Links, ghosts: set<Key>, done: set<Key>, order: seq<Key>)
      requires Listed(deps, ghosts, done, order)
      ensures ParentsFirst(deps, ghosts, order)
    {
    }

    // -------------------------------------------------------------------------
    // gc_sort()
    // -------------------------------------------------------------------------

    method FindTips() returns (tips: seq<Key>)
      ensures AreTails(Children(), tips)
    {
      tips := [];
      var rest := nodes.Keys;
      while rest != {}
        invariant rest <= nodes.Keys && Distinct(tips)
        invariant forall k :: k in tips <==> k in nodes && k !in rest && nodes[k].childKeys == []
      {
        ghost var some := AnyOf(rest);
        var key: Key :| key in rest;
        if nodes[key].childKeys == [] {
          tips := tips + [key];
        }
        rest := rest - {key};
      }
    }

    /** The result is a function of the parent map: it lists children first, and all nodes if there is no cycle. */
    method GcSort(prefixOf: Key -> int) returns (result: seq<Key>)
      requires Formed()
      ensures result == GcOrder(DepsOf(Parents()), GhostsOf(Parents()), prefixOf)
      ensures ChildrenFirst(DepsOf(Parents()), GhostsOf(Parents()), result)
      ensures Acyclic(DepsOf(Parents())) ==> Lists(result, DepsOf(Parents()).Keys - GhostsOf(Parents()))
      ensures IsGrouping(prefixOf, result)
      ensures GraphOrderUnique.IsStable(DepsOf(Parents()), prefixOf, result)
    {
      hide *;
      ghost var deps, children, ghosts := DepsOf(Parents()), Children(), GhostsOf(Parents());
      UnfoldFormed();
      var prefixTips, prefixes, num := SortedTips(prefixOf);
      result := [];
      ghost var done: set<Key> := {};
      for i := |prefixes| downto 0
        invariant Sorting(children, deps, num, done, Descending(TipsWith(deps, prefixOf, prefixes[..i])))
        invariant Listed(children, ghosts, done, result)
        invariant result + GcGroups(deps, ghosts, prefixOf, prefixes[..i], done) == GcOrder(deps, ghosts, prefixOf)
      {
        result, num, done := SortPrefix(prefixOf, prefixTips, prefixes, i, num, result, done);
      }
      NoGroupsLeft(deps, ghosts, prefixOf, prefixes, done);
      GcListed(num, done, result);
      GcIsGrouping(prefixOf, result);
      GcIsStable(prefixOf, result);
    }

    lemma GcIsStable(prefixOf: Key -> int, result: seq<Key>)
      requires result == GcOrder(DepsOf(Parents()), GhostsOf(Parents()), prefixOf) && Closed(DepsOf(Parents()))
      requires ChildrenFirst(DepsOf(Parents()), GhostsOf(Parents()), result)
      ensures GraphOrderUnique.IsStable(DepsOf(Parents()), prefixOf, result)
    {
      hide GcOrder, ChildrenFirst, Closed, GraphOrderUnique.IsStable;
      GraphOrderUnique.GcOrderIsStable(DepsOf(Parents()), GhostsOf(Parents()), prefixOf, result);
    }

    method GroupedTips(prefixOf: Key -> int) returns (tips: seq<Key>, prefixTips: map<int, seq<Key>>)
      requires Inverse(DepsOf(Parents()), Children())
      ensures AreTails(Children(), tips) && prefixTips.Keys == TipPrefixes(DepsOf(Parents()), prefixOf)
      ensures forall q :: q in prefixTips ==> SortDescending(prefixTips[q]) == Descending(TipsOf(DepsOf(Parents()), prefixOf, q))
    {
      hide *;
      tips := FindTips();
      prefixTips := GroupByPrefix(tips, prefixOf);
      GroupsAreTips(DepsOf(Parents()), Children(), tips, prefixOf, prefixTips);
    }

    method NothingSeen() returns (num: map<Key, nat>)
      ensures num.Keys == Children().Keys && forall k :: k in num ==> num[k] == 0
    {
      num := map k | k in nodes.Keys :: 0;
    }

    /** The tips by prefix, the prefixes in descending order, and no child seen yet. */
    method SortedTips(prefixOf: Key -> int) returns (prefixTips: map<int, seq<Key>>, prefixes: seq<int>, num: map<Key, nat>)
      requires Formed()
      ensures Distinct(prefixes) && Lists(prefixes, prefixTips.Keys) && prefixes[..|prefixes|] == prefixes
      ensures forall q :: q in prefixTips ==> SortDescending(prefixTips[q]) == Descending(TipsOf(DepsOf(Parents()), prefixOf, q))
      ensures Sorting(Children(), DepsOf(Parents()), num, {}, Descending(TipsWith(DepsOf(Parents()), prefixOf, prefixes)))
      ensures Listed(Children(), GhostsOf(Parents()), {}, [])
      ensures [] + GcGroups(DepsOf(Parents()), GhostsOf(Parents()), prefixOf, prefixes, {})
           == GcOrder(DepsOf(Parents()), GhostsOf(Parents()), prefixOf)
    {
      hide *;
      ghost var deps, children, ghosts := DepsOf(Parents()), Children(), GhostsOf(Parents());
      UnfoldFormed();
      InverseIsSymmetric(deps, children);
      var tips;
      tips, prefixTips := GroupedTips(prefixOf);
      num := NothingSeen();
      SortStart(children, deps, ghosts, num, tips);
      prefixes := SortedPrefixes(prefixTips.Keys);
      DescendingFacts(prefixTips.Keys);
      FirstGroups(deps, children, num, tips, prefixOf, prefixes);
      GroupsStart(deps, ghosts, prefixOf, prefixes);
    }

    /** If prefixes lead the result is grouped and its prefixes ascend.  On graphs without a cycle it is
        grouped whatever further tips there are exactly if prefixes lead, and ascends only if no prefix
        falls from a child to a parent. */
    ghost predicate IsGrouping(prefixOf: Key -> int, result: seq<Key>)
      reads this, nodes.Values
    {
      var deps, ghosts := DepsOf(Parents()), GhostsOf(Parents());
      && (PrefixesLead(deps, ghosts, prefixOf) ==> PrefixesAscend(result, prefixOf) && Contiguous(result, prefixOf))
      && (Acyclic(deps) ==> (PrefixesLead(deps, ghosts, prefixOf) <==> StaysGrouped(deps, ghosts, prefixOf)))
      && (Acyclic(deps) && PrefixesAscend(result, prefixOf) ==> NoPrefixFalls(deps, ghosts, prefixOf))
    }

    lemma GcIsGrouping(prefixOf: Key -> int, result: seq<Key>)
      requires result == GcOrder(DepsOf(Parents()), GhostsOf(Parents()), prefixOf) && Closed(DepsOf(Parents()))
      requires ChildrenFirst(DepsOf(Parents()), GhostsOf(Parents()), result)
      requires Acyclic(DepsOf(Parents())) ==> Lists(result, DepsOf(Parents()).Keys - GhostsOf(Parents()))
      ensures IsGrouping(prefixOf, result)
    {
      hide GcOrder, PrefixesLead, PureGroups, PrefixesAscend, Contiguous, Acyclic, Lists, StaysGrouped, NoPrefixFalls, ChildrenFirst, Closed;
      var deps, ghosts := DepsOf(Parents()), GhostsOf(Parents());
      GroupedByPrefix(deps, ghosts, prefixOf);
      if PrefixesAscend(result, prefixOf) { AscendingIsContiguous(result, prefixOf); }
      if Acyclic(deps) { GroupedExactly(deps, ghosts, prefixOf); }
      if Acyclic(deps) && PrefixesAscend(result, prefixOf) { AscendingNeeds(deps, ghosts, prefixOf, result); }
    }

    lemma GcListed(num: map<Key, nat>, done: set<Key>, result: seq<Key>)
      requires Inverse(DepsOf(Parents()), Children()) && Sorting(Children(), DepsOf(Parents()), num, done, [])
      requires Listed(Children(), GhostsOf(Parents()), done, result)
      ensures ChildrenFirst(DepsOf(Parents()), GhostsOf(Parents()), result)
      ensures Acyclic(DepsOf(Parents())) ==> Lists(result, DepsOf(Parents()).Keys - GhostsOf(Parents()))
    {
      hide *;
      AllAreListed(DepsOf(Parents()), Children(), GhostsOf(Parents()), num, done, result);
      ListedIsOrdered(Children(), GhostsOf(Parents()), done, result);
      ChildrenAreFirst(Parents(), Children(), result);
    }

    lemma LastOfBoth(later: seq<Key>, pending: seq<Key>)
      requires pending != []
      ensures (later + pending)[|later + pending| - 1] == pending[|pending| - 1]
      ensures (later + pending)[..|later + pending| - 1] == later + pending[..|pending| - 1]
      ensures pending[..|pending| - 1] + [] == pending[..|pending| - 1]
    {
    }

    /** The tips of one prefix and what becomes ready after them. */
    method SortPrefix(prefixOf: Key -> int, prefixTips: map<int, seq<Key>>, prefixes: seq<int>, i: nat,
                      num0: map<Key, nat>, result0: seq<Key>, ghost done0: set<Key>)
        returns (result: seq<Key>, num: map<Key, nat>, ghost done: set<Key>)
      requires Formed() && i < |prefixes| && Distinct(prefixes) && Lists(prefixes, prefixTips.Keys)
      requires forall q :: q in prefixTips ==> SortDescending(prefixTips[q]) == Descending(TipsOf(DepsOf(Parents()), prefixOf, q))
      requires Sorting(Children(), DepsOf(Parents()), num0, done0, Descending(TipsWith(DepsOf(Parents()), prefixOf, prefixes[..i + 1])))
      requires Listed(Children(), GhostsOf(Parents()), done0, result0)
      ensures Sorting(Children(), DepsOf(Parents()), num, done, Descending(TipsWith(DepsOf(Parents()), prefixOf, prefixes[..i])))
      ensures Listed(Children(), GhostsOf(Parents()), done, result)
      ensures result + GcGroups(DepsOf(Parents()), GhostsOf(Parents()), prefixOf, prefixes[..i], done)
           == result0 + GcGroups(DepsOf(Parents()), GhostsOf(Parents()), prefixOf, prefixes[..i + 1], done0)
    {
      hide *;
      ghost var deps, children, ghosts := DepsOf(Parents()), Children(), GhostsOf(Parents());
      NextGroup(deps, children, num0, done0, prefixOf, prefixes, i);
      IsGroupKey(prefixes, prefixTips, i);
      var pending := SortDescending(prefixTips[prefixes[i]]);
      ghost var run := GcRun(deps, ghosts, pending, done0);
      GroupsStep(deps, ghosts, prefixOf, prefixes, i, done0);
      result, num, done := SortGroup(pending, num0, result0, done0, Descending(TipsWith(deps, prefixOf, prefixes[..i])));
      Regroup(result0, run.0, GcGroups(deps, ghosts, prefixOf, prefixes[..i], run.1));
    }

    lemma Regroup(first: seq<Key>, second: seq<Key>, third: seq<Key>)
      ensures first + (second + third) == (first + second) + third
    {
    }

    method SortGroup(pending0: seq<Key>, num0: map<Key, nat>, result0: seq<Key>, ghost done0: set<Key>, ghost later: seq<Key>)
        returns (result: seq<Key>, num: map<Key, nat>, ghost done: set<Key>)
      requires Formed() && Sorting(Children(), DepsOf(Parents()), num0, done0, later + pending0)
      requires Listed(Children(), GhostsOf(Parents()), done0, result0)
      ensures Sorting(Children(), DepsOf(Parents()), num, done, later)
      ensures Listed(Children(), GhostsOf(Parents()), done, result)
      ensures result == result0 + GcRun(DepsOf(Parents()), GhostsOf(Parents()), pending0, done0).0
      ensures done == GcRun(DepsOf(Parents()), GhostsOf(Parents()), pending0, done0).1
    {
      hide *;
      ghost var deps, children, ghosts := DepsOf(Parents()), Children(), GhostsOf(Parents());
      ghost var run := GcRun(deps, ghosts, pending0, done0);
      UnfoldFormed();
      SameKeys(deps, children);
      var pending := pending0;
      result, num, done := result0, num0, done0;
      while pending != []
        invariant Sorting(children, deps, num, done, later + pending) && Listed(children, ghosts, done, result)
        invariant result0 + run.0 == result + GcRun(deps, ghosts, pending, done).0
        invariant run.1 == GcRun(deps, ghosts, pending, done).1
        decreases deps.Keys - done
      {
        var n := pending[|pending| - 1];
        LastOfBoth(later, pending);
        SortNext(children, deps, num, done, later + pending);
        ListStep(children, ghosts, done, result, n);
        RunStep(deps, ghosts, pending, done);
        GhostIs(n);
        ParentsAre(n);
        pending := pending[..|pending| - 1];
        if nodes[n].parentKeys.None? {
          GhostHasNone(n);
          GhostAddsNothing(deps, children, num, done, n, later + pending);
        } else {
          result := result + [n];
          num, pending := CountParents(n, num, pending, done, later);
        }
        assert n in deps.Keys - done && n !in deps.Keys - (done + {n});
        done := done + {n};
      }
      assert later + [] == later;
      RunEnds(deps, ghosts, done);
    }

    method CountParents(n: Key, num0: map<Key, nat>, pending0: seq<Key>, ghost done: set<Key>, ghost later: seq<Key>)
        returns (num: map<Key, nat>, pending: seq<Key>)
      requires n in nodes && Counting(Children(), DepsOf(Parents()), num0, done, n, [], later + pending0)
      ensures Sorting(Children(), DepsOf(Parents()), num, done + {n}, later + pending)
      ensures n in DepsOf(Parents()) && pending == pending0 + Descending(Ready(DepsOf(Parents()), done + {n}, n))
    {
      hide *;
      ghost var deps, children := DepsOf(Parents()), Children();
      CountingKeys(children, deps, num0, done, n, later + pending0);
      ParentsAre(n);
      KeysOfNodes();
      DepsKeys(Parents());
      var sorted := SortDescending(ListOrEmpty(nodes[n].parentKeys));
      SortFacts(ListOrEmpty(nodes[n].parentKeys));
      num, pending := num0, pending0;
      ghost var added: seq<Key> := [];
      AddedNothing(children, done);
      assert sorted[..0] == [];
      for i := 0 to |sorted|
        invariant Counting(children, deps, num, done, n, sorted[..i], later + pending)
        invariant Added(children, done, sorted[..i], added) && pending == pending0 + added
      {
        var parentKey := sorted[i];
        CountParent(children, deps, num, done, n, sorted, i, later, pending0, added);
        ChildrenOf(parentKey);
        var seenChildren := num[parentKey] + 1;
        if seenChildren == |nodes[parentKey].childKeys| {
          pending := pending + [parentKey];
          added := added + [parentKey];
          num := num - {parentKey};
        } else {
          num := num[parentKey := seenChildren];
        }
      }
      assert sorted[..|sorted|] == sorted;
      CountLast(children, deps, num, done, n, sorted, later + pending);
      AddedAll(deps, children, done, n, sorted, added);
    }

    lemma GhostHasNone(k: Key)
      requires k in nodes && nodes[k].parentKeys.None?
      ensures k in DepsOf(Parents()) && DepsOf(Parents())[k] == []
    {
    }
  }

  method GroupByPrefix(tips: seq<Key>, prefixOf: Key -> int) returns (prefixTips: map<int, seq<Key>>)
    requires Distinct(tips)
    ensures Grouped(tips, prefixOf, prefixTips)
  {
    hide Grouped;
    prefixTips := map[];
    NothingGrouped(prefixOf);
    assert tips[..0] == [];
    for i := 0 to |tips|
      invariant Grouped(tips[..i], prefixOf, prefixTips)
    {
      assert tips[..i + 1] == tips[..i] + [tips[i]];
      assert tips[i] !in tips[..i];
      GroupedMore(tips[..i], prefixOf, prefixTips, tips[i]);
      var prefix := prefixOf(tips[i]);
      prefixTips := prefixTips[prefix := (if prefix in prefixTips then prefixTips[prefix] else []) + [tips[i]]];
    }
    assert tips[..|tips|] == tips;
  }

  method SortedPrefixes(prefixes: set<int>) returns (sorted: seq<int>)
    ensures sorted == Descending(prefixes)
  {
    var list: seq<int> := [];
    var rest := prefixes;
    while rest != {}
      invariant Distinct(list) && rest <= prefixes && forall q :: q in list <==> q in prefixes && q !in rest
    {
      ghost var some := AnyOf(rest);
      var q: int :| q in rest;
      DistinctMore(list, q);
      list := list + [q];
      rest := rest - {q};
    }
    sorted := SortDescending(list);
    SortedSet(list, prefixes);
  }
}
