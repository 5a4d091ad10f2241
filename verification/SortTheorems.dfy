/** What the sort guarantees, in terms of the records it was given. */
module SortTheorems {
  import opened NodeIds
  import opened NodeRecords
  import opened Dependencies
  import opened Nodes
  import opened Nodesets
  import opened Sorting

  /** What a first sort emits. */
  ghost function Emitted(g: Graph<Node>): (r: set<Node>)
    ensures r <= g.Keys
  {
    EmitInGraph(g, Stages(g.Keys, {}));
    Emit(g, Stages(g.Keys, {}))
  }

  // ----- blockers come first

  /** By id: the target of a blocking reference that is in the nodeset stands strictly before
      the node, among the nodes of the same run. */
  lemma BlockersFirst(infos: map<Node, NodeInfo>, g: Graph<Node>, prior: set<Node>, sorted: seq<Node>, i: nat, r: Ref)
    returns (j: nat)
    requires Explains(infos, g) && Ordered(g, prior, sorted)
    requires i < |sorted| && sorted[i] in g && sorted[i] !in prior
    requires r in infos[sorted[i]].refs && Blocks(r.refType, r.isForward)
    requires r.target in IdsOf(g.Keys)
    ensures j < i && sorted[j].id == r.target && sorted[j] !in prior
  {
    assert r.target in BlockingTargets(infos[sorted[i]], IdsOf(g.Keys));
    assert r.target in IdsOf(g[sorted[i]]);
    var b :| b in g[sorted[i]] && b.id == r.target;
    assert b in Elems(sorted[..i]) - prior;
    j :| 0 <= j < i && sorted[..i][j] == b;
  }

  // ----- order independence

  ghost predicate UniqueIds(nodes: set<Node>) {
    forall m, n :: m in nodes && n in nodes && m.id == n.id ==> m == n
  }

  ghost function IdMap(nodes: set<Node>): (f: map<Node, NodeId>)
    ensures f.Keys == nodes
  {
    map n | n in nodes :: n.id
  }

  lemma IdsAreImages(infos: map<Node, NodeInfo>)
    requires Records(infos)
    ensures Ids(infos.Values) == IdsOf(infos.Keys) == Image(IdMap(infos.Keys), infos.Keys)
  {
  }

  /** With distinct ids, the graph over ids is the graph over nodes renamed. */
  lemma GraphRenamed(infos: map<Node, NodeInfo>, g: Graph<Node>)
    requires Records(infos) && Explains(infos, g) && Total(g) && UniqueIds(g.Keys)
    ensures Renamed(g, IdMap(g.Keys), IdGraph(infos.Values))
  {
    var f, h := IdMap(g.Keys), IdGraph(infos.Values);
    IdsAreImages(infos);
    forall n | n in g
      ensures f[n] in h && h[f[n]] == Image(f, g[n])
    {
      assert infos[n] in infos.Values;
      forall v | v in infos.Values && v.id == n.id ensures v == infos[n] {
        var m :| m in infos && infos[m] == v;
      }
      assert h[n.id] == BlockingTargets(infos[n], Ids(infos.Values));
      assert IdsOf(g[n]) == Image(f, g[n]);
    }
  }

  lemma ClassRenamed(infos: map<Node, NodeInfo>, c: NodeClass)
    requires Records(infos)
    ensures IdsOfClass(infos.Values, c) == Image(IdMap(infos.Keys), ClassLeft(infos.Keys, {}, c))
  {
  }

  lemma StagesRenamed(infos: map<Node, NodeInfo>)
    requires Records(infos)
    ensures PoolsRenamed(IdMap(infos.Keys), Stages(infos.Keys, {}), IdPools(infos.Values))
  {
    var f, all := IdMap(infos.Keys), infos.Keys;
    ClassRenamed(infos, ReferenceType);
    ClassRenamed(infos, DataType);
    ClassRenamed(infos, VariableType);
    ClassRenamed(infos, View);
    LastPoolRenamed(infos);
  }

  lemma LastPoolRenamed(infos: map<Node, NodeInfo>)
    requires Records(infos)
    ensures LastPool(infos.Values) == Image(IdMap(infos.Keys), InstancesLeft(infos.Keys, {}))
  {
  }

  lemma IdsOfIsImage(all: set<Node>, nodes: set<Node>)
    requires nodes <= all
    ensures IdsOf(nodes) == Image(IdMap(all), nodes)
  {
  }

  /** What is emitted is a function of the set of records alone: neither the order in which
      the nodes were loaded nor the order in which they are scanned matters. */
  lemma OrderIndependence(infos: map<Node, NodeInfo>, g: Graph<Node>)
    requires Records(infos) && Explains(infos, g) && Total(g) && UniqueIds(g.Keys)
    ensures IdsOf(Emitted(g)) == EmittedIds(infos.Values)
  {
    var f, h := IdMap(g.Keys), IdGraph(infos.Values);
    GraphRenamed(infos, g);
    StagesRenamed(infos);
    IdsAreImages(infos);
    var pools, ids := Stages(g.Keys, {}), IdPools(infos.Values);
    EmitInGraph(g, pools);
    EmitRenamed(g, f, h, pools, ids);
    IdsOfIsImage(g.Keys, Emitted(g));
  }

  // ----- success and failure

  lemma StagesAt(all: set<Node>, prior: set<Node>, i: nat, n: Node)
    requires i < 5
    ensures n in Stages(all, prior)[i] <==> n in all && n !in prior && StageOf(n.nodeClass) == i
  {
  }

  lemma {:induction false} InUnion<T>(pools: seq<set<T>>, n: T)
    ensures n in Union(pools) <==> exists i :: 0 <= i < |pools| && n in pools[i]
  {
    if n in Union(pools) {
      var i := PoolOf(pools, n);
      assert n in pools[i];
    }
    if i: nat :| i < |pools| && n in pools[i] {
      UnionContains(pools, i);
    }
  }

  /** The first stages hold the unsorted nodes of their classes. */
  lemma FirstStages(all: set<Node>, prior: set<Node>, k: nat, n: Node)
    requires k <= 5
    ensures n in Union(Stages(all, prior)[..k]) <==> n in all && n !in prior && StageOf(n.nodeClass) < k
  {
    var s := Stages(all, prior);
    var first: seq<set<Node>> := s[..k];
    InUnion(first, n);
    StagesAt(all, prior, StageOf(n.nodeClass), n);
    if i: nat :| i < |first| && n in first[i] {
      StagesAt(all, prior, i, n);
    }
    if n in all && n !in prior && StageOf(n.nodeClass) < k {
      assert n in first[StageOf(n.nodeClass)];
    }
  }

  lemma StagesApart(g: Graph<Node>, prior: set<Node>)
    ensures Apart(g, Stages(g.Keys, prior)) && Union(Stages(g.Keys, prior)) == g.Keys - prior
  {
    var s := Stages(g.Keys, prior);
    assert s[..5] == s;
    UnionInGraph(g, s);
    forall n | n in g
      ensures n in Union(s) <==> n !in prior
    {
      FirstStages(g.Keys, prior, 5, n);
    }
  }

  lemma {:induction false} UnionIn<T>(pools: seq<set<T>>, all: set<T>)
    requires forall p :: p in pools ==> p <= all
    ensures Union(pools) <= all
  {
    if pools != [] {
      UnionIn(pools[..|pools| - 1], all);
      assert pools[|pools| - 1] in pools;
    }
  }

  /** The node waits for one that was sorted before this run, or for one of a later stage. */
  ghost predicate WaitsInVain(g: Graph<Node>, prior: set<Node>, n: Node)
    requires n in g
  {
    exists b :: b in g[n] && (b in prior || StageOf(b.nodeClass) > StageOf(n.nodeClass))
  }

  lemma OutOfStageIff(g: Graph<Node>, prior: set<Node>, n: Node)
    requires Total(g) && n in g && n !in prior
    ensures OutOfStage(g, Stages(g.Keys, prior), n) <==> WaitsInVain(g, prior, n)
  {
    var s, k := Stages(g.Keys, prior), StageOf(n.nodeClass);
    StagesAt(g.Keys, prior, k, n);
    forall b | b in g[n]
      ensures b in Union(s[..k + 1]) <==> b !in prior && StageOf(b.nodeClass) <= k
    {
      FirstStages(g.Keys, prior, k + 1, b);
    }
    if i: nat :| i < |s| && n in s[i] && !(g[n] <= Union(s[..i + 1])) {
      StagesAt(g.Keys, prior, i, n);
    }
  }

  /** Everything is sorted exactly when the blocking references have no cycle and no node
      waits for one of a later stage. */
  lemma EverythingSortedIff(g: Graph<Node>)
    requires Total(g)
    ensures Emitted(g) == g.Keys <==>
            !HasKnotIn(g, g.Keys) && forall n, b :: n in g && b in g[n] ==> StageOf(b.nodeClass) <= StageOf(n.nodeClass)
  {
    LaterSortAllIff(g, {});
    assert g.Keys - {} == g.Keys;
  }

  /** The same over ids: all of them are emitted exactly when no chain of blocking references
      runs in a circle and none leads from an early class to a later stage. */
  lemma AllIdsEmittedIff(infos: set<NodeInfo>)
    requires DistinctIds(infos)
    ensures EmittedIds(infos) == Ids(infos) <==>
            (forall p: seq<NodeId> :: !Cycle(IdGraph(infos), p)) && Staged(IdGraph(infos), IdPools(infos))
  {
    var g := IdGraph(infos);
    IdPoolsApart(infos);
    EmitsAllIff(g, IdPools(infos));
    KnotIffCycle(g, g.Keys);
    forall p: seq<NodeId> | Cycle(g, p)
      ensures Within(p, g.Keys)
    {
    }
  }

  lemma IdPoolsApart(infos: set<NodeInfo>)
    requires DistinctIds(infos)
    ensures Total(IdGraph(infos)) && Apart(IdGraph(infos), IdPools(infos)) && Union(IdPools(infos)) == Ids(infos)
  {
    IdPoolsCover(infos);
    ClassesDisjoint(infos);
  }

  lemma EarlyPoolsApart(infos: set<NodeInfo>)
    requires DistinctIds(infos)
    ensures IdPools(infos)[..4] == EarlyPools(infos) && Apart(IdGraph(infos), EarlyPools(infos))
    ensures Union(EarlyPools(infos)) + LastPool(infos) == Ids(infos)
  {
    IdPoolsApart(infos);
    var s := IdPools(infos);
    assert s[..4] == EarlyPools(infos);
    forall i, j | 0 <= i < j < 4
      ensures EarlyPools(infos)[i] !! EarlyPools(infos)[j]
    {
      assert s[i] !! s[j];
    }
  }

  lemma IdPoolsCover(infos: set<NodeInfo>)
    ensures Union(IdPools(infos)) == Ids(infos)
  {
    var s := IdPools(infos);
    UnionContains(s, 0);
    UnionContains(s, 1);
    UnionContains(s, 2);
    UnionContains(s, 3);
    UnionContains(s, 4);
    forall n | n in infos ensures n.id in Union(s) {
      if Instance(n.nodeClass) { assert n.id in s[4]; }
      else if n.nodeClass == ReferenceType { assert n.id in s[0]; }
      else if n.nodeClass == DataType { assert n.id in s[1]; }
      else if n.nodeClass == VariableType { assert n.id in s[2]; }
      else { assert n.id in s[3]; }
    }
    UnionIn(s, Ids(infos));
  }

  lemma ClassesDisjoint(infos: set<NodeInfo>)
    requires DistinctIds(infos)
    ensures forall c, d :: c != d ==> IdsOfClass(infos, c) !! IdsOfClass(infos, d)
  {
  }

  /** What the four early classes contribute. */
  ghost function EarlyNodes(all: set<Node>): set<Node> {
    set n | n in all && !Instance(n.nodeClass)
  }

  lemma EarlyStages(all: set<Node>)
    ensures var s := Stages(all, {}); s == s[..4] + [InstancesLeft(all, {})] && Union(s[..4]) == EarlyNodes(all)
  {
    UnionIn(Stages(all, {})[..4], all);
    forall n | n in all
      ensures n in Union(Stages(all, {})[..4]) <==> n in EarlyNodes(all)
    {
      FirstStages(all, {}, 4, n);
    }
  }

  /** The early classes hold no cycle, and none of their nodes waits for a later stage. */
  ghost predicate EarlyInOrder(g: Graph<Node>) {
    && !HasKnotIn(g, EarlyNodes(g.Keys))
    && forall n :: n in EarlyNodes(g.Keys) ==> !WaitsInVain(g, {}, n)
  }

  lemma EarlyWaitsInVain(g: Graph<Node>, n: Node)
    requires Total(g) && n in EarlyNodes(g.Keys)
    ensures OutOfStage(g, Stages(g.Keys, {})[..4], n) <==> WaitsInVain(g, {}, n)
  {
    OutOfStageIff(g, {}, n);
    StagesAt(g.Keys, {}, 4, n);
    FirstFour(g, Stages(g.Keys, {}), n);
  }

  lemma EarlyStagedIff(g: Graph<Node>)
    requires Total(g) && Apart(g, Stages(g.Keys, {})[..4])
    ensures Staged(g, Stages(g.Keys, {})[..4]) <==> forall n :: n in EarlyNodes(g.Keys) ==> !WaitsInVain(g, {}, n)
  {
    var early := Stages(g.Keys, {})[..4];
    EarlyStages(g.Keys);
    StagedIff(g, early);
    forall n | n in EarlyNodes(g.Keys)
      ensures OutOfStage(g, early, n) <==> WaitsInVain(g, {}, n)
    {
      EarlyWaitsInVain(g, n);
    }
  }

  /** The early classes are sorted in full exactly when they are in order. */
  lemma EarlySortedIff(g: Graph<Node>)
    requires Total(g)
    ensures EarlyNodes(g.Keys) <= Emitted(g) <==> EarlyInOrder(g)
  {
    StagesApart(g, {});
    EarlyStages(g.Keys);
    FirstPoolsIff(g, Stages(g.Keys, {}), 4);
    EarlyStagedIff(g);
  }

  lemma FirstFour(g: Graph<Node>, s: seq<set<Node>>, n: Node)
    requires |s| == 5 && n !in s[4]
    ensures OutOfStage(g, s[..4], n) <==> OutOfStage(g, s, n)
  {
    forall i | 0 <= i < 4
      ensures s[..4][i] == s[i] && s[..4][..i + 1] == s[..i + 1]
    {
    }
  }

  /** When the early classes are in order, the sort succeeds exactly when there is no cycle among
      the other four classes, and on failure the nodes left over hold one. */
  lemma FailureMeansCycle(g: Graph<Node>)
    requires Total(g) && EarlyInOrder(g)
    ensures InstancesLeft(g.Keys, {}) <= Emitted(g) <==> !HasKnotIn(g, InstancesLeft(g.Keys, {}))
    ensures !(InstancesLeft(g.Keys, {}) <= Emitted(g)) ==> Knot(g, InstancesLeft(g.Keys, {}) - Emitted(g))
  {
    EarlyStages(g.Keys);
    EarlySortedIff(g);
    LastStageIff(g, Stages(g.Keys, {})[..4], InstancesLeft(g.Keys, {}));
  }

  /** The sort reports success exactly when from no node of the last four classes a chain of
      blocking references leads to a cycle or to a node that waits for a later stage. */
  lemma SortSucceedsIff(g: Graph<Node>)
    requires Total(g)
    ensures InstancesLeft(g.Keys, {}) <= Emitted(g) <==>
            forall n :: n in g && Instance(n.nodeClass) ==> !Doomed(g, Stages(g.Keys, {}), n)
  {
    StagesApart(g, {});
    forall n | n in g
      ensures n in Emitted(g) <==> !Doomed(g, Stages(g.Keys, {}), n)
    {
      EmittedIff(g, Stages(g.Keys, {}), n);
    }
  }

  /** After a failure: a chain of blocking references, all among the nodes left over, from a node
      of the last four classes to a cycle or to a node that waits for a later stage. */
  lemma FailureWitness(g: Graph<Node>) returns (p: seq<Node>)
    requires Total(g) && !(InstancesLeft(g.Keys, {}) <= Emitted(g))
    ensures Walk(g, p) && Within(p, g.Keys - Emitted(g)) && Instance(p[0].nodeClass)
    ensures OnCycle(g, p[|p| - 1]) || WaitsInVain(g, {}, p[|p| - 1])
  {
    StagesApart(g, {});
    var n :| n in InstancesLeft(g.Keys, {}) && n !in Emitted(g);
    p := LeftOverIsDoomed(g, Stages(g.Keys, {}), n);
    OutOfStageIff(g, {}, p[|p| - 1]);
  }

  /** The same over ids. */
  lemma SuccessIff(infos: set<NodeInfo>)
    requires DistinctIds(infos)
    ensures LastPool(infos) <= EmittedIds(infos) <==>
            forall id :: id in LastPool(infos) ==> !Doomed(IdGraph(infos), IdPools(infos), id)
  {
    IdPoolsApart(infos);
    forall id | id in LastPool(infos)
      ensures id in EmittedIds(infos) <==> !Doomed(IdGraph(infos), IdPools(infos), id)
    {
      EmittedIff(IdGraph(infos), IdPools(infos), id);
    }
  }

  /** A sort that reports success has emitted everything exactly when the early classes hold no
      cycle and none of their nodes waits for a later stage. */
  lemma SuccessIsCompleteIff(infos: set<NodeInfo>)
    requires DistinctIds(infos) && LastPool(infos) <= EmittedIds(infos)
    ensures EmittedIds(infos) == Ids(infos) <==>
            !HasKnotIn(IdGraph(infos), Union(EarlyPools(infos))) && Staged(IdGraph(infos), EarlyPools(infos))
  {
    IdPoolsApart(infos);
    EarlyPoolsApart(infos);
    FirstPoolsIff(IdGraph(infos), IdPools(infos), 4);
  }

  lemma KnotIffCycle(g: Graph<NodeId>, s: set<NodeId>)
    requires s <= g.Keys
    ensures HasKnotIn(g, s) <==> exists p: seq<NodeId> :: Cycle(g, p) && Within(p, s)
  {
    if HasKnotIn(g, s) {
      var k :| k <= s && Knot(g, k);
      var p := KnotHasCycle(g, k);
      assert Cycle(g, p) && Within(p, s);
    }
    if p: seq<NodeId> :| Cycle(g, p) && Within(p, s) {
      CycleIsKnot(g, p);
      assert (set x | x in p) <= s;
    }
  }

  // ----- the sort of a loader

  /** NodesetLoader_sort, called once after loading. */
  method SortLoaded(nodeset: Nodeset) returns (all: bool, ghost infos: map<Node, NodeInfo>)
    requires nodeset.Valid() && NoneMarked(nodeset.allNodes) && nodeset.sortedNodes == []
    modifies nodeset`allNodes, nodeset`sortedNodes, nodeset`waiting
    modifies Elems(nodeset.allNodes)`isDone, RefsOf(Elems(nodeset.allNodes))`targetPtr
    ensures nodeset.Valid() && NoneMarked(nodeset.allNodes)
    ensures infos == old(Infos(Elems(nodeset.allNodes))) && infos.Keys == Elems(nodeset.allNodes)
    ensures UniqueIds(infos.Keys) ==> IdsOf(Elems(nodeset.sortedNodes)) == EmittedIds(infos.Values)
    ensures BlockersStandFirst(infos, nodeset.sortedNodes)
    ensures all <==> forall n :: n in nodeset.allNodes && Instance(n.nodeClass) ==> n in nodeset.sortedNodes
    ensures NoneWaits(infos) ==> nodeset.sortedNodes == InTurn(old(nodeset.waiting))
  {
    ghost var g, checks;
    ghost var sorted, waiting := nodeset.sortedNodes, nodeset.waiting;
    all, g, infos, checks := Sort(nodeset);
    assert Elems(sorted) == {};
    FirstSort(infos, g, waiting, nodeset.sortedNodes);
    DoneMeansSorted(nodeset.allNodes, nodeset.sortedNodes, nodeset.waiting);
  }

  /** What the first sort comes to, in terms of the records. */
  lemma {:induction false} FirstSort(infos: map<Node, NodeInfo>, g: Graph<Node>, waiting: Containers, sorted: seq<Node>)
    requires Records(infos) && Explains(infos, g) && Total(g) && Ordered(g, {}, sorted)
    requires Elems(sorted) - {} == Emit(g, Stages(g.Keys, {}))
    requires NothingBlocks(g) ==> sorted == [] + InTurn(waiting)
    ensures UniqueIds(infos.Keys) ==> IdsOf(Elems(sorted)) == EmittedIds(infos.Values)
    ensures BlockersStandFirst(infos, sorted)
    ensures NoneWaits(infos) ==> sorted == InTurn(waiting)
  {
    assert Elems(sorted) - {} == Elems(sorted);
    EmitInGraph(g, Stages(g.Keys, {}));
    if UniqueIds(infos.Keys) {
      OrderIndependence(infos, g);
    }
    if NoneWaits(infos) {
      NothingToWaitFor(infos, g);
      assert [] + InTurn(waiting) == InTurn(waiting);
    }
    AllBlockersStandFirst(infos, g, sorted);
  }

  /** No node has a blocking reference to a node of the nodeset. */
  ghost predicate NoneWaits(infos: map<Node, NodeInfo>) {
    forall n :: n in infos ==> BlockingTargets(infos[n], IdsOf(infos.Keys)) == {}
  }

  lemma NodesHaveIds(nodes: set<Node>)
    requires nodes != {}
    ensures IdsOf(nodes) != {}
  {
    var n :| n in nodes;
    assert n.id in IdsOf(nodes);
  }

  lemma NothingToWaitFor(infos: map<Node, NodeInfo>, g: Graph<Node>)
    requires Explains(infos, g) && NoneWaits(infos)
    ensures NothingBlocks(g)
  {
    forall n | n in g
      ensures g[n] == {}
    {
      if g[n] != {} {
        NodesHaveIds(g[n]);
        assert false;
      }
    }
  }

  /** Every node is behind all nodes of the nodeset that its blocking references name. */
  ghost predicate BlockersStandFirst(infos: map<Node, NodeInfo>, sorted: seq<Node>) {
    forall i, r :: 0 <= i < |sorted| && sorted[i] in infos && r in infos[sorted[i]].refs
                   && Blocks(r.refType, r.isForward) && r.target in IdsOf(infos.Keys)
                   ==> r.target in IdsOf(Elems(sorted[..i]))
  }

  lemma AllBlockersStandFirst(infos: map<Node, NodeInfo>, g: Graph<Node>, sorted: seq<Node>)
    requires Explains(infos, g) && Ordered(g, {}, sorted) && Elems(sorted) <= g.Keys
    ensures BlockersStandFirst(infos, sorted)
  {
    forall i, r | 0 <= i < |sorted| && sorted[i] in infos && r in infos[sorted[i]].refs
                  && Blocks(r.refType, r.isForward) && r.target in IdsOf(infos.Keys)
      ensures r.target in IdsOf(Elems(sorted[..i]))
    {
      var j := BlockersFirst(infos, g, {}, sorted, i, r);
      assert sorted[..i][j] == sorted[j];
      assert sorted[j] in Elems(sorted[..i]);
    }
  }

  lemma DoneMeansSorted(all: seq<Node>, sorted: seq<Node>, waiting: Containers)
    requires Conserved(all, sorted, waiting)
    ensures InstancesDone(waiting) <==> forall n :: n in all && Instance(n.nodeClass) ==> n in sorted
  {
    assert WaitingIs(Elems(all), Elems(sorted), ObjectType, Of(waiting, ObjectType));
    assert WaitingIs(Elems(all), Elems(sorted), Object, Of(waiting, Object));
    assert WaitingIs(Elems(all), Elems(sorted), Method, Of(waiting, Method));
    assert WaitingIs(Elems(all), Elems(sorted), Variable, Of(waiting, Variable));
    if forall n :: n in all && Instance(n.nodeClass) ==> n in sorted {
      NothingWaits(all, sorted, ObjectType, Of(waiting, ObjectType));
      NothingWaits(all, sorted, Object, Of(waiting, Object));
      NothingWaits(all, sorted, Method, Of(waiting, Method));
      NothingWaits(all, sorted, Variable, Of(waiting, Variable));
    }
  }

  lemma NothingWaits(all: seq<Node>, sorted: seq<Node>, c: NodeClass, waiting: seq<Node>)
    requires WaitingIs(Elems(all), Elems(sorted), c, waiting)
    requires forall n :: n in all && n.nodeClass == c ==> n in sorted
    ensures waiting == []
  {
    NonemptyHasElement(waiting);
  }

  lemma NonemptyHasElement(s: seq<Node>)
    ensures s == [] || exists n :: n in s
  {
    if s != [] {
      assert s[0] in s;
    }
  }

  // ----- sorting again

  /** Exactly which new nodes a later sort emits. The marks are cleared at the end of a sort, so
      a node that waits for one sorted before waits in vain. */
  lemma {:induction false} LaterSortIff(g: Graph<Node>, prior: set<Node>, n: Node)
    requires Total(g) && n in g && n !in prior
    ensures n in Emit(g, Stages(g.Keys, prior)) <==>
            !exists p: seq<Node> :: Walk(g, p) && p[0] == n
                                    && (OnCycle(g, p[|p| - 1]) || (p[|p| - 1] !in prior && WaitsInVain(g, prior, p[|p| - 1])))
  {
    var s := Stages(g.Keys, prior);
    StagesApart(g, prior);
    EmittedIff(g, s, n);
    forall x | x in g
      ensures OutOfStage(g, s, x) <==> x !in prior && WaitsInVain(g, prior, x)
    {
      if x in prior {
        NotStaged(g.Keys, prior, x);
      } else {
        OutOfStageIff(g, prior, x);
      }
    }
  }

  /** Two Objects, of which `b` waits for `a`. */
  ghost predicate OneWaits(g: Graph<Node>, a: Node, b: Node) {
    && a != b && a.nodeClass == Object && b.nodeClass == Object
    && g.Keys == {a, b} && g[a] == {} && g[b] == {a}
  }

  lemma {:induction false} OneWaitsNoKnot(g: Graph<Node>, a: Node, b: Node)
    requires OneWaits(g, a, b)
    ensures !HasKnotIn(g, g.Keys)
  {
    forall k: set<Node> | k <= g.Keys && k != {}
      ensures !Knot(g, k)
    {
      if a in k {
        assert g[a] * k == {};
      } else {
        assert b in k && g[b] * k == {};
      }
    }
  }

  lemma {:induction false} WaitsForPrior(g: Graph<Node>, prior: set<Node>, n: Node, b: Node)
    requires Total(g) && n in g && n !in prior && b in g[n] && b in prior
    ensures n !in Emit(g, Stages(g.Keys, prior))
  {
    var p := [n];
    assert Walk(g, p) && p[0] == n && WaitsInVain(g, prior, p[|p| - 1]);
    LaterSortIff(g, prior, n);
  }

  /** An Object that waits for an Object loaded and sorted before is never emitted, although one
      sort of the two together emits both. */
  lemma {:induction false} LaterSortStalls(g: Graph<Node>, a: Node, b: Node)
    requires OneWaits(g, a, b)
    ensures b !in Emit(g, Stages(g.Keys, {a}))
    ensures Emit(g, Stages(g.Keys, {})) == {a, b}
  {
    WaitsForPrior(g, {a}, b, a);
    OneWaitsNoKnot(g, a, b);
    EverythingSortedIff(g);
  }

  lemma NotStaged(all: set<Node>, prior: set<Node>, n: Node)
    requires n in prior
    ensures forall i :: 0 <= i < 5 ==> n !in Stages(all, prior)[i]
  {
  }

  /** A later sort emits all new nodes exactly when they hold no cycle and none of them waits
      for one sorted before or for one of a later stage. */
  lemma {:induction false} LaterSortAllIff(g: Graph<Node>, prior: set<Node>)
    requires Total(g)
    ensures Emit(g, Stages(g.Keys, prior)) == g.Keys - prior <==>
            !HasKnotIn(g, g.Keys - prior) && forall n :: n in g && n !in prior ==> !WaitsInVain(g, prior, n)
  {
    var s := Stages(g.Keys, prior);
    StagesApart(g, prior);
    EmitsAllIff(g, s);
    forall n | n in g && n !in prior
      ensures WaitsInVain(g, prior, n) <==> OutOfStage(g, s, n)
    {
      OutOfStageIff(g, prior, n);
    }
    StagedIff(g, s);
    forall n
      ensures n in Union(s) <==> n in g && n !in prior
    {
    }
  }

  lemma {:induction false} StagedIff(g: Graph<Node>, pools: seq<set<Node>>)
    requires Apart(g, pools)
    ensures Staged(g, pools) <==> forall n :: n in Union(pools) ==> !OutOfStage(g, pools, n)
  {
    if Staged(g, pools) {
    } else {
      var i, n :| 0 <= i < |pools| && n in pools[i] && n in g && !(g[n] <= Union(pools[..i + 1]));
      UnionContains(pools, i);
      assert OutOfStage(g, pools, n);
    }
  }

  // ----- the result is silent about the early classes

  const LONELY := NodeInfo(ReferenceType, NodeId(1, Numeric, [1]), QualifiedName(1, "Lonely"),
                           LocalizedText(None, None), LocalizedText(None, None), LocalizedText(None, None),
                           [Ref(false, NodeId(0, Numeric, [45]), NodeId(1, Numeric, [1]))], None)

  lemma LonelyIsAKnot()
    ensures Knot(IdGraph({LONELY}), {LONELY.id})
  {
    assert LONELY.id in Ids({LONELY});
    assert LONELY.refs[0] in LONELY.refs;
    assert LONELY.id in BlockingTargets(LONELY, Ids({LONELY}));
    assert LONELY.id in BlockingIds({LONELY}, LONELY.id);
  }

  lemma NoInstances(infos: set<NodeInfo>)
    requires forall n :: n in infos ==> !Instance(n.nodeClass)
    ensures LastPool(infos) == {}
  {
  }

  /** A ReferenceType that is its own supertype is never emitted, yet nothing of the last four
      classes is missing: a sort of this nodeset reports success. */
  lemma SuccessWithoutReferenceType()
    ensures EmittedIds({LONELY}) == {} && LastPool({LONELY}) == {} && LONELY.id in Ids({LONELY})
  {
    var infos := {LONELY};
    NoInstances(infos);
    LonelyIsAKnot();
    assert IdGraph(infos).Keys == {LONELY.id};
    KnotNeverEmitted(IdGraph(infos), IdPools(infos), {LONELY.id});
    EmitInGraph(IdGraph(infos), IdPools(infos));
  }
}
