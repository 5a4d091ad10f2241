/** What makes a node wait, spelled out over the records: which references, and which classes. */
module SortLaws {
  import opened NodeIds
  import opened NodeRecords
  import opened Dependencies
  import opened Nodes
  import opened Loader
  import opened SortTheorems

  /** A forward HasTypeDefinition, or an inverse reference of any other type. */
  ghost predicate Needed(r: Ref) {
    (r.refType == NodeId(0, Numeric, [40]) && r.isForward) || (r.refType != NodeId(0, Numeric, [40]) && !r.isForward)
  }

  // ----- which references count

  /** An id waits for exactly those ids of the nodeset that its records need. */
  lemma WaitsFor(infos: set<NodeInfo>, id: NodeId, t: NodeId)
    requires id in Ids(infos)
    ensures t in IdGraph(infos)[id] <==>
            t in Ids(infos) && exists n, r :: n in infos && n.id == id && r in n.refs && r.target == t
                                              && (r.isForward <==> r.refType == NodeId(0, Numeric, [40]))
  {
    if t in IdGraph(infos)[id] {
      var n :| n in infos && n.id == id && t in BlockingTargets(n, Ids(infos));
      var r :| r in n.refs && Blocks(r.refType, r.isForward) && r.target in Ids(infos) && r.target == t;
      assert Needed(r);
    }
    if t in Ids(infos) {
      if n, r :| n in infos && n.id == id && r in n.refs && r.target == t && Needed(r) {
        assert t in BlockingTargets(n, Ids(infos));
      }
    }
  }

  /** In a sorted order, whatever a record needs stands before it. */
  lemma NeededStandsBefore(records: set<NodeInfo>, order: seq<NodeInfo>)
    ensures BlockersFirstIn(records, order) <==>
            forall i, r :: (0 <= i < |order| && r in order[i].refs && r.target in Ids(records)
                            && (r.isForward <==> r.refType == NodeId(0, Numeric, [40]))) ==> exists j :: 0 <= j < i && order[j].id == r.target
  {
    forall i: nat, id | i < |order|
      ensures id in Ids(Elems(order[..i])) <==> exists j :: 0 <= j < i && order[j].id == id
    {
      EarlierIds(order, i, id);
    }
  }

  lemma EarlierIds(order: seq<NodeInfo>, i: nat, id: NodeId)
    requires i <= |order|
    ensures id in Ids(Elems(order[..i])) <==> exists j :: 0 <= j < i && order[j].id == id
  {
    if id in Ids(Elems(order[..i])) {
      var n :| n in Elems(order[..i]) && n.id == id;
      var j :| 0 <= j < i && order[..i][j] == n;
      assert order[j].id == id;
    }
    if j :| 0 <= j < i && order[j].id == id {
      assert order[..i][j] in Elems(order[..i]);
    }
  }

  function Relevant(refs: seq<Ref>): (r: seq<Ref>)
  {
    if refs == [] then []
    else (if refs[0].isForward == (refs[0].refType == NodeId(0, Numeric, [40])) then [refs[0]] else []) + Relevant(refs[1..])
  }

  lemma {:induction false} RelevantAre(refs: seq<Ref>)
    ensures forall r :: r in Relevant(refs) <==> r in refs && (r.isForward <==> r.refType == NodeId(0, Numeric, [40]))
  {
    if refs != [] {
      RelevantAre(refs[1..]);
      forall r ensures r in Relevant(refs) <==> r in refs && Needed(r) {
        assert r in refs <==> r == refs[0] || r in refs[1..];
      }
    }
  }

  /** Without the forward references that are no HasTypeDefinition, and without the inverse ones
      that are. */
  function Stripped(n: NodeInfo): NodeInfo {
    n.(refs := Relevant(n.refs))
  }

  function AllStripped(infos: set<NodeInfo>): set<NodeInfo> {
    set n | n in infos :: Stripped(n)
  }

  lemma StrippedIds(infos: set<NodeInfo>)
    ensures Ids(AllStripped(infos)) == Ids(infos)
    ensures forall c :: IdsOfClass(AllStripped(infos), c) == IdsOfClass(infos, c)
  {
    forall n | n in infos
      ensures Stripped(n) in AllStripped(infos) && Stripped(n).id == n.id && Stripped(n).nodeClass == n.nodeClass
    {
    }
    forall id | id in Ids(infos)
      ensures id in Ids(AllStripped(infos))
    {
      var n :| n in infos && n.id == id;
      assert Stripped(n) in AllStripped(infos);
    }
    forall c, id | id in IdsOfClass(infos, c)
      ensures id in IdsOfClass(AllStripped(infos), c)
    {
      var n :| n in infos && n.nodeClass == c && n.id == id;
      assert Stripped(n) in AllStripped(infos);
    }
  }

  /** A record of this id needs that one. */
  ghost predicate Waits(infos: set<NodeInfo>, id: NodeId, t: NodeId) {
    exists n, r :: n in infos && n.id == id && r in n.refs && r.target == t && Needed(r)
  }

  lemma {:induction false} WaitsAre(infos: set<NodeInfo>, id: NodeId, t: NodeId)
    requires id in Ids(infos)
    ensures t in IdGraph(infos)[id] <==> t in Ids(infos) && Waits(infos, id, t)
  {
    WaitsFor(infos, id, t);
    if n, r :| n in infos && n.id == id && r in n.refs && r.target == t && (r.isForward <==> r.refType == NodeId(0, Numeric, [40])) {
      assert Needed(r);
    }
    if Waits(infos, id, t) {
      var n, r :| n in infos && n.id == id && r in n.refs && r.target == t && Needed(r);
      assert r.isForward <==> r.refType == NodeId(0, Numeric, [40]);
    }
  }

  lemma {:induction false} StrippedWaits(infos: set<NodeInfo>, id: NodeId, t: NodeId)
    ensures Waits(AllStripped(infos), id, t) <==> Waits(infos, id, t)
  {
    if Waits(infos, id, t) {
      var n, r :| n in infos && n.id == id && r in n.refs && r.target == t && Needed(r);
      RelevantAre(n.refs);
      assert Stripped(n) in AllStripped(infos) && r in Stripped(n).refs;
    }
    if Waits(AllStripped(infos), id, t) {
      var n', r :| n' in AllStripped(infos) && n'.id == id && r in n'.refs && r.target == t && Needed(r);
      var n :| n in infos && Stripped(n) == n';
      RelevantAre(n.refs);
      assert r in n.refs;
    }
  }

  lemma {:induction false} StrippedGraph(infos: set<NodeInfo>)
    ensures IdGraph(AllStripped(infos)) == IdGraph(infos)
  {
    var g, h := IdGraph(AllStripped(infos)), IdGraph(infos);
    StrippedIds(infos);
    forall id | id in Ids(infos)
      ensures g[id] == h[id]
    {
      forall t
        ensures t in g[id] <==> t in h[id]
      {
        WaitsAre(infos, id, t);
        WaitsAre(AllStripped(infos), id, t);
        StrippedWaits(infos, id, t);
      }
    }
    assert g.Keys == h.Keys;
  }

  /** Other references change neither what is emitted nor the result. */
  lemma {:induction false} OtherReferencesDoNotCount(infos: set<NodeInfo>)
    ensures EmittedIds(AllStripped(infos)) == EmittedIds(infos)
    ensures LastPool(AllStripped(infos)) <= EmittedIds(AllStripped(infos)) <==> LastPool(infos) <= EmittedIds(infos)
  {
    StrippedGraph(infos);
    StrippedIds(infos);
  }

  /** What an emitted id needs is emitted, too. */
  lemma {:induction false} NeededIsEmitted(infos: set<NodeInfo>, n: NodeInfo, r: Ref)
    requires n in infos && n.id in EmittedIds(infos) && r in n.refs && Needed(r) && r.target in Ids(infos)
    ensures r.target in EmittedIds(infos)
  {
    EmitGrounded(IdGraph(infos), IdPools(infos), n.id);
    WaitsFor(infos, n.id, r.target);
  }

  // ----- which classes come first

  /** Classes that may wait for each other: every class for its own and the earlier ones, the last
      four for any. */
  ghost predicate MayWaitFor(c: NodeClass, d: NodeClass) {
    match c
    case ReferenceType => d == ReferenceType
    case DataType => d == ReferenceType || d == DataType
    case VariableType => d == ReferenceType || d == DataType || d == VariableType
    case View => d == ReferenceType || d == DataType || d == VariableType || d == View
    case ObjectType => true
    case Object => true
    case Method => true
    case Variable => true
  }

  /** `a` needs `b` and nothing else, and `b` needs nothing. */
  ghost predicate OneNeeds(a: NodeInfo, b: NodeInfo) {
    && a.id != b.id && b.refs == []
    && |a.refs| == 1 && a.refs[0].target == b.id && Needed(a.refs[0])
  }

  lemma {:induction false} TwoIds(a: NodeInfo, b: NodeInfo)
    requires OneNeeds(a, b)
    ensures DistinctIds({a, b}) && Ids({a, b}) == {a.id, b.id}
    ensures IdGraph({a, b})[a.id] == {b.id} && IdGraph({a, b})[b.id] == {}
  {
    var infos := {a, b};
    assert a in infos && b in infos;
    forall t
      ensures t in IdGraph(infos)[a.id] <==> t == b.id
    {
      WaitsFor(infos, a.id, t);
      assert a.refs[0] in a.refs;
    }
    forall t
      ensures t !in IdGraph(infos)[b.id]
    {
      WaitsFor(infos, b.id, t);
    }
  }

  lemma {:induction false} NoCycleInTwo(a: NodeInfo, b: NodeInfo, p: seq<NodeId>)
    requires OneNeeds(a, b)
    ensures !Cycle(IdGraph({a, b}), p)
  {
    TwoIds(a, b);
    var g := IdGraph({a, b});
    if Cycle(g, p) {
      CycleIsKnot(g, p);
      NoKnotInTwo(g, a.id, b.id, set x | x in p);
    }
  }

  lemma NoKnotInTwo(g: Graph<NodeId>, x: NodeId, y: NodeId, k: set<NodeId>)
    requires x != y && g.Keys == {x, y} && g[x] == {y} && g[y] == {}
    ensures !Knot(g, k)
  {
    if y in k {
      assert g[y] * k == {};
    } else {
      assert k != {} && k <= g.Keys ==> x in k && g[x] * k == {};
    }
  }

  /** Both are emitted exactly when the class of the first may wait for that of the second. */
  lemma {:induction false} TwoEmitted(a: NodeInfo, b: NodeInfo)
    requires OneNeeds(a, b)
    ensures EmittedIds({a, b}) == Ids({a, b}) <==>
              match a.nodeClass
              case ReferenceType => b.nodeClass == ReferenceType
              case DataType => b.nodeClass == ReferenceType || b.nodeClass == DataType
              case VariableType => b.nodeClass == ReferenceType || b.nodeClass == DataType || b.nodeClass == VariableType
              case View => b.nodeClass == ReferenceType || b.nodeClass == DataType || b.nodeClass == VariableType || b.nodeClass == View
              case ObjectType => true
              case Object => true
              case Method => true
              case Variable => true
  {
    var infos := {a, b};
    TwoIds(a, b);
    AllIdsEmittedIff(infos);
    forall p: seq<NodeId>
      ensures !Cycle(IdGraph(infos), p)
    {
      NoCycleInTwo(a, b, p);
    }
    StagedTwo(a, b);
  }

  /** The stages of the ids. */
  lemma PoolAt(infos: set<NodeInfo>, i: nat, id: NodeId)
    requires i < 5
    ensures id in IdPools(infos)[i] <==> exists n :: n in infos && n.id == id && StageOf(n.nodeClass) == i
  {
  }

  lemma EarlierPools(infos: set<NodeInfo>, k: nat, id: NodeId)
    requires k <= 5
    ensures id in Union(IdPools(infos)[..k]) <==> exists n :: n in infos && n.id == id && StageOf(n.nodeClass) < k
  {
    var pools := IdPools(infos)[..k];
    InUnion(pools, id);
    if id in Union(pools) {
      var i :| 0 <= i < |pools| && id in pools[i];
      PoolAt(infos, i, id);
    }
    if n :| n in infos && n.id == id && StageOf(n.nodeClass) < k {
      PoolAt(infos, StageOf(n.nodeClass), id);
      assert id in pools[StageOf(n.nodeClass)];
    }
  }

  lemma {:induction false} TwoPools(a: NodeInfo, b: NodeInfo, i: nat)
    requires a.id != b.id && i < 5
    ensures a.id in IdPools({a, b})[i] <==> i == StageOf(a.nodeClass)
    ensures b.id in Union(IdPools({a, b})[..i + 1]) <==> StageOf(b.nodeClass) <= i
  {
    PoolAt({a, b}, i, a.id);
    EarlierPools({a, b}, i + 1, b.id);
    assert a in {a, b} && b in {a, b};
  }

  lemma LaterStage(c: NodeClass, d: NodeClass)
    ensures StageOf(d) <= StageOf(c) <==> MayWaitFor(c, d)
  {
  }

  lemma {:induction false} StagedByOne(g: Graph<NodeId>, pools: seq<set<NodeId>>, x: NodeId, y: NodeId, k: nat)
    requires x != y && g.Keys == {x, y} && g[x] == {y} && g[y] == {}
    requires k < |pools| && forall i :: 0 <= i < |pools| ==> (x in pools[i] <==> i == k)
    ensures Staged(g, pools) <==> y in Union(pools[..k + 1])
  {
    if Staged(g, pools) {
      assert g[x] <= Union(pools[..k + 1]);
    }
  }

  lemma {:induction false} StagedTwo(a: NodeInfo, b: NodeInfo)
    requires OneNeeds(a, b)
    ensures Staged(IdGraph({a, b}), IdPools({a, b})) <==> MayWaitFor(a.nodeClass, b.nodeClass)
  {
    TwoIds(a, b);
    forall i | 0 <= i < 5
      ensures a.id in IdPools({a, b})[i] <==> i == StageOf(a.nodeClass)
      ensures b.id in Union(IdPools({a, b})[..i + 1]) <==> StageOf(b.nodeClass) <= i
    {
      TwoPools(a, b, i);
    }
    StagedByOne(IdGraph({a, b}), IdPools({a, b}), a.id, b.id, StageOf(a.nodeClass));
    LaterStage(a.nodeClass, b.nodeClass);
  }

  /** The result of a sort speaks of the ids of these four classes. */
  lemma ResultIs(infos: set<NodeInfo>, id: NodeId)
    ensures id in LastPool(infos) <==>
            exists n :: n in infos && n.id == id
                        && (n.nodeClass == ObjectType || n.nodeClass == Object || n.nodeClass == Method || n.nodeClass == Variable)
  {
  }

  // ----- the order of the classes

  lemma {:induction false} NoneOf(records: seq<NodeInfo>, c: NodeClass)
    requires forall r :: r in records ==> r.nodeClass != c
    ensures RecordsOf(records, c) == []
  {
    if records != [] {
      NoneOf(records[..|records| - 1], c);
    }
  }

  /** The only record of its class. */
  lemma {:induction false} OnlyOneOf(records: seq<NodeInfo>, i: nat)
    requires i < |records| && forall j :: 0 <= j < |records| && j != i ==> records[j].nodeClass != records[i].nodeClass
    ensures RecordsOf(records, records[i].nodeClass) == [records[i]]
  {
    var init, last := records[..|records| - 1], records[|records| - 1];
    if i == |records| - 1 {
      NoneOf(init, last.nodeClass);
    } else {
      assert init[i] == records[i];
      OnlyOneOf(init, i);
    }
  }

  lemma {:induction false} OneInTurn(records: seq<NodeInfo>, i: nat)
    requires i < |records| && forall j :: 0 <= j < |records| && j != i ==> records[j].nodeClass != records[i].nodeClass
    ensures EmptyingOrder(RecordsOf(records, records[i].nodeClass)) == [records[i]]
  {
    OnlyOneOf(records, i);
    assert [records[i]][1..] == [];
  }

  /** One record of each class, none of which waits: however the document lists them, they come out
      in this order of the classes. */
  lemma {:induction false} ClassesInOrder(records: seq<NodeInfo>, rt: nat, dt: nat, vt: nat, vw: nat, ot: nat, ob: nat, me: nat, va: nat)
    requires rt < |records| && dt < |records| && vt < |records| && vw < |records|
    requires ot < |records| && ob < |records| && me < |records| && va < |records|
    requires records[rt].nodeClass == ReferenceType && records[dt].nodeClass == DataType && records[vt].nodeClass == VariableType
    requires records[vw].nodeClass == View && records[ot].nodeClass == ObjectType && records[ob].nodeClass == Object
    requires records[me].nodeClass == Method && records[va].nodeClass == Variable
    requires forall i, j :: 0 <= i < j < |records| ==> records[i].nodeClass != records[j].nodeClass
    ensures ScanOrder(records)
            == [records[rt], records[dt], records[vt], records[vw], records[ot], records[ob], records[me], records[va]]
  {
    EarlyInOrder(records, rt, dt, vt, vw);
    InstancesInOrder(records, ot, ob, me, va);
    FourAndFour(records[rt], records[dt], records[vt], records[vw], records[ot], records[ob], records[me], records[va]);
  }

  lemma FourSingles<T>(a: seq<T>, b: seq<T>, c: seq<T>, d: seq<T>, x: T, y: T, z: T, u: T)
    requires a == [x] && b == [y] && c == [z] && d == [u]
    ensures a + b + c + d == [x, y, z, u]
  {
  }

  lemma FourAndFour<T>(a: T, b: T, c: T, d: T, e: T, f: T, g: T, h: T)
    ensures [a, b, c, d] + [e, f, g, h] == [a, b, c, d, e, f, g, h]
  {
  }

  lemma {:induction false} EarlyInOrder(records: seq<NodeInfo>, rt: nat, dt: nat, vt: nat, vw: nat)
    requires rt < |records| && dt < |records| && vt < |records| && vw < |records|
    requires records[rt].nodeClass == ReferenceType && records[dt].nodeClass == DataType
    requires records[vt].nodeClass == VariableType && records[vw].nodeClass == View
    requires forall i, j :: 0 <= i < j < |records| ==> records[i].nodeClass != records[j].nodeClass
    ensures ClassesInTurn(records, EARLY_CLASSES) == [records[rt], records[dt], records[vt], records[vw]]
  {
    OneInTurn(records, rt);
    OneInTurn(records, dt);
    OneInTurn(records, vt);
    OneInTurn(records, vw);
    FourInTurn(records, ReferenceType, DataType, VariableType, View);
    FourSingles(EmptyingOrder(RecordsOf(records, ReferenceType)), EmptyingOrder(RecordsOf(records, DataType)),
                EmptyingOrder(RecordsOf(records, VariableType)), EmptyingOrder(RecordsOf(records, View)),
                records[rt], records[dt], records[vt], records[vw]);
  }

  lemma {:induction false} InstancesInOrder(records: seq<NodeInfo>, ot: nat, ob: nat, me: nat, va: nat)
    requires ot < |records| && ob < |records| && me < |records| && va < |records|
    requires records[ot].nodeClass == ObjectType && records[ob].nodeClass == Object
    requires records[me].nodeClass == Method && records[va].nodeClass == Variable
    requires forall i, j :: 0 <= i < j < |records| ==> records[i].nodeClass != records[j].nodeClass
    ensures ClassesInTurn(records, INSTANCE_CLASSES) == [records[ot], records[ob], records[me], records[va]]
  {
    OneInTurn(records, ot);
    OneInTurn(records, ob);
    OneInTurn(records, me);
    OneInTurn(records, va);
    FourInTurn(records, ObjectType, Object, Method, Variable);
    FourSingles(EmptyingOrder(RecordsOf(records, ObjectType)), EmptyingOrder(RecordsOf(records, Object)),
                EmptyingOrder(RecordsOf(records, Method)), EmptyingOrder(RecordsOf(records, Variable)),
                records[ot], records[ob], records[me], records[va]);
  }
}
