/** Loading a nodeset as a whole: importing a document, sorting, handing the nodes out. What
    is said here speaks of the document alone. */
module Loader {
  import opened NodeRecords
  import opened Nodes
  import opened Nodesets
  import opened NodesetXml
  import opened Loading
  import opened Parser
  import opened Sax
  import opened KeptTexts
  import opened Sorting
  import opened SortTheorems

  ghost predicate NoIdTwice(records: seq<NodeInfo>) {
    forall i, j :: 0 <= i < j < |records| ==> records[i].id != records[j].id
  }

  ghost function RecordOf(infos: map<Node, NodeInfo>, n: Node): NodeInfo {
    if n in infos then infos[n] else BlankInfo(n.nodeClass, n.id, n.browseName)
  }

  /** The records of these nodes, in their order. */
  ghost function InOrder(infos: map<Node, NodeInfo>, nodes: seq<Node>): (r: seq<NodeInfo>)
    ensures |r| == |nodes| && forall i :: 0 <= i < |r| ==> r[i] == RecordOf(infos, nodes[i])
  {
    seq(|nodes|, i requires 0 <= i < |nodes| => RecordOf(infos, nodes[i]))
  }

  /** Every record stands behind the records that its blocking references name. */
  ghost predicate BlockersFirstIn(records: set<NodeInfo>, order: seq<NodeInfo>) {
    forall i, r :: 0 <= i < |order| && r in order[i].refs && Blocks(r.refType, r.isForward) && r.target in Ids(records)
                   ==> r.target in Ids(Elems(order[..i]))
  }

  /** The records belong to these nodes, one by one. */
  ghost predicate Assigned(infos: map<Node, NodeInfo>, nodes: seq<Node>, records: seq<NodeInfo>) {
    |nodes| == |records| && forall i :: 0 <= i < |nodes| ==> nodes[i] in infos && infos[nodes[i]] == records[i]
  }

  lemma HeldRecords(nodeset: Nodeset, doc: Document)
    requires Holds(nodeset, doc)
    ensures Assigned(Infos(Elems(nodeset.allNodes)), nodeset.allNodes, doc.nodes)
    ensures Infos(Elems(nodeset.allNodes)).Values == Elems(doc.nodes)
    ensures NoIdTwice(doc.nodes) ==> UniqueIds(Elems(nodeset.allNodes))
  {
  }

  lemma OrderOfRecords(infos: map<Node, NodeInfo>, sorted: seq<Node>)
    requires Records(infos) && Elems(sorted) <= infos.Keys && BlockersStandFirst(infos, sorted)
    ensures BlockersFirstIn(infos.Values, InOrder(infos, sorted))
    ensures Ids(Elems(InOrder(infos, sorted))) == IdsOf(Elems(sorted))
    ensures Elems(InOrder(infos, sorted)) <= infos.Values
  {
  }

  lemma NoIdTwiceInOrder(infos: map<Node, NodeInfo>, sorted: seq<Node>)
    requires Records(infos) && Elems(sorted) <= infos.Keys && UniqueIds(infos.Keys) && Distinct(sorted)
    ensures NoIdTwice(InOrder(infos, sorted))
  {
    forall i, j | 0 <= i < j < |sorted|
      ensures InOrder(infos, sorted)[i].id != InOrder(infos, sorted)[j].id
    {
      assert sorted[i] in Elems(sorted) && sorted[j] in Elems(sorted);
    }
  }

  /** What the result of the sort means for distinct ids. */
  lemma ResultOfRecords(infos: map<Node, NodeInfo>, sorted: seq<Node>)
    requires Records(infos) && UniqueIds(infos.Keys) && Elems(sorted) <= infos.Keys
    ensures (forall n :: n in infos && Instance(n.nodeClass) ==> n in sorted) <==> LastPool(infos.Values) <= IdsOf(Elems(sorted))
  {
    if forall n :: n in infos && Instance(n.nodeClass) ==> n in sorted {
      forall id | id in LastPool(infos.Values) ensures id in IdsOf(Elems(sorted)) {
        var v :| v in infos.Values && v.id == id && Instance(v.nodeClass);
        var n :| n in infos && infos[n] == v;
        assert n in Elems(sorted);
      }
    }
    if LastPool(infos.Values) <= IdsOf(Elems(sorted)) {
      forall n | n in infos && Instance(n.nodeClass) ensures n in sorted {
        assert infos[n] in infos.Values && infos[n].nodeClass == n.nodeClass;
        assert n.id in LastPool(infos.Values);
        var m :| m in Elems(sorted) && m.id == n.id;
        assert m in infos;
      }
    }
  }

  // ----- the order of records none of which waits for another

  /** The records of one class, in order. */
  function RecordsOf(records: seq<NodeInfo>, c: NodeClass): seq<NodeInfo> {
    if records == [] then []
    else
      var last := records[|records| - 1];
      RecordsOf(records[..|records| - 1], c) + (if last.nodeClass == c then [last] else [])
  }

  const EARLY_CLASSES := [ReferenceType, DataType, VariableType, View]
  const INSTANCE_CLASSES := [ObjectType, Object, Method, Variable]

  /** Of each class the first record, and then the others from the last one back. */
  function ClassesInTurn(records: seq<NodeInfo>, classes: seq<NodeClass>): seq<NodeInfo> {
    if classes == [] then []
    else ClassesInTurn(records, classes[..|classes| - 1]) + EmptyingOrder(RecordsOf(records, classes[|classes| - 1]))
  }

  /** The order of the sort for records none of which waits. */
  function ScanOrder(records: seq<NodeInfo>): seq<NodeInfo> {
    ClassesInTurn(records, EARLY_CLASSES) + ClassesInTurn(records, INSTANCE_CLASSES)
  }

  lemma NothingToAppend<T>(a: seq<T>, b: seq<T>)
    ensures (b == [] ==> a + b == a) && (a == [] ==> a + b == b)
  {
  }

  lemma {:induction false} OneMoreClass(records: seq<NodeInfo>, classes: seq<NodeClass>, c: NodeClass)
    ensures ClassesInTurn(records, classes + [c]) == ClassesInTurn(records, classes) + EmptyingOrder(RecordsOf(records, c))
  {
    assert (classes + [c])[..|classes|] == classes;
  }

  lemma {:induction false} FourInTurn(records: seq<NodeInfo>, a: NodeClass, b: NodeClass, c: NodeClass, d: NodeClass)
    ensures ClassesInTurn(records, [a, b, c, d])
            == EmptyingOrder(RecordsOf(records, a)) + EmptyingOrder(RecordsOf(records, b))
               + EmptyingOrder(RecordsOf(records, c)) + EmptyingOrder(RecordsOf(records, d))
  {
    assert [a, b, c, d] == [a, b, c] + [d] && [a, b, c] == [a, b] + [c] && [a, b] == [a] + [b] && [a] == [] + [a];
    OneMoreClass(records, [], a);
    OneMoreClass(records, [a], b);
    OneMoreClass(records, [a, b], c);
    OneMoreClass(records, [a, b, c], d);
    NothingToAppend(ClassesInTurn(records, []), EmptyingOrder(RecordsOf(records, a)));
  }

  ghost predicate NoRecordWaits(records: set<NodeInfo>) {
    forall r :: r in records ==> BlockingTargets(r, Ids(records)) == {}
  }

  lemma InOrderAppend(infos: map<Node, NodeInfo>, a: seq<Node>, b: seq<Node>)
    ensures InOrder(infos, a + b) == InOrder(infos, a) + InOrder(infos, b)
  {
  }

  lemma {:induction false} InOrderReversed(infos: map<Node, NodeInfo>, s: seq<Node>)
    ensures InOrder(infos, Reversed(s)) == Reversed(InOrder(infos, s))
  {
    if s == [] {
      assert InOrder(infos, Reversed(s)) == [];
    } else {
      InOrderReversed(infos, s[1..]);
      InOrderAppend(infos, Reversed(s[1..]), [s[0]]);
      assert InOrder(infos, s)[1..] == InOrder(infos, s[1..]);
      assert InOrder(infos, [s[0]]) == [InOrder(infos, s)[0]];
    }
  }

  lemma {:induction false} InOrderEmptying(infos: map<Node, NodeInfo>, s: seq<Node>)
    ensures InOrder(infos, EmptyingOrder(s)) == EmptyingOrder(InOrder(infos, s))
  {
    if s == [] {
      assert InOrder(infos, s) == [];
    } else {
      InOrderReversed(infos, s[1..]);
      InOrderAppend(infos, [s[0]], Reversed(s[1..]));
      assert InOrder(infos, s)[1..] == InOrder(infos, s[1..]);
      assert InOrder(infos, [s[0]]) == [InOrder(infos, s)[0]];
    }
  }

  lemma {:induction false} InOrderOfClass(infos: map<Node, NodeInfo>, nodes: seq<Node>, c: NodeClass)
    requires Records(infos)
    ensures InOrder(infos, OfClass(nodes, c)) == RecordsOf(InOrder(infos, nodes), c)
  {
    if nodes == [] {
      assert InOrder(infos, nodes) == [];
      assert InOrder(infos, OfClass(nodes, c)) == [];
    } else {
      var init, last := nodes[..|nodes| - 1], nodes[|nodes| - 1];
      InOrderOfClass(infos, init, c);
      assert InOrder(infos, nodes)[..|nodes| - 1] == InOrder(infos, init);
      if last.nodeClass == c {
        InOrderAppend(infos, OfClass(init, c), [last]);
        assert InOrder(infos, [last]) == [InOrder(infos, nodes)[|nodes| - 1]];
      } else {
        assert OfClass(init, c) + [] == OfClass(init, c);
      }
    }
  }

  /** What one class contributes to the order. */
  lemma {:induction false} InOrderClass(infos: map<Node, NodeInfo>, nodes: seq<Node>, w: Containers, c: NodeClass)
    requires Records(infos) && Of(w, c) == OfClass(nodes, c)
    ensures InOrder(infos, EmptyingOrder(Of(w, c))) == EmptyingOrder(RecordsOf(InOrder(infos, nodes), c))
  {
    InOrderEmptying(infos, Of(w, c));
    InOrderOfClass(infos, nodes, c);
  }

  lemma InOrderFour(infos: map<Node, NodeInfo>, a: seq<Node>, b: seq<Node>, c: seq<Node>, d: seq<Node>)
    ensures InOrder(infos, a + b + c + d) == InOrder(infos, a) + InOrder(infos, b) + InOrder(infos, c) + InOrder(infos, d)
  {
    InOrderAppend(infos, a, b);
    InOrderAppend(infos, a + b, c);
    InOrderAppend(infos, a + b + c, d);
  }

  lemma {:induction false} InOrderInTurn(infos: map<Node, NodeInfo>, nodes: seq<Node>, w: Containers)
    requires Records(infos) && ByClass(nodes, w)
    ensures InOrder(infos, InTurn(w)) == ScanOrder(InOrder(infos, nodes))
  {
    InOrderClass(infos, nodes, w, ReferenceType);
    InOrderClass(infos, nodes, w, DataType);
    InOrderClass(infos, nodes, w, VariableType);
    InOrderClass(infos, nodes, w, View);
    InOrderClass(infos, nodes, w, ObjectType);
    InOrderClass(infos, nodes, w, Object);
    InOrderClass(infos, nodes, w, Method);
    InOrderClass(infos, nodes, w, Variable);
    InOrderFour(infos, EmptyingOrder(Of(w, ReferenceType)), EmptyingOrder(Of(w, DataType)),
                EmptyingOrder(Of(w, VariableType)), EmptyingOrder(Of(w, View)));
    InOrderFour(infos, EmptyingOrder(Of(w, ObjectType)), EmptyingOrder(Of(w, Object)),
                EmptyingOrder(Of(w, Method)), EmptyingOrder(Of(w, Variable)));
    InOrderAppend(infos, EarlyInTurn(w), InstancesInTurn(w));
    FourInTurn(InOrder(infos, nodes), ReferenceType, DataType, VariableType, View);
    FourInTurn(InOrder(infos, nodes), ObjectType, Object, Method, Variable);
  }

  lemma NoneWaitsInRecords(infos: map<Node, NodeInfo>)
    requires Records(infos)
    ensures NoneWaits(infos) <==> NoRecordWaits(infos.Values)
  {
    IdsAreImages(infos);
    forall n | n in infos ensures infos[n] in infos.Values {
    }
  }

  lemma {:induction false} OrderKnown(infos: map<Node, NodeInfo>, nodes: seq<Node>, waiting: Containers, sorted: seq<Node>, records: seq<NodeInfo>)
    requires Records(infos) && infos.Values == Elems(records)
    requires Assigned(infos, nodes, records)
    requires NoneWaits(infos) ==> sorted == InTurn(waiting)
    ensures NoRecordWaits(Elems(records)) && ByClass(nodes, waiting) ==> InOrder(infos, sorted) == ScanOrder(records)
  {
    NoneWaitsInRecords(infos);
    assert InOrder(infos, nodes) == records;
    if NoneWaits(infos) && ByClass(nodes, waiting) {
      InOrderInTurn(infos, nodes, waiting);
    }
  }

  // ----- loading

  /** Imports a document into a new nodeset. All strings of its nodes and aliases are kept in the
      arena and intact. */
  method Import(readers: Readers, c: Content) returns (nodeset: Nodeset, ghost made: Made)
    requires CleanContent(c) && !Collected(readers, EMPTY_DOCUMENT, c).faulty
    ensures fresh(nodeset) && nodeset.Valid() && Holds(nodeset, Collected(readers, EMPTY_DOCUMENT, c))
    ensures nodeset.sortedNodes == []
    ensures nodeset.charArena.Valid() && TextsKept(Collected(readers, EMPTY_DOCUMENT, c), nodeset.charArena.kept)
    ensures Among(nodeset, made) && fresh(made.objects)
    ensures ByClass(nodeset.allNodes, nodeset.waiting)
  {
    nodeset := new Nodeset();
    made := ImportDocument(nodeset, readers, c, EMPTY_DOCUMENT);
    assert nodeset.allNodes[0..] == nodeset.allNodes;
    forall k
      ensures Of(nodeset.waiting, k) == OfClass(nodeset.allNodes, k)
    {
      assert [] + OfClass(nodeset.allNodes, k) == OfClass(nodeset.allNodes, k);
    }
  }

  /** A sort leaves what is known about the nodes alone. */
  method SortDescribed(nodeset: Nodeset) returns (all: bool, ghost infos: map<Node, NodeInfo>)
    requires nodeset.Valid() && NoneMarked(nodeset.allNodes) && nodeset.sortedNodes == []
    modifies nodeset`allNodes, nodeset`sortedNodes, nodeset`waiting
    modifies Elems(nodeset.allNodes)`isDone, RefsOf(Elems(nodeset.allNodes))`targetPtr
    ensures nodeset.Valid() && Described(infos.Keys, infos)
    ensures infos == old(Infos(Elems(nodeset.allNodes))) && infos.Keys == Elems(nodeset.allNodes)
    ensures UniqueIds(infos.Keys) ==> IdsOf(Elems(nodeset.sortedNodes)) == EmittedIds(infos.Values)
    ensures BlockersStandFirst(infos, nodeset.sortedNodes)
    ensures all <==> forall n :: n in nodeset.allNodes && Instance(n.nodeClass) ==> n in nodeset.sortedNodes
    ensures NoneWaits(infos) ==> nodeset.sortedNodes == InTurn(old(nodeset.waiting))
  {
    ghost var nodes := Elems(nodeset.allNodes);
    RecordsDescribe(nodes);
    ghost var before := Infos(nodes);
    all, infos := SortLoaded(nodeset);
    assert Described(nodes, before);
  }

  /** The records of the sorted nodes, as a client of the nodeset finds them. */
  ghost predicate HandsOut(nodeset: Nodeset, order: seq<NodeInfo>)
    reads nodeset`sortedNodes
    reads nodeset.sortedNodes`displayName, nodeset.sortedNodes`description, nodeset.sortedNodes`inverseName,
          nodeset.sortedNodes`definition, nodeset.sortedNodes`refs, RefsOf(Elems(nodeset.sortedNodes))`target
  {
    |nodeset.sortedNodes| == |order| && forall i :: 0 <= i < |order| ==> nodeset.sortedNodes[i].Matches(order[i])
  }

  lemma HandsOutRecords(nodeset: Nodeset, infos: map<Node, NodeInfo>)
    requires Described(infos.Keys, infos) && Elems(nodeset.sortedNodes) <= infos.Keys
    ensures HandsOut(nodeset, InOrder(infos, nodeset.sortedNodes))
  {
  }

  /** The sort of a nodeset, in terms of the document it holds. */
  method SortHeld(nodeset: Nodeset, ghost doc: Document) returns (all: bool, ghost order: seq<NodeInfo>)
    requires nodeset.Valid() && Holds(nodeset, doc) && NoneMarked(nodeset.allNodes) && nodeset.sortedNodes == []
    modifies nodeset`allNodes, nodeset`sortedNodes, nodeset`waiting
    modifies Elems(nodeset.allNodes)`isDone, RefsOf(Elems(nodeset.allNodes))`targetPtr
    ensures nodeset.Valid() && HandsOut(nodeset, order)
    ensures Elems(order) <= Elems(doc.nodes)
    ensures BlockersFirstIn(Elems(doc.nodes), order)
    ensures NoIdTwice(doc.nodes) ==>
              && NoIdTwice(order) && Ids(Elems(order)) == EmittedIds(Elems(doc.nodes))
              && (all <==> LastPool(Elems(doc.nodes)) <= EmittedIds(Elems(doc.nodes)))
    ensures NoRecordWaits(Elems(doc.nodes)) && old(ByClass(nodeset.allNodes, nodeset.waiting)) ==>
              order == ScanOrder(doc.nodes)
  {
    HeldRecords(nodeset, doc);
    ghost var nodes, waiting := nodeset.allNodes, nodeset.waiting;
    ghost var infos;
    all, infos := SortDescribed(nodeset);
    OrderOfRecords(infos, nodeset.sortedNodes);
    order := InOrder(infos, nodeset.sortedNodes);
    HandsOutRecords(nodeset, infos);
    if NoIdTwice(doc.nodes) {
      ResultOfRecords(infos, nodeset.sortedNodes);
      NoIdTwiceInOrder(infos, nodeset.sortedNodes);
    }
    OrderKnown(infos, nodes, waiting, nodeset.sortedNodes, doc.nodes);
  }

  /** What the sort of a new nodeset comes to, in terms of the records it holds. */
  ghost predicate Loaded(records: seq<NodeInfo>, all: bool, order: seq<NodeInfo>) {
    && Elems(order) <= Elems(records)
    && BlockersFirstIn(Elems(records), order)
    && (NoIdTwice(records) ==>
          && NoIdTwice(order) && Ids(Elems(order)) == EmittedIds(Elems(records))
          && (all <==> LastPool(Elems(records)) <= EmittedIds(Elems(records))))
    && (NoRecordWaits(Elems(records)) ==> order == ScanOrder(records))
  }

  /** Imports a document into a new nodeset and sorts it. `order` lists the records in the
      order in which the nodes are handed out afterwards. The blockers of a record stand
      before it; and when no two records share an id, what is emitted and whether the load
      succeeds depend on nothing but the set of records in the document. The order itself is
      known when no record waits for another. */
  method LoadDocument(readers: Readers, c: Content) returns (nodeset: Nodeset, all: bool, ghost order: seq<NodeInfo>)
    requires CleanContent(c) && !Collected(readers, EMPTY_DOCUMENT, c).faulty
    ensures fresh(nodeset) && nodeset.Valid() && HandsOut(nodeset, order)
    ensures nodeset.namespaceUris == Collected(readers, EMPTY_DOCUMENT, c).namespaceUris
    ensures Loaded(Collected(readers, EMPTY_DOCUMENT, c).nodes, all, order)
  {
    ghost var made;
    nodeset, made := Import(readers, c);
    assert forall r :: r in RefsOf(Elems(nodeset.allNodes)) ==> r in made.objects;
    all, order := SortHeld(nodeset, Collected(readers, EMPTY_DOCUMENT, c));
  }
}
