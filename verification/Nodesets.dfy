/** The nodeset under construction: all nodes, those waiting by class, and those already put
    into insertion order. */
module Nodesets {
  import opened NodeRecords
  import opened Nodes
  import opened CharArenas

  /** The node lists by class; a class without an entry has an empty list. */
  type Containers = map<NodeClass, seq<Node>>

  function Of(m: Containers, c: NodeClass): seq<Node> {
    if c in m then m[c] else []
  }

  /** The nodes of one class, in order. */
  function OfClass(nodes: seq<Node>, c: NodeClass): seq<Node> {
    if nodes == [] then []
    else
      var last := nodes[|nodes| - 1];
      OfClass(nodes[..|nodes| - 1], c) + (if last.nodeClass == c then [last] else [])
  }

  /** The nodes wait by class, in this order. */
  ghost predicate ByClass(nodes: seq<Node>, waiting: Containers) {
    forall c :: Of(waiting, c) == OfClass(nodes, c)
  }

  /** Behind what waited before, the nodes from `first` on wait by class, in the order of loading. */
  ghost predicate Queued(all: seq<Node>, waiting: Containers, before: Containers, first: nat) {
    first <= |all| && forall c :: Of(waiting, c) == Of(before, c) + OfClass(all[first..], c)
  }

  lemma {:induction false} OfClassAdd(nodes: seq<Node>, node: Node, c: NodeClass)
    ensures OfClass(nodes + [node], c) == OfClass(nodes, c) + (if node.nodeClass == c then [node] else [])
  {
    assert (nodes + [node])[..|nodes|] == nodes;
  }

  lemma {:induction false} QueuedAddOne(list: seq<Node>, before: seq<Node>, added: seq<Node>, node: Node, c: NodeClass)
    requires list == before + OfClass(added, c)
    ensures (if node.nodeClass == c then list + [node] else list) == before + OfClass(added + [node], c)
  {
    OfClassAdd(added, node, c);
    Append(before, OfClass(added, c), if node.nodeClass == c then [node] else []);
  }

  lemma {:induction false} QueuedAdd(all: seq<Node>, waiting: Containers, before: Containers, first: nat, node: Node)
    requires Queued(all, waiting, before, first)
    ensures Queued(all + [node], waiting[node.nodeClass := Of(waiting, node.nodeClass) + [node]], before, first)
  {
    var list := Of(waiting, node.nodeClass) + [node];
    assert (all + [node])[first..] == all[first..] + [node];
    forall c {:trigger Of(waiting[node.nodeClass := list], c)}
      ensures Of(waiting[node.nodeClass := list], c) == Of(before, c) + OfClass((all + [node])[first..], c)
    {
      QueuedAddOne(Of(waiting, c), Of(before, c), all[first..], node, c);
    }
  }

  lemma Append<T>(a: seq<T>, b: seq<T>, c: seq<T>)
    ensures (a + b) + c == a + (b + c)
    ensures c == [] ==> a + b == a + (b + c)
  {
  }

  /** `waiting` lists once each the nodes of class `c` that are not sorted yet. */
  ghost predicate WaitingIs(all: set<Node>, sorted: set<Node>, c: NodeClass, waiting: seq<Node>) {
    && Distinct(waiting)
    && (forall n :: n in waiting ==> n in all && n !in sorted && n.nodeClass == c)
    && (forall n :: n in all && n !in sorted && n.nodeClass == c ==> n in waiting)
  }

  /** Every node waits in the container of its class or is sorted, and nowhere twice. */
  ghost predicate Conserved(all: seq<Node>, sorted: seq<Node>, waiting: Containers) {
    && Distinct(all)
    && Distinct(sorted)
    && Elems(sorted) <= Elems(all)
    && (forall c :: WaitingIs(Elems(all), Elems(sorted), c, Of(waiting, c)))
  }

  class Nodeset {
    const charArena: CharArena
    var waiting: Containers
    var allNodes: seq<Node>
    var sortedNodes: seq<Node>
    var aliases: seq<Alias>
    /** The NamespaceUris handed to the backend so far. */
    var namespaceUris: seq<Option<string>>

    ghost predicate Valid()
      reads `allNodes, `sortedNodes, `waiting
    {
      Conserved(allNodes, sortedNodes, waiting)
    }

    constructor ()
      ensures Valid() && waiting == map[] && allNodes == [] && sortedNodes == [] && aliases == [] && namespaceUris == []
      ensures charArena.Valid() && charArena.blocks == [] && charArena.initialSize == 0x10_0000
      ensures fresh(charArena) && fresh(charArena.current) && fresh(charArena.mems)
    {
      charArena := new CharArena(1024 * 1024);
      waiting := map[];
      allNodes := [];
      sortedNodes := [];
      aliases := [];
      namespaceUris := [];
    }
  }
}
