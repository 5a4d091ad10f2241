/** Nodes, their references, and lists of nodes. */
module Nodes {
  import opened NodeIds
  import opened NodeRecords

  class Reference {
    const isForward: bool
    const refType: NodeId
    var target: NodeId
    var targetPtr: Node?

    constructor (isForward: bool, refType: NodeId)
      ensures this.isForward == isForward && this.refType == refType
      ensures target == NULL_ID && targetPtr == null
    {
      this.isForward := isForward;
      this.refType := refType;
      target := NULL_ID;
      targetPtr := null;
    }

    ghost function TargetNode(): (n: Node)
      requires targetPtr != null
      reads `targetPtr
      ensures n == targetPtr
    {
      targetPtr
    }
  }

  /** The references as values, in list order. */
  ghost function AsRefs(refs: seq<Reference>): (r: seq<Ref>)
    reads refs`target
    ensures |r| == |refs|
    ensures forall i :: 0 <= i < |refs| ==> r[i] == Ref(refs[i].isForward, refs[i].refType, refs[i].target)
  {
    if refs == [] then []
    else [Ref(refs[0].isForward, refs[0].refType, refs[0].target)] + AsRefs(refs[1..])
  }

  class Node {
    const nodeClass: NodeClass
    const id: NodeId
    const browseName: QualifiedName
    var displayName: LocalizedText
    var description: LocalizedText
    var inverseName: LocalizedText
    var definition: Option<Definition>
    /** The head of the list comes first; new references are put in front. */
    var refs: seq<Reference>
    var isDone: bool

    constructor (nodeClass: NodeClass, id: NodeId, browseName: QualifiedName)
      ensures Info() == BlankInfo(nodeClass, id, browseName)
      ensures this.nodeClass == nodeClass && this.id == id
      ensures refs == [] && !isDone && definition == None
    {
      this.nodeClass := nodeClass;
      this.id := id;
      this.browseName := browseName;
      displayName := LocalizedText(None, None);
      description := LocalizedText(None, None);
      inverseName := LocalizedText(None, None);
      definition := None;
      refs := [];
      isDone := false;
    }

    ghost function Info(): (r: NodeInfo)
      reads `displayName, `description, `inverseName, `definition, `refs, refs`target
      ensures r.id == id && r.nodeClass == nodeClass
    {
      NodeInfo(nodeClass, id, browseName, displayName, description, inverseName, AsRefs(refs), definition)
    }

    /** The record, field by field. */
    ghost predicate Matches(info: NodeInfo)
      reads `displayName, `description, `inverseName, `definition, `refs, refs`target
    {
      && nodeClass == info.nodeClass && id == info.id && browseName == info.browseName
      && displayName == info.displayName && description == info.description && inverseName == info.inverseName
      && definition == info.definition
      && |refs| == |info.refs|
      && forall k :: 0 <= k < |refs| ==> info.refs[k] == Ref(refs[k].isForward, refs[k].refType, refs[k].target)
    }

    lemma MatchesInfo(info: NodeInfo)
      ensures Matches(info) <==> Info() == info
    {
    }

    /** The resolved nodes that have to be emitted before this one. */
    ghost function Blockers(): set<Node>
      reads `refs, refs`targetPtr
    {
      set r | r in refs && r.targetPtr != null && Blocks(r.refType, r.isForward) :: r.TargetNode()
    }
  }

  function BlankInfo(nodeClass: NodeClass, id: NodeId, browseName: QualifiedName): NodeInfo {
    var none := LocalizedText(None, None);
    NodeInfo(nodeClass, id, browseName, none, none, none, [], None)
  }

  ghost function RefsOf(nodes: set<Node>): (s: set<Reference>)
    reads nodes`refs
    ensures forall n, r :: n in nodes && r in n.refs ==> r in s
  {
    set n, r | n in nodes && r in n.refs :: r
  }

  ghost predicate NoneMarked(nodes: seq<Node>)
    reads nodes`isDone
  {
    forall n :: n in nodes ==> !n.isDone
  }

  function Elems<T>(s: seq<T>): set<T> {
    set x | x in s
  }

  ghost predicate Distinct<T>(s: seq<T>) {
    forall i, j :: 0 <= i < j < |s| ==> s[i] != s[j]
  }

  /** The last element takes the place of the removed one. */
  function RemoveSwap<T>(s: seq<T>, i: nat): (r: seq<T>)
    requires i < |s|
  {
    s[i := s[|s| - 1]][..|s| - 1]
  }

  lemma RemoveSwapMultiset<T>(s: seq<T>, i: nat)
    requires i < |s|
    ensures multiset(RemoveSwap(s, i)) + multiset{s[i]} == multiset(s)
  {
    var last := s[|s| - 1];
    var init := s[..|s| - 1];
    assert s == init + [last];
    if i < |s| - 1 {
      assert RemoveSwap(s, i) == init[i := last];
      assert init == init[..i] + [s[i]] + init[i + 1..];
      assert init[i := last] == init[..i] + [last] + init[i + 1..];
    } else {
      assert RemoveSwap(s, i) == init;
    }
  }

  lemma RemoveSwapElems<T>(s: seq<T>, i: nat)
    requires i < |s|
    ensures multiset(RemoveSwap(s, i)) + multiset{s[i]} == multiset(s)
    ensures Distinct(s) ==> Distinct(RemoveSwap(s, i)) && Elems(RemoveSwap(s, i)) == Elems(s) - {s[i]}
  {
    RemoveSwapMultiset(s, i);
    if Distinct(s) {
      var r := RemoveSwap(s, i);
      forall x | x in Elems(s) && x != s[i] ensures x in r {
        var j :| 0 <= j < |s| && s[j] == x;
        if j == |s| - 1 { assert r[i] == x; } else { assert r[j] == x; }
      }
      forall x | x in r ensures x in s && x != s[i] {
        var j :| 0 <= j < |r| && r[j] == x;
      }
    }
  }

  /** The order in which a scan empties a list by swap removal when nothing in it has to wait. */
  function EmptyingOrder<T>(s: seq<T>): seq<T> {
    if s == [] then [] else [s[0]] + Reversed(s[1..])
  }

  lemma {:induction false} ReversedLast<T>(s: seq<T>)
    requires s != []
    ensures Reversed(s) == [s[|s| - 1]] + Reversed(s[..|s| - 1])
  {
    if |s| > 1 {
      ReversedLast(s[1..]);
      assert s[1..][..|s| - 2] == s[..|s| - 1][1..];
    }
  }

  /** Removing the first element again and again gives that order. */
  lemma EmptyingStep<T>(s: seq<T>)
    requires s != []
    ensures EmptyingOrder(s) == [s[0]] + EmptyingOrder(RemoveSwap(s, 0))
  {
    if |s| > 1 {
      var rest, init := s[1..], s[1..][..|s| - 2];
      ReversedLast(rest);
      assert RemoveSwap(s, 0) == [s[|s| - 1]] + init;
      assert RemoveSwap(s, 0)[1..] == init;
      assert rest[|rest| - 1] == s[|s| - 1];
    } else {
      assert RemoveSwap(s, 0) == [] && s[1..] == [];
    }
  }

  ghost predicate SortedById(nodes: seq<Node>) {
    forall i, j :: 0 <= i < j < |nodes| ==> AtMost(nodes[i].id, nodes[j].id)
  }

  /** The library's qsort: the nodes in NodeId order. How nodes with equal ids are placed is
      not part of the contract. */
  method SortById(nodes: seq<Node>) returns (r: seq<Node>)
    ensures SortedById(r)
    ensures multiset(r) == multiset(nodes)
  {
    r := nodes;
    for i := 0 to |nodes|
      invariant |r| == |nodes|
      invariant multiset(r) == multiset(nodes)
      invariant SortedUpTo(r, i, i)
    {
      var k := i;
      while 0 < k && Compare(r[k - 1].id, r[k].id) == More
        invariant 0 <= k <= i < |r| == |nodes|
        invariant multiset(r) == multiset(nodes)
        invariant SortedUpTo(r, i + 1, k)
      {
        SwapKeepsSorted(r, i + 1, k);
        r := r[k - 1 := r[k]][k := r[k - 1]];
        k := k - 1;
      }
      InsertedIsSorted(r, i + 1, k);
    }
  }

  /** The first `n` nodes are in order, except that the one at `k` may be too far right. */
  ghost predicate SortedUpTo(s: seq<Node>, n: nat, k: nat)
  {
    && n <= |s|
    && (forall i, j :: 0 <= i < j < n && j != k ==> AtMost(s[i].id, s[j].id))
  }

  lemma SwapKeepsSorted(s: seq<Node>, n: nat, k: nat)
    requires SortedUpTo(s, n, k) && 0 < k < n
    requires Compare(s[k - 1].id, s[k].id) == More
    ensures SortedUpTo(s[k - 1 := s[k]][k := s[k - 1]], n, k - 1)
  {
    CompareIsTotal(s[k - 1].id, s[k].id);
  }

  lemma InsertedIsSorted(s: seq<Node>, n: nat, k: nat)
    requires SortedUpTo(s, n, k) && k < n
    requires k == 0 || AtMost(s[k - 1].id, s[k].id)
    ensures SortedUpTo(s, n, n)
  {
    forall i | 0 <= i < k
      ensures AtMost(s[i].id, s[k].id)
    {
      if i < k - 1 {
        CompareIsTransitive(s[i].id, s[k - 1].id, s[k].id);
      }
    }
  }
}
