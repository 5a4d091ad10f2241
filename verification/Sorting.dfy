/** The dependency sort of a nodeset. */
module Sorting {
  import opened NodeIds
  import opened NodeRecords
  import opened Dependencies
  import opened Nodes
  import opened Nodesets

  /** Which nodes wait for which, by resolved reference. */
  ghost function NodeGraph(nodes: set<Node>): (g: Graph<Node>)
    reads nodes`refs, RefsOf(nodes)`targetPtr
    ensures g.Keys == nodes
  {
    map n | n in nodes :: n.Blockers()
  }

  /** The graph says of each of its nodes which nodes it waits for. */
  ghost predicate GraphOf(g: Graph<Node>)
    reads g.Keys`refs, RefsOf(g.Keys)`targetPtr
  {
    forall n :: n in g ==> g[n] == n.Blockers()
  }

  /** No resolved, unfinished node blocks this one. */
  method NodeRefsReady(node: Node) returns (ready: bool)
    ensures ready <==> forall b :: b in node.Blockers() ==> b.isDone
    ensures ready <==> forall ref :: ref in node.refs && ref.targetPtr != null && !ref.targetPtr.isDone ==>
                         if ref.refType == NodeId(0, Numeric, [40]) then !ref.isForward else ref.isForward
  {
    var i := 0;
    while i < |node.refs|
      invariant 0 <= i <= |node.refs|
      invariant forall j :: 0 <= j < i && node.refs[j].targetPtr != null && Blocks(node.refs[j].refType, node.refs[j].isForward)
                            ==> node.refs[j].targetPtr.isDone
    {
      var ref := node.refs[i];
      i := i + 1;
      if ref.targetPtr == null {
        continue;
      }
      if ref.targetPtr.isDone {
        continue;
      }
      if HAS_TYPE_DEFINITION == ref.refType {
        if ref.isForward {
          assert ref.TargetNode() in node.Blockers();
          return false;
        }
      } else {
        if !ref.isForward {
          assert ref.TargetNode() in node.Blockers();
          return false;
        }
      }
    }
    return true;
  }

  /** Binary search over the nodes sorted by id. */
  method FindByNodeId(nodes: seq<Node>, key: NodeId) returns (found: Node?)
    requires SortedById(nodes)
    ensures found == null <==> forall n :: n in nodes ==> n.id != key
    ensures found != null ==> found in nodes && found.id == key
  {
    var left, right := 0, |nodes|;
    while left < right
      invariant 0 <= left <= right <= |nodes|
      invariant forall i :: 0 <= i < left ==> nodes[i].id != key
      invariant forall i :: right <= i < |nodes| ==> nodes[i].id != key
    {
      var mid := left + (right - left) / 2;
      var node := nodes[mid];
      var ord := Compare(node.id, key);
      CompareIsTotal(node.id, key);
      if ord == Equal {
        return node;
      }
      if ord == Less {
        forall i | 0 <= i < mid ensures nodes[i].id != key {
          CompareIsTotal(nodes[i].id, node.id);
        }
        left := mid + 1;
      } else {
        forall i | mid < i < |nodes| ensures nodes[i].id != key {
          CompareIsTotal(nodes[i].id, node.id);
          CompareIsTotal(node.id, nodes[i].id);
        }
        right := mid;
      }
    }
    return null;
  }

  /** What a reference is bound to: some node with the target's id, or null exactly when
      there is none. */
  ghost predicate Bound(ref: Reference, nodes: seq<Node>)
    reads ref`target, ref`targetPtr
  {
    && (ref.targetPtr == null <==> forall n :: n in nodes ==> n.id != ref.target)
    && (ref.targetPtr != null ==> ref.targetPtr in nodes && ref.targetPtr.id == ref.target)
  }

  ghost predicate AllBound(nodes: seq<Node>)
    reads Elems(nodes)`refs, RefsOf(Elems(nodes))`target, RefsOf(Elems(nodes))`targetPtr
  {
    forall n, r :: n in nodes && r in n.refs ==> Bound(r, nodes)
  }

  /** Binds the references of one node. */
  method BindReferences(nodes: seq<Node>, node: Node)
    requires SortedById(nodes)
    modifies node.refs`targetPtr
    ensures forall r :: r in node.refs ==> Bound(r, nodes)
  {
    for j := 0 to |node.refs|
      invariant forall k :: 0 <= k < j ==> Bound(node.refs[k], nodes)
    {
      var ref := node.refs[j];
      var target := FindByNodeId(nodes, ref.target);
      ref.targetPtr := target;
    }
  }

  method ResolveReferences(nodes: seq<Node>)
    requires SortedById(nodes)
    modifies RefsOf(Elems(nodes))`targetPtr
    ensures AllBound(nodes)
  {
    for i := 0 to |nodes|
      invariant forall k, r :: 0 <= k < i && r in nodes[k].refs ==> Bound(r, nodes)
    {
      assert nodes[i] in Elems(nodes);
      BindReferences(nodes, nodes[i]);
    }
  }

  // ----- one class

  /** Every node sorted by this run stands behind all of its blockers. `prior` is what was
      sorted before the run. */
  ghost predicate Ordered(g: Graph<Node>, prior: set<Node>, s: seq<Node>) {
    forall i {:trigger s[..i]} :: 0 <= i < |s| && s[i] in g && s[i] !in prior ==> g[s[i]] <= Elems(s[..i]) - prior
  }

  /** What holds between any two steps of the sort: `done` is what this run has sorted, in the
      order of `g`, and exactly these nodes are marked. */
  ghost predicate SortInvariant(nodeset: Nodeset, g: Graph<Node>, prior: set<Node>, done: set<Node>)
    reads nodeset`allNodes, nodeset`sortedNodes, nodeset`waiting, nodeset.allNodes`isDone
  {
    && Conserved(nodeset.allNodes, nodeset.sortedNodes, nodeset.waiting)
    && g.Keys == Elems(nodeset.allNodes)
    && done !! prior && Elems(nodeset.sortedNodes) == prior + done
    && Ordered(g, prior, nodeset.sortedNodes)
    && (forall n :: n in nodeset.allNodes ==> (n.isDone <==> n in done))
  }

  ghost function Triangle(n: nat): nat {
    if n == 0 then 0 else n + Triangle(n - 1)
  }

  lemma {:induction false} TriangleIs(n: nat)
    ensures Triangle(n) == n * (n + 1) / 2
  {
    if n > 0 {
      TriangleIs(n - 1);
    }
  }

  lemma {:induction false} TriangleMonotone(m: nat, n: nat)
    requires m <= n
    ensures Triangle(m) <= Triangle(n)
  {
    if m < n {
      TriangleMonotone(m, n - 1);
    }
  }

  /** Appending a node whose blockers are all there keeps the order. */
  lemma OrderedAppend(g: Graph<Node>, prior: set<Node>, s: seq<Node>, n: Node)
    requires Ordered(g, prior, s) && n in g && g[n] <= Elems(s) - prior
    ensures Ordered(g, prior, s + [n])
    ensures Elems(s + [n]) == Elems(s) + {n}
  {
    forall i | 0 <= i < |s| + 1 && (s + [n])[i] in g && (s + [n])[i] !in prior
      ensures g[(s + [n])[i]] <= Elems((s + [n])[..i]) - prior
    {
      assert (s + [n])[..i] == s[..i];
      if i == |s| { assert s[..i] == s; }
    }
    assert (s + [n])[|s|] == n;
    assert forall x :: x in s ==> x in s + [n];
  }

  /** Moving a node from its class to the sorted ones keeps every node in one place. */
  lemma ConservedStep(all: seq<Node>, sorted: seq<Node>, waiting: Containers, c: NodeClass, i: nat)
    requires Conserved(all, sorted, waiting) && i < |Of(waiting, c)|
    ensures Conserved(all, sorted + [Of(waiting, c)[i]], waiting[c := RemoveSwap(Of(waiting, c), i)])
    ensures Of(waiting, c)[i] !in Elems(sorted)
  {
    var list := Of(waiting, c);
    var node, left := list[i], RemoveSwap(list, i);
    RemoveSwapElems(list, i);
    assert WaitingIs(Elems(all), Elems(sorted), c, list);
    assert node in list;
    assert Elems(sorted + [node]) == Elems(sorted) + {node};
    forall d {:trigger Of(waiting[c := left], d)}
      ensures WaitingIs(Elems(all), Elems(sorted) + {node}, d, Of(waiting[c := left], d))
    {
      assert WaitingIs(Elems(all), Elems(sorted), d, Of(waiting, d));
      if d == c {
        assert forall x :: x in left <==> x in Elems(list) - {node};
      }
    }
  }

  /** Between `done` and what waits, nothing of the pool is lost; `bound` is not exceeded. */
  ghost predicate Covered(pool: set<Node>, bound: set<Node>, waiting: seq<Node>, done: set<Node>) {
    Elems(waiting) <= pool <= Elems(waiting) + done && done <= bound
  }

  lemma CoveredStep(g: Graph<Node>, pool: set<Node>, bound: set<Node>, waiting: seq<Node>, i: nat, done: set<Node>)
    requires pool <= g.Keys && Closed(g, pool, bound)
    requires Covered(pool, bound, waiting, done) && Distinct(waiting)
    requires i < |waiting| && waiting[i] in Elems(waiting) && g[waiting[i]] <= done
    ensures Covered(pool, bound, RemoveSwap(waiting, i), done + {waiting[i]})
  {
    RemoveSwapElems(waiting, i);
  }

  /** None of the first `n` waiting nodes is ready. */
  ghost predicate Blocked(g: Graph<Node>, waiting: seq<Node>, n: nat, done: set<Node>) {
    forall k :: 0 <= k < n && k < |waiting| && waiting[k] in g ==> !(g[waiting[k]] <= done)
  }

  ghost predicate AllBlocked(g: Graph<Node>, waiting: seq<Node>, done: set<Node>) {
    forall n :: n in waiting && n in g ==> !(g[n] <= done)
  }

  lemma BlockedIsAll(g: Graph<Node>, waiting: seq<Node>, done: set<Node>)
    requires Blocked(g, waiting, |waiting|, done)
    ensures AllBlocked(g, waiting, done)
  {
  }

  /** What still waits when no node is ready leaves a closed set behind. */
  lemma BlockedIsClosed(g: Graph<Node>, pool: set<Node>, bound: set<Node>, waiting: seq<Node>, done: set<Node>)
    requires pool <= g.Keys && Covered(pool, bound, waiting, done) && AllBlocked(g, waiting, done)
    ensures Closed(g, pool, done)
  {
  }

  /** The body of the scan: the node at `i` moves exactly when it is ready. */
  method TryNode(nodeset: Nodeset, c: NodeClass, i: nat, ghost g: Graph<Node>, ghost prior: set<Node>, ghost done: set<Node>)
    returns (moved: bool, ghost done': set<Node>)
    requires SortInvariant(nodeset, g, prior, done) && Total(g)
    requires i < |Of(nodeset.waiting, c)| && Of(nodeset.waiting, c)[i] in g
    requires g[Of(nodeset.waiting, c)[i]] == Of(nodeset.waiting, c)[i].Blockers()
    modifies nodeset`sortedNodes, nodeset`waiting, Elems(nodeset.allNodes)`isDone
    ensures SortInvariant(nodeset, g, prior, done')
    ensures moved <==> old(g[Of(nodeset.waiting, c)[i]] <= done)
    ensures moved ==> && nodeset.sortedNodes == old(nodeset.sortedNodes + [Of(nodeset.waiting, c)[i]])
                      && done' == done + {old(Of(nodeset.waiting, c)[i])}
                      && nodeset.waiting == old(nodeset.waiting[c := RemoveSwap(Of(nodeset.waiting, c), i)])
    ensures !moved ==> && nodeset.sortedNodes == old(nodeset.sortedNodes)
                       && done' == done
                       && nodeset.waiting == old(nodeset.waiting)
  {
    var node := Of(nodeset.waiting, c)[i];
    ghost var sorted := nodeset.sortedNodes;
    done' := done;
    moved := NodeRefsReady(node);
    if moved {
      ConservedStep(nodeset.allNodes, sorted, nodeset.waiting, c, i);
      OrderedAppend(g, prior, sorted, node);
      nodeset.sortedNodes := nodeset.sortedNodes + [node];
      nodeset.waiting := nodeset.waiting[c := RemoveSwap(Of(nodeset.waiting, c), i)];
      node.isDone := true;
      done' := done + {node};
    }
  }

  ghost predicate SameElsewhere(w: Containers, w': Containers, c: NodeClass) {
    forall d :: d != c ==> Of(w, d) == Of(w', d)
  }

  /** None of these nodes has to wait. */
  ghost predicate AllReady(g: Graph<Node>, waiting: seq<Node>, done: set<Node>) {
    forall n :: n in waiting ==> n in g && g[n] <= done
  }

  /** Where a stage stands whose nodes are all ready: at its beginning, or at its end. */
  ghost predicate EmptiedAtOnce(g: Graph<Node>, done: set<Node>, list: seq<Node>, sorted: seq<Node>,
                                done': set<Node>, list': seq<Node>, sorted': seq<Node>) {
    AllReady(g, list, done) ==>
      || (list' == list && sorted' == sorted && done' == done)
      || (list' == [] && sorted' == sorted + EmptyingOrder(list))
  }

  lemma EmptiedStays(g: Graph<Node>, done: set<Node>, list: seq<Node>, sorted: seq<Node>,
                     done': set<Node>, list': seq<Node>, sorted': seq<Node>,
                     done'': set<Node>, list'': seq<Node>, sorted'': seq<Node>)
    requires EmptiedAtOnce(g, done, list, sorted, done', list', sorted')
    requires AllReady(g, list', done') ==> list'' == [] && sorted'' == sorted' + EmptyingOrder(list')
    ensures AllReady(g, list, done) ==> list'' == [] && sorted'' == sorted + EmptyingOrder(list)
    ensures EmptiedAtOnce(g, done, list, sorted, done'', list'', sorted'')
  {
    assert sorted' + [] == sorted';
  }

  lemma AllReadyStep(g: Graph<Node>, waiting: seq<Node>, done: set<Node>, sorted: seq<Node>)
    requires AllReady(g, waiting, done) && waiting != []
    ensures AllReady(g, RemoveSwap(waiting, 0), done)
    ensures sorted + EmptyingOrder(waiting) == (sorted + [waiting[0]]) + EmptyingOrder(RemoveSwap(waiting, 0))
  {
    EmptyingStep(waiting);
  }

  /** If none of the nodes in `list` had to wait, those still in `waiting` are removed from the
      front, and in the same order as from the beginning. */
  ghost predicate InEmptyingOrder(g: Graph<Node>, done: set<Node>, list: seq<Node>, sorted: seq<Node>,
                                  waiting: seq<Node>, sorted': seq<Node>, i: nat) {
    AllReady(g, list, done) ==>
      i == 0 && AllReady(g, waiting, done) && sorted' + EmptyingOrder(waiting) == sorted + EmptyingOrder(list)
  }

  lemma InEmptyingOrderStep(g: Graph<Node>, done: set<Node>, list: seq<Node>, sorted: seq<Node>,
                            waiting: seq<Node>, sorted': seq<Node>, i: nat, moved: bool)
    requires InEmptyingOrder(g, done, list, sorted, waiting, sorted', i) && i < |waiting|
    requires !moved ==> !(waiting[i] in g && g[waiting[i]] <= done)
    ensures if moved then InEmptyingOrder(g, done, list, sorted, RemoveSwap(waiting, i), sorted' + [waiting[i]], i)
            else InEmptyingOrder(g, done, list, sorted, waiting, sorted', i + 1)
  {
    if AllReady(g, list, done) {
      AllReadyStep(g, waiting, done, sorted');
    }
  }

  /** Where a pass over a class started, and what it works with. */
  datatype Pass = Pass(c: NodeClass, waiting: Containers, sorted: seq<Node>, done: set<Node>,
                       g: Graph<Node>, prior: set<Node>, pool: set<Node>, bound: set<Node>)

  /** Where a pass stands after `i` positions. */
  ghost predicate PassInvariant(nodeset: Nodeset, p: Pass, i: nat, done: set<Node>)
    reads nodeset`allNodes, nodeset`sortedNodes, nodeset`waiting, nodeset.allNodes`isDone
  {
    SortInvariant(nodeset, p.g, p.prior, done) && PassStands(p, i, nodeset.waiting, nodeset.sortedNodes, done)
  }

  ghost predicate PassStands(p: Pass, i: nat, waiting: Containers, sorted: seq<Node>, done: set<Node>) {
    var list := Of(waiting, p.c);
    && i <= |list| <= |Of(p.waiting, p.c)| && |sorted| + |list| == |p.sorted| + |Of(p.waiting, p.c)|
    && Covered(p.pool, p.bound, list, done)
    && (|list| == |Of(p.waiting, p.c)| ==> Blocked(p.g, list, i, done))
    && p.sorted <= sorted && p.done <= done
    && SameElsewhere(p.waiting, waiting, p.c)
    && InEmptyingOrder(p.g, p.done, Of(p.waiting, p.c), p.sorted, list, sorted, i)
  }

  lemma PassMoved(p: Pass, i: nat, waiting: Containers, sorted: seq<Node>, done: set<Node>)
    requires PassStands(p, i, waiting, sorted, done) && i < |Of(waiting, p.c)| && Distinct(Of(waiting, p.c))
    requires p.pool <= p.g.Keys && Closed(p.g, p.pool, p.bound)
    requires var node := Of(waiting, p.c)[i]; node in p.g && p.g[node] <= done
    ensures var list := Of(waiting, p.c);
            PassStands(p, i, waiting[p.c := RemoveSwap(list, i)], sorted + [list[i]], done + {list[i]})
  {
    var list := Of(waiting, p.c);
    assert list[i] in Elems(list);
    CoveredStep(p.g, p.pool, p.bound, list, i, done);
    InEmptyingOrderStep(p.g, p.done, Of(p.waiting, p.c), p.sorted, list, sorted, i, true);
  }

  lemma PassStayed(p: Pass, i: nat, waiting: Containers, sorted: seq<Node>, done: set<Node>)
    requires PassStands(p, i, waiting, sorted, done) && i < |Of(waiting, p.c)|
    requires var node := Of(waiting, p.c)[i]; node in p.g && !(p.g[node] <= done)
    ensures PassStands(p, i + 1, waiting, sorted, done)
  {
    InEmptyingOrderStep(p.g, p.done, Of(p.waiting, p.c), p.sorted, Of(waiting, p.c), sorted, i, false);
  }

  method PassStep(nodeset: Nodeset, c: NodeClass, i: nat, ghost p: Pass, ghost done: set<Node>) returns (next: nat, ghost done': set<Node>)
    requires PassInvariant(nodeset, p, i, done) && c == p.c && i < |Of(nodeset.waiting, c)|
    requires p.pool <= p.g.Keys && Closed(p.g, p.pool, p.bound) && Total(p.g)
    requires Of(nodeset.waiting, c)[i] in p.g
    requires p.g[Of(nodeset.waiting, c)[i]] == Of(nodeset.waiting, c)[i].Blockers()
    modifies nodeset`sortedNodes, nodeset`waiting, Elems(nodeset.allNodes)`isDone
    ensures PassInvariant(nodeset, p, next, done')
    ensures next - |Of(nodeset.waiting, c)| == i - old(|Of(nodeset.waiting, c)|) + 1
  {
    ghost var w, sorted := nodeset.waiting, nodeset.sortedNodes;
    assert WaitingIs(Elems(nodeset.allNodes), Elems(sorted), c, Of(w, c));
    var moved;
    moved, done' := TryNode(nodeset, c, i, p.g, p.prior, done);
    if moved {
      PassMoved(p, i, w, sorted, done);
      next := i;
    } else {
      PassStayed(p, i, w, sorted, done);
      next := i + 1;
    }
  }

  /** One pass over a class container. `bound` is any closed set above the nodes done. */
  method SortPass(nodeset: Nodeset, c: NodeClass, ghost g: Graph<Node>, ghost prior: set<Node>, ghost done: set<Node>,
                  ghost pool: set<Node>, ghost bound: set<Node>)
    returns (ghost checks: nat, ghost done': set<Node>)
    requires SortInvariant(nodeset, g, prior, done) && GraphOf(g) && Total(g)
    requires pool <= g.Keys && Closed(g, pool, bound)
    requires Covered(pool, bound, Of(nodeset.waiting, c), done)
    modifies nodeset`sortedNodes, nodeset`waiting, Elems(nodeset.allNodes)`isDone
    ensures SortInvariant(nodeset, g, prior, done')
    ensures old(nodeset.sortedNodes) <= nodeset.sortedNodes && done <= done'
    ensures SameElsewhere(old(nodeset.waiting), nodeset.waiting, c)
    ensures Covered(pool, bound, Of(nodeset.waiting, c), done')
    ensures |nodeset.sortedNodes| + |Of(nodeset.waiting, c)| == old(|nodeset.sortedNodes| + |Of(nodeset.waiting, c)|)
    ensures |Of(nodeset.waiting, c)| <= |Of(old(nodeset.waiting), c)|
    ensures |Of(nodeset.waiting, c)| == |Of(old(nodeset.waiting), c)| ==>
              AllBlocked(g, Of(nodeset.waiting, c), done')
    ensures checks == |Of(old(nodeset.waiting), c)|
    ensures AllReady(g, Of(old(nodeset.waiting), c), done) ==>
              Of(nodeset.waiting, c) == [] && nodeset.sortedNodes == old(nodeset.sortedNodes) + EmptyingOrder(Of(old(nodeset.waiting), c))
  {
    ghost var p := Pass(c, nodeset.waiting, nodeset.sortedNodes, done, g, prior, pool, bound);
    var i: nat := 0;
    checks, done' := 0, done;
    while i < |Of(nodeset.waiting, c)|
      invariant PassInvariant(nodeset, p, i, done')
      invariant checks + |Of(nodeset.waiting, c)| - i == |Of(p.waiting, c)|
      decreases |Of(nodeset.waiting, c)| - i
    {
      ghost var node := Of(nodeset.waiting, c)[i];
      assert node in Elems(Of(nodeset.waiting, c)) && g[node] == old(node.Blockers());
      i, done' := PassStep(nodeset, c, i, p, done');
      checks := checks + 1;
    }
    if |Of(nodeset.waiting, c)| == |Of(p.waiting, c)| {
      BlockedIsAll(g, Of(nodeset.waiting, c), done');
    }
  }

  lemma {:induction false} IsClosure(g: Graph<Node>, pool: set<Node>, done: set<Node>, done': set<Node>)
    requires pool <= g.Keys && Closed(g, pool, done') && done <= done' <= Close(g, pool, done)
    ensures done' == Close(g, pool, done)
  {
    CloseIsLeast(g, pool, done, done');
  }

  /** What it costs to sort `before` down to `after`: the passes that move something, and one
      look at each of the nodes that are left. */
  ghost predicate Paid(before: seq<Node>, after: seq<Node>, checks: nat) {
    checks + Triangle(|after|) <= Triangle(|before|) + |after|
  }

  /** Where a stage stands between two passes, after so many readiness checks. */
  ghost predicate StageInvariant(nodeset: Nodeset, p: Pass, done: set<Node>, checks: nat)
    reads nodeset`allNodes, nodeset`sortedNodes, nodeset`waiting, nodeset.allNodes`isDone
  {
    && SortInvariant(nodeset, p.g, p.prior, done)
    && Covered(p.pool, p.bound, Of(nodeset.waiting, p.c), done)
    && StageStands(p, nodeset.waiting, nodeset.sortedNodes, done, checks)
  }

  ghost predicate StageStands(p: Pass, waiting: Containers, sorted: seq<Node>, done: set<Node>, checks: nat) {
    && p.sorted <= sorted && p.done <= done
    && |sorted| + |Of(waiting, p.c)| == |p.sorted| + |Of(p.waiting, p.c)|
    && SameElsewhere(p.waiting, waiting, p.c)
    && checks + Triangle(|Of(waiting, p.c)|) <= Triangle(|Of(p.waiting, p.c)|)
    && EmptiedAtOnce(p.g, p.done, Of(p.waiting, p.c), p.sorted, done, Of(waiting, p.c), sorted)
  }

  /** What a pass makes of the standing of a stage. */
  lemma StageAdvances(p: Pass, w: Containers, s: seq<Node>, done: set<Node>, checks: nat, w': Containers, s': seq<Node>, done': set<Node>)
    requires StageStands(p, w, s, done, checks)
    requires s <= s' && done <= done' && SameElsewhere(w, w', p.c) && |Of(w', p.c)| <= |Of(w, p.c)|
    requires |s'| + |Of(w', p.c)| == |s| + |Of(w, p.c)|
    requires AllReady(p.g, Of(w, p.c), done) ==> Of(w', p.c) == [] && s' == s + EmptyingOrder(Of(w, p.c))
    ensures |Of(w', p.c)| < |Of(w, p.c)| ==> StageStands(p, w', s', done', checks + |Of(w, p.c)|)
    ensures StageStands(p, w', s', done', 0)
    ensures Paid(Of(p.waiting, p.c), Of(w', p.c), checks + |Of(w, p.c)|)
    ensures AllReady(p.g, Of(p.waiting, p.c), p.done) ==> Of(w', p.c) == [] && s' == p.sorted + EmptyingOrder(Of(p.waiting, p.c))
  {
    EmptiedStays(p.g, p.done, Of(p.waiting, p.c), p.sorted, done, Of(w, p.c), s, done', Of(w', p.c), s');
    TriangleMonotone(|Of(w', p.c)|, |Of(w, p.c)|);
    if |Of(w', p.c)| < |Of(w, p.c)| {
      TriangleMonotone(|Of(w', p.c)|, |Of(w, p.c)| - 1);
    }
  }

  /** One pass of a stage; if it moves nothing, nothing is ready. */
  method StagePass(nodeset: Nodeset, c: NodeClass, ghost p: Pass, ghost done: set<Node>, ghost checks: nat)
    returns (ghost done': set<Node>, ghost checks': nat)
    requires StageInvariant(nodeset, p, done, checks) && c == p.c && GraphOf(p.g) && Total(p.g)
    requires p.pool <= p.g.Keys && Closed(p.g, p.pool, p.bound)
    modifies nodeset`sortedNodes, nodeset`waiting, Elems(nodeset.allNodes)`isDone
    ensures |Of(nodeset.waiting, c)| <= |Of(old(nodeset.waiting), c)|
    ensures |Of(nodeset.waiting, c)| == |Of(old(nodeset.waiting), c)| ==> AllBlocked(p.g, Of(nodeset.waiting, c), done')
    ensures |Of(nodeset.waiting, c)| < |Of(old(nodeset.waiting), c)| ==> StageInvariant(nodeset, p, done', checks')
    ensures StageInvariant(nodeset, p, done', 0)
    ensures checks' == checks + |Of(old(nodeset.waiting), c)| && Paid(Of(p.waiting, c), Of(nodeset.waiting, c), checks')
    ensures AllReady(p.g, Of(p.waiting, c), p.done) ==>
              Of(nodeset.waiting, c) == [] && nodeset.sortedNodes == p.sorted + EmptyingOrder(Of(p.waiting, c))
  {
    ghost var n;
    ghost var w, s := nodeset.waiting, nodeset.sortedNodes;
    n, done' := SortPass(nodeset, c, p.g, p.prior, done, p.pool, p.bound);
    checks' := checks + n;
    StageAdvances(p, w, s, done, checks, nodeset.waiting, nodeset.sortedNodes, done');
  }

  /** One class in its turn: the least fixpoint of readiness over its nodes, at a bounded cost.
      When all of them are ready, they come out in the order of swap removal. */
  method SortNodeClass(nodeset: Nodeset, c: NodeClass, ghost g: Graph<Node>, ghost prior: set<Node>, ghost done: set<Node>)
    returns (all: bool, ghost done': set<Node>, ghost checks: nat)
    requires SortInvariant(nodeset, g, prior, done) && GraphOf(g) && Total(g)
    modifies nodeset`sortedNodes, nodeset`waiting, Elems(nodeset.allNodes)`isDone
    ensures SortInvariant(nodeset, g, prior, done')
    ensures old(nodeset.sortedNodes) <= nodeset.sortedNodes
    ensures SameElsewhere(old(nodeset.waiting), nodeset.waiting, c)
    ensures Elems(Of(old(nodeset.waiting), c)) <= g.Keys
    ensures done' == Close(g, Elems(Of(old(nodeset.waiting), c)), done)
    ensures all <==> Of(nodeset.waiting, c) == []
    ensures AllBlocked(g, Of(nodeset.waiting, c), done')
    ensures |nodeset.sortedNodes| + |Of(nodeset.waiting, c)| == old(|nodeset.sortedNodes| + |Of(nodeset.waiting, c)|)
    ensures checks <= Triangle(|Of(old(nodeset.waiting), c)|)
    ensures Paid(Of(old(nodeset.waiting), c), Of(nodeset.waiting, c), checks)
    ensures AllReady(g, Of(old(nodeset.waiting), c), done) ==>
              Of(nodeset.waiting, c) == [] && nodeset.sortedNodes == old(nodeset.sortedNodes) + EmptyingOrder(Of(old(nodeset.waiting), c))
  {
    ghost var pool := Elems(Of(nodeset.waiting, c));
    assert WaitingIs(Elems(nodeset.allNodes), Elems(nodeset.sortedNodes), c, Of(nodeset.waiting, c));
    ghost var p := Pass(c, nodeset.waiting, nodeset.sortedNodes, done, g, prior, pool, Close(g, pool, done));
    checks, done' := 0, done;
    while true
      invariant StageInvariant(nodeset, p, done', checks)
      decreases |Of(nodeset.waiting, c)|
    {
      var oldSize := |Of(nodeset.waiting, c)|;
      done', checks := StagePass(nodeset, c, p, done', checks);
      if oldSize == |Of(nodeset.waiting, c)| {
        BlockedIsClosed(g, pool, p.bound, Of(nodeset.waiting, c), done');
        break;
      }
    }
    all := |Of(nodeset.waiting, c)| == 0;
    IsClosure(g, pool, done, done');
  }

  // ----- the order of emission when no node waits for another

  ghost predicate NothingBlocks(g: Graph<Node>) {
    forall n :: n in g ==> g[n] == {}
  }

  lemma UnblockedIsReady(g: Graph<Node>, waiting: seq<Node>, done: set<Node>)
    requires Elems(waiting) <= g.Keys
    ensures NothingBlocks(g) ==> AllReady(g, waiting, done)
  {
  }

  function EarlyInTurn(w: Containers): seq<Node> {
    EmptyingOrder(Of(w, ReferenceType)) + EmptyingOrder(Of(w, DataType)) + EmptyingOrder(Of(w, VariableType)) + EmptyingOrder(Of(w, View))
  }

  function InstancesInTurn(w: Containers): seq<Node> {
    EmptyingOrder(Of(w, ObjectType)) + EmptyingOrder(Of(w, Object)) + EmptyingOrder(Of(w, Method)) + EmptyingOrder(Of(w, Variable))
  }

  /** All nodes, class by class, each class in the order of swap removal. */
  function InTurn(w: Containers): seq<Node> {
    EarlyInTurn(w) + InstancesInTurn(w)
  }

  ghost predicate SameButFour(w: Containers, w': Containers, a: NodeClass, b: NodeClass, c: NodeClass, d: NodeClass) {
    forall e :: e != a && e != b && e != c && e != d ==> Of(w, e) == Of(w', e)
  }

  lemma Untouched(w0: Containers, w1: Containers, w2: Containers, w3: Containers, w4: Containers,
                  a: NodeClass, b: NodeClass, c: NodeClass, d: NodeClass, e: NodeClass)
    requires SameElsewhere(w0, w1, a) && SameElsewhere(w1, w2, b) && SameElsewhere(w2, w3, c) && SameElsewhere(w3, w4, d)
    ensures e != a ==> Of(w1, e) == Of(w0, e)
    ensures e != a && e != b ==> Of(w2, e) == Of(w0, e)
    ensures e != a && e != b && e != c ==> Of(w3, e) == Of(w0, e)
    ensures e != a && e != b && e != c && e != d ==> Of(w4, e) == Of(w0, e)
    ensures e != d ==> Of(w4, e) == Of(w3, e)
    ensures e != c && e != d ==> Of(w4, e) == Of(w2, e)
    ensures e != b && e != c && e != d ==> Of(w4, e) == Of(w1, e)
  {
  }

  lemma OthersUntouched(w0: Containers, w1: Containers, w2: Containers, w3: Containers, w4: Containers,
                        a: NodeClass, b: NodeClass, c: NodeClass, d: NodeClass)
    requires SameElsewhere(w0, w1, a) && SameElsewhere(w1, w2, b) && SameElsewhere(w2, w3, c) && SameElsewhere(w3, w4, d)
    ensures SameButFour(w0, w4, a, b, c, d)
  {
    forall e | e != a && e != b && e != c && e != d
      ensures Of(w0, e) == Of(w4, e)
    {
      Untouched(w0, w1, w2, w3, w4, a, b, c, d, e);
    }
  }

  lemma TwoTurns(s0: seq<Node>, w0: Containers, s1: seq<Node>, w1: Containers, s2: seq<Node>)
    requires s1 == s0 + EarlyInTurn(w0) && s2 == s1 + InstancesInTurn(w1)
    requires SameButFour(w0, w1, ReferenceType, DataType, VariableType, View)
    ensures s2 == s0 + InTurn(w0)
  {
    Append(s0, EarlyInTurn(w0), InstancesInTurn(w1));
  }

  lemma Squeezed<T>(a: set<T>, b: set<T>, c: set<T>, d: set<T>, e: set<T>)
    requires a <= b <= c <= d <= e && e == a
    ensures b == a && c == a && d == a
  {
  }

  // ----- the last four classes

  predicate Instance(c: NodeClass) {
    c == ObjectType || c == Object || c == Method || c == Variable
  }

  /** The unsorted nodes of the last four classes. */
  ghost function InstancesLeft(all: set<Node>, sorted: set<Node>): (r: set<Node>) {
    set n | n in all && n !in sorted && Instance(n.nodeClass)
  }

  /** Nothing of the pool is lost while it moves from waiting to done, below the bound. */
  ghost predicate InstancesCovered(nodeset: Nodeset, done: set<Node>, pool: set<Node>, bound: set<Node>)
    reads nodeset`allNodes, nodeset`sortedNodes
  {
    var left := InstancesLeft(Elems(nodeset.allNodes), Elems(nodeset.sortedNodes));
    left <= pool <= left + done && done <= bound
  }

  /** One class of a round: it stays below the bound and leaves no ready node of its own. */
  method SortInstanceClass(nodeset: Nodeset, c: NodeClass, ghost g: Graph<Node>, ghost prior: set<Node>, ghost done: set<Node>,
                           ghost pool: set<Node>, ghost bound: set<Node>, ghost list: seq<Node>)
    returns (all: bool, ghost done': set<Node>, ghost checks: nat)
    requires Instance(c) && list == Of(nodeset.waiting, c)
    requires SortInvariant(nodeset, g, prior, done) && GraphOf(g) && Total(g)
    requires pool <= g.Keys && Closed(g, pool, bound) && InstancesCovered(nodeset, done, pool, bound)
    modifies nodeset`sortedNodes, nodeset`waiting, Elems(nodeset.allNodes)`isDone
    ensures SortInvariant(nodeset, g, prior, done') && GraphOf(g)
    ensures InstancesCovered(nodeset, done', pool, bound)
    ensures old(nodeset.sortedNodes) <= nodeset.sortedNodes && done <= done'
    ensures |nodeset.sortedNodes| + |Of(nodeset.waiting, c)| == |old(nodeset.sortedNodes)| + |list|
    ensures Paid(list, Of(nodeset.waiting, c), checks)
    ensures SameElsewhere(old(nodeset.waiting), nodeset.waiting, c)
    ensures all <==> Of(nodeset.waiting, c) == []
    ensures AllBlocked(g, Of(nodeset.waiting, c), done')
    ensures NothingBlocks(g) ==> all && nodeset.sortedNodes == old(nodeset.sortedNodes) + EmptyingOrder(list)
  {
    assert WaitingIs(Elems(nodeset.allNodes), Elems(nodeset.sortedNodes), c, list);
    assert Elems(list) <= pool;
    UnblockedIsReady(g, list, done);
    all, done', checks := SortNodeClass(nodeset, c, g, prior, done);
    CloseMonotoneBound(g, Elems(list), done, pool, bound);
  }

  lemma {:induction false} CloseMonotoneBound(g: Graph<Node>, part: set<Node>, done: set<Node>, pool: set<Node>, bound: set<Node>)
    requires part <= pool <= g.Keys && Closed(g, pool, bound) && done <= bound
    ensures Close(g, part, done) <= bound
  {
    CloseIsLeast(g, part, done, bound);
  }

  ghost predicate InstancesDone(waiting: Containers) {
    Of(waiting, ObjectType) == [] && Of(waiting, Object) == [] && Of(waiting, Method) == [] && Of(waiting, Variable) == []
  }

  ghost predicate InstancesBlocked(g: Graph<Node>, waiting: Containers, done: set<Node>) {
    && AllBlocked(g, Of(waiting, ObjectType), done) && AllBlocked(g, Of(waiting, Object), done)
    && AllBlocked(g, Of(waiting, Method), done) && AllBlocked(g, Of(waiting, Variable), done)
  }

  ghost predicate PaidTwo(x: seq<Node>, x': seq<Node>, y: seq<Node>, y': seq<Node>, checks: nat) {
    checks + Triangle(|x'|) + Triangle(|y'|) <= Triangle(|x|) + Triangle(|y|) + |x'| + |y'|
  }

  /** How many nodes of the last four classes wait. */
  ghost function InstanceCount(w: Containers): nat {
    |Of(w, ObjectType)| + |Of(w, Object)| + |Of(w, Method)| + |Of(w, Variable)|
  }

  ghost function InstanceTriangles(w: Containers): nat {
    Triangle(|Of(w, ObjectType)|) + Triangle(|Of(w, Object)|) + Triangle(|Of(w, Method)|) + Triangle(|Of(w, Variable)|)
  }

  /** What a round costs that leads from `w` to `w'`. */
  ghost predicate RoundPaid(w: Containers, w': Containers, checks: nat) {
    checks + InstanceTriangles(w') <= InstanceTriangles(w) + InstanceCount(w')
  }

  lemma RoundCosts(w0: Containers, w1: Containers, w2: Containers, w3: Containers, w4: Containers, n: nat, m: nat)
    requires SameElsewhere(w0, w1, ObjectType) && SameElsewhere(w1, w2, Object)
    requires SameElsewhere(w2, w3, Method) && SameElsewhere(w3, w4, Variable)
    requires PaidTwo(Of(w0, ObjectType), Of(w1, ObjectType), Of(w0, Object), Of(w2, Object), n)
    requires PaidTwo(Of(w0, Method), Of(w3, Method), Of(w0, Variable), Of(w4, Variable), m)
    ensures RoundPaid(w0, w4, n + m)
    ensures InstanceCount(w4) == |Of(w1, ObjectType)| + |Of(w2, Object)| + |Of(w3, Method)| + |Of(w4, Variable)|
  {
    Untouched(w0, w1, w2, w3, w4, ObjectType, Object, Method, Variable, ObjectType);
    Untouched(w0, w1, w2, w3, w4, ObjectType, Object, Method, Variable, Object);
    Untouched(w0, w1, w2, w3, w4, ObjectType, Object, Method, Variable, Method);
  }

  /** What the rounds so far have cost leaves enough for those to come. */
  ghost predicate RoundsPaid(start: Containers, w: Containers, checks: nat) {
    checks + InstanceTriangles(w) + Triangle(InstanceCount(w)) <= InstanceTriangles(start) + Triangle(InstanceCount(start))
  }

  lemma {:induction false} OneMoreRound(start: Containers, w: Containers, checks: nat, w': Containers, n: nat)
    requires RoundsPaid(start, w, checks) && RoundPaid(w, w', n) && InstanceCount(w') <= InstanceCount(w)
    ensures checks + n <= InstanceTriangles(start) + Triangle(InstanceCount(start))
    ensures InstanceCount(w') < InstanceCount(w) ==> RoundsPaid(start, w', checks + n)
  {
    TriangleMonotone(InstanceCount(w'), InstanceCount(w));
    if InstanceCount(w') < InstanceCount(w) {
      TriangleMonotone(InstanceCount(w'), InstanceCount(w) - 1);
    }
  }

  /** What the four classes of a round leave behind is there at its end. */
  lemma RoundLists(g: Graph<Node>, w0: Containers, w1: Containers, w2: Containers, w3: Containers, w4: Containers,
                   d1: set<Node>, d2: set<Node>, d3: set<Node>, d4: set<Node>)
    requires SameElsewhere(w0, w1, ObjectType) && SameElsewhere(w1, w2, Object)
    requires SameElsewhere(w2, w3, Method) && SameElsewhere(w3, w4, Variable)
    requires AllBlocked(g, Of(w1, ObjectType), d1) && AllBlocked(g, Of(w2, Object), d2)
    requires AllBlocked(g, Of(w3, Method), d3) && AllBlocked(g, Of(w4, Variable), d4)
    ensures InstancesDone(w4) <==> Of(w1, ObjectType) == [] && Of(w2, Object) == [] && Of(w3, Method) == [] && Of(w4, Variable) == []
    ensures d1 == d2 == d3 == d4 ==> InstancesBlocked(g, w4, d4)
  {
    Untouched(w0, w1, w2, w3, w4, ObjectType, Object, Method, Variable, ObjectType);
    Untouched(w0, w1, w2, w3, w4, ObjectType, Object, Method, Variable, Object);
    Untouched(w0, w1, w2, w3, w4, ObjectType, Object, Method, Variable, Method);
  }

  /** Half a round: `w` is what waits after the first of the two classes. */
  method SortTwoClasses(nodeset: Nodeset, c: NodeClass, d: NodeClass, ghost g: Graph<Node>, ghost prior: set<Node>, ghost done: set<Node>,
                        ghost pool: set<Node>, ghost bound: set<Node>, ghost x: seq<Node>, ghost y: seq<Node>)
    returns (all: bool, ghost w: Containers, ghost d1: set<Node>, ghost done': set<Node>, ghost checks: nat)
    requires Instance(c) && Instance(d) && c != d && x == Of(nodeset.waiting, c) && y == Of(nodeset.waiting, d)
    requires SortInvariant(nodeset, g, prior, done) && GraphOf(g) && Total(g)
    requires pool <= g.Keys && Closed(g, pool, bound) && InstancesCovered(nodeset, done, pool, bound)
    modifies nodeset`sortedNodes, nodeset`waiting, Elems(nodeset.allNodes)`isDone
    ensures SortInvariant(nodeset, g, prior, done') && GraphOf(g)
    ensures InstancesCovered(nodeset, done', pool, bound)
    ensures old(nodeset.sortedNodes) <= nodeset.sortedNodes && done <= d1 <= done'
    ensures |nodeset.sortedNodes| + |Of(w, c)| + |Of(nodeset.waiting, d)| == |old(nodeset.sortedNodes)| + |x| + |y|
    ensures PaidTwo(x, Of(w, c), y, Of(nodeset.waiting, d), checks)
    ensures SameElsewhere(old(nodeset.waiting), w, c) && SameElsewhere(w, nodeset.waiting, d)
    ensures all <==> Of(w, c) == [] && Of(nodeset.waiting, d) == []
    ensures AllBlocked(g, Of(w, c), d1) && AllBlocked(g, Of(nodeset.waiting, d), done')
    ensures NothingBlocks(g) ==> all && nodeset.sortedNodes == old(nodeset.sortedNodes) + (EmptyingOrder(x) + EmptyingOrder(y))
  {
    ghost var s0 := nodeset.sortedNodes;
    var first, second;
    ghost var n, m;
    first, d1, n := SortInstanceClass(nodeset, c, g, prior, done, pool, bound, x);
    w := nodeset.waiting;
    second, done', m := SortInstanceClass(nodeset, d, g, prior, d1, pool, bound, y);
    all, checks := first && second, n + m;
    Append(s0, EmptyingOrder(x), EmptyingOrder(y));
  }

  lemma FourTurns(s0: seq<Node>, w: Containers, s1: seq<Node>, s2: seq<Node>, a: NodeClass, b: NodeClass, c: NodeClass, d: NodeClass)
    requires s1 == s0 + (EmptyingOrder(Of(w, a)) + EmptyingOrder(Of(w, b)))
    requires s2 == s1 + (EmptyingOrder(Of(w, c)) + EmptyingOrder(Of(w, d)))
    ensures s2 == s0 + (EmptyingOrder(Of(w, a)) + EmptyingOrder(Of(w, b)) + EmptyingOrder(Of(w, c)) + EmptyingOrder(Of(w, d)))
  {
    Append(s0, EmptyingOrder(Of(w, a)) + EmptyingOrder(Of(w, b)), EmptyingOrder(Of(w, c)) + EmptyingOrder(Of(w, d)));
    Append(EmptyingOrder(Of(w, a)) + EmptyingOrder(Of(w, b)), EmptyingOrder(Of(w, c)), EmptyingOrder(Of(w, d)));
  }

  /** One round over the last four classes. */
  method SortRound(nodeset: Nodeset, ghost g: Graph<Node>, ghost prior: set<Node>, ghost done: set<Node>,
                   ghost pool: set<Node>, ghost bound: set<Node>)
    returns (all: bool, ghost done': set<Node>, ghost checks: nat)
    requires SortInvariant(nodeset, g, prior, done) && GraphOf(g) && Total(g)
    requires pool <= g.Keys && Closed(g, pool, bound) && InstancesCovered(nodeset, done, pool, bound)
    modifies nodeset`sortedNodes, nodeset`waiting, Elems(nodeset.allNodes)`isDone
    ensures SortInvariant(nodeset, g, prior, done') && GraphOf(g)
    ensures InstancesCovered(nodeset, done', pool, bound)
    ensures old(nodeset.sortedNodes) <= nodeset.sortedNodes && done <= done'
    ensures |nodeset.sortedNodes| + InstanceCount(nodeset.waiting) == |old(nodeset.sortedNodes)| + InstanceCount(old(nodeset.waiting))
    ensures RoundPaid(old(nodeset.waiting), nodeset.waiting, checks)
    ensures all <==> InstancesDone(nodeset.waiting)
    ensures done' == done ==> InstancesBlocked(g, nodeset.waiting, done)
    ensures NothingBlocks(g) ==> all && nodeset.sortedNodes == old(nodeset.sortedNodes) + InstancesInTurn(old(nodeset.waiting))
  {
    ghost var w0, s0 := nodeset.waiting, nodeset.sortedNodes;
    ghost var w1, w3, d1, d2, d3, n, m;
    var first, second;
    first, w1, d1, d2, n := SortTwoClasses(nodeset, ObjectType, Object, g, prior, done, pool, bound, Of(w0, ObjectType), Of(w0, Object));
    ghost var w2, s2 := nodeset.waiting, nodeset.sortedNodes;
    second, w3, d3, done', m := SortTwoClasses(nodeset, Method, Variable, g, prior, d2, pool, bound, Of(w0, Method), Of(w0, Variable));
    all, checks := first && second, n + m;
    RoundCosts(w0, w1, w2, w3, nodeset.waiting, n, m);
    RoundLists(g, w0, w1, w2, w3, nodeset.waiting, d1, d2, d3, done');
    if NothingBlocks(g) {
      FourTurns(s0, w0, s2, nodeset.sortedNodes, ObjectType, Object, Method, Variable);
    }
    if done' == done {
      Squeezed(done, d1, d2, d3, done');
    }
  }

  /** When no node of the last four classes is ready, or none is left, the pool is closed. */
  lemma InstancesClosed(nodeset: Nodeset, g: Graph<Node>, done: set<Node>, pool: set<Node>, bound: set<Node>)
    requires Conserved(nodeset.allNodes, nodeset.sortedNodes, nodeset.waiting)
    requires pool <= g.Keys && InstancesCovered(nodeset, done, pool, bound)
    requires InstancesDone(nodeset.waiting) || InstancesBlocked(g, nodeset.waiting, done)
    ensures Closed(g, pool, done)
  {
  }

  lemma SameLength(s: seq<Node>, t: seq<Node>, prior: set<Node>, done: set<Node>, done': set<Node>)
    requires s <= t && |s| == |t|
    requires done !! prior && Elems(s) == prior + done
    requires done' !! prior && Elems(t) == prior + done'
    ensures done == done'
  {
  }

  /** ObjectTypes, Objects, Methods and Variables are retried together until all of them are
      sorted or a round moves nothing. */
  method SortInstances(nodeset: Nodeset, ghost g: Graph<Node>, ghost prior: set<Node>, ghost done: set<Node>)
    returns (all: bool, ghost done': set<Node>, ghost checks: nat)
    requires SortInvariant(nodeset, g, prior, done) && GraphOf(g) && Total(g)
    modifies nodeset`sortedNodes, nodeset`waiting, Elems(nodeset.allNodes)`isDone
    ensures SortInvariant(nodeset, g, prior, done')
    ensures old(nodeset.sortedNodes) <= nodeset.sortedNodes
    ensures done' == Close(g, old(InstancesLeft(Elems(nodeset.allNodes), Elems(nodeset.sortedNodes))), done)
    ensures checks <= InstanceTriangles(old(nodeset.waiting)) + Triangle(InstanceCount(old(nodeset.waiting)))
    ensures all <==> InstancesDone(nodeset.waiting)
    ensures NothingBlocks(g) ==> nodeset.sortedNodes == old(nodeset.sortedNodes) + InstancesInTurn(old(nodeset.waiting))
  {
    ghost var pool := InstancesLeft(Elems(nodeset.allNodes), Elems(nodeset.sortedNodes));
    ghost var bound := Close(g, pool, done);
    ghost var start := nodeset.waiting;
    done', checks := done, 0;
    while true
      invariant SortInvariant(nodeset, g, prior, done') && GraphOf(g)
      invariant RoundsPaid(start, nodeset.waiting, checks)
      invariant InstancesCovered(nodeset, done', pool, bound)
      invariant old(nodeset.sortedNodes) <= nodeset.sortedNodes && done <= done'
      invariant NothingBlocks(g) ==> nodeset.sortedNodes == old(nodeset.sortedNodes) && nodeset.waiting == old(nodeset.waiting)
      decreases |Elems(nodeset.allNodes)| - |nodeset.sortedNodes|
    {
      var totalSorted := |nodeset.sortedNodes|;
      ghost var before, sorted, w, n := done', nodeset.sortedNodes, nodeset.waiting, 0;
      all, done', n := SortRound(nodeset, g, prior, done', pool, bound);
      OneMoreRound(start, w, checks, nodeset.waiting, n);
      checks := checks + n;
      SortedFits(nodeset.allNodes, nodeset.sortedNodes);
      if all {
        InstancesClosed(nodeset, g, done', pool, bound);
        break;
      }
      if totalSorted == |nodeset.sortedNodes| {
        SameLength(sorted, nodeset.sortedNodes, prior, before, done');
        InstancesClosed(nodeset, g, done', pool, bound);
        break;
      }
    }
    IsClosure(g, pool, done, done');
  }

  lemma SortedFits(all: seq<Node>, sorted: seq<Node>)
    requires Distinct(sorted) && Elems(sorted) <= Elems(all)
    ensures |sorted| <= |Elems(all)|
  {
    DistinctFits(sorted, Elems(all));
  }

  // ----- the whole sort

  ghost function ClassLeft(all: set<Node>, sorted: set<Node>, c: NodeClass): set<Node> {
    set n | n in all && n !in sorted && n.nodeClass == c
  }

  /** The stages: what is unsorted in each of the four early classes, then in the last four. */
  ghost function Stages(all: set<Node>, sorted: set<Node>): (r: seq<set<Node>>)
    ensures forall p :: p in r ==> p <= all
  {
    [ClassLeft(all, sorted, ReferenceType), ClassLeft(all, sorted, DataType), ClassLeft(all, sorted, VariableType),
     ClassLeft(all, sorted, View), InstancesLeft(all, sorted)]
  }

  lemma {:induction false} StagesEmit(g: Graph<Node>, all: set<Node>, prior: set<Node>, w: Containers)
    requires all <= g.Keys && StillWaiting(all, prior, w)
    ensures ListsIn(g, w) && Emit(g, Stages(all, prior)) == Close(g, InstancesLeft(all, prior), EarlyClosed(g, w))
  {
    var s := Stages(all, prior);
    assert forall c :: Elems(Of(w, c)) == ClassLeft(all, prior, c);
    EmitFour(g, s[0], s[1], s[2], s[3]);
    EmitLast(g, [s[0], s[1], s[2], s[3]], s[4]);
    assert s == [s[0], s[1], s[2], s[3]] + [s[4]];
  }

  /** What was there before this run still waits. */
  ghost predicate StillWaiting(all: set<Node>, prior: set<Node>, waiting: Containers) {
    forall d :: Elems(Of(waiting, d)) == ClassLeft(all, prior, d)
  }

  ghost predicate ListsIn(g: Graph<Node>, waiting: Containers) {
    forall c :: Elems(Of(waiting, c)) <= g.Keys
  }

  /** What the four early classes make of these lists. */
  ghost function EarlyClosed(g: Graph<Node>, w: Containers): (r: set<Node>)
    requires ListsIn(g, w)
  {
    var rt := Close(g, Elems(Of(w, ReferenceType)), {});
    var dt := Close(g, Elems(Of(w, DataType)), rt);
    var vt := Close(g, Elems(Of(w, VariableType)), dt);
    Close(g, Elems(Of(w, View)), vt)
  }

  ghost function EarlyTriangles(w: Containers): nat {
    Triangle(|Of(w, ReferenceType)|) + Triangle(|Of(w, DataType)|) + Triangle(|Of(w, VariableType)|) + Triangle(|Of(w, View)|)
  }

  /** One of the first four stages. */
  method SortEarlyClass(nodeset: Nodeset, c: NodeClass, ghost g: Graph<Node>, ghost prior: set<Node>, ghost done: set<Node>,
                        ghost list: seq<Node>)
    returns (ghost done': set<Node>, ghost checks: nat)
    requires SortInvariant(nodeset, g, prior, done) && GraphOf(g) && Total(g)
    requires list == Of(nodeset.waiting, c) && Elems(list) <= g.Keys
    modifies nodeset`sortedNodes, nodeset`waiting, Elems(nodeset.allNodes)`isDone
    ensures SortInvariant(nodeset, g, prior, done') && GraphOf(g)
    ensures old(nodeset.sortedNodes) <= nodeset.sortedNodes
    ensures done' == Close(g, Elems(list), done) && checks <= Triangle(|list|)
    ensures SameElsewhere(old(nodeset.waiting), nodeset.waiting, c)
    ensures NothingBlocks(g) ==> nodeset.sortedNodes == old(nodeset.sortedNodes) + EmptyingOrder(list)
  {
    UnblockedIsReady(g, list, done);
    var all;
    all, done', checks := SortNodeClass(nodeset, c, g, prior, done);
  }

  /** Two of the first four stages. */
  method SortTwoEarlyClasses(nodeset: Nodeset, c: NodeClass, d: NodeClass, ghost g: Graph<Node>, ghost prior: set<Node>, ghost done: set<Node>,
                             ghost x: seq<Node>, ghost y: seq<Node>)
    returns (ghost w: Containers, ghost done': set<Node>, ghost checks: nat)
    requires SortInvariant(nodeset, g, prior, done) && GraphOf(g) && Total(g)
    requires c != d && x == Of(nodeset.waiting, c) && y == Of(nodeset.waiting, d) && Elems(x) <= g.Keys && Elems(y) <= g.Keys
    modifies nodeset`sortedNodes, nodeset`waiting, Elems(nodeset.allNodes)`isDone
    ensures SortInvariant(nodeset, g, prior, done') && GraphOf(g)
    ensures old(nodeset.sortedNodes) <= nodeset.sortedNodes
    ensures done' == Close(g, Elems(y), Close(g, Elems(x), done))
    ensures checks <= Triangle(|x|) + Triangle(|y|)
    ensures SameElsewhere(old(nodeset.waiting), w, c) && SameElsewhere(w, nodeset.waiting, d)
    ensures NothingBlocks(g) ==> nodeset.sortedNodes == old(nodeset.sortedNodes) + (EmptyingOrder(x) + EmptyingOrder(y))
  {
    ghost var s0 := nodeset.sortedNodes;
    ghost var n, m;
    done', n := SortEarlyClass(nodeset, c, g, prior, done, x);
    w := nodeset.waiting;
    done', m := SortEarlyClass(nodeset, d, g, prior, done', y);
    checks := n + m;
    Append(s0, EmptyingOrder(x), EmptyingOrder(y));
  }

  method SortEarlyClasses(nodeset: Nodeset, ghost g: Graph<Node>, ghost prior: set<Node>)
    returns (ghost done: set<Node>, ghost checks: nat)
    requires SortInvariant(nodeset, g, prior, {}) && GraphOf(g) && Total(g) && ListsIn(g, nodeset.waiting)
    modifies nodeset`sortedNodes, nodeset`waiting, Elems(nodeset.allNodes)`isDone
    ensures SortInvariant(nodeset, g, prior, done) && GraphOf(g)
    ensures old(nodeset.sortedNodes) <= nodeset.sortedNodes
    ensures done == EarlyClosed(g, old(nodeset.waiting)) && checks <= EarlyTriangles(old(nodeset.waiting))
    ensures SameButFour(old(nodeset.waiting), nodeset.waiting, ReferenceType, DataType, VariableType, View)
    ensures NothingBlocks(g) ==> nodeset.sortedNodes == old(nodeset.sortedNodes) + EarlyInTurn(old(nodeset.waiting))
  {
    ghost var w0, s0 := nodeset.waiting, nodeset.sortedNodes;
    ghost var w1, w3, n, m;
    w1, done, n := SortTwoEarlyClasses(nodeset, ReferenceType, DataType, g, prior, {}, Of(w0, ReferenceType), Of(w0, DataType));
    ghost var w2, s2 := nodeset.waiting, nodeset.sortedNodes;
    w3, done, m := SortTwoEarlyClasses(nodeset, VariableType, View, g, prior, done, Of(w0, VariableType), Of(w0, View));
    checks := n + m;
    OthersUntouched(w0, w1, w2, w3, nodeset.waiting, ReferenceType, DataType, VariableType, View);
    if NothingBlocks(g) {
      FourTurns(s0, w0, s2, nodeset.sortedNodes, ReferenceType, DataType, VariableType, View);
    }
  }

  method SortStages(nodeset: Nodeset, ghost g: Graph<Node>, ghost prior: set<Node>)
    returns (all: bool, ghost done: set<Node>, ghost checks: nat)
    requires SortInvariant(nodeset, g, prior, {}) && GraphOf(g) && Total(g)
    modifies nodeset`sortedNodes, nodeset`waiting, Elems(nodeset.allNodes)`isDone
    ensures SortInvariant(nodeset, g, prior, done)
    ensures old(nodeset.sortedNodes) <= nodeset.sortedNodes
    ensures done == Emit(g, Stages(Elems(nodeset.allNodes), prior))
    ensures checks <= SortBound(old(nodeset.waiting))
    ensures all <==> InstancesDone(nodeset.waiting)
    ensures NothingBlocks(g) ==> nodeset.sortedNodes == old(nodeset.sortedNodes) + InTurn(old(nodeset.waiting))
  {
    assert prior + {} == prior;
    AllStillWaiting(nodeset.allNodes, nodeset.sortedNodes, nodeset.waiting);
    StagesEmit(g, Elems(nodeset.allNodes), prior, nodeset.waiting);
    ghost var w0, s0 := nodeset.waiting, nodeset.sortedNodes;
    ghost var n, m;
    done, n := SortEarlyClasses(nodeset, g, prior);
    ghost var w1, s1 := nodeset.waiting, nodeset.sortedNodes;
    SameInstances(nodeset.allNodes, prior, nodeset.sortedNodes, w0, w1);
    all, done, m := SortInstances(nodeset, g, prior, done);
    checks := n + m;
    SameInstanceCosts(w0, w1, n, m);
    if NothingBlocks(g) {
      TwoTurns(s0, w0, s1, w1, nodeset.sortedNodes);
    }
  }

  /** The readiness checks of a whole sort, the joint retry of the last four classes included. */
  ghost function SortBound(w: Containers): nat {
    EarlyTriangles(w) + InstanceTriangles(w) + Triangle(InstanceCount(w))
  }

  ghost function WaitingCount(w: Containers): nat {
    |Of(w, ReferenceType)| + |Of(w, DataType)| + |Of(w, VariableType)| + |Of(w, View)| + InstanceCount(w)
  }

  lemma SameInstanceCosts(w0: Containers, w1: Containers, n: nat, m: nat)
    requires SameButFour(w0, w1, ReferenceType, DataType, VariableType, View)
    requires n <= EarlyTriangles(w0) && m <= InstanceTriangles(w1) + Triangle(InstanceCount(w1))
    ensures n + m <= SortBound(w0)
  {
  }

  lemma {:induction false} TriangleOfSum(m: nat, n: nat)
    ensures Triangle(m) + Triangle(n) <= Triangle(m + n)
    decreases n
  {
    if n > 0 {
      TriangleOfSum(m, n - 1);
    }
  }

  /** For n waiting nodes, no more than n(n+1). */
  lemma {:induction false} SortBoundIsQuadratic(w: Containers)
    ensures SortBound(w) <= WaitingCount(w) * (WaitingCount(w) + 1)
  {
    var a, b, c, d := |Of(w, ReferenceType)|, |Of(w, DataType)|, |Of(w, VariableType)|, |Of(w, View)|;
    var e, f, g, h := |Of(w, ObjectType)|, |Of(w, Object)|, |Of(w, Method)|, |Of(w, Variable)|;
    TriangleOfSum(a, b);
    TriangleOfSum(a + b, c);
    TriangleOfSum(a + b + c, d);
    TriangleOfSum(e, f);
    TriangleOfSum(e + f, g);
    TriangleOfSum(e + f + g, h);
    TriangleOfSum(a + b + c + d, InstanceCount(w));
    TriangleMonotone(InstanceCount(w), WaitingCount(w));
    TriangleIs(WaitingCount(w));
    TwiceHalf(WaitingCount(w));
  }

  lemma {:induction false} TwiceHalf(n: nat)
    ensures 2 * Triangle(n) == n * (n + 1)
  {
    if n > 0 {
      TwiceHalf(n - 1);
    }
  }

  lemma AllStillWaiting(all: seq<Node>, sorted: seq<Node>, waiting: Containers)
    requires Conserved(all, sorted, waiting)
    ensures StillWaiting(Elems(all), Elems(sorted), waiting)
  {
  }

  /** Sorting early classes does not change what is left of the last four. */
  lemma SameInstances(all: seq<Node>, prior: set<Node>, sorted: seq<Node>, w0: Containers, w1: Containers)
    requires Conserved(all, sorted, w1) && StillWaiting(Elems(all), prior, w0)
    requires SameButFour(w0, w1, ReferenceType, DataType, VariableType, View)
    ensures InstancesLeft(Elems(all), Elems(sorted)) == InstancesLeft(Elems(all), prior)
  {
    AllStillWaiting(all, sorted, w1);
    forall n | n in all && Instance(n.nodeClass)
      ensures n in sorted <==> n in prior
    {
      assert Of(w0, n.nodeClass) == Of(w1, n.nodeClass);
      assert n in ClassLeft(Elems(all), prior, n.nodeClass) <==> n !in prior;
      assert n in ClassLeft(Elems(all), Elems(sorted), n.nodeClass) <==> n !in sorted;
    }
  }

  /** Clears the marks again. */
  method ClearMarks(nodes: seq<Node>)
    modifies Elems(nodes)`isDone
    ensures NoneMarked(nodes)
  {
    for i := 0 to |nodes|
      invariant forall k :: 0 <= k < i ==> !nodes[k].isDone
    {
      nodes[i].isDone := false;
    }
  }

  /** The stages, between a state without marks and the next one. */
  method SortPrepared(nodeset: Nodeset, ghost g: Graph<Node>, ghost prior: set<Node>) returns (all: bool, ghost checks: nat)
    requires nodeset.Valid() && NoneMarked(nodeset.allNodes)
    requires g.Keys == Elems(nodeset.allNodes) && GraphOf(g) && Total(g) && prior == Elems(nodeset.sortedNodes)
    modifies nodeset`sortedNodes, nodeset`waiting, Elems(nodeset.allNodes)`isDone
    ensures nodeset.Valid() && NoneMarked(nodeset.allNodes)
    ensures old(nodeset.sortedNodes) <= nodeset.sortedNodes
    ensures Ordered(g, prior, nodeset.sortedNodes)
    ensures Elems(nodeset.sortedNodes) - prior == Emit(g, Stages(g.Keys, prior))
    ensures checks <= SortBound(old(nodeset.waiting))
    ensures all <==> InstancesDone(nodeset.waiting)
    ensures NothingBlocks(g) ==> nodeset.sortedNodes == old(nodeset.sortedNodes) + InTurn(old(nodeset.waiting))
  {
    assert prior + {} == prior;
    assert Ordered(g, prior, nodeset.sortedNodes);
    ghost var done;
    all, done, checks := SortStages(nodeset, g, prior);
    assert done == Elems(nodeset.sortedNodes) - prior;
    ClearMarks(nodeset.allNodes);
  }

  ghost predicate Records(infos: map<Node, NodeInfo>) {
    forall n :: n in infos ==> infos[n].id == n.id && infos[n].nodeClass == n.nodeClass
  }

  /** The nodes' records, keyed by node. */
  ghost function Infos(nodes: set<Node>): (r: map<Node, NodeInfo>)
    reads nodes`displayName, nodes`description, nodes`inverseName, nodes`definition, nodes`refs, RefsOf(nodes)`target
    ensures r.Keys == nodes && Records(r)
  {
    map n | n in nodes :: n.Info()
  }

  ghost function IdsOf(nodes: set<Node>): set<NodeId> {
    set n | n in nodes :: n.id
  }

  /** The blocking relation is the one the records describe: by id, every node waits for the
      targets of its blocking references, as far as these are in the nodeset. */
  ghost predicate Explains(infos: map<Node, NodeInfo>, g: Graph<Node>) {
    infos.Keys == g.Keys && forall n :: n in g ==> IdsOf(g[n]) == BlockingTargets(infos[n], IdsOf(g.Keys))
  }

  /** The nodes are what their records say. */
  ghost predicate Described(nodes: set<Node>, infos: map<Node, NodeInfo>)
    reads nodes`displayName, nodes`description, nodes`inverseName, nodes`definition, nodes`refs, RefsOf(nodes)`target
  {
    forall n :: n in nodes ==> n in infos && n.Matches(infos[n])
  }

  lemma RecordsDescribe(nodes: set<Node>)
    ensures Described(nodes, Infos(nodes))
  {
  }

  lemma BoundExplains(nodes: seq<Node>, infos: map<Node, NodeInfo>)
    requires AllBound(nodes) && Described(Elems(nodes), infos) && infos.Keys == Elems(nodes)
    ensures Explains(infos, NodeGraph(Elems(nodes)))
  {
    forall n | n in nodes
      ensures IdsOf(n.Blockers()) == BlockingTargets(infos[n], IdsOf(Elems(nodes)))
    {
      BoundExplainsOne(nodes, n, infos[n]);
    }
  }

  lemma BoundExplainsOne(nodes: seq<Node>, n: Node, info: NodeInfo)
    requires AllBound(nodes) && n in nodes && n.Matches(info)
    ensures IdsOf(n.Blockers()) == BlockingTargets(info, IdsOf(Elems(nodes)))
  {
    forall id | id in IdsOf(n.Blockers())
      ensures id in BlockingTargets(info, IdsOf(Elems(nodes)))
    {
      var r :| r in n.refs && r.targetPtr != null && Blocks(r.refType, r.isForward) && r.TargetNode().id == id;
      var i :| 0 <= i < |n.refs| && n.refs[i] == r;
      assert Bound(r, nodes) && info.refs[i] in info.refs;
      assert r.targetPtr in Elems(nodes);
    }
    forall id | id in BlockingTargets(info, IdsOf(Elems(nodes)))
      ensures id in IdsOf(n.Blockers())
    {
      var ref :| ref in info.refs && Blocks(ref.refType, ref.isForward) && ref.target == id;
      var i :| 0 <= i < |n.refs| && info.refs[i] == ref;
      var r := n.refs[i];
      assert Bound(r, nodes);
      assert r.TargetNode() in n.Blockers();
    }
  }

  /** Sorts the nodes by id and binds every reference. */
  method Prepare(nodeset: Nodeset)
    requires nodeset.Valid()
    modifies nodeset`allNodes, RefsOf(Elems(nodeset.allNodes))`targetPtr
    ensures nodeset.Valid()
    ensures multiset(nodeset.allNodes) == multiset(old(nodeset.allNodes)) && SortedById(nodeset.allNodes)
    ensures Elems(nodeset.allNodes) == Elems(old(nodeset.allNodes))
    ensures forall n :: n in nodeset.allNodes ==> n in old(nodeset.allNodes)
    ensures AllBound(nodeset.allNodes)
    ensures Total(NodeGraph(Elems(nodeset.allNodes)))
  {
    var byId := SortById(nodeset.allNodes);
    SamePermutation(nodeset.allNodes, byId);
    nodeset.allNodes := byId;
    ResolveReferences(nodeset.allNodes);
    BoundIsTotal(nodeset.allNodes);
  }

  /** The state after the preparation, as values. */
  method PrepareGraph(nodeset: Nodeset) returns (ghost g: Graph<Node>, ghost infos: map<Node, NodeInfo>)
    requires nodeset.Valid()
    modifies nodeset`allNodes, RefsOf(Elems(nodeset.allNodes))`targetPtr
    ensures nodeset.Valid()
    ensures multiset(nodeset.allNodes) == multiset(old(nodeset.allNodes)) && SortedById(nodeset.allNodes)
    ensures Elems(nodeset.allNodes) == Elems(old(nodeset.allNodes))
    ensures forall n :: n in nodeset.allNodes ==> n in old(nodeset.allNodes)
    ensures g == NodeGraph(Elems(nodeset.allNodes)) && Total(g)
    ensures infos == old(Infos(Elems(nodeset.allNodes))) && Explains(infos, g)
  {
    ghost var nodes := Elems(nodeset.allNodes);
    infos := Infos(nodes);
    RecordsDescribe(nodes);
    Prepare(nodeset);
    assert Described(nodes, infos);
    g := NodeGraph(nodes);
    BoundExplains(nodeset.allNodes, infos);
  }

  /** Sorts what was loaded since the last sort. The nodes appended to the sorted nodes are
      the staged least fixpoint of readiness, and each of them stands behind its blockers.
      The result speaks of the last four classes only. `checks` counts the readiness checks,
      for which see SortBoundIsQuadratic. `g` is the blocking relation. */
  method Sort(nodeset: Nodeset) returns (all: bool, ghost g: Graph<Node>, ghost infos: map<Node, NodeInfo>, ghost checks: nat)
    requires nodeset.Valid() && NoneMarked(nodeset.allNodes)
    modifies nodeset`allNodes, nodeset`sortedNodes, nodeset`waiting
    modifies Elems(nodeset.allNodes)`isDone, RefsOf(Elems(nodeset.allNodes))`targetPtr
    ensures nodeset.Valid() && NoneMarked(nodeset.allNodes)
    ensures multiset(nodeset.allNodes) == multiset(old(nodeset.allNodes)) && SortedById(nodeset.allNodes)
    ensures g.Keys == Elems(nodeset.allNodes) == Elems(old(nodeset.allNodes)) && Total(g)
    ensures infos == old(Infos(Elems(nodeset.allNodes))) && Explains(infos, g)
    ensures old(nodeset.sortedNodes) <= nodeset.sortedNodes
    ensures Ordered(g, Elems(old(nodeset.sortedNodes)), nodeset.sortedNodes)
    ensures Elems(nodeset.sortedNodes) - Elems(old(nodeset.sortedNodes))
            == Emit(g, Stages(g.Keys, Elems(old(nodeset.sortedNodes))))
    ensures checks <= SortBound(old(nodeset.waiting))
    ensures all <==> InstancesDone(nodeset.waiting)
    ensures NothingBlocks(g) ==> nodeset.sortedNodes == old(nodeset.sortedNodes) + InTurn(old(nodeset.waiting))
  {
    ghost var prior := Elems(nodeset.sortedNodes);
    g, infos := PrepareGraph(nodeset);
    all, checks := SortPrepared(nodeset, g, prior);
  }

  lemma SamePermutation(s: seq<Node>, t: seq<Node>)
    requires multiset(s) == multiset(t)
    ensures Elems(s) == Elems(t)
    ensures forall x :: x in t ==> x in s
    ensures Distinct(s) ==> Distinct(t)
  {
    forall x | x in s ensures x in t { assert x in multiset(s); }
    forall x | x in t ensures x in s { assert x in multiset(t); }
    if Distinct(s) {
      DistinctCounts(s);
      forall i, j | 0 <= i < j < |t| ensures t[i] != t[j] {
        TwiceCounts(t, i, j);
        assert t[i] in s;
      }
    }
  }

  lemma TwiceCounts(t: seq<Node>, i: nat, j: nat)
    requires i < j < |t|
    ensures t[i] == t[j] ==> multiset(t)[t[i]] >= 2
  {
    assert t == t[..i] + [t[i]] + t[i + 1..j] + [t[j]] + t[j + 1..];
  }

  lemma {:induction false} DistinctCounts(s: seq<Node>)
    requires Distinct(s)
    ensures forall x :: x in s ==> multiset(s)[x] == 1
  {
    if s != [] {
      var init, last := s[..|s| - 1], s[|s| - 1];
      assert s == init + [last];
      DistinctCounts(init);
      assert last !in init;
    }
  }

  lemma BoundIsTotal(nodes: seq<Node>)
    requires AllBound(nodes)
    ensures Total(NodeGraph(Elems(nodes)))
  {
    forall n, b | n in nodes && b in n.Blockers()
      ensures b in nodes
    {
      var r :| r in n.refs && r.targetPtr != null && r.TargetNode() == b;
      assert Bound(r, nodes) && r.targetPtr == r.TargetNode();
    }
  }
}
