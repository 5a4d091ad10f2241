/** The theory behind the dependency sort, on plain values.

    A graph maps every item to the set of items that must come before it. `Close` is the set
    of items that can be reached from what is already done by adding ready items of one pool;
    `Emit` runs one pool after the other. Both are free of any scanning order. */
module Dependencies {

  type Graph<T> = map<T, set<T>>

  /** Every item has its blockers inside the graph. */
  ghost predicate Total<T>(g: Graph<T>) {
    forall n :: n in g ==> g[n] <= g.Keys
  }

  /** `s` contains every item of `pool` whose blockers it contains. */
  ghost predicate Closed<T>(g: Graph<T>, pool: set<T>, s: set<T>)
    requires pool <= g.Keys
  {
    forall n :: n in pool && g[n] <= s ==> n in s
  }

  /** Saturation in simultaneous rounds: all ready items of the pool join at once. */
  ghost function Close<T>(g: Graph<T>, pool: set<T>, done: set<T>): (r: set<T>)
    requires pool <= g.Keys
    ensures done <= r <= done + pool
    ensures Closed(g, pool, r)
    decreases pool - done
  {
    var next := done + set n | n in pool && g[n] <= done;
    if next == done then
      done
    else
      var w :| w in next && w !in done;
      assert w in pool - done && w !in pool - next;
      Close(g, pool, next)
  }

  /** `Close` is below every closed set above `done`: together with its own contract, it is
      the least fixpoint of readiness. */
  lemma {:induction false} CloseIsLeast<T>(g: Graph<T>, pool: set<T>, done: set<T>, c: set<T>)
    requires pool <= g.Keys
    requires done <= c && Closed(g, pool, c)
    ensures Close(g, pool, done) <= c
    decreases pool - done
  {
    var next := done + set n | n in pool && g[n] <= done;
    if next != done {
      var w :| w in next && w !in done;
      assert w in pool - done && w !in pool - next;
      CloseIsLeast(g, pool, next, c);
    }
  }

  /** Whatever joined, joined after all of its blockers. */
  lemma {:induction false} CloseGrounded<T>(g: Graph<T>, pool: set<T>, done: set<T>, n: T)
    requires pool <= g.Keys
    requires n in Close(g, pool, done) && n !in done
    ensures g[n] <= Close(g, pool, done)
    decreases pool - done
  {
    var next := done + set n | n in pool && g[n] <= done;
    if next != done {
      var w :| w in next && w !in done;
      assert w in pool - done && w !in pool - next;
      if n !in next {
        CloseGrounded(g, pool, next, n);
      }
    }
  }

  /** The pools are worked off one after the other, each of them once. */
  ghost function Emit<T>(g: Graph<T>, pools: seq<set<T>>): (r: set<T>)
    requires forall p :: p in pools ==> p <= g.Keys
    ensures r <= Union(pools)
  {
    if pools == [] then {}
    else Close(g, pools[|pools| - 1], Emit(g, pools[..|pools| - 1]))
  }

  ghost function Union<T>(pools: seq<set<T>>): set<T> {
    if pools == [] then {} else Union(pools[..|pools| - 1]) + pools[|pools| - 1]
  }

  lemma {:induction false} UnionContains<T>(pools: seq<set<T>>, i: nat)
    requires i < |pools|
    ensures pools[i] <= Union(pools)
  {
    if i < |pools| - 1 {
      UnionContains(pools[..|pools| - 1], i);
    }
  }

  lemma {:induction false} EmitLast<T>(g: Graph<T>, pools: seq<set<T>>, p: set<T>)
    requires p <= g.Keys && forall q :: q in pools ==> q <= g.Keys
    ensures Emit(g, pools + [p]) == Close(g, p, Emit(g, pools))
  {
  }

  lemma {:induction false} EmitTwo<T>(g: Graph<T>, a: set<T>, b: set<T>)
    requires a <= g.Keys && b <= g.Keys
    ensures Emit(g, [a, b]) == Close(g, b, Close(g, a, {}))
  {
    EmitLast(g, [], a);
    EmitLast(g, [a], b);
    assert [] + [a] == [a] && [a] + [b] == [a, b];
  }

  lemma {:induction false} EmitFour<T>(g: Graph<T>, a: set<T>, b: set<T>, c: set<T>, d: set<T>)
    requires a <= g.Keys && b <= g.Keys && c <= g.Keys && d <= g.Keys
    ensures Emit(g, [a, b, c, d]) == Close(g, d, Close(g, c, Close(g, b, Close(g, a, {}))))
  {
    EmitTwo(g, a, b);
    EmitLast(g, [a, b], c);
    EmitLast(g, [a, b, c], d);
    assert [a, b] + [c] == [a, b, c] && [a, b, c] + [d] == [a, b, c, d];
  }

  // ----- cycles

  /** `p` runs along blockers and its last item is blocked by its first. */
  ghost predicate Cycle<T>(g: Graph<T>, older p: seq<T>) {
    && |p| > 0
    && (forall i :: 0 <= i < |p| ==> p[i] in g)
    && (forall i :: 0 <= i < |p| - 1 ==> p[i + 1] in g[p[i]])
    && p[0] in g[p[|p| - 1]]
  }

  /** A nonempty set in which every item is blocked by an item of the same set. */
  ghost predicate Knot<T>(g: Graph<T>, k: set<T>) {
    k != {} && k <= g.Keys && forall n :: n in k ==> g[n] * k != {}
  }

  /** On finite graphs a knot is there exactly when a cycle is (see KnotHasCycle, CycleIsKnot). */
  ghost predicate HasKnotIn<T>(g: Graph<T>, s: set<T>) {
    exists k: set<T> | k <= s :: Knot(g, k)
  }

  ghost predicate Within<T>(p: seq<T>, s: set<T>) {
    forall x :: x in p ==> x in s
  }

  lemma {:induction false} DistinctFits<T>(p: seq<T>, s: set<T>)
    requires Within(p, s)
    requires forall i, j :: 0 <= i < j < |p| ==> p[i] != p[j]
    ensures |p| <= |s|
  {
    if p != [] {
      var last := p[|p| - 1];
      var rest := p[..|p| - 1];
      assert last !in rest;
      assert Within(rest, s - {last}) by {
        forall x | x in rest ensures x in s - {last} { assert x in p; }
      }
      DistinctFits(rest, s - {last});
      assert last in p;
    }
  }

  lemma KnotHasCycle<T>(g: Graph<T>, stuck: set<T>) returns (cycle: seq<T>)
    requires Knot(g, stuck)
    ensures Within(cycle, stuck) && Cycle(g, cycle)
  {
    var start :| start in stuck;
    var path := [start];
    while true
      invariant |path| > 0 && Within(path, stuck)
      invariant forall i, j :: 0 <= i < j < |path| ==> path[i] != path[j]
      invariant forall i :: 0 <= i < |path| - 1 ==> path[i + 1] in g[path[i]]
      decreases |stuck| - |path|
    {
      var last := path[|path| - 1];
      assert last in path;
      var next :| next in g[last] * stuck;
      if next in path {
        var k :| 0 <= k < |path| && path[k] == next;
        cycle := path[k..];
        assert cycle[|cycle| - 1] == last;
        return;
      }
      path := path + [next];
      DistinctFits(path, stuck);
    }
  }

  lemma CycleIsKnot<T>(g: Graph<T>, p: seq<T>)
    requires Cycle(g, p)
    ensures Knot(g, set x | x in p)
  {
    var k := set x | x in p;
    assert p[0] in k;
    forall n | n in k ensures g[n] * k != {} {
      var i :| 0 <= i < |p| && p[i] == n;
      var next := if i < |p| - 1 then p[i + 1] else p[0];
      assert next in g[n] * k;
    }
  }

  /** Nothing in a knot ever becomes ready. */
  lemma {:induction false} KnotNeverCloses<T>(g: Graph<T>, pool: set<T>, done: set<T>, k: set<T>)
    requires pool <= g.Keys && Knot(g, k) && k !! done
    ensures k !! Close(g, pool, done)
  {
    CloseIsLeast(g, pool, done, Close(g, pool, done) - k);
  }

  lemma {:induction false} KnotNeverEmitted<T>(g: Graph<T>, pools: seq<set<T>>, k: set<T>)
    requires forall q :: q in pools ==> q <= g.Keys
    requires Knot(g, k)
    ensures k !! Emit(g, pools)
  {
    if pools != [] {
      KnotNeverEmitted(g, pools[..|pools| - 1], k);
      KnotNeverCloses(g, pools[|pools| - 1], Emit(g, pools[..|pools| - 1]), k);
    }
  }

  /** What is left of a pool after closing, when nothing outside the pool is missing, is
      either empty or holds a cycle. */
  lemma {:induction false} LeftoverIsKnot<T>(g: Graph<T>, pool: set<T>, done: set<T>)
    requires pool <= g.Keys
    requires forall n :: n in pool ==> g[n] <= done + pool
    requires !(pool <= Close(g, pool, done))
    ensures Knot(g, pool - Close(g, pool, done))
  {
    var c := Close(g, pool, done);
    var stuck := pool - c;
    forall n | n in stuck
      ensures g[n] * stuck != {}
    {
      assert !(g[n] <= c);
      var b :| b in g[n] && b !in c;
      assert b in g[n] * stuck;
    }
    assert Knot(g, stuck);
  }

  // ----- when everything is emitted

  /** The pools lie in the graph and have no item in common. */
  ghost predicate Apart<T>(g: Graph<T>, pools: seq<set<T>>) {
    && (forall p :: p in pools ==> p <= g.Keys)
    && (forall i, j :: 0 <= i < j < |pools| ==> pools[i] !! pools[j])
  }

  /** No item waits for one outside its own pool and the earlier ones. */
  ghost predicate Staged<T>(g: Graph<T>, pools: seq<set<T>>) {
    forall i, n :: 0 <= i < |pools| && n in pools[i] && n in g ==> g[n] <= Union(pools[..i + 1])
  }

  lemma {:induction false} StagedInit<T>(g: Graph<T>, pools: seq<set<T>>)
    requires Staged(g, pools) && pools != []
    ensures Staged(g, pools[..|pools| - 1])
  {
    var init := pools[..|pools| - 1];
    forall i, n | 0 <= i < |init| && n in init[i] && n in g
      ensures g[n] <= Union(init[..i + 1])
    {
      assert init[..i + 1] == pools[..i + 1] && n in pools[i];
    }
  }

  /** Sufficiency, pool by pool. */
  lemma {:induction false} AcyclicEmitsAll<T>(g: Graph<T>, pools: seq<set<T>>)
    requires forall p :: p in pools ==> p <= g.Keys
    requires Staged(g, pools)
    requires !HasKnotIn(g, Union(pools))
    ensures Emit(g, pools) == Union(pools)
  {
    if pools != [] {
      var k := |pools| - 1;
      var init := pools[..k];
      StagedInit(g, pools);
      AcyclicEmitsAll(g, init);
      var done := Emit(g, init);
      assert pools[..k + 1] == pools;
      if !(pools[k] <= Close(g, pools[k], done)) {
        LeftoverIsKnot(g, pools[k], done);
        assert false;
      }
    }
  }

  /** Necessity of the staging: an emitted item has its blockers in its own or earlier pools. */
  lemma {:induction false} EmittedIsStaged<T>(g: Graph<T>, pools: seq<set<T>>, i: nat, n: T)
    requires Apart(g, pools)
    requires i < |pools| && n in pools[i] && n in g && n in Emit(g, pools)
    ensures g[n] <= Union(pools[..i + 1])
  {
    var k := |pools| - 1;
    var init := pools[..k];
    if i == k {
      if n in Emit(g, init) {
        NotInLaterPools(init, pools[k]);
        assert false;
      }
      CloseGrounded(g, pools[k], Emit(g, init), n);
      assert pools[..i + 1] == pools;
    } else {
      assert pools[i] !! pools[k];
      EmittedIsStaged(g, init, i, n);
      assert init[..i + 1] == pools[..i + 1];
    }
  }

  lemma {:induction false} NotInLaterPools<T>(pools: seq<set<T>>, s: set<T>)
    requires forall i :: 0 <= i < |pools| ==> pools[i] !! s
    ensures Union(pools) !! s
  {
    if pools != [] {
      NotInLaterPools(pools[..|pools| - 1], s);
    }
  }

  /** All items of the pools are emitted exactly when there is no cycle among them and none
      waits for something outside its own pool and the earlier ones. */
  lemma {:induction false} EmitsAllIff<T>(g: Graph<T>, pools: seq<set<T>>)
    requires Apart(g, pools)
    ensures Emit(g, pools) == Union(pools) <==> !HasKnotIn(g, Union(pools)) && Staged(g, pools)
  {
    if !HasKnotIn(g, Union(pools)) && Staged(g, pools) {
      AcyclicEmitsAll(g, pools);
    }
    if Emit(g, pools) == Union(pools) {
      if HasKnotIn(g, Union(pools)) {
        var k :| k <= Union(pools) && Knot(g, k);
        KnotNeverEmitted(g, pools, k);
        assert false;
      }
      forall i, n | 0 <= i < |pools| && n in pools[i] && n in g
        ensures g[n] <= Union(pools[..i + 1])
      {
        UnionContains(pools, i);
        EmittedIsStaged(g, pools, i, n);
      }
    }
  }

  // ----- which items are emitted

  /** `p` runs along blockers. */
  ghost predicate Walk<T>(g: Graph<T>, older p: seq<T>) {
    && |p| > 0
    && (forall i :: 0 <= i < |p| ==> p[i] in g)
    && (forall i :: 0 <= i < |p| - 1 ==> p[i + 1] in g[p[i]])
  }

  ghost predicate OnCycle<T>(g: Graph<T>, n: T) {
    exists p: seq<T> :: Cycle(g, p) && n in p
  }

  /** `n` waits for something outside its own pool and the earlier ones. */
  ghost predicate OutOfStage<T>(g: Graph<T>, pools: seq<set<T>>, n: T) {
    exists i :: 0 <= i < |pools| && n in pools[i] && n in g && !(g[n] <= Union(pools[..i + 1]))
  }

  /** What can never be emitted, for a reason of its own. */
  ghost predicate Dead<T>(g: Graph<T>, pools: seq<set<T>>, n: T) {
    OnCycle(g, n) || OutOfStage(g, pools, n)
  }

  /** Blockers lead from `n` to something that is never emitted. */
  ghost predicate Doomed<T>(g: Graph<T>, pools: seq<set<T>>, n: T) {
    exists p: seq<T> :: Walk(g, p) && p[0] == n && Dead(g, pools, p[|p| - 1])
  }

  lemma {:induction false} EmitGrounded<T>(g: Graph<T>, pools: seq<set<T>>, n: T)
    requires forall p :: p in pools ==> p <= g.Keys
    requires n in Emit(g, pools)
    ensures n in g && g[n] <= Emit(g, pools)
  {
    if pools != [] {
      var init, last := pools[..|pools| - 1], pools[|pools| - 1];
      if n in Emit(g, init) {
        EmitGrounded(g, init, n);
      } else {
        assert last in pools;
        CloseGrounded(g, last, Emit(g, init), n);
      }
    }
  }

  /** Walking from an emitted item, everything is emitted. */
  lemma {:induction false} WalkEmitted<T>(g: Graph<T>, pools: seq<set<T>>, p: seq<T>)
    requires forall q :: q in pools ==> q <= g.Keys
    requires Walk(g, p) && p[0] in Emit(g, pools)
    ensures p[|p| - 1] in Emit(g, pools)
    decreases |p|
  {
    if |p| > 1 {
      EmitGrounded(g, pools, p[0]);
      assert p[1] in g[p[0]];
      WalkEmitted(g, pools, p[1..]);
    }
  }

  lemma {:induction false} DeadNotEmitted<T>(g: Graph<T>, pools: seq<set<T>>, n: T)
    requires Apart(g, pools) && Dead(g, pools, n)
    ensures n !in Emit(g, pools)
  {
    if OnCycle(g, n) {
      var p :| Cycle(g, p) && n in p;
      CycleIsKnot(g, p);
      KnotNeverEmitted(g, pools, set x | x in p);
    } else if n in Emit(g, pools) {
      var i :| 0 <= i < |pools| && n in pools[i] && n in g && !(g[n] <= Union(pools[..i + 1]));
      EmittedIsStaged(g, pools, i, n);
    }
  }

  /** The pool of an item. */
  lemma {:induction false} PoolOf<T>(pools: seq<set<T>>, n: T) returns (i: nat)
    requires n in Union(pools)
    ensures i < |pools| && n in pools[i]
  {
    if n in pools[|pools| - 1] {
      i := |pools| - 1;
    } else {
      i := PoolOf(pools[..|pools| - 1], n);
    }
  }

  /** Later pools add nothing to what the first ones emit of their own items. */
  lemma {:induction false} EmittedInItsTurn<T>(g: Graph<T>, pools: seq<set<T>>, k: nat)
    requires Apart(g, pools) && k <= |pools|
    ensures Emit(g, pools) * Union(pools[..k]) == Emit(g, pools[..k])
    ensures Union(pools[..k]) <= Union(pools)
  {
    if k < |pools| {
      var init, last := pools[..|pools| - 1], pools[|pools| - 1];
      assert init[..k] == pools[..k];
      EmittedInItsTurn(g, init, k);
      NotInLaterPools(init, last);
    } else {
      assert pools[..k] == pools;
    }
  }

  /** The first pools are emitted in full exactly when they hold no cycle and none of their items
      waits for something outside its own pool and the earlier ones. */
  lemma {:induction false} FirstPoolsIff<T>(g: Graph<T>, pools: seq<set<T>>, k: nat)
    requires Apart(g, pools) && k <= |pools|
    ensures Union(pools[..k]) <= Emit(g, pools) <==> !HasKnotIn(g, Union(pools[..k])) && Staged(g, pools[..k])
  {
    EmitsAllIff(g, pools[..k]);
    EmittedInItsTurn(g, pools, k);
  }

  /** An item that is left over, though not out of stage, waits for another one left over. */
  lemma {:induction false} LeftOverWaits<T>(g: Graph<T>, pools: seq<set<T>>, n: T) returns (b: T)
    requires Apart(g, pools)
    requires n in Union(pools) - Emit(g, pools) && !OutOfStage(g, pools, n)
    ensures n in g && b in g[n] && b in Union(pools) - Emit(g, pools)
  {
    var i := PoolOf(pools, n);
    assert pools[i] in pools && n in g;
    assert g[n] <= Union(pools[..i + 1]);
    assert pools[..i + 1][..i] == pools[..i];
    EmittedInItsTurn(g, pools, i + 1);
    assert Closed(g, pools[i], Emit(g, pools[..i + 1]));
    assert n in Union(pools[..i + 1]);
    b :| b in g[n] && b !in Emit(g, pools[..i + 1]);
  }

  /** From what is left over, blockers lead to something that is never emitted. */
  lemma {:induction false} LeftOverIsDoomed<T>(g: Graph<T>, pools: seq<set<T>>, n: T) returns (p: seq<T>)
    requires Apart(g, pools) && n in Union(pools) - Emit(g, pools)
    ensures Walk(g, p) && p[0] == n && Dead(g, pools, p[|p| - 1]) && Within(p, Union(pools) - Emit(g, pools))
  {
    var left := Union(pools) - Emit(g, pools);
    UnionInGraph(g, pools);
    p := [n];
    while !OutOfStage(g, pools, p[|p| - 1])
      invariant Walk(g, p) && p[0] == n && Within(p, left)
      invariant forall i, j :: 0 <= i < j < |p| ==> p[i] != p[j]
      decreases |left| - |p|
    {
      var last := p[|p| - 1];
      assert last in p;
      var next := LeftOverWaits(g, pools, last);
      if next in p {
        WalkedInCircle(g, p, next);
        return;
      }
      p := p + [next];
      DistinctFits(p, left);
    }
  }

  lemma WalkedInCircle<T>(g: Graph<T>, p: seq<T>, next: T)
    requires Walk(g, p) && next in p && next in g[p[|p| - 1]]
    ensures OnCycle(g, p[|p| - 1])
  {
    var k :| 0 <= k < |p| && p[k] == next;
    var cycle := p[k..];
    assert Cycle(g, cycle) && cycle[|cycle| - 1] == p[|p| - 1];
  }

  lemma {:induction false} UnionInGraph<T>(g: Graph<T>, pools: seq<set<T>>)
    requires forall p :: p in pools ==> p <= g.Keys
    ensures Union(pools) <= g.Keys
  {
    if pools != [] {
      UnionInGraph(g, pools[..|pools| - 1]);
      assert pools[|pools| - 1] in pools;
    }
  }

  /** Exactly which items are emitted: those from which no chain of blockers leads to a cycle
      or to an item that waits for something outside its own pool and the earlier ones. */
  lemma {:induction false} EmittedIff<T>(g: Graph<T>, pools: seq<set<T>>, n: T)
    requires Apart(g, pools) && n in Union(pools)
    ensures n in Emit(g, pools) <==> !Doomed(g, pools, n)
  {
    if n !in Emit(g, pools) {
      var p := LeftOverIsDoomed(g, pools, n);
      assert Walk(g, p) && p[0] == n && Dead(g, pools, p[|p| - 1]);
    } else if Doomed(g, pools, n) {
      var p :| Walk(g, p) && p[0] == n && Dead(g, pools, p[|p| - 1]);
      WalkEmitted(g, pools, p);
      DeadNotEmitted(g, pools, p[|p| - 1]);
    }
  }

  // ----- the last pool

  /** When everything outside the last pool is done, the last pool is emitted in full exactly
      when no knot lies in it; otherwise what is left of it is one. */
  lemma {:induction false} LastPoolIff<T>(g: Graph<T>, last: set<T>, done: set<T>)
    requires last <= g.Keys && done !! last
    requires forall n :: n in last ==> g[n] <= done + last
    ensures last <= Close(g, last, done) <==> !HasKnotIn(g, last)
    ensures !(last <= Close(g, last, done)) ==> Knot(g, last - Close(g, last, done))
  {
    if last <= Close(g, last, done) {
      if HasKnotIn(g, last) {
        var k :| k <= last && Knot(g, k);
        KnotNeverCloses(g, last, done, k);
        assert false;
      }
    } else {
      LeftoverIsKnot(g, last, done);
      assert last - Close(g, last, done) <= last;
    }
  }

  /** When the pools before the last one are emitted in full, the last one is emitted in full
      exactly when no knot lies in it; otherwise what is left of it is one. */
  lemma {:induction false} LastStageIff<T>(g: Graph<T>, early: seq<set<T>>, last: set<T>)
    requires Total(g) && last <= g.Keys && forall p :: p in early ==> p <= g.Keys
    requires Union(early) + last == g.Keys && Union(early) !! last
    requires Union(early) <= Emit(g, early + [last])
    ensures last <= Emit(g, early + [last]) <==> !HasKnotIn(g, last)
    ensures !(last <= Emit(g, early + [last])) ==> Knot(g, last - Emit(g, early + [last]))
  {
    EmitLast(g, early, last);
    LastPoolIff(g, last, Emit(g, early));
  }

  // ----- renaming items

  ghost function Image<T, U>(f: map<T, U>, s: set<T>): set<U>
    requires s <= f.Keys
  {
    set x | x in s :: f[x]
  }

  ghost predicate Injective<T, U>(f: map<T, U>) {
    forall x, y :: x in f && y in f && f[x] == f[y] ==> x == y
  }

  /** `h` is `g` with every item renamed by `f`. */
  ghost predicate Renamed<T, U>(g: Graph<T>, f: map<T, U>, h: Graph<U>) {
    && Total(g)
    && f.Keys == g.Keys
    && Injective(f)
    && h.Keys == Image(f, g.Keys)
    && (forall n :: n in g ==> f[n] in h && h[f[n]] == Image(f, g[n]))
  }

  lemma {:induction false} CloseRenamed<T, U>(g: Graph<T>, f: map<T, U>, h: Graph<U>, pool: set<T>, done: set<T>)
    requires Renamed(g, f, h) && pool <= g.Keys && done <= g.Keys
    requires Image(f, pool) <= h.Keys
    ensures Close(h, Image(f, pool), Image(f, done)) == Image(f, Close(g, pool, done))
    decreases pool - done
  {
    var ready := set n | n in pool && g[n] <= done;
    var next := done + ready;
    var fpool, fdone := Image(f, pool), Image(f, done);
    var fready := set n | n in fpool && h[n] <= fdone;
    forall n | n in pool
      ensures g[n] <= done <==> h[f[n]] <= fdone
    {
      if h[f[n]] <= fdone {
        forall b | b in g[n] ensures b in done {
          assert f[b] in h[f[n]];
          assert f[b] in fdone;
        }
      }
    }
    assert fready == Image(f, ready);
    assert fdone + fready == Image(f, next);
    if next != done {
      var n :| n in next && n !in done;
      assert f[n] !in fdone;
      assert f[n] in fdone + fready;
      assert n in pool - done && n !in pool - next;
      CloseRenamed(g, f, h, pool, next);
    } else {
      assert fdone + fready == fdone;
    }
  }

  ghost predicate PoolsRenamed<T, U>(f: map<T, U>, pools: seq<set<T>>, fpools: seq<set<U>>) {
    |fpools| == |pools| && forall i :: 0 <= i < |pools| ==> pools[i] <= f.Keys && fpools[i] == Image(f, pools[i])
  }

  lemma {:induction false} EmitRenamed<T, U>(g: Graph<T>, f: map<T, U>, h: Graph<U>,
                                             pools: seq<set<T>>, fpools: seq<set<U>>)
    requires Renamed(g, f, h)
    requires forall p :: p in pools ==> p <= g.Keys
    requires forall p :: p in fpools ==> p <= h.Keys
    requires PoolsRenamed(f, pools, fpools)
    requires Emit(g, pools) <= g.Keys
    ensures Emit(h, fpools) == Image(f, Emit(g, pools))
  {
    if pools != [] {
      var k := |pools| - 1;
      EmitInGraph(g, pools[..k]);
      EmitRenamed(g, f, h, pools[..k], fpools[..k]);
      assert fpools[k] in fpools;
      CloseRenamed(g, f, h, pools[k], Emit(g, pools[..k]));
    }
  }

  lemma {:induction false} EmitInGraph<T>(g: Graph<T>, pools: seq<set<T>>)
    requires forall p :: p in pools ==> p <= g.Keys
    ensures Emit(g, pools) <= g.Keys
  {
    if pools != [] {
      EmitInGraph(g, pools[..|pools| - 1]);
      assert pools[|pools| - 1] in pools;
    }
  }
}
