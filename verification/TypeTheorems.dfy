/** What the registry of data types looks like after a run over nodes in some order. */
module TypeTheorems {
  import opened NodeIds
  import opened NodeRecords
  import opened DataTypes

  /** The registry after a run. */
  function Replayed(types: Registry, parentRefTypes: seq<NodeId>, infos: seq<NodeInfo>): Registry {
    if infos == [] then types
    else Added(Replayed(types, parentRefTypes, infos[..|infos| - 1]), parentRefTypes, infos[|infos| - 1])
  }

  lemma {:induction false} ReplayedStep(types: Registry, parentRefTypes: seq<NodeId>, infos: seq<NodeInfo>, k: nat)
    requires k < |infos|
    ensures Replayed(types, parentRefTypes, infos[..k + 1])
            == Added(Replayed(types, parentRefTypes, infos[..k]), parentRefTypes, infos[k])
  {
    assert infos[..k + 1][..k] == infos[..k];
  }

  ghost predicate Extends(a: Registry, b: Registry) {
    forall id :: id in a ==> id in b && b[id] == a[id]
  }

  /** Types are never changed or removed. */
  lemma {:induction false} GrowsOnly(types: Registry, parentRefTypes: seq<NodeId>, infos: seq<NodeInfo>, k: nat)
    requires k <= |infos|
    ensures Extends(Replayed(types, parentRefTypes, infos[..k]), Replayed(types, parentRefTypes, infos))
    decreases |infos|
  {
    if k < |infos| {
      var init := infos[..|infos| - 1];
      assert init[..k] == infos[..k];
      GrowsOnly(types, parentRefTypes, init, k);
    } else {
      assert infos[..k] == infos;
    }
  }

  // ----- the flags of structures

  /** The flags of a structure say what its members are. */
  ghost predicate FlagsRight(types: Registry, t: UADataType) {
    && (t.pointerFree <==> AllPlain(types, t.members))
    && (t.kind == OptStructKind <==> SomeOptional(t.members))
  }

  ghost predicate Sound(types: Registry) {
    && MembersKnown(types)
    && forall id :: id in types && Structural(types[id].kind) ==> FlagsRight(types, types[id])
  }

  /** The type of this node has a number of members that a byte can hold. */
  ghost predicate Fits(types: Registry, parentRefTypes: seq<NodeId>, info: NodeInfo) {
    !IsEnumLike(info) ==> |AllMembers(types, ParentId(parentRefTypes, info), Fields(info))| < BYTE_SIZE
  }

  ghost predicate RunFits(types: Registry, parentRefTypes: seq<NodeId>, infos: seq<NodeInfo>) {
    forall k :: 0 <= k < |infos| ==> Fits(Replayed(types, parentRefTypes, infos[..k]), parentRefTypes, infos[k])
  }

  lemma BuiltMembersKnown(types: Registry, parent: NodeId, info: NodeInfo, m: Member)
    requires MembersKnown(types)
    requires var t := Built(types, parent, info); t.Some? && m in t.value.members
    ensures m.memberType in types
  {
  }

  /** Members refer to known types, whatever is added. */
  lemma MembersStayKnown(types: Registry, parentRefTypes: seq<NodeId>, info: NodeInfo)
    requires MembersKnown(types)
    ensures MembersKnown(Added(types, parentRefTypes, info))
  {
    var parent := ParentId(parentRefTypes, info);
    var t := Built(types, parent, info);
    if t.Some? {
      forall m | m in t.value.members
        ensures m.memberType in types
      {
        BuiltMembersKnown(types, parent, info, m);
      }
    }
  }

  /** Whether a member is plain does not change when types are added. */
  lemma PlainStays(a: Registry, b: Registry, ms: seq<Member>)
    requires Extends(a, b) && forall m :: m in ms ==> m.memberType in a
    ensures AllPlain(a, ms) <==> AllPlain(b, ms)
  {
  }

  lemma BuiltRight(types: Registry, parentRefTypes: seq<NodeId>, info: NodeInfo)
    requires Sound(types) && Fits(types, parentRefTypes, info)
    ensures var t := Built(types, ParentId(parentRefTypes, info), info);
            t.Some? && Structural(t.value.kind) ==> FlagsRight(types, t.value)
  {
    var parent := ParentId(parentRefTypes, info);
    var all := AllMembers(types, parent, Fields(info));
    var t := Built(types, parent, info);
    if t.Some? && Structural(t.value.kind) {
      assert Truncated(all) == all;
      if !IsStructLike(info) {
        assert OwnMembers([]) == [];
        assert all == types[parent].members;
      }
    }
  }

  lemma SoundStep(types: Registry, parentRefTypes: seq<NodeId>, info: NodeInfo)
    requires Sound(types) && Fits(types, parentRefTypes, info)
    ensures Sound(Added(types, parentRefTypes, info))
  {
    var added := Added(types, parentRefTypes, info);
    MembersStayKnown(types, parentRefTypes, info);
    BuiltRight(types, parentRefTypes, info);
    forall id | id in added && Structural(added[id].kind)
      ensures FlagsRight(added, added[id])
    {
      forall m | m in added[id].members
        ensures m.memberType in types
      {
        if id !in types {
          BuiltMembersKnown(types, ParentId(parentRefTypes, info), info, m);
        }
      }
      PlainStays(types, added, added[id].members);
    }
  }

  /** Over any run in which no structure has more members than a byte can count, a structure
      is pointer-free exactly when each of its members, inherited or own, is a single
      mandatory value of a pointer-free type, and it is a structure with optional fields
      exactly when one of its members is optional. */
  lemma {:induction false} SoundRun(types: Registry, parentRefTypes: seq<NodeId>, infos: seq<NodeInfo>)
    requires Sound(types) && RunFits(types, parentRefTypes, infos)
    ensures Sound(Replayed(types, parentRefTypes, infos))
  {
    if infos != [] {
      var init := infos[..|infos| - 1];
      forall k | 0 <= k < |init|
        ensures Fits(Replayed(types, parentRefTypes, init[..k]), parentRefTypes, init[k])
      {
        assert init[..k] == infos[..k];
      }
      SoundRun(types, parentRefTypes, init);
      SoundStep(Replayed(types, parentRefTypes, init), parentRefTypes, infos[|infos| - 1]);
    }
  }

  // ----- runs whose behaviour is defined

  /** The importer meets no undefined behaviour over these nodes: at each data type, it is
      defined how the type is built from those registered before. */
  ghost predicate DefinedRun(types: Registry, parentRefTypes: seq<NodeId>, infos: seq<NodeInfo>) {
    forall k :: 0 <= k < |infos| && infos[k].nodeClass == DataType ==>
      Defined(Replayed(types, parentRefTypes, infos[..k]), ParentId(parentRefTypes, infos[k]), infos[k])
  }

  lemma {:induction false} DefinedRunStep(types: Registry, parentRefTypes: seq<NodeId>, infos: seq<NodeInfo>, k: nat)
    requires k < |infos|
    ensures DefinedRun(types, parentRefTypes, infos[..k + 1]) <==>
            && DefinedRun(types, parentRefTypes, infos[..k])
            && (infos[k].nodeClass == DataType ==>
                  Defined(Replayed(types, parentRefTypes, infos[..k]), ParentId(parentRefTypes, infos[k]), infos[k]))
  {
    forall i | 0 <= i <= k
      ensures infos[..k + 1][..i] == infos[..i] && (i < k ==> infos[..k][..i] == infos[..i])
    {
    }
    var longer := infos[..k + 1];
    assert longer[k] == infos[k];
    assert forall i :: 0 <= i < k ==> infos[..k][i] == longer[i];
  }

  // ----- what becomes of each node

  ghost predicate AllNew(types: Registry, infos: seq<NodeInfo>) {
    && (forall i, j :: 0 <= i < j < |infos| ==> infos[i].id != infos[j].id)
    && (forall i :: 0 <= i < |infos| ==> infos[i].id !in types)
  }

  /** The place of an id among the first `k` nodes. */
  function Position(infos: seq<NodeInfo>, id: NodeId, k: nat): (r: Option<nat>)
    requires k <= |infos|
    ensures r.Some? ==> r.value < k && infos[r.value].id == id
    ensures r.None? ==> forall j :: 0 <= j < k ==> infos[j].id != id
  {
    if k == 0 then None
    else if infos[k - 1].id == id then Some(k - 1)
    else Position(infos, id, k - 1)
  }

  /** An id is registered after `k` nodes only by the server before the run or by its node. */
  lemma {:induction false} RegisteredBy(types: Registry, parentRefTypes: seq<NodeId>, infos: seq<NodeInfo>, k: nat, id: NodeId)
    requires k <= |infos| && id in Replayed(types, parentRefTypes, infos[..k])
    ensures id in types || exists j :: 0 <= j < k && infos[j].id == id
    decreases k
  {
    if k > 0 {
      ReplayedStep(types, parentRefTypes, infos, k - 1);
      if id in Replayed(types, parentRefTypes, infos[..k - 1]) {
        RegisteredBy(types, parentRefTypes, infos, k - 1, id);
      } else {
        assert infos[k - 1].id == id;
      }
    }
  }

  /** What the run makes of node `k` is settled at its own step. */
  lemma {:induction false} SettledAtOnce(types: Registry, parentRefTypes: seq<NodeId>, infos: seq<NodeInfo>, k: nat)
    requires AllNew(types, infos) && k < |infos|
    ensures var before := Replayed(types, parentRefTypes, infos[..k]);
            var t := Built(before, ParentId(parentRefTypes, infos[k]), infos[k]);
            var after := Replayed(types, parentRefTypes, infos);
            && (infos[k].id in after <==> infos[k].nodeClass == DataType && t.Some?)
            && (infos[k].id in after ==> after[infos[k].id] == t.value)
  {
    var id := infos[k].id;
    var before := Replayed(types, parentRefTypes, infos[..k]);
    if id in before {
      RegisteredBy(types, parentRefTypes, infos, k, id);
      assert false;
    }
    ReplayedStep(types, parentRefTypes, infos, k);
    GrowsOnly(types, parentRefTypes, infos, k + 1);
    if id !in Replayed(types, parentRefTypes, infos[..k + 1]) {
      NotLater(types, parentRefTypes, infos, k, |infos|);
      assert infos[..|infos|] == infos;
    }
  }

  lemma {:induction false} NotLater(types: Registry, parentRefTypes: seq<NodeId>, infos: seq<NodeInfo>, k: nat, n: nat)
    requires AllNew(types, infos) && k < n <= |infos|
    requires infos[k].id !in Replayed(types, parentRefTypes, infos[..k + 1])
    ensures infos[k].id !in Replayed(types, parentRefTypes, infos[..n])
    decreases n
  {
    if n > k + 1 {
      NotLater(types, parentRefTypes, infos, k, n - 1);
      ReplayedStep(types, parentRefTypes, infos, n - 1);
    }
  }

  // ----- which data types are registered

  /** The ids of the types that a data type needs: a structure those of its own fields, one
      without fields its parent, an enumeration none. */
  function Needs(parentRefTypes: seq<NodeId>, info: NodeInfo): set<NodeId> {
    if IsEnumLike(info) then {}
    else if IsStructLike(info) then set f | f in Fields(info) :: f.dataType
    else {ParentId(parentRefTypes, info)}
  }

  lemma BuiltIff(types: Registry, parentRefTypes: seq<NodeId>, info: NodeInfo)
    ensures Built(types, ParentId(parentRefTypes, info), info).Some? <==> Needs(parentRefTypes, info) <= types.Keys
  {
    if IsStructLike(info) {
      assert forall f :: f in Fields(info) ==> f.dataType in Needs(parentRefTypes, info);
    }
  }

  /** Node `k` is a data type, and all it needs is known to the server from the beginning or
      stands before it and is grounded itself. */
  ghost predicate Grounded(types: Registry, parentRefTypes: seq<NodeId>, infos: seq<NodeInfo>, k: nat)
    requires k < |infos|
    decreases k
  {
    infos[k].nodeClass == DataType
    && forall id :: id in Needs(parentRefTypes, infos[k]) ==>
         id in types || (Position(infos, id, k).Some? && Grounded(types, parentRefTypes, infos, Position(infos, id, k).value))
  }

  /** What node `k` finds of an id is what was there before the run, or what has become of the
      node of that id, if it stands before. */
  lemma {:induction false} FoundAt(types: Registry, parentRefTypes: seq<NodeId>, infos: seq<NodeInfo>, k: nat, id: NodeId)
    requires AllNew(types, infos) && k <= |infos|
    ensures var before, after := Replayed(types, parentRefTypes, infos[..k]), Replayed(types, parentRefTypes, infos);
            && (id in before <==> id in types || (Position(infos, id, k).Some? && id in after))
            && (id in before ==> id in after && before[id] == after[id])
            && (id in types ==> id in after && after[id] == types[id])
  {
    var before := Replayed(types, parentRefTypes, infos[..k]);
    var j := Position(infos, id, k);
    GrowsOnly(types, parentRefTypes, infos, k);
    GrowsOnly(types, parentRefTypes, infos[..k], 0);
    assert infos[..k][..0] == [];
    if id in before {
      RegisteredBy(types, parentRefTypes, infos, k, id);
    } else if j.Some? {
      assert infos[..k][..j.value + 1] == infos[..j.value + 1];
      GrowsOnly(types, parentRefTypes, infos[..k], j.value + 1);
      NotLater(types, parentRefTypes, infos, j.value, |infos|);
      assert infos[..|infos|] == infos;
    }
  }

  /** Exactly which data types end up registered. */
  lemma {:induction false} RegisteredIff(types: Registry, parentRefTypes: seq<NodeId>, infos: seq<NodeInfo>, k: nat)
    requires AllNew(types, infos) && k < |infos|
    ensures infos[k].id in Replayed(types, parentRefTypes, infos) <==> Grounded(types, parentRefTypes, infos, k)
    decreases k
  {
    var before := Replayed(types, parentRefTypes, infos[..k]);
    SettledAtOnce(types, parentRefTypes, infos, k);
    BuiltIff(before, parentRefTypes, infos[k]);
    forall id | id in Needs(parentRefTypes, infos[k])
      ensures id in before <==>
              id in types || (Position(infos, id, k).Some? && Grounded(types, parentRefTypes, infos, Position(infos, id, k).value))
    {
      FoundAt(types, parentRefTypes, infos, k, id);
      if Position(infos, id, k).Some? {
        RegisteredIff(types, parentRefTypes, infos, Position(infos, id, k).value);
      }
    }
  }

  /** Everything that node `k` needs is known to the server or is a data type that stands before. */
  ghost predicate NeedsStandFirst(types: Registry, parentRefTypes: seq<NodeId>, infos: seq<NodeInfo>, k: nat)
    requires k < |infos|
  {
    forall id :: id in Needs(parentRefTypes, infos[k]) ==>
      id in types || exists j :: 0 <= j < k && infos[j].id == id && infos[j].nodeClass == DataType
  }

  lemma {:induction false} PositionIs(types: Registry, infos: seq<NodeInfo>, k: nat, j: nat)
    requires AllNew(types, infos) && j < k <= |infos|
    ensures Position(infos, infos[j].id, k) == Some(j)
  {
  }

  lemma {:induction false} StandFirstGrounded(types: Registry, parentRefTypes: seq<NodeId>, infos: seq<NodeInfo>, k: nat)
    requires AllNew(types, infos) && k < |infos| && infos[k].nodeClass == DataType
    requires forall i :: 0 <= i <= k && infos[i].nodeClass == DataType ==> NeedsStandFirst(types, parentRefTypes, infos, i)
    ensures Grounded(types, parentRefTypes, infos, k)
    decreases k
  {
    forall id | id in Needs(parentRefTypes, infos[k]) && id !in types
      ensures Position(infos, id, k).Some? && Grounded(types, parentRefTypes, infos, Position(infos, id, k).value)
    {
      var j :| 0 <= j < k && infos[j].id == id && infos[j].nodeClass == DataType;
      PositionIs(types, infos, k, j);
      StandFirstGrounded(types, parentRefTypes, infos, j);
    }
  }

  /** All data types are registered exactly when everything they need is known to the server
      or is a data type that stands before them. */
  lemma {:induction false} AllRegisteredIff(types: Registry, parentRefTypes: seq<NodeId>, infos: seq<NodeInfo>)
    requires AllNew(types, infos)
    ensures (forall k :: 0 <= k < |infos| && infos[k].nodeClass == DataType ==> infos[k].id in Replayed(types, parentRefTypes, infos))
            <==> (forall k :: 0 <= k < |infos| && infos[k].nodeClass == DataType ==> NeedsStandFirst(types, parentRefTypes, infos, k))
  {
    forall k | 0 <= k < |infos|
      ensures infos[k].id in Replayed(types, parentRefTypes, infos) <==> Grounded(types, parentRefTypes, infos, k)
    {
      RegisteredIff(types, parentRefTypes, infos, k);
    }
    if forall k :: 0 <= k < |infos| && infos[k].nodeClass == DataType ==> NeedsStandFirst(types, parentRefTypes, infos, k) {
      forall k | 0 <= k < |infos| && infos[k].nodeClass == DataType
        ensures Grounded(types, parentRefTypes, infos, k)
      {
        StandFirstGrounded(types, parentRefTypes, infos, k);
      }
    }
    forall k | 0 <= k < |infos| && Grounded(types, parentRefTypes, infos, k)
      ensures NeedsStandFirst(types, parentRefTypes, infos, k)
    {
      GroundedStandsBehind(types, parentRefTypes, infos, k);
    }
  }

  lemma {:induction false} GroundedStandsBehind(types: Registry, parentRefTypes: seq<NodeId>, infos: seq<NodeInfo>, k: nat)
    requires k < |infos| && Grounded(types, parentRefTypes, infos, k)
    ensures NeedsStandFirst(types, parentRefTypes, infos, k)
  {
    forall id | id in Needs(parentRefTypes, infos[k]) && id !in types
      ensures exists j :: 0 <= j < k && infos[j].id == id && infos[j].nodeClass == DataType
    {
      var j := Position(infos, id, k).value;
      assert Grounded(types, parentRefTypes, infos, j);
      assert infos[j].id == id && infos[j].nodeClass == DataType;
    }
  }

  // ----- inherited members

  /** The fields along the chain of parents, those of the root first. */
  ghost function Chain(types: Registry, parentRefTypes: seq<NodeId>, infos: seq<NodeInfo>, k: nat): seq<Member>
    requires k < |infos|
    decreases k, 1
  {
    ChainAbove(types, parentRefTypes, infos, k) + OwnMembers(Fields(infos[k]))
  }

  /** What the parent contributes to the chain. */
  ghost function ChainAbove(types: Registry, parentRefTypes: seq<NodeId>, infos: seq<NodeInfo>, k: nat): seq<Member>
    requires k < |infos|
    decreases k, 0
  {
    var parent := ParentId(parentRefTypes, infos[k]);
    var j := Position(infos, parent, k);
    if j.Some? then Chain(types, parentRefTypes, infos, j.value) else MembersOf(types, parent)
  }

  /** From node `k` up, every node of the run has become a structure. */
  ghost predicate StructChain(types: Registry, parentRefTypes: seq<NodeId>, infos: seq<NodeInfo>, k: nat)
    requires k < |infos|
    decreases k
  {
    var after := Replayed(types, parentRefTypes, infos);
    var j := Position(infos, ParentId(parentRefTypes, infos[k]), k);
    && infos[k].id in after && Structural(after[infos[k].id].kind)
    && (j.Some? ==> StructChain(types, parentRefTypes, infos, j.value))
  }

  /** The members that node `k` finds with its parent. */
  lemma {:induction false} InheritedAt(types: Registry, parentRefTypes: seq<NodeId>, infos: seq<NodeInfo>, k: nat)
    requires AllNew(types, infos) && k < |infos|
    ensures var parent := ParentId(parentRefTypes, infos[k]);
            MembersOf(Replayed(types, parentRefTypes, infos[..k]), parent)
            == MembersOf(if Position(infos, parent, k).Some? then Replayed(types, parentRefTypes, infos) else types, parent)
  {
    FoundAt(types, parentRefTypes, infos, k, ParentId(parentRefTypes, infos[k]));
  }

  /** What a structure makes of the members it finds: the count is a byte. */
  lemma {:induction false} MembersAt(types: Registry, parentRefTypes: seq<NodeId>, infos: seq<NodeInfo>, k: nat)
    requires AllNew(types, infos) && k < |infos| && infos[k].id in Replayed(types, parentRefTypes, infos)
    requires Structural(Replayed(types, parentRefTypes, infos)[infos[k].id].kind)
    ensures Replayed(types, parentRefTypes, infos)[infos[k].id].members
            == Truncated(AllMembers(Replayed(types, parentRefTypes, infos[..k]), ParentId(parentRefTypes, infos[k]), Fields(infos[k])))
  {
    SettledAtOnce(types, parentRefTypes, infos, k);
    if !IsStructLike(infos[k]) {
      assert Fields(infos[k]) == [];
    }
  }

  lemma NotTruncated<T>(s: seq<T>)
    requires |s| < BYTE_SIZE
    ensures Truncated(s) == s
  {
  }

  /** Struct flattening: a structure has the fields along its chain, those of the root first. */
  lemma {:induction false} Flattening(types: Registry, parentRefTypes: seq<NodeId>, infos: seq<NodeInfo>, k: nat)
    requires AllNew(types, infos) && k < |infos| && StructChain(types, parentRefTypes, infos, k)
    requires |Chain(types, parentRefTypes, infos, k)| < BYTE_SIZE
    ensures Replayed(types, parentRefTypes, infos)[infos[k].id].members == Chain(types, parentRefTypes, infos, k)
    decreases k, 1
  {
    MembersAt(types, parentRefTypes, infos, k);
    FlatteningAbove(types, parentRefTypes, infos, k);
    NotTruncated(Chain(types, parentRefTypes, infos, k));
  }

  lemma {:induction false} FlatteningAbove(types: Registry, parentRefTypes: seq<NodeId>, infos: seq<NodeInfo>, k: nat)
    requires AllNew(types, infos) && k < |infos| && StructChain(types, parentRefTypes, infos, k)
    requires |ChainAbove(types, parentRefTypes, infos, k)| < BYTE_SIZE
    ensures MembersOf(Replayed(types, parentRefTypes, infos[..k]), ParentId(parentRefTypes, infos[k]))
            == ChainAbove(types, parentRefTypes, infos, k)
    decreases k, 0
  {
    InheritedAt(types, parentRefTypes, infos, k);
    var j := Position(infos, ParentId(parentRefTypes, infos[k]), k);
    if j.Some? {
      Flattening(types, parentRefTypes, infos, j.value);
    }
  }

  lemma TruncatedIsShort<T>(s: seq<T>)
    ensures |Truncated(s)| < BYTE_SIZE
  {
  }

  /** It has all of them, inherited and own, exactly if there are no more than 255 along the
      whole chain. */
  lemma {:induction false} TruncationIff(types: Registry, parentRefTypes: seq<NodeId>, infos: seq<NodeInfo>, k: nat)
    requires AllNew(types, infos) && k < |infos| && StructChain(types, parentRefTypes, infos, k)
    ensures Replayed(types, parentRefTypes, infos)[infos[k].id].members == Chain(types, parentRefTypes, infos, k)
            <==> |Chain(types, parentRefTypes, infos, k)| < BYTE_SIZE
  {
    if |Chain(types, parentRefTypes, infos, k)| < BYTE_SIZE {
      Flattening(types, parentRefTypes, infos, k);
    } else {
      MembersAt(types, parentRefTypes, infos, k);
      TruncatedIsShort(AllMembers(Replayed(types, parentRefTypes, infos[..k]), ParentId(parentRefTypes, infos[k]), Fields(infos[k])));
    }
  }

  lemma {:induction false} RunKeepsMembersKnown(types: Registry, parentRefTypes: seq<NodeId>, infos: seq<NodeInfo>)
    requires MembersKnown(types)
    ensures MembersKnown(Replayed(types, parentRefTypes, infos))
  {
    if infos != [] {
      RunKeepsMembersKnown(types, parentRefTypes, infos[..|infos| - 1]);
      MembersStayKnown(Replayed(types, parentRefTypes, infos[..|infos| - 1]), parentRefTypes, infos[|infos| - 1]);
    }
  }

  /** The flags of what node `k` builds, from the members it finds and those of its parent. */
  lemma {:induction false} BuiltFlags(types: Registry, parent: NodeId, info: NodeInfo)
    requires var t := Built(types, parent, info); t.Some? && Structural(t.value.kind) && t.value.members == AllMembers(types, parent, Fields(info))
    requires !IsStructLike(info) && parent in types ==> FlagsRight(types, types[parent])
    ensures FlagsRight(types, Built(types, parent, info).value)
  {
    if !IsStructLike(info) {
      assert OwnMembers(Fields(info)) == [];
      assert AllMembers(types, parent, Fields(info)) == types[parent].members;
    }
  }

  /** The flags of a structure are right if those of the types known to the server are, and a byte
      can count the fields along its chain. Other types of the run do not matter. */
  lemma {:induction false} FlagsRightAt(types: Registry, parentRefTypes: seq<NodeId>, infos: seq<NodeInfo>, k: nat)
    requires Sound(types) && AllNew(types, infos) && k < |infos| && StructChain(types, parentRefTypes, infos, k)
    requires |Chain(types, parentRefTypes, infos, k)| < BYTE_SIZE
    ensures FlagsRight(Replayed(types, parentRefTypes, infos), Replayed(types, parentRefTypes, infos)[infos[k].id])
    decreases k, 1
  {
    var before, after := Replayed(types, parentRefTypes, infos[..k]), Replayed(types, parentRefTypes, infos);
    var parent := ParentId(parentRefTypes, infos[k]);
    SettledAtOnce(types, parentRefTypes, infos, k);
    Flattening(types, parentRefTypes, infos, k);
    FlatteningAbove(types, parentRefTypes, infos, k);
    NotEnumLike(types, parentRefTypes, infos, k);
    RunKeepsMembersKnown(types, parentRefTypes, infos[..k]);
    GrowsOnly(types, parentRefTypes, infos, k);
    if parent in before {
      ParentFlags(types, parentRefTypes, infos, k);
    }
    BuiltFlags(before, parent, infos[k]);
    forall m | m in after[infos[k].id].members
      ensures m.memberType in before
    {
      BuiltMembersKnown(before, parent, infos[k], m);
    }
    PlainStays(before, after, after[infos[k].id].members);
  }

  lemma {:induction false} ParentFlags(types: Registry, parentRefTypes: seq<NodeId>, infos: seq<NodeInfo>, k: nat)
    requires Sound(types) && AllNew(types, infos) && k < |infos| && StructChain(types, parentRefTypes, infos, k)
    requires |Chain(types, parentRefTypes, infos, k)| < BYTE_SIZE
    requires ParentId(parentRefTypes, infos[k]) in Replayed(types, parentRefTypes, infos[..k])
    ensures var before, parent := Replayed(types, parentRefTypes, infos[..k]), ParentId(parentRefTypes, infos[k]);
            Structural(before[parent].kind) ==> FlagsRight(before, before[parent])
    decreases k, 0
  {
    var before, after := Replayed(types, parentRefTypes, infos[..k]), Replayed(types, parentRefTypes, infos);
    var parent := ParentId(parentRefTypes, infos[k]);
    var j := Position(infos, parent, k);
    FoundAt(types, parentRefTypes, infos, k, parent);
    GrowsOnly(types, parentRefTypes, infos, k);
    GrowsOnly(types, parentRefTypes, infos[..k], 0);
    assert infos[..k][..0] == [];
    RunKeepsMembersKnown(types, parentRefTypes, infos[..k]);
    if j.Some? {
      FlagsRightAt(types, parentRefTypes, infos, j.value);
      PlainStays(before, after, before[parent].members);
    } else if Structural(before[parent].kind) {
      PlainStays(types, before, before[parent].members);
    }
  }

  /** `id` is the parent of node `k`, or further up its chain. */
  ghost predicate Above(types: Registry, parentRefTypes: seq<NodeId>, infos: seq<NodeInfo>, k: nat, id: NodeId)
    requires k < |infos|
    decreases k
  {
    var parent := ParentId(parentRefTypes, infos[k]);
    var j := Position(infos, parent, k);
    || (parent == id && (j.Some? || parent in types))
    || (j.Some? && Above(types, parentRefTypes, infos, j.value, id))
  }

  /** A structure whose members fit has all that it found. */
  lemma {:induction false} AllMembersAt(types: Registry, parentRefTypes: seq<NodeId>, infos: seq<NodeInfo>, k: nat)
    requires AllNew(types, infos) && RunFits(types, parentRefTypes, infos) && k < |infos|
    requires infos[k].id in Replayed(types, parentRefTypes, infos)
    requires Structural(Replayed(types, parentRefTypes, infos)[infos[k].id].kind)
    ensures Replayed(types, parentRefTypes, infos)[infos[k].id].members
            == AllMembers(Replayed(types, parentRefTypes, infos[..k]), ParentId(parentRefTypes, infos[k]), Fields(infos[k]))
  {
    MembersAt(types, parentRefTypes, infos, k);
    NotEnumLike(types, parentRefTypes, infos, k);
    assert Fits(Replayed(types, parentRefTypes, infos[..k]), parentRefTypes, infos[k]);
    NotTruncated(AllMembers(Replayed(types, parentRefTypes, infos[..k]), ParentId(parentRefTypes, infos[k]), Fields(infos[k])));
  }

  lemma {:induction false} ParentMembersKept(types: Registry, parentRefTypes: seq<NodeId>, infos: seq<NodeInfo>, k: nat, m: Member)
    requires AllNew(types, infos) && RunFits(types, parentRefTypes, infos) && k < |infos|
    requires infos[k].id in Replayed(types, parentRefTypes, infos)
    requires Structural(Replayed(types, parentRefTypes, infos)[infos[k].id].kind)
    requires var parent := ParentId(parentRefTypes, infos[k]);
             && (Position(infos, parent, k).Some? || parent in types)
             && m in MembersOf(Replayed(types, parentRefTypes, infos), parent)
    ensures m in Replayed(types, parentRefTypes, infos)[infos[k].id].members
  {
    AllMembersAt(types, parentRefTypes, infos, k);
    FoundAt(types, parentRefTypes, infos, k, ParentId(parentRefTypes, infos[k]));
  }

  lemma {:induction false} NotEnumLike(types: Registry, parentRefTypes: seq<NodeId>, infos: seq<NodeInfo>, k: nat)
    requires AllNew(types, infos) && k < |infos| && infos[k].id in Replayed(types, parentRefTypes, infos)
    requires Structural(Replayed(types, parentRefTypes, infos)[infos[k].id].kind)
    ensures !IsEnumLike(infos[k])
  {
    SettledAtOnce(types, parentRefTypes, infos, k);
  }

  /** Down a chain of structures, pointer-freeness is only ever lost and optional fields are
      only ever gained, however far apart the two structures are. */
  lemma {:induction false} FlagsAlongChain(types: Registry, parentRefTypes: seq<NodeId>, infos: seq<NodeInfo>, k: nat, id: NodeId)
    requires Sound(types) && AllNew(types, infos) && RunFits(types, parentRefTypes, infos)
    requires k < |infos| && StructChain(types, parentRefTypes, infos, k) && Above(types, parentRefTypes, infos, k, id)
    requires id in Replayed(types, parentRefTypes, infos) && Structural(Replayed(types, parentRefTypes, infos)[id].kind)
    ensures var after := Replayed(types, parentRefTypes, infos);
            && (after[infos[k].id].pointerFree ==> after[id].pointerFree)
            && (after[id].kind == OptStructKind ==> after[infos[k].id].kind == OptStructKind)
    decreases k
  {
    var after := Replayed(types, parentRefTypes, infos);
    var parent := ParentId(parentRefTypes, infos[k]);
    var j := Position(infos, parent, k);
    SoundRun(types, parentRefTypes, infos);
    if j.Some? && Above(types, parentRefTypes, infos, j.value, id) {
      FlagsAlongChain(types, parentRefTypes, infos, j.value, id);
      assert parent == infos[j.value].id;
    }
    forall m | m in MembersOf(after, parent)
      ensures m in after[infos[k].id].members
    {
      ParentMembersKept(types, parentRefTypes, infos, k, m);
    }
    FlagsOfMore(after, after[parent], after[infos[k].id]);
  }

  lemma FlagsOfMore(types: Registry, p: UADataType, t: UADataType)
    requires FlagsRight(types, p) && FlagsRight(types, t)
    requires forall m :: m in p.members ==> m in t.members
    ensures (t.pointerFree ==> p.pointerFree) && (p.kind == OptStructKind ==> t.kind == OptStructKind)
  {
  }
}
