/** The parent and the type definition of a node, looked up in its references. */
module Parents {
  import opened NodeIds
  import opened NodeRecords
  import opened Nodes

  predicate IsParentRef(parentRefTypes: seq<NodeId>, r: Ref) {
    !r.isForward && r.refType in parentRefTypes
  }

  predicate IsTypeDefinition(r: Ref) {
    r.isForward && r.refType == HAS_TYPE_DEFINITION
  }

  /** `r` is the first of these references of its kind; None says that there is none. */
  predicate IsFirst(refs: seq<Ref>, r: Option<Ref>, kind: Ref -> bool) {
    match r
    case None => forall x :: x in refs ==> !kind(x)
    case Some(f) => exists i :: 0 <= i < |refs| && refs[i] == f && kind(f) && forall j :: 0 <= j < i ==> !kind(refs[j])
  }

  function First(refs: seq<Ref>, kind: Ref -> bool): (r: Option<Ref>)
    ensures IsFirst(refs, r, kind)
  {
    if refs == [] then None
    else if kind(refs[0]) then Some(refs[0])
    else
      var r := First(refs[1..], kind);
      assert r.Some? ==> exists i :: 0 <= i < |refs[1..]| && refs[1..][i] == r.value && refs[i + 1] == r.value
                                     && kind(r.value) && forall j :: 0 <= j < i ==> !kind(refs[1..][j]);
      r
  }

  lemma {:induction false} FirstIs(refs: seq<Ref>, kind: Ref -> bool, i: nat)
    requires i <= |refs| && forall j :: 0 <= j < i ==> !kind(refs[j])
    ensures First(refs, kind) == First(refs[i..], kind)
  {
  }

  function ParentRef(parentRefTypes: seq<NodeId>, refs: seq<Ref>): Option<Ref> {
    First(refs, r => IsParentRef(parentRefTypes, r))
  }

  function TypeDefinitionRef(refs: seq<Ref>): Option<Ref> {
    First(refs, r => IsTypeDefinition(r))
  }

  function TargetOf(r: Option<Ref>): NodeId {
    if r.Some? then r.value.target else NULL_ID
  }

  function TypeOf(r: Option<Ref>): NodeId {
    if r.Some? then r.value.refType else NULL_ID
  }

  /** The parent, spelled out. */
  lemma {:induction false} ParentSpelledOut(parentRefTypes: seq<NodeId>, refs: seq<Ref>)
    ensures var id, via := TargetOf(ParentRef(parentRefTypes, refs)), TypeOf(ParentRef(parentRefTypes, refs));
            || (id == NodeId(0, Numeric, [0]) && via == NodeId(0, Numeric, [0])
                && forall r :: r in refs ==> r.isForward || r.refType !in parentRefTypes)
            || exists i :: 0 <= i < |refs| && !refs[i].isForward && refs[i].refType in parentRefTypes
                           && via == refs[i].refType && id == refs[i].target
                           && forall j :: 0 <= j < i ==> refs[j].isForward || refs[j].refType !in parentRefTypes
  {
    var parent := ParentRef(parentRefTypes, refs);
    if parent == None {
      forall r | r in refs
        ensures r.isForward || r.refType !in parentRefTypes
      {
        assert !IsParentRef(parentRefTypes, r);
      }
    } else {
      var kind := (r: Ref) => IsParentRef(parentRefTypes, r);
      var i :| 0 <= i < |refs| && refs[i] == parent.value && kind(parent.value) && forall j :: 0 <= j < i ==> !kind(refs[j]);
      assert forall j :: 0 <= j < i ==> !IsParentRef(parentRefTypes, refs[j]);
    }
  }

  /** The type definition, spelled out. */
  lemma {:induction false} TypeDefinitionSpelledOut(refs: seq<Ref>)
    ensures var id := TargetOf(TypeDefinitionRef(refs));
            || (id == NodeId(0, Numeric, [0]) && forall r :: r in refs ==> !r.isForward || r.refType != NodeId(0, Numeric, [40]))
            || exists i :: 0 <= i < |refs| && refs[i].isForward && refs[i].refType == NodeId(0, Numeric, [40]) && id == refs[i].target
                           && forall j :: 0 <= j < i ==> !refs[j].isForward || refs[j].refType != NodeId(0, Numeric, [40])
  {
    var definition := TypeDefinitionRef(refs);
    if definition == None {
      forall r | r in refs
        ensures !r.isForward || r.refType != NodeId(0, Numeric, [40])
      {
        assert !IsTypeDefinition(r);
      }
    } else {
      var kind := (r: Ref) => IsTypeDefinition(r);
      var i :| 0 <= i < |refs| && refs[i] == definition.value && kind(definition.value) && forall j :: 0 <= j < i ==> !kind(refs[j]);
      assert forall j :: 0 <= j < i ==> !IsTypeDefinition(refs[j]);
    }
  }

  /** The first inverse reference of a type that can point to a parent. */
  method GetParentId(parentRefTypes: seq<NodeId>, node: Node, ghost info: NodeInfo) returns (parentId: NodeId, parentRefId: NodeId)
    requires node.Matches(info)
    ensures parentId == TargetOf(ParentRef(parentRefTypes, info.refs))
    ensures parentRefId == TypeOf(ParentRef(parentRefTypes, info.refs))
    ensures || (parentId == NodeId(0, Numeric, [0]) && parentRefId == NodeId(0, Numeric, [0])
                && forall r :: r in info.refs ==> r.isForward || r.refType !in parentRefTypes)
            || exists i :: 0 <= i < |info.refs| && !info.refs[i].isForward && info.refs[i].refType in parentRefTypes
                           && parentRefId == info.refs[i].refType && parentId == info.refs[i].target
                           && forall j :: 0 <= j < i ==> info.refs[j].isForward || info.refs[j].refType !in parentRefTypes
  {
    ParentSpelledOut(parentRefTypes, info.refs);
    ghost var kind := (r: Ref) => IsParentRef(parentRefTypes, r);
    var i := 0;
    while i < |node.refs|
      invariant 0 <= i <= |node.refs|
      invariant forall j :: 0 <= j < i ==> !kind(info.refs[j])
    {
      var ref := node.refs[i];
      i := i + 1;
      if ref.isForward {
        continue;
      }
      var k := 0;
      while k < |parentRefTypes|
        invariant 0 <= k <= |parentRefTypes| && ref.refType !in parentRefTypes[..k]
      {
        if ref.refType == parentRefTypes[k] {
          FirstIs(info.refs, kind, i - 1);
          return ref.target, ref.refType;
        }
        k := k + 1;
      }
    }
    FirstIs(info.refs, kind, |info.refs|);
    return NULL_ID, NULL_ID;
  }

  method GetTypeDefId(node: Node, ghost info: NodeInfo) returns (typeDefId: NodeId)
    requires node.Matches(info)
    ensures typeDefId == TargetOf(TypeDefinitionRef(info.refs))
    ensures || (typeDefId == NodeId(0, Numeric, [0])
                && forall r :: r in info.refs ==> !r.isForward || r.refType != NodeId(0, Numeric, [40]))
            || exists i :: 0 <= i < |info.refs| && info.refs[i].isForward && info.refs[i].refType == NodeId(0, Numeric, [40])
                           && typeDefId == info.refs[i].target
                           && forall j :: 0 <= j < i ==> !info.refs[j].isForward || info.refs[j].refType != NodeId(0, Numeric, [40])
  {
    TypeDefinitionSpelledOut(info.refs);
    ghost var kind := (r: Ref) => IsTypeDefinition(r);
    var i := 0;
    while i < |node.refs|
      invariant 0 <= i <= |node.refs|
      invariant forall j :: 0 <= j < i ==> !kind(info.refs[j])
    {
      var ref := node.refs[i];
      i := i + 1;
      if !ref.isForward {
        continue;
      }
      if ref.refType == HAS_TYPE_DEFINITION {
        FirstIs(info.refs, kind, i - 1);
        return ref.target;
      }
    }
    FirstIs(info.refs, kind, |info.refs|);
    return NULL_ID;
  }
}
