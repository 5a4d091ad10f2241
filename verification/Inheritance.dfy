/** What a structure inherits, by the ids of the records and in the order of the sort. */
module Inheritance {
  import opened NodeIds
  import opened NodeRecords
  import opened Nodes
  import opened Parents
  import opened DataTypes
  import opened TypeTheorems
  import opened Loader
  import opened Replay

  /** `p` runs from a record along the parents, up to a record whose parent is not among the
      records. No order is involved. */
  ghost predicate Ancestry(records: set<NodeInfo>, parentRefTypes: seq<NodeId>, p: seq<NodeInfo>) {
    && |p| > 0
    && (forall i :: 0 <= i < |p| ==> p[i] in records)
    && (forall i :: 0 <= i < |p| - 1 ==> ParentRef(parentRefTypes, p[i].refs).Some? && p[i + 1].id == ParentId(parentRefTypes, p[i]))
    && ParentId(parentRefTypes, p[|p| - 1]) !in Ids(records)
  }

  /** The fields along an ancestry, those of the root first, behind what the server knows of
      the root's parent. */
  ghost function FieldsAlong(types: Registry, parentRefTypes: seq<NodeId>, p: seq<NodeInfo>): seq<Member>
    requires |p| > 0
  {
    (if |p| == 1 then MembersOf(types, ParentId(parentRefTypes, p[0])) else FieldsAlong(types, parentRefTypes, p[1..]))
    + OwnMembers(Fields(p[0]))
  }

  /** A run over records in an order in which blockers come first. */
  ghost predicate SortedRun(records: set<NodeInfo>, parentRefTypes: seq<NodeId>, infos: seq<NodeInfo>) {
    && DistinctIds(records) && Elems(infos) <= records
    && BlockersFirstIn(records, infos) && HAS_TYPE_DEFINITION !in parentRefTypes
  }

  /** The parent of a record of the run has its turn before it. */
  lemma {:induction false} ParentBefore(records: set<NodeInfo>, parentRefTypes: seq<NodeId>, infos: seq<NodeInfo>, p: seq<NodeInfo>, k: nat)
    returns (j: nat)
    requires SortedRun(records, parentRefTypes, infos) && Ancestry(records, parentRefTypes, p) && |p| > 1
    requires k < |infos| && infos[k] == p[0]
    ensures j < k && Position(infos, ParentId(parentRefTypes, infos[k]), k) == Some(j)
    ensures infos[j] == p[1] && Ancestry(records, parentRefTypes, p[1..])
  {
    assert p[1] in records;
    ParentPositioned(records, infos, parentRefTypes, k);
    j := Position(infos, ParentId(parentRefTypes, infos[k]), k).value;
    assert infos[j] in Elems(infos);
  }

  lemma {:induction false} NoParentBefore(records: set<NodeInfo>, parentRefTypes: seq<NodeId>, infos: seq<NodeInfo>, k: nat)
    requires Elems(infos) <= records && k < |infos| && ParentId(parentRefTypes, infos[k]) !in Ids(records)
    ensures Position(infos, ParentId(parentRefTypes, infos[k]), k) == None
  {
    assert forall j :: 0 <= j < k ==> infos[j] in Elems(infos);
  }

  /** In a sorted run, nothing of an ancestry is missed: the chain that the importer follows is
      the one that the ids give. */
  lemma {:induction false} ChainIsAncestry(types: Registry, records: set<NodeInfo>, parentRefTypes: seq<NodeId>, infos: seq<NodeInfo>,
                                           p: seq<NodeInfo>, k: nat)
    requires SortedRun(records, parentRefTypes, infos) && Ancestry(records, parentRefTypes, p)
    requires k < |infos| && infos[k] == p[0]
    ensures Chain(types, parentRefTypes, infos, k) == FieldsAlong(types, parentRefTypes, p)
    decreases k
  {
    if |p| == 1 {
      NoParentBefore(records, parentRefTypes, infos, k);
    } else {
      var j := ParentBefore(records, parentRefTypes, infos, p, k);
      ChainIsAncestry(types, records, parentRefTypes, infos, p[1..], j);
    }
  }

  /** All of these records have become structures. */
  ghost predicate Structures(types: Registry, p: seq<NodeInfo>) {
    forall i :: 0 <= i < |p| ==> p[i].id in types && Structural(types[p[i].id].kind)
  }

  lemma {:induction false} StructuresChain(types: Registry, records: set<NodeInfo>, parentRefTypes: seq<NodeId>, infos: seq<NodeInfo>,
                                           p: seq<NodeInfo>, k: nat)
    requires SortedRun(records, parentRefTypes, infos) && Ancestry(records, parentRefTypes, p)
    requires k < |infos| && infos[k] == p[0] && Structures(Replayed(types, parentRefTypes, infos), p)
    ensures StructChain(types, parentRefTypes, infos, k)
    decreases k
  {
    if |p| == 1 {
      NoParentBefore(records, parentRefTypes, infos, k);
    } else {
      var j := ParentBefore(records, parentRefTypes, infos, p, k);
      assert p[1..][0] == p[1];
      StructuresChain(types, records, parentRefTypes, infos, p[1..], j);
    }
  }

  /** A registered record has had its turn. */
  lemma {:induction false} TurnOf(types: Registry, records: set<NodeInfo>, parentRefTypes: seq<NodeId>, infos: seq<NodeInfo>, r: NodeInfo)
    returns (k: nat)
    requires DistinctIds(records) && Elems(infos) <= records && r in records
    requires r.id !in types && r.id in Replayed(types, parentRefTypes, infos)
    ensures k < |infos| && infos[k] == r
  {
    assert infos[..|infos|] == infos;
    RegisteredBy(types, parentRefTypes, infos, |infos|, r.id);
    k :| k < |infos| && infos[k].id == r.id;
    assert infos[k] in Elems(infos);
  }

  /** Struct flattening: in a sorted run, a structure has the fields along its whole ancestry,
      those of the root first, exactly if there are no more than 255 of them. */
  lemma {:induction false} FlatteningIff(types: Registry, records: set<NodeInfo>, parentRefTypes: seq<NodeId>, infos: seq<NodeInfo>,
                                         p: seq<NodeInfo>)
    requires SortedRun(records, parentRefTypes, infos) && AllNew(types, infos)
    requires Ancestry(records, parentRefTypes, p) && p[0].id !in types && Structures(Replayed(types, parentRefTypes, infos), p)
    ensures Replayed(types, parentRefTypes, infos)[p[0].id].members == FieldsAlong(types, parentRefTypes, p)
            <==> |FieldsAlong(types, parentRefTypes, p)| < 256
  {
    var k := TurnOf(types, records, parentRefTypes, infos, p[0]);
    ChainIsAncestry(types, records, parentRefTypes, infos, p, k);
    StructuresChain(types, records, parentRefTypes, infos, p, k);
    TruncationIff(types, parentRefTypes, infos, k);
  }

  lemma {:induction false} AncestryAbove(types: Registry, records: set<NodeInfo>, parentRefTypes: seq<NodeId>, infos: seq<NodeInfo>,
                                         p: seq<NodeInfo>, k: nat, i: nat)
    requires SortedRun(records, parentRefTypes, infos) && Ancestry(records, parentRefTypes, p)
    requires k < |infos| && infos[k] == p[0] && 0 < i < |p|
    ensures Above(types, parentRefTypes, infos, k, p[i].id)
    decreases k
  {
    var j := ParentBefore(records, parentRefTypes, infos, p, k);
    if i > 1 {
      AncestryAbove(types, records, parentRefTypes, infos, p[1..], j, i - 1);
    }
  }

  /** In a sorted run, pointer-freeness is only lost and optional fields are only gained from an
      ancestor down to a structure. */
  lemma {:induction false} FlagsOfAncestors(types: Registry, records: set<NodeInfo>, parentRefTypes: seq<NodeId>, infos: seq<NodeInfo>,
                                            p: seq<NodeInfo>, i: nat)
    requires SortedRun(records, parentRefTypes, infos) && AllNew(types, infos)
    requires Sound(types) && RunFits(types, parentRefTypes, infos)
    requires Ancestry(records, parentRefTypes, p) && p[0].id !in types && Structures(Replayed(types, parentRefTypes, infos), p)
    requires 0 < i < |p|
    ensures var after := Replayed(types, parentRefTypes, infos);
            && (after[p[0].id].pointerFree ==> after[p[i].id].pointerFree)
            && (after[p[i].id].kind == OptStructKind ==> after[p[0].id].kind == OptStructKind)
  {
    var k := TurnOf(types, records, parentRefTypes, infos, p[0]);
    StructuresChain(types, records, parentRefTypes, infos, p, k);
    AncestryAbove(types, records, parentRefTypes, infos, p, k, i);
    FlagsAlongChain(types, parentRefTypes, infos, k, p[i].id);
  }

  lemma {:induction false} AlongIs(types: Registry, parentRefTypes: seq<NodeId>, p: seq<NodeInfo>)
    requires |p| > 0
    ensures forall m :: m in FieldsAlong(types, parentRefTypes, p) <==>
              || m in MembersOf(types, ParentId(parentRefTypes, p[|p| - 1]))
              || exists i, f :: 0 <= i < |p| && f in Fields(p[i]) && m == OwnMember(f)
  {
    var own := OwnMembers(Fields(p[0]));
    forall m
      ensures m in own <==> exists f :: f in Fields(p[0]) && m == OwnMember(f)
    {
      if m in own {
        var i :| 0 <= i < |own| && own[i] == m;
        assert Fields(p[0])[i] in Fields(p[0]);
      }
      if f :| f in Fields(p[0]) && m == OwnMember(f) {
        var i :| 0 <= i < |own| && Fields(p[0])[i] == f;
        assert own[i] == m;
      }
    }
    if |p| > 1 {
      AlongIs(types, parentRefTypes, p[1..]);
      forall m
        ensures m in FieldsAlong(types, parentRefTypes, p) <==>
                  || m in MembersOf(types, ParentId(parentRefTypes, p[|p| - 1]))
                  || exists i, f :: 0 <= i < |p| && f in Fields(p[i]) && m == OwnMember(f)
      {
        if i, f :| 0 <= i < |p[1..]| && f in Fields(p[1..][i]) && m == OwnMember(f) {
          assert p[1..][i] == p[i + 1];
        }
        if i, f :| 0 < i < |p| && f in Fields(p[i]) && m == OwnMember(f) {
          assert p[1..][i - 1] == p[i];
        }
      }
    }
  }

  /** In a sorted run, a structure is pointer-free exactly when no field along its ancestry is an
      array, is optional or has a type that is not pointer-free, and the same of what the server
      knows of the root's parent. */
  lemma {:induction false} PointerFreeIff(types: Registry, records: set<NodeInfo>, parentRefTypes: seq<NodeId>, infos: seq<NodeInfo>,
                                          p: seq<NodeInfo>)
    requires SortedRun(records, parentRefTypes, infos) && AllNew(types, infos) && Sound(types)
    requires Ancestry(records, parentRefTypes, p) && p[0].id !in types && Structures(Replayed(types, parentRefTypes, infos), p)
    requires |FieldsAlong(types, parentRefTypes, p)| < 256
    ensures Replayed(types, parentRefTypes, infos)[p[0].id].pointerFree <==>
              && PlainFields(Replayed(types, parentRefTypes, infos), p)
              && PlainMembers(Replayed(types, parentRefTypes, infos), MembersOf(types, ParentId(parentRefTypes, p[|p| - 1])))
  {
    var after := Replayed(types, parentRefTypes, infos);
    FlagsOfStructure(types, records, parentRefTypes, infos, p);
    PlainAlong(after, types, parentRefTypes, p);
  }

  /** One field is enough: an array, an optional field or one of a type that is not pointer-free. */
  lemma {:induction false} NotPointerFree(types: Registry, records: set<NodeInfo>, parentRefTypes: seq<NodeId>, infos: seq<NodeInfo>,
                                          p: seq<NodeInfo>, i: nat, f: Field)
    requires SortedRun(records, parentRefTypes, infos) && AllNew(types, infos) && Sound(types)
    requires Ancestry(records, parentRefTypes, p) && p[0].id !in types && Structures(Replayed(types, parentRefTypes, infos), p)
    requires |FieldsAlong(types, parentRefTypes, p)| < 256
    requires i < |p| && p[i].definition.Some? && f in p[i].definition.value.fields
    ensures var after := Replayed(types, parentRefTypes, infos);
            f.valueRank >= 0 || f.isOptional || f.dataType !in after || !after[f.dataType].pointerFree ==> !after[p[0].id].pointerFree
  {
    PointerFreeIff(types, records, parentRefTypes, infos, p);
    assert f in Fields(p[i]);
  }

  /** Scalar, mandatory fields of pointer-free types make a pointer-free structure, where the
      server knows no members of the root's parent. */
  lemma {:induction false} PointerFree(types: Registry, records: set<NodeInfo>, parentRefTypes: seq<NodeId>, infos: seq<NodeInfo>,
                                       p: seq<NodeInfo>)
    requires SortedRun(records, parentRefTypes, infos) && AllNew(types, infos) && Sound(types)
    requires Ancestry(records, parentRefTypes, p) && p[0].id !in types && Structures(Replayed(types, parentRefTypes, infos), p)
    requires |FieldsAlong(types, parentRefTypes, p)| < 256 && MembersOf(types, ParentId(parentRefTypes, p[|p| - 1])) == []
    requires forall i, f :: 0 <= i < |p| && p[i].definition.Some? && f in p[i].definition.value.fields ==>
               f.valueRank < 0 && !f.isOptional && f.dataType in Replayed(types, parentRefTypes, infos)
               && Replayed(types, parentRefTypes, infos)[f.dataType].pointerFree
    ensures Replayed(types, parentRefTypes, infos)[p[0].id].pointerFree
  {
    PointerFreeIff(types, records, parentRefTypes, infos, p);
    assert PlainFields(Replayed(types, parentRefTypes, infos), p);
  }

  /** It has optional fields exactly when one of them is optional. */
  lemma {:induction false} OptionalIff(types: Registry, records: set<NodeInfo>, parentRefTypes: seq<NodeId>, infos: seq<NodeInfo>,
                                       p: seq<NodeInfo>)
    requires SortedRun(records, parentRefTypes, infos) && AllNew(types, infos) && Sound(types)
    requires Ancestry(records, parentRefTypes, p) && p[0].id !in types && Structures(Replayed(types, parentRefTypes, infos), p)
    requires |FieldsAlong(types, parentRefTypes, p)| < 256
    ensures Replayed(types, parentRefTypes, infos)[p[0].id].kind == OptStructKind <==>
              || (exists i, f :: 0 <= i < |p| && f in Fields(p[i]) && f.isOptional)
              || (exists m :: m in MembersOf(types, ParentId(parentRefTypes, p[|p| - 1])) && m.isOptional)
  {
    FlagsOfStructure(types, records, parentRefTypes, infos, p);
    OptionalAlong(types, parentRefTypes, p);
  }

  lemma {:induction false} FlagsOfStructure(types: Registry, records: set<NodeInfo>, parentRefTypes: seq<NodeId>, infos: seq<NodeInfo>,
                                            p: seq<NodeInfo>)
    requires SortedRun(records, parentRefTypes, infos) && AllNew(types, infos) && Sound(types)
    requires Ancestry(records, parentRefTypes, p) && p[0].id !in types && Structures(Replayed(types, parentRefTypes, infos), p)
    requires |FieldsAlong(types, parentRefTypes, p)| < BYTE_SIZE
    ensures var after := Replayed(types, parentRefTypes, infos);
            && (after[p[0].id].pointerFree <==> AllPlain(after, FieldsAlong(types, parentRefTypes, p)))
            && (after[p[0].id].kind == OptStructKind <==> SomeOptional(FieldsAlong(types, parentRefTypes, p)))
  {
    var k := TurnOf(types, records, parentRefTypes, infos, p[0]);
    ChainIsAncestry(types, records, parentRefTypes, infos, p, k);
    StructuresChain(types, records, parentRefTypes, infos, p, k);
    Flattening(types, parentRefTypes, infos, k);
    FlagsRightAt(types, parentRefTypes, infos, k);
  }

  ghost predicate PlainFields(types: Registry, p: seq<NodeInfo>) {
    forall i, f :: 0 <= i < |p| && f in Fields(p[i]) ==>
      f.valueRank < 0 && !f.isOptional && f.dataType in types && types[f.dataType].pointerFree
  }

  ghost predicate PlainMembers(types: Registry, ms: seq<Member>) {
    forall m :: m in ms ==> !m.isArray && !m.isOptional && m.memberType in types && types[m.memberType].pointerFree
  }

  lemma {:induction false} PlainAlong(after: Registry, types: Registry, parentRefTypes: seq<NodeId>, p: seq<NodeInfo>)
    requires |p| > 0
    ensures AllPlain(after, FieldsAlong(types, parentRefTypes, p)) <==>
              PlainFields(after, p) && PlainMembers(after, MembersOf(types, ParentId(parentRefTypes, p[|p| - 1])))
  {
    var along, known := FieldsAlong(types, parentRefTypes, p), MembersOf(types, ParentId(parentRefTypes, p[|p| - 1]));
    AlongIs(types, parentRefTypes, p);
    if AllPlain(after, along) {
      forall i, f | 0 <= i < |p| && f in Fields(p[i])
        ensures f.valueRank < 0 && !f.isOptional && f.dataType in after && after[f.dataType].pointerFree
      {
        assert OwnMember(f) in along;
      }
      forall m | m in known
        ensures !m.isArray && !m.isOptional && m.memberType in after && after[m.memberType].pointerFree
      {
        assert m in along;
      }
    } else {
      var m :| m in along && !Plain(after, m);
      if m !in known {
        var i, f :| 0 <= i < |p| && f in Fields(p[i]) && m == OwnMember(f);
        assert !(f.valueRank < 0 && !f.isOptional && f.dataType in after && after[f.dataType].pointerFree);
      }
    }
  }

  lemma {:induction false} OptionalAlong(types: Registry, parentRefTypes: seq<NodeId>, p: seq<NodeInfo>)
    requires |p| > 0
    ensures SomeOptional(FieldsAlong(types, parentRefTypes, p)) <==>
              || (exists i, f :: 0 <= i < |p| && f in Fields(p[i]) && f.isOptional)
              || (exists m :: m in MembersOf(types, ParentId(parentRefTypes, p[|p| - 1])) && m.isOptional)
  {
    var along, known := FieldsAlong(types, parentRefTypes, p), MembersOf(types, ParentId(parentRefTypes, p[|p| - 1]));
    AlongIs(types, parentRefTypes, p);
    if i, f :| 0 <= i < |p| && f in Fields(p[i]) && f.isOptional {
      assert OwnMember(f) in along && OwnMember(f).isOptional;
    }
    if m :| m in known && m.isOptional {
      assert m in along;
    }
    if m :| m in along && m.isOptional && m !in known {
      var i, f :| 0 <= i < |p| && f in Fields(p[i]) && m == OwnMember(f);
      assert f.isOptional;
    }
  }

  /** Every record of a sorted run has an ancestry, unless a record has the null id. */
  lemma {:induction false} AncestryOf(records: set<NodeInfo>, parentRefTypes: seq<NodeId>, infos: seq<NodeInfo>, k: nat)
    returns (p: seq<NodeInfo>)
    requires SortedRun(records, parentRefTypes, infos) && NULL_ID !in Ids(records) && k < |infos|
    ensures Ancestry(records, parentRefTypes, p) && p[0] == infos[k]
    decreases k
  {
    assert infos[k] in Elems(infos);
    if ParentId(parentRefTypes, infos[k]) !in Ids(records) {
      return [infos[k]];
    }
    ParentPositioned(records, infos, parentRefTypes, k);
    var above := AncestryOf(records, parentRefTypes, infos, Position(infos, ParentId(parentRefTypes, infos[k]), k).value);
    OneMoreDescendant(records, parentRefTypes, infos[k], above);
    p := [infos[k]] + above;
  }

  lemma OneMoreDescendant(records: set<NodeInfo>, parentRefTypes: seq<NodeId>, r: NodeInfo, above: seq<NodeInfo>)
    requires Ancestry(records, parentRefTypes, above) && r in records
    requires ParentRef(parentRefTypes, r.refs).Some? && above[0].id == ParentId(parentRefTypes, r)
    ensures Ancestry(records, parentRefTypes, [r] + above)
  {
    var p := [r] + above;
    assert forall i :: 0 <= i < |above| ==> p[i + 1] == above[i];
  }

  // ----- one field too many

  /** A structure with `n` fields and no parent. */
  function Wide(id: NodeId, fieldType: NodeId, n: nat): NodeInfo {
    var none := LocalizedText(None, None);
    var fields := seq(n, _ => Field(Some("Value"), fieldType, -1, 0, false));
    NodeInfo(DataType, id, QualifiedName(0, "Wide"), none, none, none, [], Some(Definition(fields, false, false, false)))
  }

  /** A structure with 256 fields is registered without any members. */
  lemma {:induction false} AllFieldsLost(types: Registry, parentRefTypes: seq<NodeId>, id: NodeId, fieldType: NodeId)
    requires fieldType in types && id !in types && NULL_ID !in types
    ensures var wide := Wide(id, fieldType, 256);
            var after := Replayed(types, parentRefTypes, [wide]);
            && |FieldsAlong(types, parentRefTypes, [wide])| == 256
            && id in after && after[id].members == []
  {
    var wide := Wide(id, fieldType, 256);
    assert [wide][..0] == [];
    assert Replayed(types, parentRefTypes, [wide]) == Added(types, parentRefTypes, wide);
    assert Fields(wide)[0] == Field(Some("Value"), fieldType, -1, 0, false);
  }

  // ----- the runs of a load

  /** The first ones of an order in which blockers come first. */
  lemma FirstOfSorted(records: set<NodeInfo>, order: seq<NodeInfo>, n: nat)
    requires BlockersFirstIn(records, order) && n <= |order|
    ensures BlockersFirstIn(records, order[..n])
  {
    forall i, r | 0 <= i < n && r in order[..n][i].refs && Blocks(r.refType, r.isForward) && r.target in Ids(records)
      ensures r.target in Ids(Elems(order[..n][..i]))
    {
      assert order[..n][..i] == order[..i];
    }
  }

  lemma IdsDiffer(records: seq<NodeInfo>)
    requires NoIdTwice(records)
    ensures DistinctIds(Elems(records))
  {
  }

  lemma NewOnes(types: Registry, order: seq<NodeInfo>, n: nat)
    requires NoIdTwice(order) && n <= |order| && forall r :: r in order ==> r.id !in types
    ensures AllNew(types, order[..n]) && Elems(order[..n]) <= Elems(order)
  {
  }

  lemma LoadedRun(types: Registry, records: seq<NodeInfo>, parentRefTypes: seq<NodeId>, accepts: AddNode -> bool,
                  status: bool, calls: seq<AddNode>, order: seq<NodeInfo>)
    requires Faithful(records, parentRefTypes, accepts, status, calls, order) && |calls| <= |order|
    requires NoIdTwice(records) && HAS_TYPE_DEFINITION !in parentRefTypes && forall r :: r in records ==> r.id !in types
    ensures SortedRun(Elems(records), parentRefTypes, order[..|calls|]) && AllNew(types, order[..|calls|])
  {
    FirstOfSorted(Elems(records), order, |calls|);
    IdsDiffer(records);
    assert forall r :: r in order ==> r in Elems(order);
    NewOnes(types, order, |calls|);
  }

  /** The structures that a load registers have the fields along their ancestry in the document,
      those of the root first, exactly if there are no more than 255 of them. */
  lemma {:induction false} LoadedFlatteningIff(types: Registry, records: seq<NodeInfo>, parentRefTypes: seq<NodeId>, accepts: AddNode -> bool,
                                               status: bool, calls: seq<AddNode>, order: seq<NodeInfo>, p: seq<NodeInfo>)
    requires Faithful(records, parentRefTypes, accepts, status, calls, order) && |calls| <= |order|
    requires NoIdTwice(records) && HAS_TYPE_DEFINITION !in parentRefTypes && forall r :: r in records ==> r.id !in types
    requires Ancestry(Elems(records), parentRefTypes, p) && Structures(Replayed(types, parentRefTypes, order[..|calls|]), p)
    ensures Replayed(types, parentRefTypes, order[..|calls|])[p[0].id].members == FieldsAlong(types, parentRefTypes, p)
            <==> |FieldsAlong(types, parentRefTypes, p)| < 256
  {
    LoadedRun(types, records, parentRefTypes, accepts, status, calls, order);
    FlatteningIff(types, Elems(records), parentRefTypes, order[..|calls|], p);
  }
}
