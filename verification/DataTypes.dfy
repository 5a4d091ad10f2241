/** Turning DataType nodes into type descriptions of the server, one node after the other. */
module DataTypes {
  import opened NodeIds
  import opened NodeRecords
  import opened Nodes
  import opened Parents

  /** The kinds of the server library. The numeric ones end with Double. */
  datatype Kind = NumericKind(n: nat) | OtherBuiltin(n: nat) | EnumKind | StructKind | OptStructKind | UnionKind

  datatype Member = Member(name: Option<string>, memberType: NodeId, isArray: bool, isOptional: bool)

  datatype Literal = Literal(name: Option<string>, value: int)

  datatype UADataType = UADataType(id: NodeId, kind: Kind, pointerFree: bool, members: seq<Member>, literals: seq<Literal>)

  /** The types the server knows, by id. Types are added and never changed. */
  type Registry = map<NodeId, UADataType>

  /** The sizes of the server's lists of members are bytes. */
  const BYTE_SIZE := 256

  predicate Structural(k: Kind) {
    k == StructKind || k == OptStructKind || k == UnionKind
  }

  // ----- members

  predicate Plain(types: Registry, m: Member) {
    !m.isArray && !m.isOptional && m.memberType in types && types[m.memberType].pointerFree
  }

  predicate AllPlain(types: Registry, ms: seq<Member>) {
    forall m | m in ms :: Plain(types, m)
  }

  predicate SomeOptional(ms: seq<Member>) {
    exists m | m in ms :: m.isOptional
  }

  function OwnMember(f: Field): Member {
    Member(f.name, f.dataType, f.valueRank >= 0, f.isOptional)
  }

  function OwnMembers(fields: seq<Field>): (r: seq<Member>)
    ensures |r| == |fields| && forall i :: 0 <= i < |r| ==> r[i] == OwnMember(fields[i])
  {
    seq(|fields|, i requires 0 <= i < |fields| => OwnMember(fields[i]))
  }

  function MembersOf(types: Registry, id: NodeId): seq<Member> {
    if id in types then types[id].members else []
  }

  /** The members of the parent, then the own ones. */
  function AllMembers(types: Registry, parent: NodeId, fields: seq<Field>): seq<Member> {
    MembersOf(types, parent) + OwnMembers(fields)
  }

  function Truncated<T>(s: seq<T>): seq<T> {
    s[..|s| % BYTE_SIZE]
  }

  predicate TypesKnown(types: Registry, fields: seq<Field>) {
    forall f | f in fields :: f.dataType in types
  }

  /** `start` completed with its members, unless the type of one of the own members is missing. */
  function WithMembers(types: Registry, parent: NodeId, start: UADataType, fields: seq<Field>): Option<UADataType> {
    var all := AllMembers(types, parent, fields);
    if !TypesKnown(types, fields) then None
    else Some(start.(members := Truncated(all),
                     pointerFree := start.pointerFree && AllPlain(types, all),
                     kind := if SomeOptional(all) then OptStructKind else start.kind))
  }

  /** What the members seen so far make of the two flags. */
  predicate FlagsSoFar(types: Registry, start: UADataType, seen: seq<Member>, pointerFree: bool, kind: Kind) {
    && (pointerFree <==> start.pointerFree && AllPlain(types, seen))
    && kind == (if SomeOptional(seen) then OptStructKind else start.kind)
  }

  lemma OneMoreMember(types: Registry, seen: seq<Member>, m: Member)
    ensures AllPlain(types, seen + [m]) <==> AllPlain(types, seen) && Plain(types, m)
    ensures SomeOptional(seen + [m]) <==> SomeOptional(seen) || m.isOptional
  {
  }

  // ----- where the behaviour of the importer is defined

  /** Members can be copied: they have names, and their types are not the literals of an
      enumeration. */
  predicate Copyable(types: Registry, parent: NodeId) {
    parent in types ==> types[parent].literals == [] && forall m | m in types[parent].members :: m.name.Some?
  }

  /** Every field that is read up to the first one of unknown type has a name. */
  predicate MembersNamed(types: Registry, fields: seq<Field>) {
    forall i | 0 <= i < |fields| && TypesKnown(types, fields[..i]) :: fields[i].name.Some?
  }

  /** Every literal that is read has a name: their number is a byte. */
  predicate LiteralsNamed(fields: seq<Field>) {
    forall i | 0 <= i < |fields| % BYTE_SIZE :: fields[i].name.Some?
  }

  lemma MembersNamedStep(types: Registry, fields: seq<Field>, j: nat)
    requires j < |fields| && TypesKnown(types, fields[..j]) && MembersNamed(types, fields[..j])
    ensures MembersNamed(types, fields[..j + 1]) <==> fields[j].name.Some?
    ensures fields[j].name.None? ==> !MembersNamed(types, fields)
    ensures fields[j].name.Some? && fields[j].dataType !in types ==> MembersNamed(types, fields)
  {
  }

  /** The names up to the `j`-th field are there or one is missing. */
  ghost predicate NamedSoFar(types: Registry, fields: seq<Field>, j: nat, named: bool)
    requires j <= |fields|
  {
    if named then MembersNamed(types, fields[..j]) else !MembersNamed(types, fields)
  }

  lemma NameRead(types: Registry, fields: seq<Field>, j: nat, named: bool) returns (named': bool)
    requires j < |fields| && TypesKnown(types, fields[..j]) && NamedSoFar(types, fields, j, named)
    ensures named' <==> named && fields[j].name.Some?
    ensures NamedSoFar(types, fields, j + 1, named')
    ensures fields[j].dataType !in types ==> (named' <==> MembersNamed(types, fields))
  {
    named' := named && fields[j].name.Some?;
    if named {
      MembersNamedStep(types, fields, j);
    }
  }

  /** Every member refers to a known type. */
  ghost predicate MembersKnown(types: Registry) {
    forall id, m :: id in types && m in types[id].members ==> m.memberType in types
  }

  /** Writes one member and lets it lower or raise the flags of the type. */
  method PutMember(types: Registry, members: array<Member>, i: nat, m: Member, pointerFree: bool, kind: Kind)
    returns (pointerFree': bool, kind': Kind)
    requires i < members.Length && m.memberType in types
    modifies members
    ensures members[..i + 1] == old(members[..i]) + [m]
    ensures pointerFree' <==> pointerFree && Plain(types, m)
    ensures kind' == if m.isOptional then OptStructKind else kind
  {
    pointerFree', kind' := pointerFree, kind;
    members[i] := m;
    if !types[m.memberType].pointerFree {
      pointerFree' := false;
    }
    if m.isArray {
      pointerFree' := false;
    }
    if m.isOptional {
      pointerFree' := false;
      kind' := OptStructKind;
    }
  }

  /** Copies the members of the parent to the front. */
  method CopyMembers(types: Registry, start: UADataType, inherited: seq<Member>, members: array<Member>)
    returns (pointerFree: bool, kind: Kind)
    requires |inherited| <= members.Length && forall m :: m in inherited ==> m.memberType in types
    modifies members
    ensures members[..|inherited|] == inherited
    ensures FlagsSoFar(types, start, inherited, pointerFree, kind)
  {
    pointerFree, kind := start.pointerFree, start.kind;
    for i := 0 to |inherited|
      invariant members[..i] == inherited[..i]
      invariant FlagsSoFar(types, start, inherited[..i], pointerFree, kind)
    {
      OneMoreMember(types, inherited[..i], inherited[i]);
      assert inherited[..i + 1] == inherited[..i] + [inherited[i]];
      pointerFree, kind := PutMember(types, members, i, inherited[i], pointerFree, kind);
    }
    assert inherited[..|inherited|] == inherited;
  }

  lemma OwnOnes(own: seq<Member>, fields: seq<Field>)
    requires own == OwnMembers(fields)
    ensures |own| == |fields|
    ensures forall j :: 0 <= j < |fields| ==>
              && own[j].name == fields[j].name && own[j].memberType == fields[j].dataType
              && own[j].isOptional == fields[j].isOptional && (own[j].isArray <==> fields[j].valueRank >= 0)
  {
  }

  lemma OneMoreOwn(inherited: seq<Member>, fields: seq<Field>, j: nat)
    requires j < |fields|
    ensures inherited + OwnMembers(fields)[..j + 1] == (inherited + OwnMembers(fields)[..j]) + [OwnMember(fields[j])]
  {
  }

  /** What is built, spelled out: member by member, with both flags. */
  lemma {:induction false} MembersSpelledOut(types: Registry, parent: NodeId, start: UADataType, fields: seq<Field>)
    ensures var r, inherited := WithMembers(types, parent, start, fields), if parent in types then types[parent].members else [];
            && (r.None? <==> exists f :: f in fields && f.dataType !in types)
            && (r.Some? ==>
                  && |r.value.members| == (|inherited| + |fields|) % 256
                  && (forall i :: 0 <= i < |r.value.members| && i < |inherited| ==> r.value.members[i] == inherited[i])
                  && (forall j :: |inherited| <= j < |r.value.members| ==>
                        && r.value.members[j].name == fields[j - |inherited|].name
                        && r.value.members[j].memberType == fields[j - |inherited|].dataType
                        && r.value.members[j].isOptional == fields[j - |inherited|].isOptional
                        && (r.value.members[j].isArray <==> fields[j - |inherited|].valueRank >= 0)))
    ensures var r, inherited := WithMembers(types, parent, start, fields), if parent in types then types[parent].members else [];
            r.Some? ==>
              && (r.value.pointerFree <==>
                    && start.pointerFree
                    && (forall m :: m in inherited ==> !m.isArray && !m.isOptional && m.memberType in types && types[m.memberType].pointerFree)
                    && (forall f :: f in fields ==> f.valueRank < 0 && !f.isOptional && types[f.dataType].pointerFree))
              && r.value.kind == (if (exists m :: m in inherited && m.isOptional) || (exists f :: f in fields && f.isOptional)
                                  then OptStructKind else start.kind)
              && r.value.id == start.id && r.value.literals == start.literals
  {
    AllSpelledOut(types, parent, fields);
  }

  lemma {:induction false} AllSpelledOut(types: Registry, parent: NodeId, fields: seq<Field>)
    ensures var all, inherited := AllMembers(types, parent, fields), MembersOf(types, parent);
            && (TypesKnown(types, fields) ==>
                  (AllPlain(types, all) <==>
                     && (forall m :: m in inherited ==> !m.isArray && !m.isOptional && m.memberType in types && types[m.memberType].pointerFree)
                     && (forall f :: f in fields ==> f.valueRank < 0 && !f.isOptional && types[f.dataType].pointerFree)))
            && (SomeOptional(all) <==> (exists m :: m in inherited && m.isOptional) || (exists f :: f in fields && f.isOptional))
  {
    var all, inherited, own := AllMembers(types, parent, fields), MembersOf(types, parent), OwnMembers(fields);
    forall f | f in fields
      ensures OwnMember(f) in own
    {
      var i :| 0 <= i < |fields| && fields[i] == f;
      assert own[i] == OwnMember(f);
    }
    forall m | m in own
      ensures exists f :: f in fields && m == OwnMember(f)
    {
      var i :| 0 <= i < |own| && own[i] == m;
      assert fields[i] in fields;
    }
    assert forall m :: m in all <==> m in inherited || m in own;
  }

  /** Fills in the own members behind the inherited ones, as long as their types are known.
      `named` tells whether every name that is read on the way is there. */
  method FillMembers(types: Registry, ghost start: UADataType, ghost inherited: seq<Member>, fields: seq<Field>,
                     members: array<Member>, from: nat, pointerFree0: bool, kind0: Kind)
    returns (ok: bool, pointerFree: bool, kind: Kind, ghost named: bool)
    requires from == |inherited| && members.Length == from + |fields| && members[..from] == inherited
    requires FlagsSoFar(types, start, inherited, pointerFree0, kind0)
    modifies members
    ensures ok <==> TypesKnown(types, fields)
    ensures named <==> MembersNamed(types, fields)
    ensures ok ==> members[..] == inherited + OwnMembers(fields)
    ensures ok ==> var own := members[from..];
              && |own| == |fields|
              && forall j :: 0 <= j < |fields| ==>
                   && own[j].name == fields[j].name && own[j].memberType == fields[j].dataType
                   && own[j].isOptional == fields[j].isOptional && (own[j].isArray <==> fields[j].valueRank >= 0)
    ensures ok ==> FlagsSoFar(types, start, inherited + OwnMembers(fields), pointerFree, kind)
  {
    ghost var own := OwnMembers(fields);
    assert inherited + own[..0] == inherited;
    pointerFree, kind, named := pointerFree0, kind0, true;
    for j := 0 to |fields|
      invariant members[..from + j] == inherited + own[..j] && TypesKnown(types, fields[..j])
      invariant NamedSoFar(types, fields, j, named)
      invariant FlagsSoFar(types, start, inherited + own[..j], pointerFree, kind)
    {
      var field := fields[j];
      named := NameRead(types, fields, j, named);
      var m := Member(field.name, field.dataType, field.valueRank >= 0, field.isOptional);
      if field.dataType !in types {
        return false, pointerFree, kind, named;
      }
      OneMoreMember(types, inherited + own[..j], m);
      OneMoreOwn(inherited, fields, j);
      pointerFree, kind := PutMember(types, members, from + j, m, pointerFree, kind);
    }
    assert own[..|fields|] == own && fields[..|fields|] == fields && members[..from + |fields|] == members[..];
    assert members[from..] == own;
    OwnOnes(own, fields);
    return true, pointerFree, kind, named;
  }

  method AddDataTypeMembers(types: Registry, start: UADataType, fields: seq<Field>, parent: NodeId)
    returns (r: Option<UADataType>, ghost defined: bool)
    requires MembersKnown(types)
    ensures r == WithMembers(types, parent, start, fields)
    ensures r.None? <==> exists f :: f in fields && f.dataType !in types
    ensures var inherited := if parent in types then types[parent].members else [];
            r.Some? ==>
              && |r.value.members| == (|inherited| + |fields|) % 256
              && (forall i :: 0 <= i < |r.value.members| && i < |inherited| ==> r.value.members[i] == inherited[i])
              && (forall j :: |inherited| <= j < |r.value.members| ==>
                    && r.value.members[j].name == fields[j - |inherited|].name
                    && r.value.members[j].memberType == fields[j - |inherited|].dataType
                    && r.value.members[j].isOptional == fields[j - |inherited|].isOptional
                    && (r.value.members[j].isArray <==> fields[j - |inherited|].valueRank >= 0))
    ensures defined <==> Copyable(types, parent) && MembersNamed(types, fields)
  {
    var inherited := if parent in types then types[parent].members else [];
    var memberSize := |fields| + |inherited|;
    var members := new Member[memberSize](_ => Member(None, NULL_ID, false, false));
    var pointerFree, kind := CopyMembers(types, start, inherited, members);
    var ok;
    ghost var named;
    ok, pointerFree, kind, named := FillMembers(types, start, inherited, fields, members, |inherited|, pointerFree, kind);
    defined := Copyable(types, parent) && named;
    if !ok {
      return None, defined;
    }
    assert members[..memberSize % BYTE_SIZE] == members[..][..memberSize % BYTE_SIZE];
    MembersSpelledOut(types, parent, start, fields);
    return Some(start.(members := members[..memberSize % BYTE_SIZE], pointerFree := pointerFree, kind := kind)), defined;
  }

  // ----- the three sorts of data types

  function Fields(info: NodeInfo): seq<Field> {
    if info.definition.Some? then info.definition.value.fields else []
  }

  predicate IsEnumLike(info: NodeInfo) {
    info.definition.Some? && (info.definition.value.isEnum || info.definition.value.isOptionSet)
  }

  predicate IsStructLike(info: NodeInfo) {
    !IsEnumLike(info) && Fields(info) != []
  }

  function Literals(fields: seq<Field>): (r: seq<Literal>)
    ensures |r| == |fields| && forall i :: 0 <= i < |r| ==> r[i] == Literal(fields[i].name, fields[i].value)
  {
    seq(|fields|, i requires 0 <= i < |fields| => Literal(fields[i].name, fields[i].value))
  }

  function EnumType(types: Registry, parent: NodeId, info: NodeInfo): UADataType {
    var kind := if info.definition.Some? && info.definition.value.isOptionSet && parent in types && types[parent].kind.NumericKind?
                then types[parent].kind else EnumKind;
    UADataType(info.id, kind, true, [], Truncated(Literals(Fields(info))))
  }

  /** The type of a node, None where it cannot be built. */
  function Built(types: Registry, parent: NodeId, info: NodeInfo): Option<UADataType> {
    if IsEnumLike(info) then
      Some(EnumType(types, parent, info))
    else if IsStructLike(info) then
      var kind := if info.definition.value.isUnion then UnionKind else StructKind;
      WithMembers(types, parent, UADataType(info.id, kind, true, [], []), Fields(info))
    else if parent !in types then
      None
    else
      var start := UADataType(info.id, types[parent].kind, types[parent].pointerFree, [], []);
      if Structural(start.kind) then WithMembers(types, parent, start, []) else Some(start)
  }

  /** Where the importer builds the type of a node without undefined behaviour. */
  predicate Defined(types: Registry, parent: NodeId, info: NodeInfo) {
    if IsEnumLike(info) then LiteralsNamed(Fields(info))
    else if IsStructLike(info) || (parent in types && Structural(types[parent].kind)) then
      Copyable(types, parent) && MembersNamed(types, Fields(info))
    else true
  }

  function ParentId(parentRefTypes: seq<NodeId>, info: NodeInfo): NodeId {
    TargetOf(ParentRef(parentRefTypes, info.refs))
  }

  /** The registry after one node. A type that is known already stays as it is. */
  function Added(types: Registry, parentRefTypes: seq<NodeId>, info: NodeInfo): Registry {
    if info.nodeClass != DataType || info.id in types then types
    else
      var t := Built(types, ParentId(parentRefTypes, info), info);
      if t.Some? then types[info.id := t.value] else types
  }

  /** Enumerations and option sets, spelled out. */
  lemma EnumSpelledOut(types: Registry, parent: NodeId, info: NodeInfo)
    requires info.definition.Some? && (info.definition.value.isEnum || info.definition.value.isOptionSet)
    ensures var t, d := Built(types, parent, info), info.definition.value;
            && t.Some? && t.value.id == info.id && t.value.pointerFree && t.value.members == []
            && t.value.kind == (if d.isOptionSet && parent in types && types[parent].kind.NumericKind? then types[parent].kind else EnumKind)
            && |t.value.literals| == |d.fields| % 256
            && forall i :: 0 <= i < |t.value.literals| ==>
                 t.value.literals[i].name == d.fields[i].name && t.value.literals[i].value == d.fields[i].value
  {
  }

  /** Structures and unions, spelled out. */
  lemma StructureSpelledOut(types: Registry, parent: NodeId, info: NodeInfo)
    requires info.definition.Some? && !info.definition.value.isEnum && !info.definition.value.isOptionSet && info.definition.value.fields != []
    ensures var t, d := Built(types, parent, info), info.definition.value;
            && (t.Some? <==> forall f :: f in d.fields ==> f.dataType in types)
            && (t.Some? ==>
                  && t.value.id == info.id && t.value.literals == []
                  && t.value.kind == (if (exists m :: m in MembersOf(types, parent) && m.isOptional) || (exists f :: f in d.fields && f.isOptional)
                                      then OptStructKind else if d.isUnion then UnionKind else StructKind)
                  && |t.value.members| == (|MembersOf(types, parent)| + |d.fields|) % 256)
  {
    MembersSpelledOut(types, parent, UADataType(info.id, if info.definition.value.isUnion then UnionKind else StructKind, true, [], []),
                      info.definition.value.fields);
  }

  /** A type without fields follows its parent. */
  lemma SubtypeSpelledOut(types: Registry, parent: NodeId, info: NodeInfo)
    requires info.definition.Some? ==> !info.definition.value.isEnum && !info.definition.value.isOptionSet && info.definition.value.fields == []
    ensures var t := Built(types, parent, info);
            && (t.Some? <==> parent in types)
            && (t.Some? ==>
                  && t.value.id == info.id && t.value.literals == []
                  && (if types[parent].kind == StructKind || types[parent].kind == OptStructKind || types[parent].kind == UnionKind
                      then |t.value.members| == |types[parent].members| % 256 && t.value.members <= types[parent].members
                      else t.value.members == [] && t.value.kind == types[parent].kind && t.value.pointerFree == types[parent].pointerFree))
  {
    if parent in types {
      var start := UADataType(info.id, types[parent].kind, types[parent].pointerFree, [], []);
      MembersSpelledOut(types, parent, start, []);
    }
  }

  /** Where building a type is defined, spelled out: the names that are read are there, and the
      parent's members can be copied. */
  lemma {:induction false} DefinedSpelledOut(types: Registry, parent: NodeId, info: NodeInfo)
    requires info.definition.Some?
    ensures var d := info.definition.value;
            Defined(types, parent, info) <==>
              if d.isEnum || d.isOptionSet then
                forall i :: 0 <= i < |d.fields| % 256 ==> d.fields[i].name.Some?
              else
                d.fields != [] || (parent in types && (types[parent].kind == StructKind || types[parent].kind == OptStructKind
                                                       || types[parent].kind == UnionKind)) ==>
                  && (parent in types ==> types[parent].literals == [] && forall m :: m in types[parent].members ==> m.name.Some?)
                  && (forall i :: 0 <= i < |d.fields| && (forall j :: 0 <= j < i ==> d.fields[j].dataType in types) ==> d.fields[i].name.Some?)
  {
    var fields := info.definition.value.fields;
    forall i | 0 <= i < |fields|
      ensures TypesKnown(types, fields[..i]) <==> forall j :: 0 <= j < i ==> fields[j].dataType in types
    {
      if TypesKnown(types, fields[..i]) {
        forall j | 0 <= j < i ensures fields[j].dataType in types {
          assert fields[..i][j] in fields[..i];
        }
      }
    }
  }

  /** A type joins the registry under its id, unless there is one already; nothing else changes. */
  lemma AddedSpelledOut(types: Registry, parentRefTypes: seq<NodeId>, info: NodeInfo)
    ensures var after, t := Added(types, parentRefTypes, info), Built(types, ParentId(parentRefTypes, info), info);
            && (forall id :: id in types ==> id in after && after[id] == types[id])
            && (forall id :: id in after && id !in types ==> id == info.id)
            && (info.nodeClass == DataType && info.id !in types ==>
                  (info.id in after <==> t.Some?) && (t.Some? ==> after[info.id] == t.value))
            && (info.nodeClass != DataType ==> after == types)
  {
  }

  method EnumDataTypeInit(types: Registry, node: Node, ghost info: NodeInfo, parent: NodeId) returns (r: UADataType, ghost defined: bool)
    requires node.Matches(info) && IsEnumLike(info)
    ensures r == EnumType(types, parent, info)
    ensures defined <==> Defined(types, parent, info)
  {
    var d := node.definition.value;
    var kind := EnumKind;
    if d.isOptionSet {
      if parent in types && types[parent].kind.NumericKind? {
        kind := types[parent].kind;
      }
    }
    var literals := [];
    defined := true;
    for i := 0 to |d.fields| % BYTE_SIZE
      invariant literals == Literals(d.fields)[..i]
      invariant defined <==> forall j :: 0 <= j < i ==> d.fields[j].name.Some?
    {
      defined := defined && d.fields[i].name.Some?;
      literals := literals + [Literal(d.fields[i].name, d.fields[i].value)];
    }
    return UADataType(node.id, kind, true, [], literals), defined;
  }

  method StructureDataTypeInit(types: Registry, node: Node, ghost info: NodeInfo, parent: NodeId)
    returns (r: Option<UADataType>, ghost defined: bool)
    requires node.Matches(info) && MembersKnown(types) && IsStructLike(info)
    ensures r == Built(types, parent, info)
    ensures defined <==> Defined(types, parent, info)
  {
    var d := node.definition.value;
    var start := UADataType(node.id, if d.isUnion then UnionKind else StructKind, true, [], []);
    r, defined := AddDataTypeMembers(types, start, d.fields, parent);
  }

  method SubtypeOfBaseInit(types: Registry, node: Node, ghost info: NodeInfo, parent: NodeId)
    returns (r: Option<UADataType>, ghost defined: bool)
    requires node.Matches(info) && MembersKnown(types) && !IsEnumLike(info) && !IsStructLike(info)
    ensures r == Built(types, parent, info)
    ensures defined <==> Defined(types, parent, info)
  {
    if parent !in types {
      return None, true;
    }
    var parentType := types[parent];
    var start := UADataType(node.id, parentType.kind, parentType.pointerFree, [], []);
    if Structural(parentType.kind) {
      r, defined := AddDataTypeMembers(types, start, if node.definition.Some? then node.definition.value.fields else [], parent);
    } else {
      return Some(start), true;
    }
  }

  class TypeServer {
    var types: Registry
    /** Set where the importer has run into undefined behaviour. */
    ghost var faulty: bool

    constructor (types: Registry)
      ensures this.types == types && !faulty
    {
      this.types := types;
      faulty := false;
    }

    /** Builds the type of a DataType node and registers it. */
    method AddCustomDataType(parentRefTypes: seq<NodeId>, node: Node, ghost info: NodeInfo)
      requires node.Matches(info) && node.nodeClass == DataType && MembersKnown(types)
      modifies this
      ensures types == Added(old(types), parentRefTypes, info)
      ensures faulty <==> old(faulty || !Defined(types, ParentId(parentRefTypes, info), info))
    {
      var parent, refType := GetParentId(parentRefTypes, node, info);
      var t;
      ghost var defined;
      if node.definition.Some? && (node.definition.value.isEnum || node.definition.value.isOptionSet) {
        var e;
        e, defined := EnumDataTypeInit(types, node, info, parent);
        t := Some(e);
      } else if node.definition.Some? && |node.definition.value.fields| > 0 {
        t, defined := StructureDataTypeInit(types, node, info, parent);
      } else {
        t, defined := SubtypeOfBaseInit(types, node, info, parent);
      }
      faulty := faulty || !defined;
      if t.Some? && node.id !in types {
        types := types[node.id := t.value];
      }
    }
  }
}
