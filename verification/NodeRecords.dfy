/** What a nodeset says about its nodes, as plain values, and the blocking relation among
    NodeIds that these values describe. */
module NodeRecords {
  import opened NodeIds
  import opened Dependencies

  datatype Option<+T> = None | Some(value: T)

  datatype NodeClass = Object | ObjectType | Variable | DataType | Method | ReferenceType | VariableType | View

  datatype QualifiedName = QualifiedName(namespaceIndex: nat, name: string)

  datatype LocalizedText = LocalizedText(locale: Option<string>, text: Option<string>)

  datatype Field = Field(name: Option<string>, dataType: NodeId, valueRank: int, value: int, isOptional: bool)

  datatype Definition = Definition(fields: seq<Field>, isEnum: bool, isUnion: bool, isOptionSet: bool)

  datatype Ref = Ref(isForward: bool, refType: NodeId, target: NodeId)

  datatype NodeInfo = NodeInfo(
    nodeClass: NodeClass,
    id: NodeId,
    browseName: QualifiedName,
    displayName: LocalizedText,
    description: LocalizedText,
    inverseName: LocalizedText,
    refs: seq<Ref>,
    definition: Option<Definition>)

  datatype Alias = Alias(name: string, id: NodeId)

  function Reversed<T>(s: seq<T>): seq<T> {
    if s == [] then [] else Reversed(s[1..]) + [s[0]]
  }

  // ----- which references make a node wait for their target

  /** A forward HasTypeDefinition, or the inverse of any other reference type. */
  predicate Blocks(refType: NodeId, isForward: bool) {
    if refType == HAS_TYPE_DEFINITION then isForward else !isForward
  }

  ghost function Ids(infos: set<NodeInfo>): set<NodeId> {
    set n | n in infos :: n.id
  }

  ghost predicate DistinctIds(infos: set<NodeInfo>) {
    forall m, n :: m in infos && n in infos && m.id == n.id ==> m == n
  }

  /** The NodeIds among `ids` that a node with these references waits for. */
  ghost function BlockingTargets(info: NodeInfo, ids: set<NodeId>): set<NodeId> {
    set r | r in info.refs && Blocks(r.refType, r.isForward) && r.target in ids :: r.target
  }

  /** The NodeIds of the nodeset that the node called `id` waits for. */
  ghost function BlockingIds(infos: set<NodeInfo>, id: NodeId): set<NodeId> {
    set n, t | n in infos && n.id == id && t in BlockingTargets(n, Ids(infos)) :: t
  }

  ghost function IdGraph(infos: set<NodeInfo>): (g: Graph<NodeId>)
    ensures g.Keys == Ids(infos)
  {
    map id | id in Ids(infos) :: BlockingIds(infos, id)
  }

  ghost function IdsOfClass(infos: set<NodeInfo>, c: NodeClass): (r: set<NodeId>)
    ensures r <= Ids(infos)
  {
    set n | n in infos && n.nodeClass == c :: n.id
  }

  ghost function LastPool(infos: set<NodeInfo>): (r: set<NodeId>)
    ensures r <= Ids(infos)
  {
    IdsOfClass(infos, ObjectType) + IdsOfClass(infos, Object) + IdsOfClass(infos, Method) + IdsOfClass(infos, Variable)
  }

  ghost function EarlyPools(infos: set<NodeInfo>): (r: seq<set<NodeId>>)
    ensures forall p :: p in r ==> p <= Ids(infos)
  {
    [IdsOfClass(infos, ReferenceType), IdsOfClass(infos, DataType), IdsOfClass(infos, VariableType), IdsOfClass(infos, View)]
  }

  /** The stage of the sort in which a class has its turn. */
  function StageOf(c: NodeClass): nat {
    match c
    case ReferenceType => 0
    case DataType => 1
    case VariableType => 2
    case View => 3
    case _ => 4
  }

  /** The stages of the sort: four classes one after the other, then four together. */
  ghost function IdPools(infos: set<NodeInfo>): (r: seq<set<NodeId>>)
    ensures forall p :: p in r ==> p <= Ids(infos)
  {
    EarlyPools(infos) + [LastPool(infos)]
  }

  /** The NodeIds that a sort of these nodes emits, in whatever order they were loaded. */
  ghost function EmittedIds(infos: set<NodeInfo>): set<NodeId> {
    Emit(IdGraph(infos), IdPools(infos))
  }
}
