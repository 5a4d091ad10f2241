/** Handing the sorted nodes to a server: what is asked of it for each node, and why the
    parent and the type definition are always there when they are needed. */
module Replay {
  import opened NodeIds
  import opened NodeRecords
  import opened Nodes
  import opened Nodesets
  import opened NodesetXml
  import opened Loader
  import opened Parents
  import opened DataTypes
  import opened TypeTheorems
  import opened Parser
  import opened Sax
  import opened Namespaces

  // ----- the calls to the server

  /** What the server is asked to add. */
  datatype AddNode = AddNode(id: NodeId, nodeClass: NodeClass, parentId: NodeId, parentReferenceId: NodeId, typeDefId: NodeId)

  function CallFor(parentRefTypes: seq<NodeId>, info: NodeInfo): AddNode {
    var parent := ParentRef(parentRefTypes, info.refs);
    AddNode(info.id, info.nodeClass, TargetOf(parent), TypeOf(parent),
            if info.nodeClass == Object || info.nodeClass == Variable then TargetOf(TypeDefinitionRef(info.refs)) else NULL_ID)
  }

  /** What a call says: the node's own id and class, the parent by the first inverse reference of a
      parent type, and for Objects and Variables the type definition by the first forward
      HasTypeDefinition. */
  ghost predicate CallNames(parentRefTypes: seq<NodeId>, call: AddNode, info: NodeInfo) {
    && call.id == info.id && call.nodeClass == info.nodeClass
    && NamesParent(parentRefTypes, call, info) && NamesTypeDefinition(call, info)
  }

  ghost predicate NamesParent(parentRefTypes: seq<NodeId>, call: AddNode, info: NodeInfo) {
    || (call.parentId == NodeId(0, Numeric, [0]) && call.parentReferenceId == NodeId(0, Numeric, [0])
        && forall r :: r in info.refs ==> r.isForward || r.refType !in parentRefTypes)
    || exists i :: 0 <= i < |info.refs| && !info.refs[i].isForward && info.refs[i].refType in parentRefTypes
                   && call.parentReferenceId == info.refs[i].refType && call.parentId == info.refs[i].target
                   && forall j :: 0 <= j < i ==> info.refs[j].isForward || info.refs[j].refType !in parentRefTypes
  }

  ghost predicate NamesTypeDefinition(call: AddNode, info: NodeInfo) {
    if info.nodeClass == Object || info.nodeClass == Variable then
      || (call.typeDefId == NodeId(0, Numeric, [0])
          && forall r :: r in info.refs ==> !r.isForward || r.refType != NodeId(0, Numeric, [40]))
      || exists i :: 0 <= i < |info.refs| && info.refs[i].isForward && info.refs[i].refType == NodeId(0, Numeric, [40])
                     && call.typeDefId == info.refs[i].target
                     && forall j :: 0 <= j < i ==> !info.refs[j].isForward || info.refs[j].refType != NodeId(0, Numeric, [40])
    else call.typeDefId == NodeId(0, Numeric, [0])
  }

  lemma {:induction false} CallSpelledOut(parentRefTypes: seq<NodeId>, info: NodeInfo)
    ensures CallNames(parentRefTypes, CallFor(parentRefTypes, info), info)
  {
    ParentSpelledOut(parentRefTypes, info.refs);
    TypeDefinitionSpelledOut(info.refs);
  }

  method AddNodeImpl(parentRefTypes: seq<NodeId>, node: Node, ghost info: NodeInfo) returns (call: AddNode)
    requires node.Matches(info)
    ensures call == CallFor(parentRefTypes, info)
    ensures call.id == info.id && call.nodeClass == info.nodeClass
    ensures || (call.parentId == NodeId(0, Numeric, [0]) && call.parentReferenceId == NodeId(0, Numeric, [0])
                && forall r :: r in info.refs ==> r.isForward || r.refType !in parentRefTypes)
            || exists i :: 0 <= i < |info.refs| && !info.refs[i].isForward && info.refs[i].refType in parentRefTypes
                           && call.parentReferenceId == info.refs[i].refType && call.parentId == info.refs[i].target
                           && forall j :: 0 <= j < i ==> info.refs[j].isForward || info.refs[j].refType !in parentRefTypes
    ensures if info.nodeClass == Object || info.nodeClass == Variable then
              || (call.typeDefId == NodeId(0, Numeric, [0])
                  && forall r :: r in info.refs ==> !r.isForward || r.refType != NodeId(0, Numeric, [40]))
              || exists i :: 0 <= i < |info.refs| && info.refs[i].isForward && info.refs[i].refType == NodeId(0, Numeric, [40])
                             && call.typeDefId == info.refs[i].target
                             && forall j :: 0 <= j < i ==> !info.refs[j].isForward || info.refs[j].refType != NodeId(0, Numeric, [40])
            else call.typeDefId == NodeId(0, Numeric, [0])
  {
    var parentId, parentRefId := GetParentId(parentRefTypes, node, info);
    var typeDefId := NULL_ID;
    if node.nodeClass == Object || node.nodeClass == Variable {
      typeDefId := GetTypeDefId(node, info);
    }
    return AddNode(node.id, node.nodeClass, parentId, parentRefId, typeDefId);
  }

  /** The calls for the first nodes in order, up to the first one that the server refuses. */
  predicate CallsUpToRefusal(parentRefTypes: seq<NodeId>, order: seq<NodeInfo>, accepts: AddNode -> bool, calls: seq<AddNode>) {
    && |calls| <= |order|
    && (forall k :: 0 <= k < |calls| ==> calls[k] == CallFor(parentRefTypes, order[k]))
    && (forall k :: 0 <= k < |calls| - 1 ==> accepts(calls[k]))
    && (|calls| == |order| || (calls != [] && !accepts(calls[|calls| - 1])))
  }

  /** The calls for the first nodes in order, all of them accepted. */
  predicate CallsAccepted(parentRefTypes: seq<NodeId>, order: seq<NodeInfo>, accepts: AddNode -> bool, calls: seq<AddNode>) {
    && |calls| <= |order|
    && (forall k :: 0 <= k < |calls| ==> calls[k] == CallFor(parentRefTypes, order[k]) && accepts(calls[k]))
  }

  lemma OneMoreCall(parentRefTypes: seq<NodeId>, order: seq<NodeInfo>, accepts: AddNode -> bool, calls: seq<AddNode>, call: AddNode)
    requires CallsAccepted(parentRefTypes, order, accepts, calls)
    requires |calls| < |order| && call == CallFor(parentRefTypes, order[|calls|])
    ensures if accepts(call) then CallsAccepted(parentRefTypes, order, accepts, calls + [call])
            else CallsUpToRefusal(parentRefTypes, order, accepts, calls + [call])
  {
  }

  /** Where the registry stands after these nodes, and whether all was defined on the way. */
  ghost predicate RunIs(types: Registry, faulty: bool, parentRefTypes: seq<NodeId>, infos: seq<NodeInfo>, types': Registry, faulty': bool) {
    && types' == Replayed(types, parentRefTypes, infos)
    && (faulty' <==> faulty || !DefinedRun(types, parentRefTypes, infos))
  }

  /** What one node does to the registry. */
  ghost predicate TurnIs(types: Registry, faulty: bool, parentRefTypes: seq<NodeId>, info: NodeInfo, types': Registry, faulty': bool) {
    && types' == Added(types, parentRefTypes, info)
    && (faulty' <==> faulty || (info.nodeClass == DataType && !Defined(types, ParentId(parentRefTypes, info), info)))
  }

  lemma {:induction false} RunStep(types: Registry, faulty: bool, parentRefTypes: seq<NodeId>, infos: seq<NodeInfo>, i: nat,
                                   types': Registry, faulty': bool, types'': Registry, faulty'': bool)
    requires i < |infos| && RunIs(types, faulty, parentRefTypes, infos[..i], types', faulty')
    requires TurnIs(types', faulty', parentRefTypes, infos[i], types'', faulty'')
    ensures RunIs(types, faulty, parentRefTypes, infos[..i + 1], types'', faulty'')
  {
    ReplayedStep(types, parentRefTypes, infos, i);
    DefinedRunStep(types, parentRefTypes, infos, i);
  }

  /** Registers the type of a DataType node and makes the call for a node. */
  method ReplayNode(nodeset: Nodeset, i: nat, server: TypeServer, parentRefTypes: seq<NodeId>, ghost order: seq<NodeInfo>) returns (call: AddNode)
    requires HandsOut(nodeset, order) && i < |order| && MembersKnown(server.types)
    modifies server
    ensures HandsOut(nodeset, order) && MembersKnown(server.types)
    ensures call == CallFor(parentRefTypes, order[i])
    ensures TurnIs(old(server.types), old(server.faulty), parentRefTypes, order[i], server.types, server.faulty)
  {
    var node := nodeset.sortedNodes[i];
    MembersStayKnown(server.types, parentRefTypes, order[i]);
    if node.nodeClass == DataType {
      server.AddCustomDataType(parentRefTypes, node, order[i]);
    }
    call := AddNodeImpl(parentRefTypes, node, order[i]);
  }

  /** The turn of the node at position `i`: everything about the run is as if it ended here. */
  method NextNode(nodeset: Nodeset, i: nat, server: TypeServer, parentRefTypes: seq<NodeId>, accepts: AddNode -> bool,
                  calls: seq<AddNode>, ghost order: seq<NodeInfo>, ghost types: Registry, ghost faulty: bool)
    returns (calls': seq<AddNode>, accepted: bool)
    requires HandsOut(nodeset, order) && i == |calls| < |order| && MembersKnown(server.types)
    requires CallsAccepted(parentRefTypes, order, accepts, calls)
    requires RunIs(types, faulty, parentRefTypes, order[..i], server.types, server.faulty)
    modifies server
    ensures HandsOut(nodeset, order) && MembersKnown(server.types)
    ensures |calls'| == i + 1 && (accepted <==> accepts(calls'[i]))
    ensures if accepted then CallsAccepted(parentRefTypes, order, accepts, calls')
            else CallsUpToRefusal(parentRefTypes, order, accepts, calls')
    ensures RunIs(types, faulty, parentRefTypes, order[..i + 1], server.types, server.faulty)
  {
    ghost var types0, faulty0 := server.types, server.faulty;
    var call := ReplayNode(nodeset, i, server, parentRefTypes, order);
    RunStep(types, faulty, parentRefTypes, order, i, types0, faulty0, server.types, server.faulty);
    OneMoreCall(parentRefTypes, order, accepts, calls, call);
    calls', accepted := calls + [call], accepts(call);
  }

  /** Calls the server for each sorted node, until it refuses one. The type of a DataType node
      is registered before the node is added. */
  method ForEachNode(nodeset: Nodeset, server: TypeServer, parentRefTypes: seq<NodeId>, accepts: AddNode -> bool, ghost order: seq<NodeInfo>)
    returns (calls: seq<AddNode>, all: bool)
    requires HandsOut(nodeset, order) && MembersKnown(server.types)
    modifies server
    ensures CallsUpToRefusal(parentRefTypes, order, accepts, calls)
    ensures |calls| <= |order| && forall k :: 0 <= k < |calls| - 1 ==> accepts(calls[k])
    ensures |calls| < |order| ==> calls != [] && !accepts(calls[|calls| - 1])
    ensures all <==> calls == [] || accepts(calls[|calls| - 1])
    ensures RunIs(old(server.types), old(server.faulty), parentRefTypes, order[..|calls|], server.types, server.faulty)
  {
    calls, all := [], true;
    for i := 0 to |nodeset.sortedNodes|
      invariant |calls| == i && HandsOut(nodeset, order) && all
      invariant CallsAccepted(parentRefTypes, order, accepts, calls) && MembersKnown(server.types)
      invariant RunIs(old(server.types), old(server.faulty), parentRefTypes, order[..i], server.types, server.faulty)
    {
      calls, all := NextNode(nodeset, i, server, parentRefTypes, accepts, calls, order, old(server.types), old(server.faulty));
      if !all {
        return;
      }
    }
  }

  // ----- parent and type before instance

  /** `id` is the id of an earlier call. */
  predicate AddedBefore(calls: seq<AddNode>, k: nat, id: NodeId) {
    exists j :: 0 <= j < k && j < |calls| && calls[j].id == id
  }

  /** Whenever a node is added whose parent or type definition is in the nodeset, that one has
      been added before. */
  lemma NeededStandFirst(records: set<NodeInfo>, order: seq<NodeInfo>, parentRefTypes: seq<NodeId>, accepts: AddNode -> bool,
                         calls: seq<AddNode>, k: nat)
    requires BlockersFirstIn(records, order) && CallsUpToRefusal(parentRefTypes, order, accepts, calls)
    requires HAS_TYPE_DEFINITION !in parentRefTypes && k < |calls|
    ensures calls[k].parentId != NULL_ID && calls[k].parentId in Ids(records) ==> AddedBefore(calls, k, calls[k].parentId)
    ensures calls[k].typeDefId != NULL_ID && calls[k].typeDefId in Ids(records) ==> AddedBefore(calls, k, calls[k].typeDefId)
  {
  }

  /** The parent of a node that has one in the nodeset is never missed when the node's turn
      comes. */
  lemma {:induction false} ParentPositioned(records: set<NodeInfo>, order: seq<NodeInfo>, parentRefTypes: seq<NodeId>, k: nat)
    requires BlockersFirstIn(records, order) && HAS_TYPE_DEFINITION !in parentRefTypes && k < |order|
    requires ParentRef(parentRefTypes, order[k].refs).Some? && ParentId(parentRefTypes, order[k]) in Ids(records)
    ensures Position(order, ParentId(parentRefTypes, order[k]), k).Some?
  {
  }

  /** Every call comes after those for its parent and its type definition, as far as these are
      among the records. */
  ghost predicate NeededFirst(records: set<NodeInfo>, calls: seq<AddNode>) {
    forall k :: 0 <= k < |calls| ==>
      && (calls[k].parentId != NULL_ID && calls[k].parentId in Ids(records) ==> AddedBefore(calls, k, calls[k].parentId))
      && (calls[k].typeDefId != NULL_ID && calls[k].typeDefId in Ids(records) ==> AddedBefore(calls, k, calls[k].typeDefId))
  }

  /** The namespace URIs of a document as the server gets them. */
  function UriTexts(uris: seq<Option<string>>): (r: seq<string>)
    ensures |r| == |uris| && forall i :: 0 <= i < |r| ==> r[i] == (if uris[i].Some? then uris[i].value else "")
  {
    seq(|uris|, i requires 0 <= i < |uris| => if uris[i].Some? then uris[i].value else "")
  }

  ghost predicate ShortUris(uris: seq<string>) {
    forall u :: u in uris ==> |u| < NAME_BUFFER
  }

  /** What a load comes to, as far as the document has to do with it: every call is about its node
      in the order of the sort; parents and type definitions come first; and when no two records share an id, both the status and what
      is added if the server accepts everything are settled by the set of records. */
  ghost predicate Faithful(records: seq<NodeInfo>, parentRefTypes: seq<NodeId>, accepts: AddNode -> bool,
                           status: bool, calls: seq<AddNode>, order: seq<NodeInfo>) {
    && Elems(order) <= Elems(records)
    && BlockersFirstIn(Elems(records), order)
    && (forall k :: 0 <= k < |calls| && k < |order| ==> CallNames(parentRefTypes, calls[k], order[k]))
    && (HAS_TYPE_DEFINITION !in parentRefTypes ==> NeededFirst(Elems(records), calls))
    && (NoIdTwice(records) ==>
          && NoIdTwice(order)
          && (status <==> LastPool(Elems(records)) <= EmittedIds(Elems(records)))
          && (status && (forall call :: call in calls ==> accepts(call)) ==>
                (set call | call in calls :: call.id) == EmittedIds(Elems(records))))
    && (NoRecordWaits(Elems(records)) ==> order == ScanOrder(records))
  }

  /** Taking over the namespaces of the server and adding those of the document. */
  method MapNamespaces(uaServer: UAServer, uris: seq<Option<string>>) returns (remote2local: seq<nat>)
    requires uaServer.namespaces != [] && ShortUris(uaServer.namespaces) && ShortUris(UriTexts(uris))
    modifies uaServer
    ensures uaServer.namespaces == TableAfter(old(uaServer.namespaces), UriTexts(uris))
    ensures remote2local == [0] + Mapped(old(uaServer.namespaces), UriTexts(uris))
  {
    var context := new AddNodeContext(uaServer);
    context.AddNamespaces(UriTexts(uris));
    return context.remote2local;
  }

  /** Import and sort, with the document's namespaces added to the server. */
  method ImportAndSort(uaServer: UAServer, readers: Readers, c: Content)
    returns (nodeset: Nodeset, all: bool, remote2local: seq<nat>, ghost order: seq<NodeInfo>)
    requires CleanContent(c) && !Collected(readers, EMPTY_DOCUMENT, c).faulty
    requires uaServer.namespaces != [] && ShortUris(uaServer.namespaces)
    requires ShortUris(UriTexts(Collected(readers, EMPTY_DOCUMENT, c).namespaceUris))
    modifies uaServer
    ensures HandsOut(nodeset, order) && Loaded(Collected(readers, EMPTY_DOCUMENT, c).nodes, all, order)
    ensures var uris := UriTexts(Collected(readers, EMPTY_DOCUMENT, c).namespaceUris);
            && uaServer.namespaces == TableAfter(old(uaServer.namespaces), uris)
            && remote2local == [0] + Mapped(old(uaServer.namespaces), uris)
  {
    nodeset, all, order := LoadDocument(readers, c);
    remote2local := MapNamespaces(uaServer, nodeset.namespaceUris);
  }

  /** Loading a file into a server, whose tables of namespaces and of data types are `uaServer`
      and `server`. The document's namespaces are added in any case. No node is added when the
      sort fails. Otherwise the nodes are added in an order in which parents and type
      definitions come first, and the data types are registered in this order; what the
      server says to a single node does not show in the status. What comes after the sort holds
      unless one of the data types that had their turn was not defined on what was registered
      before. */
  method LoadFile(uaServer: UAServer, server: TypeServer, readers: Readers, c: Content, parentRefTypes: seq<NodeId>,
                  accepts: AddNode -> bool)
    returns (status: bool, calls: seq<AddNode>, remote2local: seq<nat>, ghost order: seq<NodeInfo>)
    requires CleanContent(c) && !Collected(readers, EMPTY_DOCUMENT, c).faulty
    requires MembersKnown(server.types) && !server.faulty
    requires uaServer.namespaces != [] && ShortUris(uaServer.namespaces)
    requires ShortUris(UriTexts(Collected(readers, EMPTY_DOCUMENT, c).namespaceUris))
    modifies uaServer, server
    ensures Loaded(Collected(readers, EMPTY_DOCUMENT, c).nodes, status, order) && |calls| <= |order|
    ensures server.faulty <==> !DefinedRun(old(server.types), parentRefTypes, order[..|calls|])
    ensures !server.faulty ==>
              var doc := Collected(readers, EMPTY_DOCUMENT, c);
              && (if status then CallsUpToRefusal(parentRefTypes, order, accepts, calls) else calls == [])
              && server.types == Replayed(old(server.types), parentRefTypes, order[..|calls|])
              && Faithful(doc.nodes, parentRefTypes, accepts, status, calls, order)
              && uaServer.namespaces == TableAfter(old(uaServer.namespaces), UriTexts(doc.namespaceUris))
              && remote2local == [0] + Mapped(old(uaServer.namespaces), UriTexts(doc.namespaceUris))
  {
    var nodeset;
    nodeset, status, remote2local, order := ImportAndSort(uaServer, readers, c);
    calls := [];
    if status {
      var all;
      calls, all := ForEachNode(nodeset, server, parentRefTypes, accepts, order);
    }
    LoadIsFaithful(Collected(readers, EMPTY_DOCUMENT, c).nodes, parentRefTypes, accepts, status, calls, order);
  }

  lemma LoadIsFaithful(records: seq<NodeInfo>, parentRefTypes: seq<NodeId>, accepts: AddNode -> bool,
                       status: bool, calls: seq<AddNode>, order: seq<NodeInfo>)
    requires Loaded(records, status, order)
    requires if status then CallsUpToRefusal(parentRefTypes, order, accepts, calls) else calls == []
    ensures Faithful(records, parentRefTypes, accepts, status, calls, order)
  {
    forall k | 0 <= k < |calls|
      ensures CallNames(parentRefTypes, calls[k], order[k])
    {
      CallSpelledOut(parentRefTypes, order[k]);
    }
    if status {
      if HAS_TYPE_DEFINITION !in parentRefTypes {
        AllNeededFirst(Elems(records), order, parentRefTypes, accepts, calls);
      }
      if forall call :: call in calls ==> accepts(call) {
        CallsHaveIds(parentRefTypes, order, accepts, calls);
      }
    }
  }

  lemma AllNeededFirst(records: set<NodeInfo>, order: seq<NodeInfo>, parentRefTypes: seq<NodeId>, accepts: AddNode -> bool,
                       calls: seq<AddNode>)
    requires BlockersFirstIn(records, order) && CallsUpToRefusal(parentRefTypes, order, accepts, calls)
    requires HAS_TYPE_DEFINITION !in parentRefTypes
    ensures NeededFirst(records, calls)
  {
    forall k | 0 <= k < |calls|
      ensures calls[k].parentId != NULL_ID && calls[k].parentId in Ids(records) ==> AddedBefore(calls, k, calls[k].parentId)
      ensures calls[k].typeDefId != NULL_ID && calls[k].typeDefId in Ids(records) ==> AddedBefore(calls, k, calls[k].typeDefId)
    {
      NeededStandFirst(records, order, parentRefTypes, accepts, calls, k);
    }
  }

  lemma CallsHaveIds(parentRefTypes: seq<NodeId>, order: seq<NodeInfo>, accepts: AddNode -> bool, calls: seq<AddNode>)
    requires CallsUpToRefusal(parentRefTypes, order, accepts, calls) && forall call :: call in calls ==> accepts(call)
    ensures (set call | call in calls :: call.id) == Ids(Elems(order))
  {
  }
}
