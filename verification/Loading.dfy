/** How the handlers fill a nodeset: attribute values, nodes, references, definitions. */
module Loading {
  import opened NodeIds
  import opened NodeRecords
  import opened Nodes
  import opened Nodesets
  import opened NodesetXml
  import opened CStrings
  import opened CharArenas
  import opened KeptTexts
  import Sax

  /** The characters of XML do not include the zero that terminates a string. */
  predicate CleanAttributes(attributes: seq<Attribute>) {
    forall a :: a in attributes ==> NUL !in a.value
  }

  /** A zero-terminated copy in the arena, read back as a string. */
  method CopyToArena(arena: CharArena, text: string) returns (s: string)
    requires arena.Valid() && NUL !in text
    modifies arena, arena.current, arena.current.mem
    ensures arena.Valid() && s == text
    ensures arena.current == old(arena.current) || (fresh(arena.current) && fresh(arena.current.mem))
    ensures |arena.kept| == old(|arena.kept|) + 1 && old(arena.kept) <= arena.kept && arena.kept[old(|arena.kept|)].text == text
    ensures forall b :: b in old(arena.blocks) ==> b in arena.blocks && b.InBounds() && b.Content() == old(b.Content())
  {
    var p := arena.Malloc(|text| + 1);
    assert arena.blocks[|arena.blocks| - 1] == arena.LastBlock();
    assert arena.written == [] && arena.Earlier() == old(arena.blocks);
    arena.Append(p, 0, text);
    assert arena.written == text;
    s := arena.KeepString(p);
  }

  /** The nodeset holds what the document says: its nodes in loading order, the aliases and
      the namespace URIs. */
  ghost predicate Holds(nodeset: Nodeset, doc: Document)
    reads nodeset`allNodes, nodeset`aliases, nodeset`namespaceUris
    reads nodeset.allNodes`displayName, nodeset.allNodes`description, nodeset.allNodes`inverseName,
          nodeset.allNodes`definition, nodeset.allNodes`refs, RefsOf(Elems(nodeset.allNodes))`target
  {
    AllMatch(nodeset.allNodes, doc.nodes) && doc.aliases == nodeset.aliases && doc.namespaceUris == nodeset.namespaceUris
  }

  ghost predicate AllMatch(nodes: seq<Node>, infos: seq<NodeInfo>)
    reads nodes`displayName, nodes`description, nodes`inverseName, nodes`definition, nodes`refs, RefsOf(Elems(nodes))`target
  {
    |infos| == |nodes| && forall i :: 0 <= i < |infos| ==> nodes[i].Matches(infos[i])
  }

  /** What an import has to do with: the nodes and references that were there or have been made
      since, the lists as they were at its beginning, and where its own nodes begin. */
  datatype Made = Made(objects: set<object>, waiting: Containers, first: nat) {
    ghost function With(o: object): Made {
      this.(objects := objects + {o})
    }

    ghost predicate NewSince(before: Made) {
      waiting == before.waiting && first == before.first
    }
  }

  /** The nodes and references of the nodeset are among those of `made`, no node is marked, and
      the new nodes wait in the order of loading. */
  ghost predicate Among(nodeset: Nodeset, made: Made)
    reads nodeset`allNodes, nodeset`waiting, nodeset.allNodes`refs, nodeset.allNodes`isDone
  {
    Listed(nodeset.allNodes, nodeset.waiting, made)
  }

  ghost predicate Listed(nodes: seq<Node>, waiting: Containers, made: Made)
    reads nodes`refs, nodes`isDone
  {
    && NoneMarked(nodes)
    && Queued(nodes, waiting, made.waiting, made.first)
    && (forall n :: n in nodes ==> n in made.objects)
    && (forall n, r :: n in nodes && r in n.refs ==> r in made.objects)
  }

  /** The value of the first attribute of that name, by way of the arena; the default when
      there is none. */
  method GetAttributeValue(nodeset: Nodeset, attributes: seq<Attribute>, name: string, default: Option<string>, ghost doc: Document)
    returns (value: Option<string>)
    requires Holds(nodeset, doc) && nodeset.charArena.Valid() && CleanAttributes(attributes)
    modifies nodeset.charArena, nodeset.charArena.current, nodeset.charArena.current.mem
    ensures nodeset.charArena.Valid()
    ensures nodeset.charArena.current == old(nodeset.charArena.current)
            || (fresh(nodeset.charArena.current) && fresh(nodeset.charArena.current.mem))
    ensures old(nodeset.charArena.kept) <= nodeset.charArena.kept
    ensures Holds(nodeset, doc)
    ensures value == AttributeValue(attributes, name, default)
    ensures IsKept(AttributeValue(attributes, name, None), nodeset.charArena.kept)
  {
    var i := 0;
    while i < |attributes| && attributes[i].name != name
      invariant 0 <= i <= |attributes|
      invariant AttributeValue(attributes[i..], name, default) == AttributeValue(attributes, name, default)
      invariant AttributeValue(attributes[i..], name, None) == AttributeValue(attributes, name, None)
    {
      assert attributes[i..][1..] == attributes[i + 1..];
      i := i + 1;
    }
    if i == |attributes| {
      return default;
    }
    assert attributes[i] in attributes && attributes[i..][0] == attributes[i];
    var s := CopyToArena(nodeset.charArena, attributes[i].value);
    LastIsKept(nodeset.charArena.kept, s);
    return Some(s);
  }

  /** `node` is the one under construction. */
  ghost predicate IsLast(nodeset: Nodeset, node: Node)
    reads nodeset`allNodes
  {
    && nodeset.allNodes != [] && nodeset.allNodes[|nodeset.allNodes| - 1] == node
    && Distinct(nodeset.allNodes)
  }

  // ----- single fields of the node under construction

  method PutDisplayName(nodeset: Nodeset, node: Node, value: LocalizedText, ghost doc: Document)
    requires Holds(nodeset, doc) && IsLast(nodeset, node)
    modifies node`displayName
    ensures node.displayName == value
    ensures Holds(nodeset, Sax.WithLast(doc, Sax.Last(doc).(displayName := value)))
  {
    node.displayName := value;
  }

  method PutDescription(nodeset: Nodeset, node: Node, value: LocalizedText, ghost doc: Document)
    requires Holds(nodeset, doc) && IsLast(nodeset, node)
    modifies node`description
    ensures node.description == value
    ensures Holds(nodeset, Sax.WithLast(doc, Sax.Last(doc).(description := value)))
  {
    node.description := value;
  }

  method PutInverseName(nodeset: Nodeset, node: Node, value: LocalizedText, ghost doc: Document)
    requires Holds(nodeset, doc) && IsLast(nodeset, node)
    modifies node`inverseName
    ensures node.inverseName == value
    ensures Holds(nodeset, Sax.WithLast(doc, Sax.Last(doc).(inverseName := value)))
  {
    node.inverseName := value;
  }

  method PutDefinition(nodeset: Nodeset, node: Node, value: Option<Definition>, ghost doc: Document)
    requires Holds(nodeset, doc) && IsLast(nodeset, node)
    modifies node`definition
    ensures node.definition == value
    ensures Holds(nodeset, Sax.WithLast(doc, Sax.Last(doc).(definition := value)))
  {
    node.definition := value;
  }

  // ----- nodes

  lemma ConservedAdd(all: seq<Node>, sorted: seq<Node>, waiting: Containers, node: Node)
    requires Conserved(all, sorted, waiting) && node !in all
    ensures Conserved(all + [node], sorted, waiting[node.nodeClass := Of(waiting, node.nodeClass) + [node]])
  {
    var list := Of(waiting, node.nodeClass) + [node];
    assert WaitingIs(Elems(all), Elems(sorted), node.nodeClass, Of(waiting, node.nodeClass));
    assert Elems(all + [node]) == Elems(all) + {node};
    assert node !in Elems(sorted);
    forall d {:trigger Of(waiting[node.nodeClass := list], d)}
      ensures WaitingIs(Elems(all) + {node}, Elems(sorted), d, Of(waiting[node.nodeClass := list], d))
    {
      assert WaitingIs(Elems(all), Elems(sorted), d, Of(waiting, d));
    }
  }

  lemma ListedAdd(nodes: seq<Node>, waiting: Containers, made: Made, node: Node)
    requires Listed(nodes, waiting, made) && node.refs == [] && !node.isDone
    ensures Listed(nodes + [node], waiting[node.nodeClass := Of(waiting, node.nodeClass) + [node]], made.With(node))
  {
    QueuedAdd(nodes, waiting, made.waiting, made.first, node);
  }

  lemma HoldsAdd(nodeset: Nodeset, node: Node, info: NodeInfo, doc: Document)
    requires Holds(nodeset, doc) && node.Matches(info)
    ensures AllMatch(nodeset.allNodes + [node], doc.nodes + [info])
  {
  }

  method AddNode(nodeset: Nodeset, node: Node, ghost info: NodeInfo, ghost doc: Document, ghost made: Made)
    requires Holds(nodeset, doc) && nodeset.Valid() && node.Matches(info) && node !in nodeset.allNodes
    requires Among(nodeset, made) && node.refs == [] && !node.isDone
    modifies nodeset`allNodes, nodeset`waiting
    ensures Among(nodeset, made.With(node))
    ensures nodeset.Valid() && nodeset.allNodes == old(nodeset.allNodes) + [node]
    ensures Holds(nodeset, doc.(nodes := doc.nodes + [info]))
  {
    ConservedAdd(nodeset.allNodes, nodeset.sortedNodes, nodeset.waiting, node);
    ListedAdd(nodeset.allNodes, nodeset.waiting, made, node);
    HoldsAdd(nodeset, node, info, doc);
    ghost var all, waiting := nodeset.allNodes + [node], nodeset.waiting[node.nodeClass := Of(nodeset.waiting, node.nodeClass) + [node]];
    nodeset.waiting := nodeset.waiting[node.nodeClass := Of(nodeset.waiting, node.nodeClass) + [node]];
    nodeset.allNodes := nodeset.allNodes + [node];
    assert nodeset.allNodes == all && nodeset.waiting == waiting;
    assert Conserved(all, nodeset.sortedNodes, waiting) && Listed(all, waiting, made.With(node)) && AllMatch(all, doc.nodes + [info]);
  }

  method ReadIdentity(nodeset: Nodeset, readers: Readers, attributes: seq<Attribute>, ghost doc: Document)
    returns (id: NodeId, browseName: QualifiedName)
    requires Holds(nodeset, doc) && nodeset.charArena.Valid() && CleanAttributes(attributes)
    modifies nodeset.charArena, nodeset.charArena.current, nodeset.charArena.current.mem
    ensures nodeset.charArena.Valid()
    ensures nodeset.charArena.current == old(nodeset.charArena.current)
            || (fresh(nodeset.charArena.current) && fresh(nodeset.charArena.current.mem))
    ensures old(nodeset.charArena.kept) <= nodeset.charArena.kept
    ensures Holds(nodeset, doc)
    ensures id == readers.nodeId(AttributeValue(attributes, "NodeId", None), doc.namespaceUris)
    ensures browseName == readers.qualifiedName(AttributeValue(attributes, "BrowseName", None), doc.namespaceUris)
  {
    var idText := GetAttributeValue(nodeset, attributes, "NodeId", None, doc);
    var nameText := GetAttributeValue(nodeset, attributes, "BrowseName", None, doc);
    return readers.nodeId(idText, nodeset.namespaceUris), readers.qualifiedName(nameText, nodeset.namespaceUris);
  }

  method MakeNode(nodeset: Nodeset, readers: Readers, c: NodeClass, attributes: seq<Attribute>, ghost doc: Document, ghost made: Made)
    returns (node: Node)
    requires Holds(nodeset, doc) && Among(nodeset, made) && nodeset.charArena.Valid() && CleanAttributes(attributes)
    modifies nodeset.charArena, nodeset.charArena.current, nodeset.charArena.current.mem
    ensures nodeset.charArena.Valid()
    ensures nodeset.charArena.current == old(nodeset.charArena.current)
            || (fresh(nodeset.charArena.current) && fresh(nodeset.charArena.current.mem))
    ensures old(nodeset.charArena.kept) <= nodeset.charArena.kept
    ensures Holds(nodeset, doc) && Among(nodeset, made)
    ensures fresh(node) && node.Matches(NewInfo(readers, doc, c, attributes)) && node.refs == [] && !node.isDone
  {
    var id, browseName := ReadIdentity(nodeset, readers, attributes, doc);
    node := new Node(c, id, browseName);
    node.MatchesInfo(NewInfo(readers, doc, c, attributes));
  }

  method NewNode(nodeset: Nodeset, readers: Readers, c: NodeClass, attributes: seq<Attribute>, ghost doc: Document, ghost made: Made)
    returns (node: Node)
    requires Holds(nodeset, doc) && Among(nodeset, made)
    requires nodeset.Valid() && nodeset.charArena.Valid() && CleanAttributes(attributes)
    modifies nodeset`allNodes, nodeset`waiting
    modifies nodeset.charArena, nodeset.charArena.current, nodeset.charArena.current.mem
    ensures nodeset.charArena.Valid()
    ensures nodeset.charArena.current == old(nodeset.charArena.current)
            || (fresh(nodeset.charArena.current) && fresh(nodeset.charArena.current.mem))
    ensures old(nodeset.charArena.kept) <= nodeset.charArena.kept
    ensures nodeset.Valid() && fresh(node) && Among(nodeset, made.With(node))
    ensures nodeset.allNodes == old(nodeset.allNodes) + [node]
    ensures Holds(nodeset, Sax.AddNode(readers, doc, c, attributes))
    ensures TextsKept(doc, old(nodeset.charArena.kept)) ==> TextsKept(Sax.AddNode(readers, doc, c, attributes), nodeset.charArena.kept)
  {
    ghost var kept := nodeset.charArena.kept;
    node := MakeNode(nodeset, readers, c, attributes, doc, made);
    AddNode(nodeset, node, NewInfo(readers, doc, c, attributes), doc, made);
    NodeKept(readers, doc, c, attributes, kept, nodeset.charArena.kept);
  }

  // ----- references

  /** No other entry of any reference list is this object. */
  ghost predicate Owned(nodes: seq<Node>, node: Node, ref: Reference)
    reads nodes`refs, node`refs
  {
    && node.refs != [] && node.refs[0] == ref && (forall k :: 0 < k < |node.refs| ==> node.refs[k] != ref)
    && forall n :: n in nodes && n != node ==> ref !in n.refs
  }

  method FindAliasId(aliases: seq<Alias>, name: string) returns (id: Option<NodeId>)
    ensures id == FindAlias(aliases, name)
  {
    var i := 0;
    while i < |aliases|
      invariant 0 <= i <= |aliases|
      invariant FindAlias(aliases[i..], name) == FindAlias(aliases, name)
    {
      if name == aliases[i].name {
        return Some(aliases[i].id);
      }
      assert aliases[i..][1..] == aliases[i + 1..];
      i := i + 1;
    }
    return None;
  }

  method AliasId(nodeset: Nodeset, readers: Readers, name: Option<string>, ghost doc: Document) returns (id: NodeId)
    requires Holds(nodeset, doc)
    ensures id == AliasToId(readers, doc, name)
  {
    if name == None {
      return readers.nodeId(name, nodeset.namespaceUris);
    }
    var alias := FindAliasId(nodeset.aliases, name.value);
    if alias == None {
      return readers.nodeId(name, nodeset.namespaceUris);
    }
    return alias.value;
  }

  method AddReference(nodeset: Nodeset, node: Node, ref: Reference, ghost doc: Document, ghost made: Made)
    requires Holds(nodeset, doc) && IsLast(nodeset, node) && Among(nodeset, made)
    requires forall n :: n in nodeset.allNodes ==> ref !in n.refs
    modifies node`refs
    ensures Among(nodeset, made.With(ref))
    ensures node.refs == [ref] + old(node.refs) && Owned(nodeset.allNodes, node, ref)
    ensures Holds(nodeset, Sax.WithLast(doc, Sax.Last(doc).(refs := [Ref(ref.isForward, ref.refType, ref.target)] + Sax.Last(doc).refs)))
  {
    node.refs := [ref] + node.refs;
  }

  method ReadReference(nodeset: Nodeset, readers: Readers, attributes: seq<Attribute>, ghost doc: Document) returns (r: Ref)
    requires Holds(nodeset, doc) && nodeset.charArena.Valid() && CleanAttributes(attributes)
    modifies nodeset.charArena, nodeset.charArena.current, nodeset.charArena.current.mem
    ensures nodeset.charArena.Valid()
    ensures nodeset.charArena.current == old(nodeset.charArena.current)
            || (fresh(nodeset.charArena.current) && fresh(nodeset.charArena.current.mem))
    ensures old(nodeset.charArena.kept) <= nodeset.charArena.kept
    ensures Holds(nodeset, doc) && r == NewRef(readers, doc, attributes)
  {
    var isForward := GetAttributeValue(nodeset, attributes, "IsForward", Some("true"), doc);
    var name := GetAttributeValue(nodeset, attributes, "ReferenceType", None, doc);
    var refType := AliasId(nodeset, readers, name, doc);
    return Ref(isForward == Some("true"), refType, NULL_ID);
  }

  method MakeReference(nodeset: Nodeset, readers: Readers, attributes: seq<Attribute>, ghost doc: Document, ghost made: Made)
    returns (ref: Reference)
    requires Holds(nodeset, doc) && Among(nodeset, made) && nodeset.charArena.Valid() && CleanAttributes(attributes)
    modifies nodeset.charArena, nodeset.charArena.current, nodeset.charArena.current.mem
    ensures nodeset.charArena.Valid()
    ensures nodeset.charArena.current == old(nodeset.charArena.current)
            || (fresh(nodeset.charArena.current) && fresh(nodeset.charArena.current.mem))
    ensures old(nodeset.charArena.kept) <= nodeset.charArena.kept
    ensures Holds(nodeset, doc) && Among(nodeset, made)
    ensures fresh(ref) && Ref(ref.isForward, ref.refType, ref.target) == NewRef(readers, doc, attributes)
    ensures ref.isForward <==>
              || (forall i :: 0 <= i < |attributes| ==> attributes[i].name != "IsForward")
              || exists i :: 0 <= i < |attributes| && attributes[i].name == "IsForward" && attributes[i].value == "true"
                             && forall j :: 0 <= j < i ==> attributes[j].name != "IsForward"
  {
    var r := ReadReference(nodeset, readers, attributes, doc);
    ref := new Reference(r.isForward, r.refType);
    ForwardUnlessSaid(readers, doc, attributes);
  }

  method NewReference(nodeset: Nodeset, readers: Readers, node: Node, attributes: seq<Attribute>, ghost doc: Document, ghost made: Made)
    returns (ref: Reference)
    requires Holds(nodeset, doc) && Among(nodeset, made)
    requires nodeset.charArena.Valid() && CleanAttributes(attributes) && IsLast(nodeset, node)
    modifies node`refs
    modifies nodeset.charArena, nodeset.charArena.current, nodeset.charArena.current.mem
    ensures nodeset.charArena.Valid()
    ensures nodeset.charArena.current == old(nodeset.charArena.current)
            || (fresh(nodeset.charArena.current) && fresh(nodeset.charArena.current.mem))
    ensures old(nodeset.charArena.kept) <= nodeset.charArena.kept
    ensures Among(nodeset, made.With(ref))
    ensures fresh(ref) && node.refs == [ref] + old(node.refs) && Owned(nodeset.allNodes, node, ref)
    ensures ref.isForward <==>
              || (forall i :: 0 <= i < |attributes| ==> attributes[i].name != "IsForward")
              || exists i :: 0 <= i < |attributes| && attributes[i].name == "IsForward" && attributes[i].value == "true"
                             && forall j :: 0 <= j < i ==> attributes[j].name != "IsForward"
    ensures Holds(nodeset, Sax.AddRef(readers, doc, attributes))
    ensures TextsKept(doc, old(nodeset.charArena.kept)) ==> TextsKept(Sax.AddRef(readers, doc, attributes), nodeset.charArena.kept)
  {
    ghost var kept := nodeset.charArena.kept;
    ref := MakeReference(nodeset, readers, attributes, doc, made);
    AddReference(nodeset, node, ref, doc, made);
    RefKept(readers, doc, attributes, kept, nodeset.charArena.kept);
  }

  method PutTarget(nodeset: Nodeset, ghost node: Node, ref: Reference, id: NodeId, ghost doc: Document)
    requires Holds(nodeset, doc) && IsLast(nodeset, node) && Owned(nodeset.allNodes, node, ref)
    modifies ref`target
    ensures var refs := Sax.Last(doc).refs;
            refs != [] && Holds(nodeset, Sax.WithLast(doc, Sax.Last(doc).(refs := refs[0 := refs[0].(target := id)])))
  {
    ref.target := id;
  }

  method FinishReference(nodeset: Nodeset, readers: Readers, ghost node: Node, ref: Reference, text: Option<string>, ghost doc: Document)
    requires Holds(nodeset, doc)
    requires IsLast(nodeset, node) && Owned(nodeset.allNodes, node, ref)
    modifies ref`target
    ensures Holds(nodeset, Sax.SetTarget(readers, doc, text))
  {
    var id := AliasId(nodeset, readers, text, doc);
    PutTarget(nodeset, node, ref, id, doc);
  }

  // ----- localized texts

  method SetDisplayName(nodeset: Nodeset, node: Node, attributes: seq<Attribute>, ghost doc: Document)
    requires Holds(nodeset, doc)
    requires nodeset.charArena.Valid() && CleanAttributes(attributes) && IsLast(nodeset, node)
    modifies node`displayName
    modifies nodeset.charArena, nodeset.charArena.current, nodeset.charArena.current.mem
    ensures nodeset.charArena.Valid()
    ensures nodeset.charArena.current == old(nodeset.charArena.current)
            || (fresh(nodeset.charArena.current) && fresh(nodeset.charArena.current.mem))
    ensures old(nodeset.charArena.kept) <= nodeset.charArena.kept
    ensures Holds(nodeset, Sax.SetDisplayLocale(doc, attributes))
    ensures TextsKept(doc, old(nodeset.charArena.kept)) ==> TextsKept(Sax.SetDisplayLocale(doc, attributes), nodeset.charArena.kept)
  {
    ghost var kept := nodeset.charArena.kept;
    var locale := GetAttributeValue(nodeset, attributes, "Locale", None, doc);
    PutDisplayName(nodeset, node, node.displayName.(locale := locale), doc);
    LocaleKept(doc, attributes, kept, nodeset.charArena.kept);
  }

  method FinishDisplayName(nodeset: Nodeset, node: Node, text: Option<string>, ghost doc: Document)
    requires Holds(nodeset, doc)
    requires IsLast(nodeset, node)
    modifies node`displayName
    ensures Holds(nodeset, Sax.SetDisplayText(doc, text))
  {
    PutDisplayName(nodeset, node, node.displayName.(text := text), doc);
  }

  method SetDescription(nodeset: Nodeset, node: Node, attributes: seq<Attribute>, ghost doc: Document)
    requires Holds(nodeset, doc)
    requires nodeset.charArena.Valid() && CleanAttributes(attributes) && IsLast(nodeset, node)
    modifies node`description
    modifies nodeset.charArena, nodeset.charArena.current, nodeset.charArena.current.mem
    ensures nodeset.charArena.Valid()
    ensures nodeset.charArena.current == old(nodeset.charArena.current)
            || (fresh(nodeset.charArena.current) && fresh(nodeset.charArena.current.mem))
    ensures old(nodeset.charArena.kept) <= nodeset.charArena.kept
    ensures Holds(nodeset, Sax.SetDescriptionLocale(doc, attributes))
    ensures TextsKept(doc, old(nodeset.charArena.kept)) ==> TextsKept(Sax.SetDescriptionLocale(doc, attributes), nodeset.charArena.kept)
  {
    ghost var kept := nodeset.charArena.kept;
    var locale := GetAttributeValue(nodeset, attributes, "Locale", None, doc);
    PutDescription(nodeset, node, node.description.(locale := locale), doc);
    LocaleKept(doc, attributes, kept, nodeset.charArena.kept);
  }

  method FinishDescription(nodeset: Nodeset, node: Node, text: Option<string>, ghost doc: Document)
    requires Holds(nodeset, doc)
    requires IsLast(nodeset, node)
    modifies node`description
    ensures Holds(nodeset, Sax.SetDescriptionText(doc, text))
  {
    PutDescription(nodeset, node, node.description.(text := text), doc);
  }

  method SetInverseName(nodeset: Nodeset, node: Node, attributes: seq<Attribute>, ghost doc: Document)
    requires Holds(nodeset, doc)
    requires nodeset.charArena.Valid() && CleanAttributes(attributes) && IsLast(nodeset, node)
    modifies node`inverseName
    modifies nodeset.charArena, nodeset.charArena.current, nodeset.charArena.current.mem
    ensures nodeset.charArena.Valid()
    ensures nodeset.charArena.current == old(nodeset.charArena.current)
            || (fresh(nodeset.charArena.current) && fresh(nodeset.charArena.current.mem))
    ensures old(nodeset.charArena.kept) <= nodeset.charArena.kept
    ensures Holds(nodeset, Sax.SetInverseLocale(doc, attributes))
    ensures TextsKept(doc, old(nodeset.charArena.kept)) ==> TextsKept(Sax.SetInverseLocale(doc, attributes), nodeset.charArena.kept)
  {
    if node.nodeClass == ReferenceType {
      ghost var kept := nodeset.charArena.kept;
      var locale := GetAttributeValue(nodeset, attributes, "Locale", None, doc);
      PutInverseName(nodeset, node, node.inverseName.(locale := locale), doc);
      LocaleKept(doc, attributes, kept, nodeset.charArena.kept);
    }
  }

  method FinishInverseName(nodeset: Nodeset, node: Node, text: Option<string>, ghost doc: Document)
    requires Holds(nodeset, doc)
    requires IsLast(nodeset, node)
    modifies node`inverseName
    ensures Holds(nodeset, Sax.SetInverseText(doc, text))
  {
    if node.nodeClass == ReferenceType {
      PutInverseName(nodeset, node, node.inverseName.(text := text), doc);
    }
  }

  // ----- data type definitions

  method ReadDefinition(nodeset: Nodeset, attributes: seq<Attribute>, ghost doc: Document) returns (d: Definition)
    requires Holds(nodeset, doc) && nodeset.charArena.Valid() && CleanAttributes(attributes)
    modifies nodeset.charArena, nodeset.charArena.current, nodeset.charArena.current.mem
    ensures nodeset.charArena.Valid()
    ensures nodeset.charArena.current == old(nodeset.charArena.current)
            || (fresh(nodeset.charArena.current) && fresh(nodeset.charArena.current.mem))
    ensures old(nodeset.charArena.kept) <= nodeset.charArena.kept
    ensures Holds(nodeset, doc) && d == NewDefinition(attributes)
  {
    var isUnion := GetAttributeValue(nodeset, attributes, "IsUnion", Some("false"), doc);
    var isOptionSet := GetAttributeValue(nodeset, attributes, "IsOptionSet", Some("false"), doc);
    return Definition([], false, isUnion == Some("true"), isOptionSet == Some("true"));
  }

  method AddDataTypeDefinition(nodeset: Nodeset, node: Node, attributes: seq<Attribute>, ghost doc: Document)
    requires Holds(nodeset, doc)
    requires nodeset.charArena.Valid() && CleanAttributes(attributes) && IsLast(nodeset, node)
    requires node.nodeClass == DataType
    modifies node`definition
    modifies nodeset.charArena, nodeset.charArena.current, nodeset.charArena.current.mem
    ensures nodeset.charArena.Valid()
    ensures nodeset.charArena.current == old(nodeset.charArena.current)
            || (fresh(nodeset.charArena.current) && fresh(nodeset.charArena.current.mem))
    ensures old(nodeset.charArena.kept) <= nodeset.charArena.kept
    ensures node.definition.Some?
    ensures Holds(nodeset, Sax.AddDefinition(doc, attributes))
    ensures TextsKept(doc, old(nodeset.charArena.kept)) ==> TextsKept(Sax.AddDefinition(doc, attributes), nodeset.charArena.kept)
  {
    ghost var kept := nodeset.charArena.kept;
    var d := ReadDefinition(nodeset, attributes, doc);
    PutDefinition(nodeset, node, Some(d), doc);
    DefinitionKept(doc, attributes, kept, nodeset.charArena.kept);
  }

  /** The member of a structure that a Field element without a Value describes. */
  method ReadMember(nodeset: Nodeset, readers: Readers, attributes: seq<Attribute>, name: Option<string>, ghost doc: Document) returns (f: Field)
    requires Holds(nodeset, doc) && nodeset.charArena.Valid() && CleanAttributes(attributes)
    modifies nodeset.charArena, nodeset.charArena.current, nodeset.charArena.current.mem
    ensures nodeset.charArena.Valid()
    ensures nodeset.charArena.current == old(nodeset.charArena.current)
            || (fresh(nodeset.charArena.current) && fresh(nodeset.charArena.current.mem))
    ensures old(nodeset.charArena.kept) <= nodeset.charArena.kept
    ensures Holds(nodeset, doc)
    ensures f == Field(name, AliasToId(readers, doc, AttributeValue(attributes, "DataType", Some("i=24"))),
                       Atoi(AttributeValue(attributes, "ValueRank", Some("-1")).value), 0, IsTrue(attributes, "IsOptional"))
  {
    var typeName := GetAttributeValue(nodeset, attributes, "DataType", Some("i=24"), doc);
    var dataType := AliasId(nodeset, readers, typeName, doc);
    var valueRank := GetAttributeValue(nodeset, attributes, "ValueRank", Some("-1"), doc);
    var isOptional := GetAttributeValue(nodeset, attributes, "IsOptional", Some("false"), doc);
    return Field(name, dataType, Atoi(valueRank.value), 0, isOptional == Some("true"));
  }

  method ReadField(nodeset: Nodeset, readers: Readers, d: Definition, attributes: seq<Attribute>, ghost doc: Document) returns (r: Definition)
    requires Holds(nodeset, doc) && nodeset.charArena.Valid() && CleanAttributes(attributes)
    modifies nodeset.charArena, nodeset.charArena.current, nodeset.charArena.current.mem
    ensures nodeset.charArena.Valid()
    ensures nodeset.charArena.current == old(nodeset.charArena.current)
            || (fresh(nodeset.charArena.current) && fresh(nodeset.charArena.current.mem))
    ensures old(nodeset.charArena.kept) <= nodeset.charArena.kept
    ensures Holds(nodeset, doc) && r == AddField(readers, doc, d, attributes)
    ensures IsKept(AttributeValue(attributes, "Name", None), nodeset.charArena.kept)
  {
    var name := GetAttributeValue(nodeset, attributes, "Name", None, doc);
    ghost var kept := nodeset.charArena.kept;
    var value := GetAttributeValue(nodeset, attributes, "Value", None, doc);
    KeptMore(kept, nodeset.charArena.kept);
    if value.Some? {
      r := d.(fields := d.fields + [Field(name, NULL_ID, 0, Atoi(value.value), false)], isEnum := !d.isOptionSet);
    } else {
      var f := ReadMember(nodeset, readers, attributes, name, doc);
      KeptMore(kept, nodeset.charArena.kept);
      r := d.(fields := d.fields + [f]);
    }
  }

  method AddDataTypeField(nodeset: Nodeset, readers: Readers, node: Node, attributes: seq<Attribute>, ghost doc: Document)
    requires Holds(nodeset, doc)
    requires nodeset.charArena.Valid() && CleanAttributes(attributes) && IsLast(nodeset, node)
    requires node.definition.Some?
    modifies node`definition
    modifies nodeset.charArena, nodeset.charArena.current, nodeset.charArena.current.mem
    ensures nodeset.charArena.Valid()
    ensures nodeset.charArena.current == old(nodeset.charArena.current)
            || (fresh(nodeset.charArena.current) && fresh(nodeset.charArena.current.mem))
    ensures old(nodeset.charArena.kept) <= nodeset.charArena.kept
    ensures node.definition.Some?
    ensures Holds(nodeset, Sax.AddDefinitionField(readers, doc, attributes))
    ensures TextsKept(doc, old(nodeset.charArena.kept)) ==> TextsKept(Sax.AddDefinitionField(readers, doc, attributes), nodeset.charArena.kept)
  {
    ghost var kept := nodeset.charArena.kept;
    ghost var field := AddField(readers, doc, node.definition.value, attributes);
    assert Sax.AddDefinitionField(readers, doc, attributes) == Sax.WithLast(doc, Sax.Last(doc).(definition := Some(field)));
    var d := ReadField(nodeset, readers, node.definition.value, attributes, doc);
    PutDefinition(nodeset, node, Some(d), doc);
    FieldKept(readers, doc, attributes, kept, nodeset.charArena.kept);
  }

  // ----- aliases and namespaces

  method NewAlias(nodeset: Nodeset, attributes: seq<Attribute>, ghost doc: Document)
    requires Holds(nodeset, doc)
    requires nodeset.charArena.Valid() && CleanAttributes(attributes)
    requires AliasFits(doc, attributes)
    modifies nodeset`aliases
    modifies nodeset.charArena, nodeset.charArena.current, nodeset.charArena.current.mem
    ensures nodeset.charArena.Valid()
    ensures nodeset.charArena.current == old(nodeset.charArena.current)
            || (fresh(nodeset.charArena.current) && fresh(nodeset.charArena.current.mem))
    ensures old(nodeset.charArena.kept) <= nodeset.charArena.kept
    ensures nodeset.aliases != []
    ensures Holds(nodeset, Sax.AddAlias(doc, attributes))
    ensures TextsKept(doc, old(nodeset.charArena.kept)) ==> TextsKept(Sax.AddAlias(doc, attributes), nodeset.charArena.kept)
  {
    ghost var kept := nodeset.charArena.kept;
    var name := GetAttributeValue(nodeset, attributes, "Alias", None, doc);
    nodeset.aliases := nodeset.aliases + [Alias(name.value, NULL_ID)];
    AliasKept(doc, attributes, kept, nodeset.charArena.kept);
  }

  method FinishAlias(nodeset: Nodeset, readers: Readers, text: Option<string>, ghost doc: Document)
    requires Holds(nodeset, doc)
    requires nodeset.aliases != []
    modifies nodeset`aliases
    ensures Holds(nodeset, Sax.SetAliasId(readers, doc, text))
  {
    var last := |nodeset.aliases| - 1;
    nodeset.aliases := nodeset.aliases[last := nodeset.aliases[last].(id := readers.nodeId(text, nodeset.namespaceUris))];
  }

  method FinishNamespace(nodeset: Nodeset, text: Option<string>, ghost doc: Document)
    requires Holds(nodeset, doc)
    modifies nodeset`namespaceUris
    ensures Holds(nodeset, Sax.AddUri(doc, text))
  {
    nodeset.namespaceUris := nodeset.namespaceUris + [text];
  }
}
