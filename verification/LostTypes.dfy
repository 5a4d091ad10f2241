/** A nodeset of three data types that lists each type behind those of its fields, and is
    sorted in such a way that one of them is lost. */
module LostTypes {
  import opened NodeIds
  import opened NodeRecords
  import opened Nodes
  import opened CStrings
  import opened NodesetXml
  import opened Parents
  import opened Loader
  import opened DataTypes
  import opened TypeTheorems
  import opened Namespaces
  import opened Parser
  import opened Replay
  import opened SortTheorems
  import opened CharArenas
  import Sax

  /** A type with a single field. */
  datatype Decl = Decl(id: string, name: string, fieldType: string)

  /** The texts of HasSubtype and of Structure. */
  const HAS_SUBTYPE := "i=45"
  const STRUCTURE := "i=22"

  const URI := "http://example.org/lost/"
  const URIS := [Some(URI)]

  function FieldElement(d: Decl): Content {
    Element("Field", [Attribute("Name", "Value"), Attribute("DataType", d.fieldType)], Empty, Empty)
  }

  function SubtypeElement(): Content {
    Element("Reference", [Attribute("ReferenceType", HAS_SUBTYPE), Attribute("IsForward", "false")], Text(STRUCTURE, Empty), Empty)
  }

  function PartsOf(d: Decl): Content {
    Element("References", [], SubtypeElement(), Element("Definition", [], FieldElement(d), Empty))
  }

  function IdentityOf(d: Decl): seq<Attribute> {
    [Attribute("NodeId", d.id), Attribute("BrowseName", d.name)]
  }

  /** A UADataType element for each of the types, all of them subtypes of Structure. */
  function TypeElements(decls: seq<Decl>): Content {
    if decls == [] then Empty
    else Element("UADataType", IdentityOf(decls[0]), PartsOf(decls[0]), TypeElements(decls[1..]))
  }

  /** A nodeset of these types, in a namespace of its own. */
  function TypesNodeset(decls: seq<Decl>): Content {
    var uris := Element("NamespaceUris", [], Element("Uri", [], Text(URI, Empty), Empty), TypeElements(decls));
    Element("UANodeSet", [], uris, Empty)
  }

  function IdOf(readers: Readers, text: string): NodeId {
    readers.nodeId(Some(text), URIS)
  }

  function TypeRecord(readers: Readers, d: Decl): NodeInfo {
    var none := LocalizedText(None, None);
    var field := Field(Some("Value"), IdOf(readers, d.fieldType), Atoi("-1"), 0, false);
    NodeInfo(DataType, IdOf(readers, d.id), readers.qualifiedName(Some(d.name), URIS), none, none, none,
             [Ref(false, IdOf(readers, HAS_SUBTYPE), IdOf(readers, STRUCTURE))],
             Some(Definition([field], false, false, false)))
  }

  function TypeRecords(readers: Readers, decls: seq<Decl>): (r: seq<NodeInfo>)
    ensures |r| == |decls| && forall i :: 0 <= i < |r| ==> r[i] == TypeRecord(readers, decls[i])
  {
    seq(|decls|, i requires 0 <= i < |decls| => TypeRecord(readers, decls[i]))
  }

  // ----- what is collected

  lemma {:induction false} OfTwo(a: Attribute, b: Attribute, name: string, default: Option<string>)
    ensures AttributeValue([a, b], name, default)
            == if a.name == name then Some(a.value) else if b.name == name then Some(b.value) else default
  {
    assert [a, b][1..] == [b] && [b][1..] == [];
    assert AttributeValue([b], name, default) == if b.name == name then Some(b.value) else default;
  }

  lemma {:induction false} ReadFieldElement(readers: Readers, doc: Document, fieldType: string)
    requires doc.aliases == [] && doc.namespaceUris == URIS
    ensures var d := Definition([], false, false, false);
            AddField(readers, doc, d, [Attribute("Name", "Value"), Attribute("DataType", fieldType)])
            == d.(fields := [Field(Some("Value"), IdOf(readers, fieldType), Atoi("-1"), 0, false)])
  {
    var a, b := Attribute("Name", "Value"), Attribute("DataType", fieldType);
    assert |"Name"| == 4 && |"Value"| == 5 && |"DataType"| == 8 && |"ValueRank"| == 9 && |"IsOptional"| == 10;
    OfTwo(a, b, "Name", None);
    OfTwo(a, b, "Value", None);
    OfTwo(a, b, "DataType", Some("i=24"));
    OfTwo(a, b, "ValueRank", Some("-1"));
    OfTwo(a, b, "IsOptional", Some("false"));
    assert |"true"| == 4 && |"false"| == 5;
    assert AliasToId(readers, doc, Some(fieldType)) == IdOf(readers, fieldType);
  }

  lemma {:induction false} ReadSubtypeElement(readers: Readers, doc: Document)
    requires doc.aliases == [] && doc.namespaceUris == URIS
    ensures CollectRefs(readers, doc, SubtypeElement()) == [Ref(false, IdOf(readers, HAS_SUBTYPE), IdOf(readers, STRUCTURE))]
  {
    var a, b := Attribute("ReferenceType", HAS_SUBTYPE), Attribute("IsForward", "false");
    assert |"ReferenceType"| == 13 && |"IsForward"| == 9 && |"true"| == 4 && |"false"| == 5;
    OfTwo(a, b, "IsForward", Some("true"));
    OfTwo(a, b, "ReferenceType", None);
    assert AliasToId(readers, doc, Some(HAS_SUBTYPE)) == IdOf(readers, HAS_SUBTYPE);
    assert TextOf(Text(STRUCTURE, Empty)) == Some(STRUCTURE);
    assert AliasToId(readers, doc, Some(STRUCTURE)) == IdOf(readers, STRUCTURE);
  }

  lemma {:induction false} ReadIdentityOf(readers: Readers, doc: Document, d: Decl)
    requires doc.namespaceUris == URIS
    ensures NewInfo(readers, doc, DataType, IdentityOf(d)) == TypeRecord(readers, d).(refs := [], definition := None)
  {
    var a, b := Attribute("NodeId", d.id), Attribute("BrowseName", d.name);
    assert |"NodeId"| == 6 && |"BrowseName"| == 10;
    OfTwo(a, b, "NodeId", None);
    OfTwo(a, b, "BrowseName", None);
  }

  lemma {:induction false} ReadParts(readers: Readers, doc: Document, d: Decl)
    requires doc.aliases == [] && doc.namespaceUris == URIS
    ensures ReadNode(readers, doc, TypeRecord(readers, d).(refs := [], definition := None), PartsOf(d)) == TypeRecord(readers, d)
    ensures DefinitionsFit(DataType, PartsOf(d))
  {
    var record, empty := TypeRecord(readers, d), Definition([], false, false, false);
    var info := record.(refs := [], definition := None);
    var definition := Element("Definition", [], FieldElement(d), Empty);
    assert |"DisplayName"| == 11 && |"Description"| == 11 && |"InverseName"| == 11;
    assert "References"[0] == 'R' && "Definition"[0] == 'D' && |"References"| == 10 && |"Definition"| == 10;
    ReadSubtypeElement(readers, doc);
    var withRefs := ReadNodeElement(readers, doc, info, "References", [], SubtypeElement());
    assert Reversed(record.refs) == record.refs;
    assert record.refs + [] == record.refs;
    assert withRefs == record.(definition := None);
    ReadFieldElement(readers, doc, d.fieldType);
    assert NewDefinition([]) == empty;
    assert ReadFields(readers, doc, empty, FieldElement(d)) == record.definition.value;
    assert ReadNodeElement(readers, doc, withRefs, "Definition", [], FieldElement(d)) == record;
    assert ReadNode(readers, doc, withRefs, definition) == ReadNode(readers, doc, record, Empty) == record;
  }

  lemma {:induction false} ReadTypeElement(readers: Readers, doc: Document, d: Decl)
    requires doc.aliases == [] && doc.namespaceUris == URIS
    ensures ReadTopElement(readers, doc, "UADataType", IdentityOf(d), PartsOf(d)) == doc.(nodes := doc.nodes + [TypeRecord(readers, d)])
  {
    ReadIdentityOf(readers, doc, d);
    ReadParts(readers, doc, d);
  }

  lemma FirstRecord(readers: Readers, before: seq<NodeInfo>, decls: seq<Decl>)
    requires decls != []
    ensures (before + [TypeRecord(readers, decls[0])]) + TypeRecords(readers, decls[1..]) == before + TypeRecords(readers, decls)
  {
  }

  lemma {:induction false} ReadTypeElements(readers: Readers, doc: Document, decls: seq<Decl>)
    requires doc.aliases == [] && doc.namespaceUris == URIS
    ensures ReadTop(readers, doc, TypeElements(decls)) == doc.(nodes := doc.nodes + TypeRecords(readers, decls))
    decreases |decls|
  {
    if decls == [] {
      assert doc.nodes + TypeRecords(readers, decls) == doc.nodes;
    } else {
      var next := doc.(nodes := doc.nodes + [TypeRecord(readers, decls[0])]);
      ReadTypeElement(readers, doc, decls[0]);
      ReadTypeElements(readers, next, decls[1..]);
      FirstRecord(readers, doc.nodes, decls);
    }
  }

  lemma {:induction false} TypeElementsFlat(decls: seq<Decl>)
    ensures FlatTop(TypeElements(decls))
  {
    if decls != [] {
      TypeElementsFlat(decls[1..]);
      assert FlatNode(Element("Definition", [], FieldElement(decls[0]), Empty));
      assert FlatNode(PartsOf(decls[0]));
    }
  }

  lemma {:induction false} NodesetFlat(decls: seq<Decl>)
    ensures FlatTop(TypesNodeset(decls))
  {
    TypeElementsFlat(decls);
    assert !IsWrapper("NamespaceUris") && ClassOfElement("NamespaceUris") == None && ClassOfElement("UANodeSet") == None;
  }

  lemma {:induction false} ReadUris(readers: Readers, doc: Document)
    ensures ReadTopElement(readers, doc, "NamespaceUris", [], Element("Uri", [], Text(URI, Empty), Empty))
            == doc.(namespaceUris := doc.namespaceUris + URIS)
  {
    assert ClassOfElement("NamespaceUris") == None;
    assert TextOf(Text(URI, Empty)) == Some(URI);
    assert CollectUris(Element("Uri", [], Text(URI, Empty), Empty)) == URIS;
  }

  lemma {:induction false} ReadNodeset(readers: Readers, decls: seq<Decl>)
    ensures ReadTop(readers, EMPTY_DOCUMENT, TypesNodeset(decls))
            == ReadTop(readers, EMPTY_DOCUMENT.(namespaceUris := URIS), TypeElements(decls))
  {
    var uris := Element("NamespaceUris", [], Element("Uri", [], Text(URI, Empty), Empty), TypeElements(decls));
    assert ClassOfElement("UANodeSet") == None && IsWrapper("UANodeSet");
    assert TypesNodeset(decls) == Element("UANodeSet", [], uris, Empty);
    assert ReadTop(readers, EMPTY_DOCUMENT, TypesNodeset(decls)) == ReadTop(readers, EMPTY_DOCUMENT, uris);
    ReadUris(readers, EMPTY_DOCUMENT);
    assert [] + URIS == URIS;
  }

  /** The document declares one type after the other. */
  lemma {:induction false} TypesCollected(readers: Readers, decls: seq<Decl>)
    ensures Sax.Collected(readers, EMPTY_DOCUMENT, TypesNodeset(decls)) == Document(TypeRecords(readers, decls), [], URIS, false)
  {
    NodesetFlat(decls);
    Sax.Refinement(readers, EMPTY_DOCUMENT, TypesNodeset(decls));
    ReadNodeset(readers, decls);
    ReadTypeElements(readers, EMPTY_DOCUMENT.(namespaceUris := URIS), decls);
    assert [] + TypeRecords(readers, decls) == TypeRecords(readers, decls);
  }

  // ----- how it is sorted

  lemma {:induction false} RecordsOfOneClass(records: seq<NodeInfo>, k: NodeClass)
    requires forall r :: r in records ==> r.nodeClass == DataType
    ensures RecordsOf(records, k) == if k == DataType then records else []
  {
    if records != [] {
      var init := records[..|records| - 1];
      RecordsOfOneClass(init, k);
      assert records == init + [records[|records| - 1]];
    }
  }

  lemma {:induction false} ClassAdds(all: seq<NodeInfo>, classes: seq<NodeClass>, k: NodeClass)
    requires forall r :: r in all ==> r.nodeClass == DataType
    ensures k != DataType ==> ClassesInTurn(all, classes + [k]) == ClassesInTurn(all, classes)
    ensures k == DataType && ClassesInTurn(all, classes) == [] ==> ClassesInTurn(all, classes + [k]) == EmptyingOrder(all)
  {
    RecordsOfOneClass(all, k);
    OneMoreClass(all, classes, k);
    NothingToAppend(ClassesInTurn(all, classes), EmptyingOrder(RecordsOf(all, k)));
  }

  lemma {:induction false} EarlyClassesOf(all: seq<NodeInfo>)
    requires forall r :: r in all ==> r.nodeClass == DataType
    ensures ClassesInTurn(all, EARLY_CLASSES) == EmptyingOrder(all)
  {
    var a, b, c, d := ReferenceType, DataType, VariableType, View;
    assert [a, b, c, d] == [a, b, c] + [d] && [a, b, c] == [a, b] + [c] && [a, b] == [a] + [b] && [a] == [] + [a];
    ClassAdds(all, [], a);
    ClassAdds(all, [a], b);
    ClassAdds(all, [a, b], c);
    ClassAdds(all, [a, b, c], d);
  }

  lemma {:induction false} InstanceClassesOf(all: seq<NodeInfo>)
    requires forall r :: r in all ==> r.nodeClass == DataType
    ensures ClassesInTurn(all, INSTANCE_CLASSES) == []
  {
    var a, b, c, d := ObjectType, Object, Method, Variable;
    assert [a, b, c, d] == [a, b, c] + [d] && [a, b, c] == [a, b] + [c] && [a, b] == [a] + [b] && [a] == [] + [a];
    ClassAdds(all, [], a);
    ClassAdds(all, [a], b);
    ClassAdds(all, [a, b], c);
    ClassAdds(all, [a, b, c], d);
  }

  lemma {:induction false} ScanOfOneClass(all: seq<NodeInfo>)
    requires forall r :: r in all ==> r.nodeClass == DataType
    ensures ScanOrder(all) == EmptyingOrder(all)
  {
    EarlyClassesOf(all);
    InstanceClassesOf(all);
    NothingToAppend(EmptyingOrder(all), []);
  }

  lemma NoneWaitsForOthers(records: set<NodeInfo>, other: NodeId)
    requires forall r, ref :: r in records && ref in r.refs ==> ref.target == other
    requires other !in Ids(records)
    ensures NoRecordWaits(records)
  {
  }

  /** The types wait for nothing, and the scan takes the first one, and then the others from the
      last one back. */
  lemma {:induction false} TypesSorted(readers: Readers, decls: seq<Decl>)
    requires forall d :: d in decls ==> IdOf(readers, d.id) != IdOf(readers, STRUCTURE)
    ensures var all := TypeRecords(readers, decls);
            NoRecordWaits(Elems(all)) && ScanOrder(all) == EmptyingOrder(all)
  {
    var all := TypeRecords(readers, decls);
    ScanOfOneClass(all);
    NoneWaitsForOthers(Elems(all), IdOf(readers, STRUCTURE));
  }

  lemma {:induction false} EmptyingThree<T>(a: T, b: T, c: T)
    ensures EmptyingOrder([a, b, c]) == [a, c, b]
  {
    assert [a, b, c][1..] == [b, c] && [b, c][1..] == [c] && [c][1..] == [];
    assert Reversed([c]) == [c];
    assert Reversed([b, c]) == [c, b];
  }

  // ----- what is lost

  /** The first and the second type need what the server knows, the third one the second. */
  predicate ThirdNeedsSecond(types: Registry, parentRefTypes: seq<NodeId>, a: NodeInfo, b: NodeInfo, c: NodeInfo) {
    && a.nodeClass == b.nodeClass == c.nodeClass == DataType
    && a.id != b.id && a.id != c.id && b.id != c.id && a.id !in types && b.id !in types && c.id !in types
    && Needs(parentRefTypes, a) <= types.Keys && Needs(parentRefTypes, b) <= types.Keys && Needs(parentRefTypes, c) == {b.id}
  }

  lemma {:induction false} LostInBetween(types: Registry, parentRefTypes: seq<NodeId>, a: NodeInfo, b: NodeInfo, c: NodeInfo)
    requires ThirdNeedsSecond(types, parentRefTypes, a, b, c)
    ensures forall r :: r in [a, b, c] ==> r.id in Replayed(types, parentRefTypes, [a, b, c])
    ensures var after := Replayed(types, parentRefTypes, [a, c, b]); a.id in after && b.id in after && c.id !in after
  {
    var infos, order := [a, b, c], [a, c, b];
    assert infos[1].id == b.id && infos[1].nodeClass == DataType;
    AllRegisteredIff(types, parentRefTypes, infos);
    RegisteredIff(types, parentRefTypes, order, 0);
    RegisteredIff(types, parentRefTypes, order, 1);
    RegisteredIff(types, parentRefTypes, order, 2);
  }

  /** Other and Inner have a String, and Outer has a value of type Inner. */
  const OTHER := "ns=1;i=1"
  const INNER := "ns=1;i=2"
  const OUTER := "ns=1;i=3"
  const STRING := "i=12"
  const THREE_TYPES := [Decl(OTHER, "1:Other", STRING), Decl(INNER, "1:Inner", STRING), Decl(OUTER, "1:Outer", INNER)]

  /** The texts are read as different ids, of which the server knows String and Structure alone. */
  predicate Understood(readers: Readers, types: Registry) {
    var other, inner, outer := IdOf(readers, OTHER), IdOf(readers, INNER), IdOf(readers, OUTER);
    && other != inner && other != outer && inner != outer
    && other !in types && inner !in types && outer !in types
    && IdOf(readers, STRING) in types && IdOf(readers, STRUCTURE) in types
  }

  lemma {:induction false} ThreeTypesLoaded(readers: Readers, types: Registry, a: NodeInfo, b: NodeInfo, c: NodeInfo)
    requires Understood(readers, types) && [a, b, c] == TypeRecords(readers, THREE_TYPES)
    ensures NoRecordWaits(Elems([a, b, c])) && ScanOrder([a, b, c]) == [a, c, b]
  {
    TypesSorted(readers, THREE_TYPES);
    EmptyingThree(a, b, c);
  }

  lemma {:induction false} NeedsOfField(readers: Readers, parentRefTypes: seq<NodeId>, d: Decl)
    ensures Needs(parentRefTypes, TypeRecord(readers, d)) == {IdOf(readers, d.fieldType)}
  {
    var info := TypeRecord(readers, d);
    assert Fields(info)[0] in Fields(info);
  }

  lemma {:induction false} ThreeTypesNeed(readers: Readers, types: Registry, parentRefTypes: seq<NodeId>, a: NodeInfo, b: NodeInfo, c: NodeInfo)
    requires Understood(readers, types) && [a, b, c] == TypeRecords(readers, THREE_TYPES)
    ensures ThirdNeedsSecond(types, parentRefTypes, a, b, c)
  {
    assert a == [a, b, c][0] && b == [a, b, c][1] && c == [a, b, c][2];
    NeedsOfField(readers, parentRefTypes, THREE_TYPES[0]);
    NeedsOfField(readers, parentRefTypes, THREE_TYPES[1]);
    NeedsOfField(readers, parentRefTypes, THREE_TYPES[2]);
  }

  /** The types of fields are not references. Added in document order, all three types are
      registered; in the order of the sort, Outer is not. */
  lemma {:induction false} FieldTypesAreNotSorted(readers: Readers, types: Registry, parentRefTypes: seq<NodeId>)
    requires Understood(readers, types)
    ensures var records := Sax.Collected(readers, EMPTY_DOCUMENT, TypesNodeset(THREE_TYPES)).nodes;
            var after := Replayed(types, parentRefTypes, ScanOrder(records));
            && NoRecordWaits(Elems(records)) && |ScanOrder(records)| == 3
            && (forall r :: r in records ==> r.id in Replayed(types, parentRefTypes, records))
            && IdOf(readers, OTHER) in after && IdOf(readers, INNER) in after && IdOf(readers, OUTER) !in after
  {
    var records := TypeRecords(readers, THREE_TYPES);
    var a, b, c := records[0], records[1], records[2];
    assert [a, b, c] == records;
    TypesCollected(readers, THREE_TYPES);
    ThreeTypesLoaded(readers, types, a, b, c);
    ThreeTypesNeed(readers, types, parentRefTypes, a, b, c);
    LostInBetween(types, parentRefTypes, a, b, c);
  }

  // ----- the load

  lemma {:induction false} TypeElementsClean(decls: seq<Decl>)
    requires forall d :: d in decls ==> NUL !in d.id && NUL !in d.name && NUL !in d.fieldType
    ensures CleanContent(TypeElements(decls))
  {
    if decls != [] {
      assert decls[0] in decls;
      assert CleanContent(SubtypeElement());
      assert CleanContent(FieldElement(decls[0]));
      TypeElementsClean(decls[1..]);
    }
  }

  lemma {:induction false} NodesetClean(decls: seq<Decl>)
    requires CleanContent(TypeElements(decls))
    ensures CleanContent(TypesNodeset(decls))
  {
    assert CleanContent(Element("Uri", [], Text(URI, Empty), Empty));
  }

  lemma {:induction false} ThreeTypesClean()
    ensures CleanContent(TypesNodeset(THREE_TYPES))
  {
    TypeElementsClean(THREE_TYPES);
    NodesetClean(THREE_TYPES);
  }

  /** Nothing undefined happens when such types are added. */
  lemma {:induction false} TypesDefined(readers: Readers, types: Registry, parentRefTypes: seq<NodeId>, decls: seq<Decl>, infos: seq<NodeInfo>)
    requires Elems(infos) <= Elems(TypeRecords(readers, decls))
    requires IdOf(readers, STRUCTURE) in types && Copyable(types, IdOf(readers, STRUCTURE)) && IdOf(readers, HAS_SUBTYPE) in parentRefTypes
    ensures DefinedRun(types, parentRefTypes, infos)
  {
    forall k | 0 <= k < |infos|
      ensures Defined(Replayed(types, parentRefTypes, infos[..k]), ParentId(parentRefTypes, infos[k]), infos[k])
    {
      assert infos[k] in Elems(infos);
      assert infos[k].refs[0].target == IdOf(readers, STRUCTURE);
      assert IsParentRef(parentRefTypes, infos[k].refs[0]);
      assert infos[..k][..0] == [];
      GrowsOnly(types, parentRefTypes, infos[..k], 0);
    }
  }

  lemma {:induction false} AllCalled(parentRefTypes: seq<NodeId>, accepts: AddNode -> bool, calls: seq<AddNode>, order: seq<NodeInfo>)
    requires CallsUpToRefusal(parentRefTypes, order, accepts, calls) && forall call :: accepts(call)
    ensures order[..|calls|] == order
  {
    assert order[..|order|] == order;
  }

  lemma {:induction false} TypesSucceed(records: seq<NodeInfo>, status: bool, order: seq<NodeInfo>)
    requires Loaded(records, status, order) && forall r :: r in records ==> r.nodeClass == DataType
    requires NoIdTwice(records)
    ensures status
  {
    NoInstances(Elems(records));
  }

  lemma {:induction false} ThreeTypesDefined(readers: Readers, types: Registry, parentRefTypes: seq<NodeId>, infos: seq<NodeInfo>)
    requires Understood(readers, types) && Elems(infos) <= Elems(TypeRecords(readers, THREE_TYPES))
    requires Copyable(types, IdOf(readers, STRUCTURE)) && IdOf(readers, HAS_SUBTYPE) in parentRefTypes
    ensures DefinedRun(types, parentRefTypes, infos)
  {
    TypesDefined(readers, types, parentRefTypes, THREE_TYPES, infos);
  }

  lemma {:induction false} ThreeIds(readers: Readers, types: Registry)
    requires Understood(readers, types)
    ensures NoIdTwice(TypeRecords(readers, THREE_TYPES))
  {
  }

  lemma UriIsShort()
    ensures ShortUris(UriTexts(URIS))
  {
    assert UriTexts(URIS) == [URI] && |URI| == 24;
  }

  /** All that a load needs of the nodeset. */
  lemma {:induction false} ThreeTypesReady(readers: Readers)
    ensures CleanContent(TypesNodeset(THREE_TYPES))
    ensures var doc := Sax.Collected(readers, EMPTY_DOCUMENT, TypesNodeset(THREE_TYPES));
            !doc.faulty && ShortUris(UriTexts(doc.namespaceUris)) && doc.nodes == TypeRecords(readers, THREE_TYPES)
  {
    ThreeTypesClean();
    TypesCollected(readers, THREE_TYPES);
    UriIsShort();
  }

  /** What becomes of them in any load. */
  lemma {:induction false} ThreeTypesOutcome(readers: Readers, types: Registry, parentRefTypes: seq<NodeId>, status: bool,
                                             order: seq<NodeInfo>, n: nat)
    requires Understood(readers, types) && n <= |order|
    requires Copyable(types, IdOf(readers, STRUCTURE)) && IdOf(readers, HAS_SUBTYPE) in parentRefTypes
    requires Loaded(TypeRecords(readers, THREE_TYPES), status, order)
    ensures status && DefinedRun(types, parentRefTypes, order[..n])
    ensures order[..n] == order ==>
              var after := Replayed(types, parentRefTypes, order[..n]);
              IdOf(readers, OTHER) in after && IdOf(readers, INNER) in after && IdOf(readers, OUTER) !in after
  {
    ThreeIds(readers, types);
    TypesSucceed(TypeRecords(readers, THREE_TYPES), status, order);
    assert Elems(order[..n]) <= Elems(order);
    ThreeTypesDefined(readers, types, parentRefTypes, order[..n]);
    TypesCollected(readers, THREE_TYPES);
    FieldTypesAreNotSorted(readers, types, parentRefTypes);
  }

  /** Loading the three types into a server that accepts whatever is added: the load succeeds, no
      undefined behaviour is met, and Outer is not registered. */
  method LoadThreeTypes(uaServer: UAServer, server: TypeServer, readers: Readers, parentRefTypes: seq<NodeId>) returns (status: bool)
    requires MembersKnown(server.types) && !server.faulty && Understood(readers, server.types)
    requires Copyable(server.types, IdOf(readers, STRUCTURE)) && IdOf(readers, HAS_SUBTYPE) in parentRefTypes
    requires uaServer.namespaces != [] && ShortUris(uaServer.namespaces)
    modifies uaServer, server
    ensures status && !server.faulty
    ensures IdOf(readers, OTHER) in server.types && IdOf(readers, INNER) in server.types && IdOf(readers, OUTER) !in server.types
  {
    ghost var types := server.types;
    ThreeTypesReady(readers);
    var accepts: AddNode -> bool := _ => true;
    var calls, remote2local;
    ghost var order;
    status, calls, remote2local, order := LoadFile(uaServer, server, readers, TypesNodeset(THREE_TYPES), parentRefTypes, accepts);
    ThreeTypesOutcome(readers, types, parentRefTypes, status, order, |calls|);
    AllCalled(parentRefTypes, accepts, calls, order);
  }
}
