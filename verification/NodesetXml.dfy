/** A nodeset document as a tree, and what a structural reading of the tree collects. */
module NodesetXml {
  import opened NodeIds
  import opened NodeRecords
  import opened CStrings

  datatype Attribute = Attribute(name: string, value: string)

  /** The content of an element, in document order. Text may come in any number of pieces. */
  datatype Content =
    | Empty
    | Text(data: string, rest: Content)
    | Element(name: string, attributes: seq<Attribute>, children: Content, rest: Content)

  /** The namespace dependent readers of the server library. Their second argument lists the
      NamespaceUris seen so far. */
  datatype Readers = Readers(
    nodeId: (Option<string>, seq<Option<string>>) -> NodeId,
    qualifiedName: (Option<string>, seq<Option<string>>) -> QualifiedName)

  /** What has been collected. `faulty` is set where the loader's behaviour is undefined. */
  datatype Document = Document(
    nodes: seq<NodeInfo>,
    aliases: seq<Alias>,
    namespaceUris: seq<Option<string>>,
    faulty: bool)

  const MAX_ALIAS := 300

  function AttributeValue(attributes: seq<Attribute>, name: string, default: Option<string>): (r: Option<string>)
    ensures default.Some? ==> r.Some?
  {
    if attributes == [] then default
    else if attributes[0].name == name then Some(attributes[0].value)
    else AttributeValue(attributes[1..], name, default)
  }

  // ----- what attributes say

  predicate NotCalled(attributes: seq<Attribute>, name: string) {
    forall a | a in attributes :: a.name != name
  }

  predicate FirstCalled(attributes: seq<Attribute>, name: string, i: int) {
    0 <= i < |attributes| && attributes[i].name == name && forall j | 0 <= j < i :: attributes[j].name != name
  }

  /** The first attribute of that name has this value. */
  predicate Says(attributes: seq<Attribute>, name: string, value: string) {
    exists i | 0 <= i < |attributes| :: FirstCalled(attributes, name, i) && attributes[i].value == value
  }

  /** The same, where None stands for no attribute of that name. */
  predicate Gives(attributes: seq<Attribute>, name: string, value: Option<string>) {
    if value.None? then NotCalled(attributes, name) else Says(attributes, name, value.value)
  }

  /** The value of the first attribute of that name, the default if there is none. */
  lemma {:induction false} AttributeValueIs(attributes: seq<Attribute>, name: string, default: Option<string>)
    ensures (forall i :: 0 <= i < |attributes| ==> attributes[i].name != name) ==> AttributeValue(attributes, name, default) == default
    ensures forall i :: 0 <= i < |attributes| && attributes[i].name == name && (forall j :: 0 <= j < i ==> attributes[j].name != name)
                        ==> AttributeValue(attributes, name, default) == Some(attributes[i].value)
  {
    if attributes != [] && attributes[0].name != name {
      AttributeValueIs(attributes[1..], name, default);
      assert forall j :: 1 <= j < |attributes| ==> attributes[1..][j - 1] == attributes[j];
      forall i | 0 <= i < |attributes| && attributes[i].name == name && (forall j :: 0 <= j < i ==> attributes[j].name != name)
        ensures AttributeValue(attributes, name, default) == Some(attributes[i].value)
      {
        assert attributes[1..][i - 1].name == name;
      }
    }
  }

  lemma {:induction false} FirstOfName(attributes: seq<Attribute>, name: string) returns (i: int)
    requires !NotCalled(attributes, name)
    ensures FirstCalled(attributes, name, i)
  {
    if attributes[0].name == name {
      i := 0;
    } else {
      assert forall a :: a in attributes ==> a == attributes[0] || a in attributes[1..];
      var k := FirstOfName(attributes[1..], name);
      i := k + 1;
      assert forall j :: 1 <= j < |attributes| ==> attributes[1..][j - 1] == attributes[j];
    }
  }

  lemma {:induction false} CalledOrNot(attributes: seq<Attribute>, name: string, default: Option<string>)
    ensures NotCalled(attributes, name) ==> AttributeValue(attributes, name, default) == default
    ensures !NotCalled(attributes, name) ==>
              exists i :: FirstCalled(attributes, name, i) && AttributeValue(attributes, name, default) == Some(attributes[i].value)
  {
    AttributeValueIs(attributes, name, default);
    if !NotCalled(attributes, name) {
      var i := FirstOfName(attributes, name);
      assert FirstCalled(attributes, name, i);
    }
  }

  lemma {:induction false} SaysWhat(attributes: seq<Attribute>, name: string, default: Option<string>, value: string)
    ensures Says(attributes, name, value) ==> AttributeValue(attributes, name, default) == Some(value)
    ensures AttributeValue(attributes, name, default) == Some(value) ==> Says(attributes, name, value) || (NotCalled(attributes, name) && default == Some(value))
  {
    CalledOrNot(attributes, name, default);
    if Says(attributes, name, value) {
      var i :| 0 <= i < |attributes| && FirstCalled(attributes, name, i) && attributes[i].value == value;
      assert attributes[i] in attributes;
    }
  }

  lemma {:induction false} GivesWhat(attributes: seq<Attribute>, name: string)
    ensures Gives(attributes, name, AttributeValue(attributes, name, None))
  {
    CalledOrNot(attributes, name, None);
  }

  function FindAlias(aliases: seq<Alias>, name: string): Option<NodeId> {
    if aliases == [] then None
    else if aliases[0].name == name then Some(aliases[0].id)
    else FindAlias(aliases[1..], name)
  }

  /** An alias by its name, anything else by its text. */
  function AliasToId(readers: Readers, doc: Document, name: Option<string>): NodeId {
    if name.Some? && FindAlias(doc.aliases, name.value).Some? then FindAlias(doc.aliases, name.value).value
    else readers.nodeId(name, doc.namespaceUris)
  }

  function ClassOfElement(name: string): Option<NodeClass> {
    if name == "UAVariable" then Some(Variable)
    else if name == "UAObject" then Some(Object)
    else if name == "UAObjectType" then Some(ObjectType)
    else if name == "UADataType" then Some(DataType)
    else if name == "UAMethod" then Some(Method)
    else if name == "UAReferenceType" then Some(ReferenceType)
    else if name == "UAVariableType" then Some(VariableType)
    else if name == "UAView" then Some(View)
    else None
  }

  predicate IsWrapper(name: string) {
    name == "UANodeSet" || name == "Aliases" || name == "Extensions"
  }

  // ----- the pieces of a record

  function NewInfo(readers: Readers, doc: Document, c: NodeClass, attributes: seq<Attribute>): NodeInfo {
    var none := LocalizedText(None, None);
    NodeInfo(c,
             readers.nodeId(AttributeValue(attributes, "NodeId", None), doc.namespaceUris),
             readers.qualifiedName(AttributeValue(attributes, "BrowseName", None), doc.namespaceUris),
             none, none, none, [], None)
  }

  function NewRef(readers: Readers, doc: Document, attributes: seq<Attribute>): Ref {
    Ref(AttributeValue(attributes, "IsForward", Some("true")) == Some("true"),
        AliasToId(readers, doc, AttributeValue(attributes, "ReferenceType", None)),
        NULL_ID)
  }

  /** A reference is forward unless its first IsForward says something else than true. */
  lemma {:induction false} ForwardUnlessSaid(readers: Readers, doc: Document, attributes: seq<Attribute>)
    ensures NewRef(readers, doc, attributes).isForward <==>
              || (forall i :: 0 <= i < |attributes| ==> attributes[i].name != "IsForward")
              || exists i :: 0 <= i < |attributes| && attributes[i].name == "IsForward" && attributes[i].value == "true"
                             && forall j :: 0 <= j < i ==> attributes[j].name != "IsForward"
  {
    SaysWhat(attributes, "IsForward", Some("true"), "true");
    CalledOrNot(attributes, "IsForward", Some("true"));
    if NewRef(readers, doc, attributes).isForward && !NotCalled(attributes, "IsForward") {
      var i := FirstOfName(attributes, "IsForward");
      assert attributes[i].value == "true";
    }
  }

  function IsTrue(attributes: seq<Attribute>, name: string): bool {
    AttributeValue(attributes, name, Some("false")) == Some("true")
  }

  function NewDefinition(attributes: seq<Attribute>): Definition {
    Definition([], false, IsTrue(attributes, "IsUnion"), IsTrue(attributes, "IsOptionSet"))
  }

  /** A field with a Value is an enumeration literal, any other a member of a structure. */
  function AddField(readers: Readers, doc: Document, d: Definition, attributes: seq<Attribute>): Definition {
    var name := AttributeValue(attributes, "Name", None);
    var value := AttributeValue(attributes, "Value", None);
    if value.Some? then
      d.(fields := d.fields + [Field(name, NULL_ID, 0, Atoi(value.value), false)], isEnum := !d.isOptionSet)
    else
      var dataType := AliasToId(readers, doc, AttributeValue(attributes, "DataType", Some("i=24")));
      var valueRank := AttributeValue(attributes, "ValueRank", Some("-1"));
      d.(fields := d.fields + [Field(name, dataType, Atoi(valueRank.value), 0, IsTrue(attributes, "IsOptional"))])
  }

  // ----- text

  function Join(a: Option<string>, b: Option<string>): Option<string> {
    if a.None? then b else if b.None? then a else Some(a.value + b.value)
  }

  /** All character data below, whatever elements it sits in. */
  function TextOf(c: Content): Option<string> {
    match c
    case Empty => None
    case Text(data, rest) => Join(Some(data), TextOf(rest))
    case Element(_, _, children, rest) => Join(TextOf(children), TextOf(rest))
  }

  // ----- structural reading

  /** The Reference elements, in document order. */
  function CollectRefs(readers: Readers, doc: Document, c: Content): seq<Ref>
    decreases c
  {
    match c
    case Empty => []
    case Text(_, rest) => CollectRefs(readers, doc, rest)
    case Element(name, attributes, children, rest) =>
      (if name == "Reference"
       then [NewRef(readers, doc, attributes).(target := AliasToId(readers, doc, TextOf(children)))]
       else [])
      + CollectRefs(readers, doc, rest)
  }

  function ReadFields(readers: Readers, doc: Document, d: Definition, c: Content): Definition
    decreases c
  {
    match c
    case Empty => d
    case Text(_, rest) => ReadFields(readers, doc, d, rest)
    case Element(name, attributes, _, rest) =>
      ReadFields(readers, doc, if name == "Field" then AddField(readers, doc, d, attributes) else d, rest)
  }

  /** What one child element does to the record of its node. */
  function ReadNodeElement(readers: Readers, doc: Document, info: NodeInfo, name: string, attributes: seq<Attribute>, children: Content): NodeInfo {
    var text := LocalizedText(AttributeValue(attributes, "Locale", None), TextOf(children));
    if name == "DisplayName" then info.(displayName := text)
    else if name == "Description" then info.(description := text)
    else if name == "InverseName" && info.nodeClass == ReferenceType then info.(inverseName := text)
    else if name == "References" then info.(refs := Reversed(CollectRefs(readers, doc, children)) + info.refs)
    else if name == "Definition" then info.(definition := Some(ReadFields(readers, doc, NewDefinition(attributes), children)))
    else info
  }

  /** The record of a node from its child elements; later elements override earlier ones, and
      references end up in reverse order. */
  function ReadNode(readers: Readers, doc: Document, info: NodeInfo, c: Content): NodeInfo
    decreases c
  {
    match c
    case Empty => info
    case Text(_, rest) => ReadNode(readers, doc, info, rest)
    case Element(name, attributes, children, rest) =>
      ReadNode(readers, doc, ReadNodeElement(readers, doc, info, name, attributes, children), rest)
  }

  /** A Definition makes sense in a UADataType only. */
  predicate DefinitionsFit(nodeClass: NodeClass, c: Content) {
    match c
    case Empty => true
    case Text(_, rest) => DefinitionsFit(nodeClass, rest)
    case Element(name, _, _, rest) => (name == "Definition" ==> nodeClass == DataType) && DefinitionsFit(nodeClass, rest)
  }

  function CollectUris(c: Content): seq<Option<string>> {
    match c
    case Empty => []
    case Text(_, rest) => CollectUris(rest)
    case Element(name, _, children, rest) => (if name == "Uri" then [TextOf(children)] else []) + CollectUris(rest)
  }

  predicate AliasFits(doc: Document, attributes: seq<Attribute>) {
    |doc.aliases| < MAX_ALIAS && AttributeValue(attributes, "Alias", None).Some?
  }

  function AliasName(attributes: seq<Attribute>): string {
    var name := AttributeValue(attributes, "Alias", None);
    if name.Some? then name.value else ""
  }

  /** What an element at the top or in a wrapper contributes. An element of any other name
      contributes nothing, with everything below it. */
  function ReadTopElement(readers: Readers, doc: Document, name: string, attributes: seq<Attribute>, children: Content): Document
    decreases children, 1
  {
    if ClassOfElement(name).Some? then
      var info := NewInfo(readers, doc, ClassOfElement(name).value, attributes);
      doc.(nodes := doc.nodes + [ReadNode(readers, doc, info, children)],
           faulty := doc.faulty || !DefinitionsFit(info.nodeClass, children))
    else if name == "NamespaceUris" then doc.(namespaceUris := doc.namespaceUris + CollectUris(children))
    else if name == "Alias" then
      doc.(aliases := doc.aliases + [Alias(AliasName(attributes), readers.nodeId(TextOf(children), doc.namespaceUris))],
           faulty := doc.faulty || !AliasFits(doc, attributes))
    else if IsWrapper(name) then ReadTop(readers, doc, children)
    else doc
  }

  function ReadTop(readers: Readers, doc: Document, c: Content): Document
    decreases c, 0
  {
    match c
    case Empty => doc
    case Text(_, rest) => ReadTop(readers, doc, rest)
    case Element(name, attributes, children, rest) =>
      ReadTop(readers, ReadTopElement(readers, doc, name, attributes, children), rest)
  }

  const EMPTY_DOCUMENT := Document([], [], [], false)

  // ----- Extension elements

  /** No element of that name anywhere below. */
  predicate NoExtension(c: Content) {
    match c
    case Empty => true
    case Text(_, rest) => NoExtension(rest)
    case Element(name, _, children, rest) => name != "Extension" && NoExtension(children) && NoExtension(rest)
  }

  predicate FlatExtensions(c: Content) {
    match c
    case Empty => true
    case Text(_, rest) => FlatExtensions(rest)
    case Element(name, _, children, rest) => (name == "Extension" ==> NoExtension(children)) && FlatExtensions(rest)
  }

  predicate FlatNode(c: Content) {
    match c
    case Empty => true
    case Text(_, rest) => FlatNode(rest)
    case Element(name, _, children, rest) => (name == "Extensions" ==> FlatExtensions(children)) && FlatNode(rest)
  }

  /** In no node an Extension contains another one. */
  predicate FlatTop(c: Content) {
    match c
    case Empty => true
    case Text(_, rest) => FlatTop(rest)
    case Element(name, _, children, rest) =>
      && (ClassOfElement(name).Some? ==> FlatNode(children))
      && (IsWrapper(name) ==> FlatTop(children))
      && FlatTop(rest)
  }

  // ----- how text is cut into pieces does not matter

  /** Neighbouring pieces of text become one. */
  function Coalesce(c: Content): Content {
    match c
    case Empty => Empty
    case Text(data, rest) =>
      var r := Coalesce(rest);
      if r.Text? then Text(data + r.data, r.rest) else Text(data, r)
    case Element(name, attributes, children, rest) => Element(name, attributes, Coalesce(children), Coalesce(rest))
  }
}
