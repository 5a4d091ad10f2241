/** The event handlers of the loader as steps of an automaton, and the proof that running
    them over the events of a document amounts to reading its tree. */
module Sax {
  import opened NodeIds
  import opened NodeRecords
  import opened NodesetXml

  datatype Event =
    | StartElement(name: string, attributes: seq<Attribute>)
    | EndElement(name: string)
    | Characters(data: string)

  datatype ParserState =
    | Init | InNode | InDisplayName | InReferences | InReference | InDescription | InInverseName
    | InAlias | InNamespaceUris | InUri | InValue | InExtension | InExtensions
    | InDefinition | InField

  /** `text` is what has been received since it was last reset, None if there was nothing. */
  datatype Automaton = Automaton(
    state: ParserState,
    unknownDepth: nat,
    valueDepth: nat,
    text: Option<string>,
    doc: Document)

  // ----- what the handlers do to the document

  /** A change to the node under construction, which is the last one. */
  function WithLast(doc: Document, info: NodeInfo): Document
    requires doc.nodes != []
  {
    doc.(nodes := doc.nodes[|doc.nodes| - 1 := info])
  }

  function Last(doc: Document): NodeInfo
    requires doc.nodes != []
  {
    doc.nodes[|doc.nodes| - 1]
  }

  function SetDisplayLocale(doc: Document, attributes: seq<Attribute>): Document {
    if doc.nodes == [] then doc
    else WithLast(doc, Last(doc).(displayName := Last(doc).displayName.(locale := AttributeValue(attributes, "Locale", None))))
  }

  function SetDisplayText(doc: Document, text: Option<string>): Document {
    if doc.nodes == [] then doc
    else WithLast(doc, Last(doc).(displayName := Last(doc).displayName.(text := text)))
  }

  function SetDescriptionLocale(doc: Document, attributes: seq<Attribute>): Document {
    if doc.nodes == [] then doc
    else WithLast(doc, Last(doc).(description := Last(doc).description.(locale := AttributeValue(attributes, "Locale", None))))
  }

  function SetDescriptionText(doc: Document, text: Option<string>): Document {
    if doc.nodes == [] then doc
    else WithLast(doc, Last(doc).(description := Last(doc).description.(text := text)))
  }

  function SetInverseLocale(doc: Document, attributes: seq<Attribute>): Document {
    if doc.nodes == [] || Last(doc).nodeClass != ReferenceType then doc
    else WithLast(doc, Last(doc).(inverseName := Last(doc).inverseName.(locale := AttributeValue(attributes, "Locale", None))))
  }

  function SetInverseText(doc: Document, text: Option<string>): Document {
    if doc.nodes == [] || Last(doc).nodeClass != ReferenceType then doc
    else WithLast(doc, Last(doc).(inverseName := Last(doc).inverseName.(text := text)))
  }

  function AddNode(readers: Readers, doc: Document, c: NodeClass, attributes: seq<Attribute>): Document {
    doc.(nodes := doc.nodes + [NewInfo(readers, doc, c, attributes)])
  }

  function AddRef(readers: Readers, doc: Document, attributes: seq<Attribute>): Document {
    if doc.nodes == [] then doc
    else WithLast(doc, Last(doc).(refs := [NewRef(readers, doc, attributes)] + Last(doc).refs))
  }

  function SetTarget(readers: Readers, doc: Document, text: Option<string>): Document {
    if doc.nodes == [] || Last(doc).refs == [] then doc
    else WithLast(doc, Last(doc).(refs := Last(doc).refs[0 := Last(doc).refs[0].(target := AliasToId(readers, doc, text))]))
  }

  function AddDefinition(doc: Document, attributes: seq<Attribute>): Document {
    if doc.nodes == [] then doc
    else WithLast(doc, Last(doc).(definition := Some(NewDefinition(attributes))))
         .(faulty := doc.faulty || Last(doc).nodeClass != DataType)
  }

  function AddDefinitionField(readers: Readers, doc: Document, attributes: seq<Attribute>): Document {
    if doc.nodes == [] || Last(doc).definition.None? then doc
    else WithLast(doc, Last(doc).(definition := Some(AddField(readers, doc, Last(doc).definition.value, attributes))))
  }

  function AddAlias(doc: Document, attributes: seq<Attribute>): Document {
    doc.(aliases := doc.aliases + [Alias(AliasName(attributes), NULL_ID)],
         faulty := doc.faulty || !AliasFits(doc, attributes))
  }

  function SetAliasId(readers: Readers, doc: Document, text: Option<string>): Document {
    if doc.aliases == [] then doc
    else
      var k := |doc.aliases| - 1;
      doc.(aliases := doc.aliases[k := doc.aliases[k].(id := readers.nodeId(text, doc.namespaceUris))])
  }

  function AddUri(doc: Document, text: Option<string>): Document {
    doc.(namespaceUris := doc.namespaceUris + [text])
  }

  // ----- the handlers

  /** A recognised start: the text is reset. */
  function Enter(a: Automaton, state: ParserState, doc: Document): Automaton {
    a.(state := state, doc := doc, text := None)
  }

  function Unknown(a: Automaton): Automaton {
    a.(unknownDepth := a.unknownDepth + 1)
  }

  function OnStartAtTop(readers: Readers, a: Automaton, name: string, attributes: seq<Attribute>): Automaton {
    if ClassOfElement(name).Some? then Enter(a, InNode, AddNode(readers, a.doc, ClassOfElement(name).value, attributes))
    else if name == "NamespaceUris" then Enter(a, InNamespaceUris, a.doc)
    else if name == "Alias" then Enter(a, InAlias, AddAlias(a.doc, attributes))
    else if IsWrapper(name) then Enter(a, Init, a.doc)
    else Unknown(a)
  }

  function OnStartInNode(a: Automaton, name: string, attributes: seq<Attribute>): Automaton {
    if name == "DisplayName" then Enter(a, InDisplayName, SetDisplayLocale(a.doc, attributes))
    else if name == "References" then Enter(a, InReferences, a.doc)
    else if name == "Description" then Enter(a, InDescription, SetDescriptionLocale(a.doc, attributes))
    else if name == "Value" then Enter(a, InValue, a.doc).(valueDepth := a.valueDepth + 1)
    else if name == "Extensions" then Enter(a, InExtensions, a.doc)
    else if name == "Definition" then Enter(a, InDefinition, AddDefinition(a.doc, attributes))
    else if name == "InverseName" then Enter(a, InInverseName, SetInverseLocale(a.doc, attributes))
    else Unknown(a)
  }

  function OnStart(readers: Readers, a: Automaton, name: string, attributes: seq<Attribute>): Automaton {
    if a.unknownDepth > 0 then Unknown(a)
    else match a.state
      case Init => OnStartAtTop(readers, a, name, attributes)
      case InNamespaceUris =>
        if name == "Uri" then Enter(a, InUri, a.doc) else Unknown(a)
      case InNode => OnStartInNode(a, name, attributes)
      case InDefinition =>
        if name == "Field" then Enter(a, InField, AddDefinitionField(readers, a.doc, attributes)) else Unknown(a)
      case InValue =>
        Enter(a, InValue, a.doc).(valueDepth := if name == "Value" then a.valueDepth + 1 else a.valueDepth)
      case InExtensions =>
        if name == "Extension" then Enter(a, InExtension, a.doc) else Unknown(a)
      case InExtension =>
        Enter(a, InExtension, a.doc)
      case InReferences =>
        if name == "Reference" then Enter(a, InReference, AddRef(readers, a.doc, attributes)) else Unknown(a)
      case _ => Unknown(a)
  }

  function OnEnd(readers: Readers, a: Automaton, name: string): Automaton {
    if a.unknownDepth > 0 then a.(unknownDepth := a.unknownDepth - 1)
    else match a.state
      case Init => Enter(a, Init, a.doc)
      case InAlias => Enter(a, Init, SetAliasId(readers, a.doc, a.text))
      case InUri => Enter(a, InNamespaceUris, AddUri(a.doc, a.text))
      case InNamespaceUris => Enter(a, Init, a.doc)
      case InNode => Enter(a, Init, a.doc)
      case InDisplayName => Enter(a, InNode, SetDisplayText(a.doc, a.text))
      case InReferences => Enter(a, InNode, a.doc)
      case InReference => Enter(a, InReferences, SetTarget(readers, a.doc, a.text))
      case InValue =>
        if name == "Value" && a.valueDepth > 0 then
          Enter(a, if a.valueDepth == 1 then InNode else InValue, a.doc).(valueDepth := a.valueDepth - 1)
        else Enter(a, InValue, a.doc)
      case InExtension => Enter(a, if name == "Extension" then InExtensions else InExtension, a.doc)
      case InExtensions => Enter(a, InNode, a.doc)
      case InDescription => Enter(a, InNode, SetDescriptionText(a.doc, a.text))
      case InInverseName => Enter(a, InNode, SetInverseText(a.doc, a.text))
      case InDefinition => Enter(a, InNode, a.doc)
      case InField => Enter(a, InDefinition, a.doc)
  }

  function OnCharacters(a: Automaton, data: string): Automaton {
    a.(text := Join(a.text, Some(data)))
  }

  function Step(readers: Readers, a: Automaton, e: Event): Automaton {
    match e
    case StartElement(name, attributes) => OnStart(readers, a, name, attributes)
    case EndElement(name) => OnEnd(readers, a, name)
    case Characters(data) => OnCharacters(a, data)
  }

  function Run(readers: Readers, a: Automaton, events: seq<Event>): Automaton
    decreases |events|
  {
    if events == [] then a else Run(readers, Step(readers, a, events[0]), events[1..])
  }

  /** The events of a document. */
  function Events(c: Content): seq<Event> {
    match c
    case Empty => []
    case Text(data, rest) => [Characters(data)] + Events(rest)
    case Element(name, attributes, children, rest) =>
      [StartElement(name, attributes)] + Events(children) + [EndElement(name)] + Events(rest)
  }

  lemma {:induction false} RunAppend(readers: Readers, a: Automaton, s: seq<Event>, t: seq<Event>)
    ensures Run(readers, a, s + t) == Run(readers, Run(readers, a, s), t)
    decreases |s|
  {
    if s == [] {
      assert s + t == t;
    } else {
      assert (s + t)[1..] == s[1..] + t;
      RunAppend(readers, Step(readers, a, s[0]), s[1..], t);
    }
  }

  /** The run along the tree. */
  function Drive(readers: Readers, a: Automaton, c: Content): Automaton
    decreases c
  {
    match c
    case Empty => a
    case Text(data, rest) => Drive(readers, OnCharacters(a, data), rest)
    case Element(name, attributes, children, rest) =>
      Drive(readers, OnEnd(readers, Drive(readers, OnStart(readers, a, name, attributes), children), name), rest)
  }

  lemma {:induction false} DriveIsRun(readers: Readers, a: Automaton, c: Content)
    ensures Run(readers, a, Events(c)) == Drive(readers, a, c)
    decreases c
  {
    match c
    case Empty =>
    case Text(data, rest) =>
      assert ([Characters(data)] + Events(rest))[1..] == Events(rest);
      DriveIsRun(readers, OnCharacters(a, data), rest);
    case Element(name, attributes, children, rest) =>
      var start, kids, end := [StartElement(name, attributes)], Events(children), [EndElement(name)];
      var b := OnStart(readers, a, name, attributes);
      var d := Drive(readers, b, children);
      RunAppend(readers, a, start + kids + end, Events(rest));
      RunAppend(readers, a, start + kids, end);
      RunAppend(readers, a, start, kids);
      DriveIsRun(readers, b, children);
      DriveIsRun(readers, OnEnd(readers, d, name), rest);
      RunSingle(readers, a, start[0]);
      RunSingle(readers, d, end[0]);
  }

  lemma {:induction false} RunSingle(readers: Readers, a: Automaton, e: Event)
    ensures Run(readers, a, [e]) == Step(readers, a, e)
  {
  }

  // ----- subtrees without structure

  /** Below an unknown element only text is received. */
  lemma {:induction false} DriveUnknown(readers: Readers, a: Automaton, c: Content)
    requires a.unknownDepth > 0
    ensures Drive(readers, a, c) == a.(text := Join(a.text, TextOf(c)))
    decreases c
  {
    match c
    case Empty =>
    case Text(data, rest) =>
      DriveUnknown(readers, OnCharacters(a, data), rest);
      JoinAssociative(a.text, Some(data), TextOf(rest));
    case Element(name, attributes, children, rest) =>
      DriveUnknown(readers, Unknown(a), children);
      DriveUnknown(readers, a.(text := Join(a.text, TextOf(children))), rest);
      JoinAssociative(a.text, TextOf(children), TextOf(rest));
  }

  lemma JoinAssociative(a: Option<string>, b: Option<string>, c: Option<string>)
    ensures Join(Join(a, b), c) == Join(a, Join(b, c))
  {
    if a.Some? && b.Some? && c.Some? {
      assert (a.value + b.value) + c.value == a.value + (b.value + c.value);
    }
  }

  /** The states in which every child element is unknown. */
  predicate IsLeaf(s: ParserState) {
    s == InDisplayName || s == InDescription || s == InInverseName || s == InReference || s == InAlias || s == InUri || s == InField
  }

  /** In a text element, the text is all character data below, including that of unknown
      child elements. */
  lemma {:induction false} DriveLeaf(readers: Readers, a: Automaton, c: Content)
    requires a.unknownDepth == 0 && IsLeaf(a.state)
    ensures Drive(readers, a, c) == a.(text := Join(a.text, TextOf(c)))
    decreases c
  {
    match c
    case Empty =>
    case Text(data, rest) =>
      DriveLeaf(readers, OnCharacters(a, data), rest);
      JoinAssociative(a.text, Some(data), TextOf(rest));
    case Element(name, attributes, children, rest) =>
      DriveUnknown(readers, Unknown(a), children);
      DriveLeaf(readers, a.(text := Join(a.text, TextOf(children))), rest);
      JoinAssociative(a.text, TextOf(children), TextOf(rest));
  }

  /** Equal but for the text, which the next recognised start discards. */
  predicate SameButText(a: Automaton, b: Automaton) {
    a.(text := None) == b.(text := None)
  }

  /** An unknown element, seen from outside. */
  lemma {:induction false} DriveUnknownElement(readers: Readers, a: Automaton, name: string, attributes: seq<Attribute>, children: Content)
    requires a.unknownDepth == 0 && OnStart(readers, a, name, attributes) == Unknown(a)
    ensures SameButText(OnEnd(readers, Drive(readers, OnStart(readers, a, name, attributes), children), name), a)
  {
    DriveUnknown(readers, Unknown(a), children);
  }

  /** A Value is left at the end of the outermost Value element. */
  lemma {:induction false} DriveValue(readers: Readers, a: Automaton, c: Content)
    requires a.unknownDepth == 0 && a.state == InValue && a.valueDepth > 0
    ensures SameButText(Drive(readers, a, c), a)
    decreases c
  {
    match c
    case Empty =>
    case Text(data, rest) => DriveValue(readers, OnCharacters(a, data), rest);
    case Element(name, attributes, children, rest) =>
      var b := OnStart(readers, a, name, attributes);
      DriveValue(readers, b, children);
      DriveValue(readers, OnEnd(readers, Drive(readers, b, children), name), rest);
  }

  // ----- lists

  lemma {:induction false} DriveUris(readers: Readers, a: Automaton, c: Content)
    requires a.unknownDepth == 0 && a.state == InNamespaceUris
    ensures SameButText(Drive(readers, a, c), a.(doc := a.doc.(namespaceUris := a.doc.namespaceUris + CollectUris(c))))
    decreases c
  {
    match c
    case Empty =>
      assert a.doc.namespaceUris + [] == a.doc.namespaceUris;
    case Text(data, rest) => DriveUris(readers, OnCharacters(a, data), rest);
    case Element(name, attributes, children, rest) =>
      var b := OnStart(readers, a, name, attributes);
      var d := OnEnd(readers, Drive(readers, b, children), name);
      if name == "Uri" {
        DriveLeaf(readers, b, children);
        assert (a.doc.namespaceUris + [TextOf(children)]) + CollectUris(rest) == a.doc.namespaceUris + CollectUris(c);
      } else {
        DriveUnknownElement(readers, a, name, attributes, children);
        assert CollectUris(c) == CollectUris(rest);
      }
      DriveUris(readers, d, rest);
  }

  lemma {:induction false} DriveFields(readers: Readers, a: Automaton, c: Content)
    requires a.unknownDepth == 0 && a.state == InDefinition
    requires a.doc.nodes != [] && Last(a.doc).definition.Some?
    ensures SameButText(Drive(readers, a, c), a.(doc := WithLast(a.doc, Last(a.doc).(
              definition := Some(ReadFields(readers, a.doc, Last(a.doc).definition.value, c))))))
    decreases c
  {
    match c
    case Empty =>
    case Text(data, rest) => DriveFields(readers, OnCharacters(a, data), rest);
    case Element(name, attributes, children, rest) =>
      var b := OnStart(readers, a, name, attributes);
      var d := OnEnd(readers, Drive(readers, b, children), name);
      if name == "Field" {
        DriveLeaf(readers, b, children);
        FieldsOnlyReadNames(readers, a.doc, d.doc, Last(d.doc).definition.value, rest);
      } else {
        DriveUnknownElement(readers, a, name, attributes, children);
      }
      DriveFields(readers, d, rest);
  }

  /** Ids are read against the aliases and namespaces, whatever the nodes. */
  lemma {:induction false} FieldsOnlyReadNames(readers: Readers, doc: Document, doc': Document, d: Definition, c: Content)
    requires doc'.aliases == doc.aliases && doc'.namespaceUris == doc.namespaceUris
    ensures ReadFields(readers, doc', d, c) == ReadFields(readers, doc, d, c)
    decreases c
  {
    match c
    case Empty =>
    case Text(_, rest) => FieldsOnlyReadNames(readers, doc, doc', d, rest);
    case Element(name, attributes, _, rest) =>
      FieldsOnlyReadNames(readers, doc, doc', if name == "Field" then AddField(readers, doc, d, attributes) else d, rest);
  }

  lemma {:induction false} RefsOnlyReadNames(readers: Readers, doc: Document, doc': Document, c: Content)
    requires doc'.aliases == doc.aliases && doc'.namespaceUris == doc.namespaceUris
    ensures CollectRefs(readers, doc', c) == CollectRefs(readers, doc, c)
    decreases c
  {
    match c
    case Empty =>
    case Text(_, rest) => RefsOnlyReadNames(readers, doc, doc', rest);
    case Element(_, _, _, rest) => RefsOnlyReadNames(readers, doc, doc', rest);
  }

  lemma {:induction false} NodeOnlyReadsNames(readers: Readers, doc: Document, doc': Document, info: NodeInfo, c: Content)
    requires doc'.aliases == doc.aliases && doc'.namespaceUris == doc.namespaceUris
    ensures ReadNode(readers, doc', info, c) == ReadNode(readers, doc, info, c)
    decreases c
  {
    match c
    case Empty =>
    case Text(_, rest) => NodeOnlyReadsNames(readers, doc, doc', info, rest);
    case Element(name, attributes, children, rest) =>
      RefsOnlyReadNames(readers, doc, doc', children);
      FieldsOnlyReadNames(readers, doc, doc', NewDefinition(attributes), children);
      NodeOnlyReadsNames(readers, doc, doc', ReadNodeElement(readers, doc, info, name, attributes, children), rest);
  }

  /** The document after a reference has been put in front of the last node's list. */
  function RefsRead(doc: Document, refs: seq<Ref>): Document
    requires doc.nodes != []
  {
    WithLast(doc, Last(doc).(refs := refs + Last(doc).refs))
  }

  lemma {:induction false} DriveReference(readers: Readers, a: Automaton, attributes: seq<Attribute>, children: Content)
    requires a.unknownDepth == 0 && a.state == InReferences && a.doc.nodes != []
    ensures var ref := NewRef(readers, a.doc, attributes).(target := AliasToId(readers, a.doc, TextOf(children)));
            SameButText(OnEnd(readers, Drive(readers, OnStart(readers, a, "Reference", attributes), children), "Reference"),
                        a.(doc := RefsRead(a.doc, [ref])))
  {
    DriveLeaf(readers, OnStart(readers, a, "Reference", attributes), children);
    var r := NewRef(readers, a.doc, attributes);
    var ref := r.(target := AliasToId(readers, a.doc, TextOf(children)));
    assert ([r] + Last(a.doc).refs)[0 := ref] == [ref] + Last(a.doc).refs;
    var b := AddRef(readers, a.doc, attributes);
    assert SetTarget(readers, b, TextOf(children)) == RefsRead(a.doc, [ref]);
  }

  lemma {:induction false} RefsReadTwice(doc: Document, ref: Ref, later: seq<Ref>)
    requires doc.nodes != []
    ensures RefsRead(RefsRead(doc, [ref]), Reversed(later)) == RefsRead(doc, Reversed([ref] + later))
  {
    assert ([ref] + later)[1..] == later;
    assert Reversed(later) + ([ref] + Last(doc).refs) == (Reversed(later) + [ref]) + Last(doc).refs;
  }

  lemma {:induction false} DriveRefs(readers: Readers, a: Automaton, c: Content)
    requires a.unknownDepth == 0 && a.state == InReferences && a.doc.nodes != []
    ensures SameButText(Drive(readers, a, c), a.(doc := RefsRead(a.doc, Reversed(CollectRefs(readers, a.doc, c)))))
    decreases c
  {
    match c
    case Empty =>
      assert [] + Last(a.doc).refs == Last(a.doc).refs;
    case Text(data, rest) => DriveRefs(readers, OnCharacters(a, data), rest);
    case Element(name, attributes, children, rest) =>
      var d := OnEnd(readers, Drive(readers, OnStart(readers, a, name, attributes), children), name);
      var later := CollectRefs(readers, a.doc, rest);
      if name == "Reference" {
        DriveReference(readers, a, attributes, children);
        var ref := NewRef(readers, a.doc, attributes).(target := AliasToId(readers, a.doc, TextOf(children)));
        RefsReadTwice(a.doc, ref, later);
        RefsOnlyReadNames(readers, a.doc, d.doc, rest);
      } else {
        DriveUnknownElement(readers, a, name, attributes, children);
        assert CollectRefs(readers, a.doc, c) == later;
      }
      DriveRefs(readers, d, rest);
  }

  // ----- extensions

  lemma {:induction false} DriveExtension(readers: Readers, a: Automaton, c: Content)
    requires a.unknownDepth == 0 && a.state == InExtension && NoExtension(c)
    ensures SameButText(Drive(readers, a, c), a)
    decreases c
  {
    match c
    case Empty =>
    case Text(data, rest) => DriveExtension(readers, OnCharacters(a, data), rest);
    case Element(name, attributes, children, rest) =>
      var b := OnStart(readers, a, name, attributes);
      DriveExtension(readers, b, children);
      DriveExtension(readers, OnEnd(readers, Drive(readers, b, children), name), rest);
  }

  lemma {:induction false} DriveExtensions(readers: Readers, a: Automaton, c: Content)
    requires a.unknownDepth == 0 && a.state == InExtensions && FlatExtensions(c)
    ensures SameButText(Drive(readers, a, c), a)
    decreases c
  {
    match c
    case Empty =>
    case Text(data, rest) => DriveExtensions(readers, OnCharacters(a, data), rest);
    case Element(name, attributes, children, rest) =>
      var b := OnStart(readers, a, name, attributes);
      if name == "Extension" {
        DriveExtension(readers, b, children);
      } else {
        DriveUnknownElement(readers, a, name, attributes, children);
      }
      DriveExtensions(readers, OnEnd(readers, Drive(readers, b, children), name), rest);
  }

  // ----- nodes

  /** The document after the element content `c` of the last node. */
  function NodeRead(readers: Readers, doc: Document, c: Content): Document
    requires doc.nodes != []
  {
    WithLast(doc, ReadNode(readers, doc, Last(doc), c))
      .(faulty := doc.faulty || !DefinitionsFit(Last(doc).nodeClass, c))
  }

  /** The document after one child element of the last node. */
  function NodeElementRead(readers: Readers, doc: Document, name: string, attributes: seq<Attribute>, children: Content): (r: Document)
    requires doc.nodes != []
    ensures r.nodes != [] && Last(r).nodeClass == Last(doc).nodeClass
  {
    WithLast(doc, ReadNodeElement(readers, doc, Last(doc), name, attributes, children))
      .(faulty := doc.faulty || (name == "Definition" && Last(doc).nodeClass != DataType))
  }

  lemma {:induction false} DriveDefinition(readers: Readers, a: Automaton, attributes: seq<Attribute>, children: Content)
    requires a.unknownDepth == 0 && a.state == InNode && a.doc.nodes != []
    ensures SameButText(OnEnd(readers, Drive(readers, OnStart(readers, a, "Definition", attributes), children), "Definition"),
                        a.(doc := NodeElementRead(readers, a.doc, "Definition", attributes, children)))
  {
    var b := OnStart(readers, a, "Definition", attributes);
    DriveFields(readers, b, children);
    FieldsOnlyReadNames(readers, a.doc, b.doc, NewDefinition(attributes), children);
  }

  lemma {:induction false} DriveNodeText(readers: Readers, a: Automaton, name: string, attributes: seq<Attribute>, children: Content)
    requires a.unknownDepth == 0 && a.state == InNode && a.doc.nodes != []
    requires name == "DisplayName" || name == "Description" || name == "InverseName"
    ensures SameButText(OnEnd(readers, Drive(readers, OnStart(readers, a, name, attributes), children), name),
                        a.(doc := NodeElementRead(readers, a.doc, name, attributes, children)))
  {
    DriveLeaf(readers, OnStart(readers, a, name, attributes), children);
  }

  lemma {:induction false} DriveNodeElement(readers: Readers, a: Automaton, name: string, attributes: seq<Attribute>, children: Content)
    requires a.unknownDepth == 0 && a.valueDepth == 0 && a.state == InNode && a.doc.nodes != []
    requires name == "Extensions" ==> FlatExtensions(children)
    ensures SameButText(OnEnd(readers, Drive(readers, OnStart(readers, a, name, attributes), children), name),
                        a.(doc := NodeElementRead(readers, a.doc, name, attributes, children)))
  {
    var b := OnStart(readers, a, name, attributes);
    if name == "DisplayName" || name == "Description" || name == "InverseName" {
      DriveNodeText(readers, a, name, attributes, children);
    } else if name == "Definition" {
      DriveDefinition(readers, a, attributes, children);
    } else if name == "References" {
      DriveRefs(readers, b, children);
    } else if name == "Extensions" {
      DriveExtensions(readers, b, children);
    } else if name == "Value" {
      DriveValue(readers, b, children);
    } else {
      DriveUnknownElement(readers, a, name, attributes, children);
    }
  }

  lemma {:induction false} DriveNode(readers: Readers, a: Automaton, c: Content)
    requires a.unknownDepth == 0 && a.valueDepth == 0 && a.state == InNode && a.doc.nodes != []
    requires FlatNode(c)
    ensures SameButText(Drive(readers, a, c), a.(doc := NodeRead(readers, a.doc, c)))
    decreases c
  {
    match c
    case Empty =>
    case Text(data, rest) => DriveNode(readers, OnCharacters(a, data), rest);
    case Element(name, attributes, children, rest) =>
      DriveNodeElement(readers, a, name, attributes, children);
      var d := OnEnd(readers, Drive(readers, OnStart(readers, a, name, attributes), children), name);
      NodeOnlyReadsNames(readers, a.doc, d.doc, Last(d.doc), rest);
      DriveNode(readers, d, rest);
  }

  // ----- documents

  lemma {:induction false} DriveTopElement(readers: Readers, a: Automaton, name: string, attributes: seq<Attribute>, children: Content)
    requires a.unknownDepth == 0 && a.valueDepth == 0 && a.state == Init
    requires FlatTop(children) || !IsWrapper(name)
    requires ClassOfElement(name).Some? ==> FlatNode(children)
    ensures SameButText(OnEnd(readers, Drive(readers, OnStart(readers, a, name, attributes), children), name),
                        a.(doc := ReadTopElement(readers, a.doc, name, attributes, children)))
    decreases children, 1
  {
    var b := OnStart(readers, a, name, attributes);
    if b == Unknown(a) {
      DriveUnknownElement(readers, a, name, attributes, children);
    } else if ClassOfElement(name).Some? {
      DriveNode(readers, b, children);
      NodeOnlyReadsNames(readers, a.doc, b.doc, Last(b.doc), children);
    } else if name == "NamespaceUris" {
      DriveUris(readers, b, children);
    } else if name == "Alias" {
      DriveLeaf(readers, b, children);
    } else {
      DriveTop(readers, b, children);
    }
  }

  /** The automaton refines the structural reader: on the events of a document in which no
      Extension contains another one, it ends where it began and has collected what the
      reader collects. */
  lemma {:induction false} DriveTop(readers: Readers, a: Automaton, c: Content)
    requires a.unknownDepth == 0 && a.valueDepth == 0 && a.state == Init && FlatTop(c)
    ensures SameButText(Drive(readers, a, c), a.(doc := ReadTop(readers, a.doc, c)))
    decreases c, 0
  {
    match c
    case Empty =>
    case Text(data, rest) => DriveTop(readers, OnCharacters(a, data), rest);
    case Element(name, attributes, children, rest) =>
      DriveTopElement(readers, a, name, attributes, children);
      var d := OnEnd(readers, Drive(readers, OnStart(readers, a, name, attributes), children), name);
      DriveTop(readers, d, rest);
  }

  /** What running the handlers over the events of a document adds to what there is. */
  function Collected(readers: Readers, doc: Document, c: Content): Document {
    Run(readers, Automaton(Init, 0, 0, None, doc), Events(c)).doc
  }

  /** Running the handlers over the events of a document amounts to reading its tree. */
  lemma {:induction false} Refinement(readers: Readers, doc: Document, c: Content)
    requires FlatTop(c)
    ensures Collected(readers, doc, c) == ReadTop(readers, doc, c)
    ensures var b := Run(readers, Automaton(Init, 0, 0, None, doc), Events(c));
            b.state == Init && b.unknownDepth == 0 && b.valueDepth == 0
  {
    var a := Automaton(Init, 0, 0, None, doc);
    DriveIsRun(readers, a, c);
    DriveTop(readers, a, c);
  }

  /** Undefined behaviour is not undone. */
  lemma {:induction false} FaultyStays(readers: Readers, a: Automaton, events: seq<Event>)
    requires a.doc.faulty
    ensures Run(readers, a, events).doc.faulty
    decreases |events|
  {
    if events != [] {
      FaultyStays(readers, Step(readers, a, events[0]), events[1..]);
    }
  }

  lemma {:induction false} DriveCoalesced(readers: Readers, a: Automaton, c: Content)
    ensures Drive(readers, a, Coalesce(c)) == Drive(readers, a, c)
    decreases c
  {
    match c
    case Empty =>
    case Text(data, rest) =>
      DriveCoalesced(readers, OnCharacters(a, data), rest);
      var r := Coalesce(rest);
      if r.Text? {
        JoinAssociative(a.text, Some(data), Some(r.data));
        assert OnCharacters(OnCharacters(a, data), r.data) == OnCharacters(a, data + r.data);
      }
    case Element(name, attributes, children, rest) =>
      var b := OnStart(readers, a, name, attributes);
      DriveCoalesced(readers, b, children);
      DriveCoalesced(readers, OnEnd(readers, Drive(readers, b, children), name), rest);
  }

  /** However the character data of any document reaches the handlers, in whatever state, the
      result is the same. */
  lemma {:induction false} ChunkIndependence(readers: Readers, a: Automaton, c: Content, c': Content)
    requires Coalesce(c) == Coalesce(c')
    ensures Run(readers, a, Events(c')) == Run(readers, a, Events(c))
  {
    DriveIsRun(readers, a, c);
    DriveIsRun(readers, a, c');
    DriveCoalesced(readers, a, c);
    DriveCoalesced(readers, a, c');
  }

  // ----- when an Extension contains another one

  /** How far inside a node the automaton is, along the states that can be lost. */
  function Level(s: ParserState): nat {
    match s
    case InExtension => 3
    case InExtensions => 2
    case InNode => 1
    case _ => 0
  }

  predicate OnSpine(a: Automaton) {
    && a.unknownDepth == 0 && a.valueDepth == 0
    && (a.state == Init || a.state == InNode || a.state == InExtensions || a.state == InExtension)
    && (a.state != Init ==> a.doc.nodes != [])
  }

  /** What keeps the automaton where it is. */
  predicate Flat(s: ParserState, c: Content) {
    match s
    case InExtension => NoExtension(c)
    case InExtensions => FlatExtensions(c)
    case InNode => FlatNode(c)
    case _ => true
  }

  /** The same for a single element. */
  predicate FlatElement(s: ParserState, name: string, children: Content) {
    match s
    case InExtension => name != "Extension" && NoExtension(children)
    case InExtensions => name == "Extension" ==> NoExtension(children)
    case InNode => name == "Extensions" ==> FlatExtensions(children)
    case _ => true
  }

  /** Not higher than before, and where it was exactly if `flat`. */
  predicate FallsTo(a: Automaton, b: Automaton, flat: bool) {
    OnSpine(b) && Level(b.state) <= Level(a.state) && (b.state == a.state <==> flat)
  }

  /** The elements whose inside is not on the spine. */
  lemma {:induction false} SideElement(readers: Readers, a: Automaton, name: string, attributes: seq<Attribute>, children: Content)
    requires OnSpine(a) && !OnSpine(OnStart(readers, a, name, attributes))
    ensures FallsTo(a, OnEnd(readers, Drive(readers, OnStart(readers, a, name, attributes), children), name),
                    FlatElement(a.state, name, children))
  {
    var b := OnStart(readers, a, name, attributes);
    if b == Unknown(a) {
      DriveUnknownElement(readers, a, name, attributes, children);
    } else if a.state == InNode {
      DriveNodeElement(readers, a, name, attributes, children);
    } else if name == "NamespaceUris" {
      DriveUris(readers, b, children);
    } else {
      DriveLeaf(readers, b, children);
    }
  }

  /** The elements whose inside is on the spine, from what their children do. */
  lemma SpineElement(readers: Readers, a: Automaton, name: string, attributes: seq<Attribute>, children: Content, d: Automaton)
    requires OnSpine(a) && OnSpine(OnStart(readers, a, name, attributes))
    requires FallsTo(OnStart(readers, a, name, attributes), d, Flat(OnStart(readers, a, name, attributes).state, children))
    ensures FallsTo(a, OnEnd(readers, d, name), FlatElement(a.state, name, children))
  {
  }

  lemma FallsOn(a: Automaton, b: Automaton, c: Automaton, name: string, attributes: seq<Attribute>, children: Content, rest: Content)
    requires OnSpine(a) && FallsTo(a, b, FlatElement(a.state, name, children)) && FallsTo(b, c, Flat(b.state, rest))
    ensures FallsTo(a, c, Flat(a.state, Element(name, attributes, children, rest)))
  {
  }

  /** Whatever the content, the automaton comes out no higher than it went in, and it comes
      out where it went in exactly if no Extension it had to track contains another one. */
  lemma {:induction false} Falls(readers: Readers, a: Automaton, c: Content)
    requires OnSpine(a)
    ensures FallsTo(a, Drive(readers, a, c), Flat(a.state, c))
    decreases c
  {
    match c
    case Empty =>
    case Text(data, rest) => Falls(readers, OnCharacters(a, data), rest);
    case Element(name, attributes, children, rest) =>
      var b := OnStart(readers, a, name, attributes);
      if OnSpine(b) {
        Falls(readers, b, children);
        SpineElement(readers, a, name, attributes, children, Drive(readers, b, children));
      } else {
        SideElement(readers, a, name, attributes, children);
      }
      var d := OnEnd(readers, Drive(readers, b, children), name);
      Falls(readers, d, rest);
      FallsOn(a, d, Drive(readers, d, rest), name, attributes, children, rest);
  }

  // ----- any document

  /** Where content is read: outside of nodes, in a node, in its Extensions, in an Extension. */
  datatype Place = AtTop | AtNode | AtExtensions | AtExtension

  function StateAt(p: Place): ParserState {
    match p
    case AtTop => Init
    case AtNode => InNode
    case AtExtensions => InExtensions
    case AtExtension => InExtension
  }

  /** Where the children of an element are read; None if it is read as a whole. */
  function Inside(p: Place, name: string): Option<Place> {
    match p
    case AtTop => if ClassOfElement(name).Some? then Some(AtNode) else if IsWrapper(name) then Some(AtTop) else None
    case AtNode => if name == "Extensions" then Some(AtExtensions) else None
    case AtExtensions => if name == "Extension" then Some(AtExtension) else None
    case AtExtension => Some(AtExtension)
  }

  /** Where an end tag leads, whatever it ends: one step out, but for other tags than Extension
      in an Extension. */
  function Behind(p: Place, name: string): Place {
    match p
    case AtExtension => if name == "Extension" then AtExtensions else AtExtension
    case AtExtensions => AtNode
    case _ => AtTop
  }

  /** The document with which the children of an element are read. */
  function Opened(readers: Readers, doc: Document, p: Place, name: string, attributes: seq<Attribute>): Document {
    if p == AtTop && ClassOfElement(name).Some? then AddNode(readers, doc, ClassOfElement(name).value, attributes) else doc
  }

  /** What an element contributes that is read as a whole. */
  function ReadWhole(readers: Readers, doc: Document, p: Place, name: string, attributes: seq<Attribute>, children: Content): Document
    requires p != AtTop ==> doc.nodes != []
  {
    match p
    case AtTop => ReadTopElement(readers, doc, name, attributes, children)
    case AtNode => NodeElementRead(readers, doc, name, attributes, children)
    case _ => doc
  }

  /** Reading any content from some place on: what it adds, and the place behind it. */
  function ReadAt(readers: Readers, doc: Document, p: Place, c: Content): (r: (Document, Place))
    requires p != AtTop ==> doc.nodes != []
    ensures r.1 != AtTop ==> r.0.nodes != []
    decreases c
  {
    match c
    case Empty => (doc, p)
    case Text(_, rest) => ReadAt(readers, doc, p, rest)
    case Element(name, attributes, children, rest) =>
      if Inside(p, name).Some? then
        var inner := ReadAt(readers, Opened(readers, doc, p, name, attributes), Inside(p, name).value, children);
        ReadAt(readers, inner.0, Behind(inner.1, name), rest)
      else
        ReadAt(readers, ReadWhole(readers, doc, p, name, attributes, children), p, rest)
  }

  /** The automaton at a place. */
  predicate Stands(a: Automaton, doc: Document, p: Place) {
    && a.unknownDepth == 0 && a.valueDepth == 0 && a.state == StateAt(p) && a.doc == doc
    && (p != AtTop ==> doc.nodes != [])
  }

  lemma InsideStart(readers: Readers, a: Automaton, p: Place, name: string, attributes: seq<Attribute>)
    requires Stands(a, a.doc, p) && Inside(p, name).Some?
    ensures Stands(OnStart(readers, a, name, attributes), Opened(readers, a.doc, p, name, attributes), Inside(p, name).value)
  {
  }

  lemma BehindEnd(readers: Readers, a: Automaton, p: Place, name: string)
    requires Stands(a, a.doc, p)
    ensures Stands(OnEnd(readers, a, name), a.doc, Behind(p, name))
  {
  }

  /** The elements that are read as a whole. */
  lemma {:induction false} DriveWhole(readers: Readers, a: Automaton, p: Place, name: string, attributes: seq<Attribute>, children: Content)
    requires Stands(a, a.doc, p) && Inside(p, name) == None
    ensures Stands(OnEnd(readers, Drive(readers, OnStart(readers, a, name, attributes), children), name),
                   ReadWhole(readers, a.doc, p, name, attributes, children), p)
  {
    match p
    case AtTop => DriveTopElement(readers, a, name, attributes, children);
    case AtNode => DriveNodeElement(readers, a, name, attributes, children);
    case _ => DriveUnknownElement(readers, a, name, attributes, children);
  }

  lemma {:induction false} DriveAt(readers: Readers, a: Automaton, p: Place, c: Content)
    requires Stands(a, a.doc, p)
    ensures var r := ReadAt(readers, a.doc, p, c); Stands(Drive(readers, a, c), r.0, r.1)
    decreases c
  {
    match c
    case Empty =>
    case Text(data, rest) => DriveAt(readers, OnCharacters(a, data), p, rest);
    case Element(name, attributes, children, rest) =>
      var b := OnStart(readers, a, name, attributes);
      var d := Drive(readers, b, children);
      if Inside(p, name).Some? {
        InsideStart(readers, a, p, name, attributes);
        DriveAt(readers, b, Inside(p, name).value, children);
        var inner := ReadAt(readers, b.doc, Inside(p, name).value, children);
        BehindEnd(readers, d, inner.1, name);
        DriveAt(readers, OnEnd(readers, d, name), Behind(inner.1, name), rest);
      } else {
        DriveWhole(readers, a, p, name, attributes, children);
        DriveAt(readers, OnEnd(readers, d, name), p, rest);
      }
  }

  /** For every document, whatever its Extensions contain: what the handlers collect, and where
      they end. */
  lemma {:induction false} RefinementOfAll(readers: Readers, doc: Document, c: Content)
    ensures var r := ReadAt(readers, doc, AtTop, c);
            var b := Run(readers, Automaton(Init, 0, 0, None, doc), Events(c));
            b.doc == r.0 && b.state == StateAt(r.1) && b.unknownDepth == 0 && b.valueDepth == 0
  {
    var a := Automaton(Init, 0, 0, None, doc);
    DriveIsRun(readers, a, c);
    DriveAt(readers, a, AtTop, c);
  }

  /** Where no Extension contains another one, that is what the structural reader reads. */
  lemma {:induction false} FlatReading(readers: Readers, doc: Document, c: Content)
    requires FlatTop(c)
    ensures ReadAt(readers, doc, AtTop, c) == (ReadTop(readers, doc, c), AtTop)
  {
    RefinementOfAll(readers, doc, c);
    Refinement(readers, doc, c);
  }

  /** What holds in every state that the handlers can reach. */
  predicate Consistent(a: Automaton) {
    && (a.valueDepth > 0 <==> a.state == InValue)
    && (!(a.state == Init || a.state == InAlias || a.state == InNamespaceUris || a.state == InUri) ==> a.doc.nodes != [])
    && (a.state == InDefinition || a.state == InField ==> Last(a.doc).definition.Some?)
  }

  lemma ConsistentAtTop(readers: Readers, a: Automaton, name: string, attributes: seq<Attribute>)
    requires Consistent(a) && a.state == Init
    ensures Consistent(OnStartAtTop(readers, a, name, attributes))
  {
  }

  lemma ConsistentInNode(a: Automaton, name: string, attributes: seq<Attribute>)
    requires Consistent(a) && a.state == InNode
    ensures Consistent(OnStartInNode(a, name, attributes))
  {
  }

  lemma ConsistentStart(readers: Readers, a: Automaton, name: string, attributes: seq<Attribute>)
    requires Consistent(a)
    ensures Consistent(OnStart(readers, a, name, attributes))
  {
    if a.state == InNode {
      ConsistentInNode(a, name, attributes);
    } else if a.state == Init {
      ConsistentAtTop(readers, a, name, attributes);
    }
  }

  lemma ConsistentEnd(readers: Readers, a: Automaton, name: string)
    requires Consistent(a)
    ensures Consistent(OnEnd(readers, a, name))
  {
  }

  lemma ConsistentStep(readers: Readers, a: Automaton, e: Event)
    requires Consistent(a)
    ensures Consistent(Step(readers, a, e))
  {
    match e
    case StartElement(name, attributes) => ConsistentStart(readers, a, name, attributes);
    case EndElement(name) => ConsistentEnd(readers, a, name);
    case Characters(_) =>
  }

  lemma {:induction false} ConsistentRun(readers: Readers, a: Automaton, events: seq<Event>)
    requires Consistent(a)
    ensures Consistent(Run(readers, a, events))
    decreases |events|
  {
    if events != [] {
      ConsistentStep(readers, a, events[0]);
      ConsistentRun(readers, Step(readers, a, events[0]), events[1..]);
    }
  }

  /** From any reachable state, the handlers come through any complete content with both depth
      counters as they were; they come out in the state they went in with exactly if they are
      below an unknown element or no Extension they have to track contains another one. */
  lemma {:induction false} BalancedIff(readers: Readers, a: Automaton, c: Content)
    requires Consistent(a)
    ensures var b := Drive(readers, a, c);
            b.unknownDepth == a.unknownDepth && b.valueDepth == a.valueDepth
            && (b.state == a.state <==> a.unknownDepth > 0 || Flat(a.state, c))
  {
    if a.unknownDepth > 0 {
      DriveUnknown(readers, a, c);
    } else {
      match a.state
      case Init | InNode | InExtensions | InExtension => Falls(readers, a, c);
      case InReferences => DriveRefs(readers, a, c);
      case InNamespaceUris => DriveUris(readers, a, c);
      case InDefinition => DriveFields(readers, a, c);
      case InValue => DriveValue(readers, a, c);
      case _ => DriveLeaf(readers, a, c);
    }
  }

  /** A node loses what follows an Extension inside an Extension: here its display name. */
  lemma {:induction false} NestedExtensionLosesTheRest(readers: Readers)
    ensures var inner := Element("Extension", [], Empty, Empty);
            var extensions := Element("Extensions", [], Element("Extension", [], inner, Empty),
                                Element("DisplayName", [], Text("Pump", Empty), Empty));
            var c := Element("UAObject", [], extensions, Empty);
            && !FlatTop(c)
            && |Collected(readers, EMPTY_DOCUMENT, c).nodes| == 1
            && Collected(readers, EMPTY_DOCUMENT, c).nodes[0].displayName.text == None
            && |ReadTop(readers, EMPTY_DOCUMENT, c).nodes| == 1
            && ReadTop(readers, EMPTY_DOCUMENT, c).nodes[0].displayName.text == Some("Pump")
  {
    var inner := Element("Extension", [], Empty, Empty);
    var name := Element("DisplayName", [], Text("Pump", Empty), Empty);
    var outer := Element("Extension", [], inner, Empty);
    var extensions := Element("Extensions", [], outer, name);
    var c := Element("UAObject", [], extensions, Empty);
    var start := Automaton(Init, 0, 0, None, EMPTY_DOCUMENT);
    DriveIsRun(readers, start, c);
    var a1 := OnStart(readers, start, "UAObject", []);
    var a2 := OnStart(readers, a1, "Extensions", []);
    var a3 := OnStart(readers, a2, "Extension", []);
    var a4 := OnEnd(readers, OnStart(readers, a3, "Extension", []), "Extension");
    assert Drive(readers, a3, inner) == a4;
    var a5 := OnEnd(readers, a4, "Extension");
    assert Drive(readers, a2, outer) == a5;
    var a6 := OnEnd(readers, a5, "Extensions");
    assert a6.state == Init;
    assert Drive(readers, a1, extensions) == Drive(readers, a6, name);
    DriveUnknownElement(readers, a6, "DisplayName", [], Text("Pump", Empty));
  }

  /** A node takes in what follows an Extension inside an Extension as if it were its own
      content: here a display name. */
  lemma {:induction false} NestedExtensionAddsContent(readers: Readers)
    ensures var extensions := Element("Extension", [], Element("Extension", [], Empty, Empty),
                                Element("DisplayName", [], Text("Bogus", Empty), Empty));
            var c := Element("UAObject", [], Element("Extensions", [], extensions, Empty), Empty);
            && !FlatTop(c)
            && |Collected(readers, EMPTY_DOCUMENT, c).nodes| == 1
            && Collected(readers, EMPTY_DOCUMENT, c).nodes[0].displayName.text == Some("Bogus")
            && |ReadTop(readers, EMPTY_DOCUMENT, c).nodes| == 1
            && ReadTop(readers, EMPTY_DOCUMENT, c).nodes[0].displayName.text == None
  {
    var inner := Element("Extension", [], Empty, Empty);
    var name := Element("DisplayName", [], Text("Bogus", Empty), Empty);
    var extensions := Element("Extension", [], inner, name);
    var c := Element("UAObject", [], Element("Extensions", [], extensions, Empty), Empty);
    var start := Automaton(Init, 0, 0, None, EMPTY_DOCUMENT);
    DriveIsRun(readers, start, c);
    var a1 := OnStart(readers, start, "UAObject", []);
    var a2 := OnStart(readers, a1, "Extensions", []);
    var a3 := OnStart(readers, a2, "Extension", []);
    var a4 := OnEnd(readers, OnStart(readers, a3, "Extension", []), "Extension");
    assert Drive(readers, a3, inner) == a4;
    var a5 := OnEnd(readers, a4, "Extension");
    assert a5.state == InNode;
    var a6 := OnEnd(readers, OnCharacters(OnStart(readers, a5, "DisplayName", []), "Bogus"), "DisplayName");
    assert Drive(readers, a2, extensions) == Drive(readers, a5, name) == a6;
    assert Last(a6.doc).displayName.text == Some("Bogus");
  }
}
