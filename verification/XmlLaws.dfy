/** What single elements of a document come to, spelled out: names of elements and attributes,
    classes, defaults. */
module XmlLaws {
  import opened NodeIds
  import opened NodeRecords
  import opened CStrings
  import opened NodesetXml
  import opened Sax
  import opened Nodesets
  import opened Loading

  // ----- ids

  /** The id of the first alias of that name; without an alias, what the server reads from the text. */
  ghost predicate Denotes(readers: Readers, doc: Document, text: Option<string>, id: NodeId) {
    || (text.Some? && exists i :: 0 <= i < |doc.aliases| && doc.aliases[i].name == text.value && doc.aliases[i].id == id
                                  && forall j :: 0 <= j < i ==> doc.aliases[j].name != text.value)
    || ((text.None? || forall a :: a in doc.aliases ==> a.name != text.value) && id == readers.nodeId(text, doc.namespaceUris))
  }

  lemma {:induction false} FirstAlias(aliases: seq<Alias>, name: string)
    ensures FindAlias(aliases, name).Some? ==>
              exists i :: 0 <= i < |aliases| && aliases[i].name == name && aliases[i].id == FindAlias(aliases, name).value
                          && forall j :: 0 <= j < i ==> aliases[j].name != name
    ensures FindAlias(aliases, name).None? ==> forall a :: a in aliases ==> a.name != name
  {
    if aliases != [] && aliases[0].name != name {
      FirstAlias(aliases[1..], name);
      assert forall j :: 1 <= j < |aliases| ==> aliases[1..][j - 1] == aliases[j];
      if FindAlias(aliases[1..], name).Some? {
        var i :| 0 <= i < |aliases[1..]| && aliases[1..][i].name == name && aliases[1..][i].id == FindAlias(aliases, name).value
                 && forall j :: 0 <= j < i ==> aliases[1..][j].name != name;
        assert aliases[i + 1].name == name && forall j :: 0 <= j < i + 1 ==> aliases[j].name != name;
      }
    }
  }

  /** Aliases come first, and the first alias of a name counts. */
  lemma {:induction false} AliasFirst(readers: Readers, doc: Document, text: Option<string>)
    ensures Denotes(readers, doc, text, AliasToId(readers, doc, text))
    ensures text.Some? ==> forall i :: 0 <= i < |doc.aliases| && doc.aliases[i].name == text.value
                                       && (forall j :: 0 <= j < i ==> doc.aliases[j].name != text.value)
                                       ==> AliasToId(readers, doc, text) == doc.aliases[i].id
    ensures (text.None? || forall a :: a in doc.aliases ==> a.name != text.value) ==>
              AliasToId(readers, doc, text) == readers.nodeId(text, doc.namespaceUris)
  {
    if text.Some? {
      FirstAlias(doc.aliases, text.value);
      if FindAlias(doc.aliases, text.value).None? {
        assert forall i :: 0 <= i < |doc.aliases| ==> doc.aliases[i] in doc.aliases;
      }
    }
  }

  // ----- elements at the top

  /** The elements that make nodes. */
  ghost predicate MakesNode(name: string, c: NodeClass) {
    match c
    case Object => name == "UAObject"
    case ObjectType => name == "UAObjectType"
    case Variable => name == "UAVariable"
    case DataType => name == "UADataType"
    case Method => name == "UAMethod"
    case ReferenceType => name == "UAReferenceType"
    case VariableType => name == "UAVariableType"
    case View => name == "UAView"
  }

  lemma NodeNames(name: string, c: NodeClass)
    ensures MakesNode(name, c) <==> ClassOfElement(name) == Some(c)
    ensures MakesNode(name, c) ==> !IsWrapper(name)
  {
    assert |"UAVariable"| == 10 && |"UAObject"| == 8 && |"UAObjectType"| == 12 && |"UADataType"| == 10 && |"UAMethod"| == 8;
    assert |"UAReferenceType"| == 15 && |"UAVariableType"| == 14 && |"UAView"| == 6;
    assert "UAVariable"[2] == 'V' && "UADataType"[2] == 'D' && "UAObject"[2] == 'O' && "UAMethod"[2] == 'M';
    assert |"UANodeSet"| == 9 && |"Aliases"| == 7 && |"Extensions"| == 10 && "Extensions"[0] == 'E' && "UAVariable"[0] == 'U' && "UADataType"[0] == 'U';
  }

  lemma {:induction false} RecordKeeps(readers: Readers, doc: Document, info: NodeInfo, c: Content)
    ensures var r := ReadNode(readers, doc, info, c);
            r.nodeClass == info.nodeClass && r.id == info.id && r.browseName == info.browseName
    decreases c
  {
    match c
    case Empty =>
    case Text(_, rest) => RecordKeeps(readers, doc, info, rest);
    case Element(name, attributes, children, rest) =>
      RecordKeeps(readers, doc, ReadNodeElement(readers, doc, info, name, attributes, children), rest);
  }

  /** The record that a node element adds. */
  ghost function Added(readers: Readers, doc: Document, name: string, attributes: seq<Attribute>, children: Content): NodeInfo
    requires |Collected(readers, doc, Element(name, attributes, children, Empty)).nodes| == |doc.nodes| + 1
  {
    Collected(readers, doc, Element(name, attributes, children, Empty)).nodes[|doc.nodes|]
  }

  lemma {:induction false} AddedIs(readers: Readers, doc: Document, name: string, c: NodeClass, attributes: seq<Attribute>, children: Content)
    requires MakesNode(name, c) && FlatNode(children)
    ensures var d := Collected(readers, doc, Element(name, attributes, children, Empty));
            && d.nodes == doc.nodes + [ReadNode(readers, doc, NewInfo(readers, doc, c, attributes), children)]
            && d.aliases == doc.aliases && d.namespaceUris == doc.namespaceUris
            && (d.faulty <==> doc.faulty || !DefinitionsFit(c, children))
  {
    NodeNames(name, c);
    Refinement(readers, doc, Element(name, attributes, children, Empty));
  }

  lemma OneOfEight(name: string) returns (c: NodeClass)
    requires || name == "UAObject" || name == "UAObjectType" || name == "UAVariable" || name == "UADataType"
             || name == "UAMethod" || name == "UAReferenceType" || name == "UAVariableType" || name == "UAView"
    ensures MakesNode(name, c)
  {
    c := if name == "UAObject" then Object else if name == "UAObjectType" then ObjectType else if name == "UAVariable" then Variable
         else if name == "UADataType" then DataType else if name == "UAMethod" then Method else if name == "UAReferenceType" then ReferenceType
         else if name == "UAVariableType" then VariableType else View;
  }

  /** Each of the eight elements adds one record of its class, with the ids that its attributes
      name, and nothing else. */
  lemma {:induction false} NodeElement(readers: Readers, doc: Document, name: string, attributes: seq<Attribute>, children: Content)
    requires FlatNode(children)
    requires || name == "UAObject" || name == "UAObjectType" || name == "UAVariable" || name == "UADataType"
             || name == "UAMethod" || name == "UAReferenceType" || name == "UAVariableType" || name == "UAView"
    ensures var d := Collected(readers, doc, Element(name, attributes, children, Empty));
            && |d.nodes| == |doc.nodes| + 1 && doc.nodes <= d.nodes && d.aliases == doc.aliases && d.namespaceUris == doc.namespaceUris
    ensures var info := Added(readers, doc, name, attributes, children);
            && (name == "UAObject" ==> info.nodeClass == Object)
            && (name == "UAObjectType" ==> info.nodeClass == ObjectType)
            && (name == "UAVariable" ==> info.nodeClass == Variable)
            && (name == "UADataType" ==> info.nodeClass == DataType)
            && (name == "UAMethod" ==> info.nodeClass == Method)
            && (name == "UAReferenceType" ==> info.nodeClass == ReferenceType)
            && (name == "UAVariableType" ==> info.nodeClass == VariableType)
            && (name == "UAView" ==> info.nodeClass == View)
    ensures var info := Added(readers, doc, name, attributes, children);
            && (forall id :: Gives(attributes, "NodeId", id) ==> info.id == readers.nodeId(id, doc.namespaceUris))
            && (forall qn :: Gives(attributes, "BrowseName", qn) ==> info.browseName == readers.qualifiedName(qn, doc.namespaceUris))
  {
    var c := OneOfEight(name);
    AddedIs(readers, doc, name, c, attributes, children);
    RecordKeeps(readers, doc, NewInfo(readers, doc, c, attributes), children);
    GivesOne(attributes, "NodeId");
    GivesOne(attributes, "BrowseName");
  }

  lemma {:induction false} GivesOne(attributes: seq<Attribute>, name: string)
    ensures forall v :: Gives(attributes, name, v) ==> AttributeValue(attributes, name, None) == v
  {
    forall v | Gives(attributes, name, v)
      ensures AttributeValue(attributes, name, None) == v
    {
      if v.Some? {
        SaysWhat(attributes, name, None, v.value);
      } else {
        CalledOrNot(attributes, name, None);
      }
    }
  }

  /** Elements of other names add no node of their own. */
  lemma {:induction false} OtherElement(readers: Readers, doc: Document, name: string, attributes: seq<Attribute>, children: Content)
    requires name != "UAObject" && name != "UAObjectType" && name != "UAVariable" && name != "UADataType"
    requires name != "UAMethod" && name != "UAReferenceType" && name != "UAVariableType" && name != "UAView"
    requires name != "UANodeSet" && name != "Aliases" && name != "Extensions"
    ensures var d := Collected(readers, doc, Element(name, attributes, children, Empty));
            && d.nodes == doc.nodes
            && (name != "NamespaceUris" && name != "Alias" ==> d == doc)
  {
    NotAClass(name);
    Refinement(readers, doc, Element(name, attributes, children, Empty));
  }

  lemma NotAClass(name: string)
    requires forall c :: !MakesNode(name, c)
    ensures ClassOfElement(name) == None
  {
    if ClassOfElement(name).Some? {
      NodeNames(name, ClassOfElement(name).value);
    }
  }

  /** The three wrappers stand for their content. */
  lemma {:induction false} WrapperElement(readers: Readers, doc: Document, name: string, attributes: seq<Attribute>, children: Content)
    requires name == "UANodeSet" || name == "Aliases" || name == "Extensions"
    requires FlatTop(children)
    ensures Collected(readers, doc, Element(name, attributes, children, Empty)) == Collected(readers, doc, children)
  {
    forall c ensures !MakesNode(name, c) {
      NodeNames(name, c);
    }
    NotAClass(name);
    assert |"NamespaceUris"| == 13 && |"Alias"| == 5 && |"UANodeSet"| == 9 && |"Aliases"| == 7 && |"Extensions"| == 10;
    Refinement(readers, doc, Element(name, attributes, children, Empty));
    Refinement(readers, doc, children);
  }

  /** A document is read element by element. */
  lemma {:induction false} ElementByElement(readers: Readers, doc: Document, name: string, attributes: seq<Attribute>, children: Content, rest: Content)
    requires FlatTop(Element(name, attributes, children, rest))
    ensures Collected(readers, doc, Element(name, attributes, children, rest))
            == Collected(readers, Collected(readers, doc, Element(name, attributes, children, Empty)), rest)
  {
    Refinement(readers, doc, Element(name, attributes, children, rest));
    Refinement(readers, doc, Element(name, attributes, children, Empty));
    Refinement(readers, Collected(readers, doc, Element(name, attributes, children, Empty)), rest);
  }

  /** An Alias adds one alias; its behaviour is defined for the first 300 that have a name. */
  lemma {:induction false} AliasElement(readers: Readers, doc: Document, attributes: seq<Attribute>, children: Content, name: string)
    requires Says(attributes, "Alias", name) || (NotCalled(attributes, "Alias") && name == "")
    ensures var d := Collected(readers, doc, Element("Alias", attributes, children, Empty));
            && d.aliases == doc.aliases + [Alias(name, readers.nodeId(TextOf(children), doc.namespaceUris))]
            && d.nodes == doc.nodes && d.namespaceUris == doc.namespaceUris
            && (d.faulty <==> doc.faulty || |doc.aliases| >= 300 || NotCalled(attributes, "Alias"))
  {
    forall c ensures !MakesNode("Alias", c) {
      NodeNames("Alias", c);
    }
    NotAClass("Alias");
    SaysWhat(attributes, "Alias", None, name);
    CalledOrNot(attributes, "Alias", None);
    Refinement(readers, doc, Element("Alias", attributes, children, Empty));
  }

  /** A Uri in NamespaceUris adds its text. */
  lemma {:induction false} UriElement(readers: Readers, doc: Document, a: seq<Attribute>, b: seq<Attribute>, children: Content)
    ensures Collected(readers, doc, Element("NamespaceUris", a, Element("Uri", b, children, Empty), Empty))
            == doc.(namespaceUris := doc.namespaceUris + [TextOf(children)])
  {
    forall c ensures !MakesNode("NamespaceUris", c) {
      NodeNames("NamespaceUris", c);
    }
    NotAClass("NamespaceUris");
    Refinement(readers, doc, Element("NamespaceUris", a, Element("Uri", b, children, Empty), Empty));
    assert CollectUris(Element("Uri", b, children, Empty)) == [TextOf(children)] + [];
  }

  /** Text is read as it stands. */
  lemma {:induction false} TextIs(s: string, t: string, name: string, attributes: seq<Attribute>)
    ensures TextOf(Empty) == None && TextOf(Text(s, Empty)) == Some(s)
    ensures TextOf(Text(s, Element(name, attributes, Text(t, Empty), Empty))) == Some(s + t)
  {
    assert TextOf(Text(t, Empty)) == Some(t);
    assert TextOf(Element(name, attributes, Text(t, Empty), Empty)) == Join(Some(t), None) == Some(t);
  }

  // ----- the parts of a node

  ghost predicate Blank(text: LocalizedText) {
    text.locale == None && text.text == None
  }

  /** The localized texts of a node are those of its DisplayName, Description and, for a
      ReferenceType alone, InverseName. */
  lemma {:induction false} TextElement(readers: Readers, doc: Document, node: string, c: NodeClass, attributes: seq<Attribute>,
                                       name: string, a: seq<Attribute>, children: Content, locale: Option<string>)
    requires MakesNode(node, c) && Gives(a, "Locale", locale) && name != "Extensions"
    requires name != "References" && name != "Definition"
    ensures |Collected(readers, doc, Element(node, attributes, Element(name, a, children, Empty), Empty)).nodes| == |doc.nodes| + 1
    ensures var info := Added(readers, doc, node, attributes, Element(name, a, children, Empty));
            var text := LocalizedText(locale, TextOf(children));
            && (if name == "DisplayName" then info.displayName == text else Blank(info.displayName))
            && (if name == "Description" then info.description == text else Blank(info.description))
            && (if name == "InverseName" && c == ReferenceType then info.inverseName == text else Blank(info.inverseName))
            && info.refs == [] && info.definition == None
  {
    AddedIs(readers, doc, node, c, attributes, Element(name, a, children, Empty));
    GivesOne(a, "Locale");
    assert |"DisplayName"| == 11 && |"Description"| == 11 && |"InverseName"| == 11;
    assert "DisplayName"[1] == 'i' && "Description"[1] == 'e' && "InverseName"[1] == 'n';
  }

  /** A Reference element: forward unless IsForward says something else than true, the type by
      its ReferenceType, the target by its text. */
  ghost predicate RefOf(readers: Readers, doc: Document, a: seq<Attribute>, children: Content, r: Ref) {
    && (r.isForward <==> NotCalled(a, "IsForward") || Says(a, "IsForward", "true"))
    && (forall t :: Gives(a, "ReferenceType", t) ==> Denotes(readers, doc, t, r.refType))
    && Denotes(readers, doc, TextOf(children), r.target)
  }

  lemma {:induction false} NewRefIs(readers: Readers, doc: Document, a: seq<Attribute>, children: Content)
    ensures RefOf(readers, doc, a, children, NewRef(readers, doc, a).(target := AliasToId(readers, doc, TextOf(children))))
  {
    ForwardUnlessSaid(readers, doc, a);
    GivesOne(a, "ReferenceType");
    AliasFirst(readers, doc, AttributeValue(a, "ReferenceType", None));
    AliasFirst(readers, doc, TextOf(children));
  }

  /** The references of a node: the later one stands first. */
  lemma {:induction false} ReferenceElements(readers: Readers, doc: Document, node: string, c: NodeClass, attributes: seq<Attribute>,
                                             a: seq<Attribute>, s: Content, b: seq<Attribute>, t: Content)
    requires MakesNode(node, c)
    ensures var two := Element("References", [], Element("Reference", a, s, Element("Reference", b, t, Empty)), Empty);
            && |Collected(readers, doc, Element(node, attributes, two, Empty)).nodes| == |doc.nodes| + 1
            && var refs := Added(readers, doc, node, attributes, two).refs;
               && |refs| == 2 && RefOf(readers, doc, b, t, refs[0]) && RefOf(readers, doc, a, s, refs[1])
               && (refs[0].isForward <==> NotCalled(b, "IsForward") || Says(b, "IsForward", "true"))
               && (refs[1].isForward <==> NotCalled(a, "IsForward") || Says(a, "IsForward", "true"))
  {
    var both := Element("Reference", a, s, Element("Reference", b, t, Empty));
    AddedIs(readers, doc, node, c, attributes, Element("References", [], both, Empty));
    var r := NewRef(readers, doc, a).(target := AliasToId(readers, doc, TextOf(s)));
    var q := NewRef(readers, doc, b).(target := AliasToId(readers, doc, TextOf(t)));
    NewRefIs(readers, doc, a, s);
    NewRefIs(readers, doc, b, t);
    TwoRefs(readers, doc, a, s, b, t);
    TwoReversed(r, q);
    assert |"DisplayName"| == 11 && |"Description"| == 11 && |"InverseName"| == 11 && |"References"| == 10;
    var info := NewInfo(readers, doc, c, attributes);
    assert ReadNodeElement(readers, doc, info, "References", [], both) == info.(refs := [q, r] + []);
    assert [q, r] + [] == [q, r];
  }

  lemma {:induction false} TwoRefs(readers: Readers, doc: Document, a: seq<Attribute>, s: Content, b: seq<Attribute>, t: Content)
    ensures CollectRefs(readers, doc, Element("Reference", a, s, Element("Reference", b, t, Empty)))
            == [NewRef(readers, doc, a).(target := AliasToId(readers, doc, TextOf(s))),
                NewRef(readers, doc, b).(target := AliasToId(readers, doc, TextOf(t)))]
  {
    assert CollectRefs(readers, doc, Element("Reference", b, t, Empty))
           == [NewRef(readers, doc, b).(target := AliasToId(readers, doc, TextOf(t)))] + [];
  }

  lemma {:induction false} TwoReversed<T>(r: T, q: T)
    ensures Reversed([r, q]) == [q, r]
  {
    assert [r, q][1..] == [q] && [q][1..] == [];
    assert Reversed([q]) == [q];
  }

  /** A Field element without a Value is a member: its type is BaseDataType and its rank -1 if
      nothing else is said. With a Value it is a literal. */
  ghost predicate FieldOf(readers: Readers, doc: Document, a: seq<Attribute>, f: Field) {
    && Gives(a, "Name", f.name)
    && (NotCalled(a, "Value") ==>
          && (forall t :: Says(a, "DataType", t) ==> Denotes(readers, doc, Some(t), f.dataType))
          && (NotCalled(a, "DataType") ==> Denotes(readers, doc, Some("i=24"), f.dataType))
          && (forall t :: Says(a, "ValueRank", t) ==> f.valueRank == Atoi(t))
          && (NotCalled(a, "ValueRank") ==> f.valueRank == -1)
          && (f.isOptional <==> Says(a, "IsOptional", "true")))
    && (forall t :: Says(a, "Value", t) ==> f.value == Atoi(t) && f.dataType == NodeId(0, Numeric, [0]) && !f.isOptional)
  }

  lemma MinusOne()
    ensures Atoi("-1") == -1
  {
    assert "-1"[1..] == "1" && "1"[1..] == "";
    assert Digits("1", 0) == Digits("", 1) == 1;
  }

  lemma {:induction false} SaysTrue(a: seq<Attribute>, name: string)
    ensures IsTrue(a, name) <==> Says(a, name, "true")
  {
    SaysWhat(a, name, Some("false"), "true");
    assert |"true"| == 4 && |"false"| == 5;
  }

  lemma {:induction false} MemberFieldIs(readers: Readers, doc: Document, a: seq<Attribute>, f: Field)
    requires NotCalled(a, "Value")
    requires f.name == AttributeValue(a, "Name", None)
    requires f.dataType == AliasToId(readers, doc, AttributeValue(a, "DataType", Some("i=24")))
    requires f.valueRank == Atoi(AttributeValue(a, "ValueRank", Some("-1")).value) && f.isOptional == IsTrue(a, "IsOptional")
    ensures FieldOf(readers, doc, a, f)
  {
    MinusOne();
    GivesWhat(a, "Name");
    SaysTrue(a, "IsOptional");
    forall t
      ensures Says(a, "DataType", t) ==> Denotes(readers, doc, Some(t), f.dataType)
      ensures Says(a, "ValueRank", t) ==> f.valueRank == Atoi(t)
      ensures !Says(a, "Value", t)
    {
      SaysWhat(a, "DataType", Some("i=24"), t);
      SaysWhat(a, "ValueRank", Some("-1"), t);
      AliasFirst(readers, doc, Some(t));
    }
    CalledOrNot(a, "DataType", Some("i=24"));
    CalledOrNot(a, "ValueRank", Some("-1"));
    AliasFirst(readers, doc, Some("i=24"));
  }

  /** Adding a field: a literal makes an enumeration of what is no option set. */
  lemma {:induction false} AddFieldIs(readers: Readers, doc: Document, d: Definition, a: seq<Attribute>)
    ensures var r := AddField(readers, doc, d, a);
            && |r.fields| == |d.fields| + 1 && d.fields <= r.fields && FieldOf(readers, doc, a, r.fields[|d.fields|])
            && Gives(a, "Name", r.fields[|d.fields|].name)
            && (NotCalled(a, "Value") ==>
                  && (forall t :: Says(a, "DataType", t) ==> Denotes(readers, doc, Some(t), r.fields[|d.fields|].dataType))
                  && (NotCalled(a, "DataType") ==> Denotes(readers, doc, Some("i=24"), r.fields[|d.fields|].dataType))
                  && (forall t :: Says(a, "ValueRank", t) ==> r.fields[|d.fields|].valueRank == Atoi(t))
                  && (NotCalled(a, "ValueRank") ==> r.fields[|d.fields|].valueRank == -1)
                  && (r.fields[|d.fields|].isOptional <==> Says(a, "IsOptional", "true")))
            && (forall t :: Says(a, "Value", t) ==> r.fields[|d.fields|].value == Atoi(t))
            && r.isUnion == d.isUnion && r.isOptionSet == d.isOptionSet
            && (r.isEnum <==> if NotCalled(a, "Value") then d.isEnum else !d.isOptionSet)
  {
    var r := AddField(readers, doc, d, a);
    var f := r.fields[|d.fields|];
    CalledOrNot(a, "Value", None);
    GivesWhat(a, "Name");
    if NotCalled(a, "Value") {
      MemberFieldIs(readers, doc, a, f);
    } else {
      forall t
        ensures Says(a, "Value", t) ==> f.value == Atoi(t)
      {
        SaysWhat(a, "Value", None, t);
      }
    }
  }

  /** The definition of a data type: its two flags, and its fields in order. */
  lemma {:induction false} DefinitionElement(readers: Readers, doc: Document, attributes: seq<Attribute>, d: seq<Attribute>,
                                             a: seq<Attribute>, s: Content, b: seq<Attribute>, t: Content)
    ensures var fields := Element("Field", a, s, Element("Field", b, t, Empty));
            var children := Element("Definition", d, fields, Empty);
            && |Collected(readers, doc, Element("UADataType", attributes, children, Empty)).nodes| == |doc.nodes| + 1
            && var definition := Added(readers, doc, "UADataType", attributes, children).definition;
               && definition.Some? && |definition.value.fields| == 2
               && FieldOf(readers, doc, a, definition.value.fields[0]) && FieldOf(readers, doc, b, definition.value.fields[1])
               && (definition.value.isUnion <==> Says(d, "IsUnion", "true"))
               && (definition.value.isOptionSet <==> Says(d, "IsOptionSet", "true"))
               && (definition.value.isEnum <==> (!NotCalled(a, "Value") || !NotCalled(b, "Value")) && !Says(d, "IsOptionSet", "true"))
  {
    var second := Element("Field", b, t, Empty);
    var fields := Element("Field", a, s, second);
    var children := Element("Definition", d, fields, Empty);
    AddedIs(readers, doc, "UADataType", DataType, attributes, children);
    var start := NewDefinition(d);
    var one := AddField(readers, doc, start, a);
    SaysTrue(d, "IsUnion");
    SaysTrue(d, "IsOptionSet");
    AddFieldIs(readers, doc, start, a);
    AddFieldIs(readers, doc, one, b);
    assert ReadFields(readers, doc, one, second) == AddField(readers, doc, one, b);
    assert ReadFields(readers, doc, start, fields) == ReadFields(readers, doc, one, second);
    assert |"DisplayName"| == 11 && |"Description"| == 11 && |"InverseName"| == 11 && |"References"| == 10 && |"Definition"| == 10;
    assert "References"[0] == 'R' && "Definition"[0] == 'D';
    var info := NewInfo(readers, doc, DataType, attributes);
    assert ReadNode(readers, doc, info, children).definition == Some(ReadFields(readers, doc, start, fields));
  }

  // ----- parts that are there more than once

  lemma {:induction false} TwoParts(readers: Readers, doc: Document, info: NodeInfo, m: string, a: seq<Attribute>, s: Content,
                                    n: string, b: seq<Attribute>, t: Content)
    ensures ReadNode(readers, doc, info, Element(m, a, s, Element(n, b, t, Empty)))
            == ReadNodeElement(readers, doc, ReadNodeElement(readers, doc, info, m, a, s), n, b, t)
  {
    var one := ReadNodeElement(readers, doc, info, m, a, s);
    assert ReadNode(readers, doc, one, Element(n, b, t, Empty)) == ReadNodeElement(readers, doc, one, n, b, t);
  }

  /** The last DisplayName counts. */
  lemma {:induction false} RepeatedName(readers: Readers, doc: Document, node: string, c: NodeClass, attributes: seq<Attribute>,
                                        a: seq<Attribute>, s: Content, b: seq<Attribute>, t: Content, locale: Option<string>)
    requires MakesNode(node, c) && Gives(b, "Locale", locale)
    ensures var children := Element("DisplayName", a, s, Element("DisplayName", b, t, Empty));
            && |Collected(readers, doc, Element(node, attributes, children, Empty)).nodes| == |doc.nodes| + 1
            && Added(readers, doc, node, attributes, children).displayName == LocalizedText(locale, TextOf(t))
  {
    AddedIs(readers, doc, node, c, attributes, Element("DisplayName", a, s, Element("DisplayName", b, t, Empty)));
    GivesOne(b, "Locale");
    TwoParts(readers, doc, NewInfo(readers, doc, c, attributes), "DisplayName", a, s, "DisplayName", b, t);
  }

  /** The references of a later References element stand before those of an earlier one. */
  lemma {:induction false} RepeatedReferences(readers: Readers, doc: Document, node: string, c: NodeClass, attributes: seq<Attribute>,
                                              a: seq<Attribute>, s: Content, b: seq<Attribute>, t: Content)
    requires MakesNode(node, c)
    ensures var children := Element("References", [], Element("Reference", a, s, Empty),
                              Element("References", [], Element("Reference", b, t, Empty), Empty));
            && |Collected(readers, doc, Element(node, attributes, children, Empty)).nodes| == |doc.nodes| + 1
            && var refs := Added(readers, doc, node, attributes, children).refs;
               |refs| == 2 && RefOf(readers, doc, b, t, refs[0]) && RefOf(readers, doc, a, s, refs[1])
  {
    var first, second := Element("Reference", a, s, Empty), Element("Reference", b, t, Empty);
    var later := Element("References", [], second, Empty);
    AddedIs(readers, doc, node, c, attributes, Element("References", [], first, later));
    NewRefIs(readers, doc, a, s);
    NewRefIs(readers, doc, b, t);
    var info := NewInfo(readers, doc, c, attributes);
    OneReference(readers, doc, info, a, s);
    var one := ReadNodeElement(readers, doc, info, "References", [], first);
    OneReference(readers, doc, one, b, t);
    TwoParts(readers, doc, info, "References", [], first, "References", [], second);
  }

  lemma {:induction false} OneReference(readers: Readers, doc: Document, info: NodeInfo, a: seq<Attribute>, s: Content)
    ensures ReadNodeElement(readers, doc, info, "References", [], Element("Reference", a, s, Empty))
            == info.(refs := [NewRef(readers, doc, a).(target := AliasToId(readers, doc, TextOf(s)))] + info.refs)
  {
    var r := NewRef(readers, doc, a).(target := AliasToId(readers, doc, TextOf(s)));
    assert CollectRefs(readers, doc, Element("Reference", a, s, Empty)) == [r] + [] == [r];
    assert [r][1..] == [] && Reversed([r]) == [r];
    assert |"DisplayName"| == 11 && |"Description"| == 11 && |"InverseName"| == 11 && |"References"| == 10;
  }

  /** A later Definition replaces an earlier one. */
  lemma {:induction false} RepeatedDefinition(readers: Readers, doc: Document, attributes: seq<Attribute>,
                                              a: seq<Attribute>, s: Content, b: seq<Attribute>)
    ensures var children := Element("Definition", a, s, Element("Definition", b, Empty, Empty));
            && |Collected(readers, doc, Element("UADataType", attributes, children, Empty)).nodes| == |doc.nodes| + 1
            && var definition := Added(readers, doc, "UADataType", attributes, children).definition;
               && definition.Some? && definition.value.fields == [] && !definition.value.isEnum
               && (definition.value.isUnion <==> Says(b, "IsUnion", "true"))
               && (definition.value.isOptionSet <==> Says(b, "IsOptionSet", "true"))
  {
    var later := Element("Definition", b, Empty, Empty);
    var info := NewInfo(readers, doc, DataType, attributes);
    AddedIs(readers, doc, "UADataType", DataType, attributes, Element("Definition", a, s, later));
    SaysTrue(b, "IsUnion");
    SaysTrue(b, "IsOptionSet");
    assert |"DisplayName"| == 11 && |"Description"| == 11 && |"InverseName"| == 11 && |"References"| == 10 && |"Definition"| == 10;
    assert "References"[0] == 'R' && "Definition"[0] == 'D';
    var one := ReadNodeElement(readers, doc, info, "Definition", a, s);
    assert ReadFields(readers, doc, NewDefinition(b), Empty) == NewDefinition(b);
    assert ReadNodeElement(readers, doc, one, "Definition", b, Empty).definition == Some(NewDefinition(b));
    TwoParts(readers, doc, info, "Definition", a, s, "Definition", b, Empty);
  }

  /** A Definition elsewhere is undefined behaviour, and so is nothing else in a node. */
  lemma {:induction false} DefinitionElsewhere(readers: Readers, doc: Document, node: string, c: NodeClass, attributes: seq<Attribute>,
                                               name: string, a: seq<Attribute>, children: Content)
    requires MakesNode(node, c) && name != "Extensions"
    ensures Collected(readers, doc, Element(node, attributes, Element(name, a, children, Empty), Empty)).faulty
            <==> doc.faulty || (name == "Definition" && c != DataType)
  {
    AddedIs(readers, doc, node, c, attributes, Element(name, a, children, Empty));
  }

  // ----- what an import puts into the nodeset

  /** The node of an element, field by field. */
  lemma {:induction false} ImportedNode(nodeset: Nodeset, readers: Readers, doc: Document, name: string, attributes: seq<Attribute>, children: Content)
    requires FlatNode(children)
    requires || name == "UAObject" || name == "UAObjectType" || name == "UAVariable" || name == "UADataType"
             || name == "UAMethod" || name == "UAReferenceType" || name == "UAVariableType" || name == "UAView"
    requires Holds(nodeset, Collected(readers, doc, Element(name, attributes, children, Empty)))
    ensures |nodeset.allNodes| == |doc.nodes| + 1
    ensures var node := nodeset.allNodes[|doc.nodes|];
            && (name == "UAObject" ==> node.nodeClass == Object)
            && (name == "UAObjectType" ==> node.nodeClass == ObjectType)
            && (name == "UAVariable" ==> node.nodeClass == Variable)
            && (name == "UADataType" ==> node.nodeClass == DataType)
            && (name == "UAMethod" ==> node.nodeClass == Method)
            && (name == "UAReferenceType" ==> node.nodeClass == ReferenceType)
            && (name == "UAVariableType" ==> node.nodeClass == VariableType)
            && (name == "UAView" ==> node.nodeClass == View)
            && (forall id :: Gives(attributes, "NodeId", id) ==> node.id == readers.nodeId(id, doc.namespaceUris))
            && (forall qn :: Gives(attributes, "BrowseName", qn) ==> node.browseName == readers.qualifiedName(qn, doc.namespaceUris))
    ensures var node, info := nodeset.allNodes[|doc.nodes|], Added(readers, doc, name, attributes, children);
            && node.displayName == info.displayName && node.description == info.description && node.inverseName == info.inverseName
            && node.definition == info.definition && |node.refs| == |info.refs|
            && forall k :: 0 <= k < |node.refs| ==>
                 && node.refs[k].isForward == info.refs[k].isForward && node.refs[k].refType == info.refs[k].refType
                 && node.refs[k].target == info.refs[k].target
  {
    NodeElement(readers, doc, name, attributes, children);
    assert nodeset.allNodes[|doc.nodes|].Matches(Added(readers, doc, name, attributes, children));
  }
}
