/** Which strings a nodeset keeps as pointers into the arena, as a function of what it holds. */
module KeptTexts {
  import opened NodeRecords
  import opened CharArenas
  import opened NodesetXml
  import Sax

  function Given(text: Option<string>): set<string> {
    if text.Some? then {text.value} else {}
  }

  function TextsOf(text: LocalizedText): set<string> {
    Given(text.locale) + Given(text.text)
  }

  function FieldNames(fields: seq<Field>): set<string> {
    set f, t | f in fields && t in Given(f.name) :: t
  }

  function DefinitionTexts(definition: Option<Definition>): set<string> {
    if definition.Some? then FieldNames(definition.value.fields) else {}
  }

  /** The display name, the description, the inverse name and the names of the fields. */
  function NodeTexts(info: NodeInfo): set<string> {
    TextsOf(info.displayName) + TextsOf(info.description) + TextsOf(info.inverseName) + DefinitionTexts(info.definition)
  }

  function NodesTexts(nodes: seq<NodeInfo>): set<string> {
    set n, t | n in nodes && t in NodeTexts(n) :: t
  }

  function AliasNames(aliases: seq<Alias>): set<string> {
    set a | a in aliases :: a.name
  }

  function Texts(doc: Document): set<string> {
    NodesTexts(doc.nodes) + AliasNames(doc.aliases)
  }

  ghost function Strings(kept: seq<KeptString>): set<string> {
    set k | k in kept :: k.text
  }

  /** Every string of the document is one of those kept. */
  ghost predicate TextsKept(doc: Document, kept: seq<KeptString>) {
    forall t {:trigger t in Texts(doc)} :: t in Texts(doc) ==> t in Strings(kept)
  }

  ghost predicate IsKept(text: Option<string>, kept: seq<KeptString>) {
    Given(text) <= Strings(kept)
  }

  lemma KeptMore(kept: seq<KeptString>, kept': seq<KeptString>)
    requires kept <= kept'
    ensures Strings(kept) <= Strings(kept')
  {
    forall k | k in kept
      ensures k in kept'
    {
      var i :| 0 <= i < |kept| && kept[i] == k;
      assert kept'[i] == k;
    }
  }

  lemma LastIsKept(kept: seq<KeptString>, text: string)
    requires kept != [] && kept[|kept| - 1].text == text
    ensures IsKept(Some(text), kept)
  {
    assert kept[|kept| - 1] in kept;
  }

  lemma WithLastTexts(doc: Document, info: NodeInfo)
    requires doc.nodes != []
    ensures Texts(Sax.WithLast(doc, info)) <= Texts(doc) + NodeTexts(info)
    ensures NodeTexts(Sax.Last(doc)) <= Texts(doc)
  {
    var nodes := Sax.WithLast(doc, info).nodes;
    forall n | n in nodes
      ensures n in doc.nodes || n == info
    {
    }
    assert Sax.Last(doc) in doc.nodes;
  }

  lemma AddNodeTexts(readers: Readers, doc: Document, c: NodeClass, attributes: seq<Attribute>)
    ensures Texts(Sax.AddNode(readers, doc, c, attributes)) <= Texts(doc)
  {
    var info := NewInfo(readers, doc, c, attributes);
    assert NodeTexts(info) == {};
    forall n | n in Sax.AddNode(readers, doc, c, attributes).nodes
      ensures n in doc.nodes || n == info
    {
    }
  }

  lemma {:induction false} SetLocaleTexts(doc: Document, attributes: seq<Attribute>)
    ensures var given := Given(AttributeValue(attributes, "Locale", None));
            && Texts(Sax.SetDisplayLocale(doc, attributes)) <= Texts(doc) + given
            && Texts(Sax.SetDescriptionLocale(doc, attributes)) <= Texts(doc) + given
            && Texts(Sax.SetInverseLocale(doc, attributes)) <= Texts(doc) + given
  {
    if doc.nodes != [] {
      var last, locale := Sax.Last(doc), AttributeValue(attributes, "Locale", None);
      WithLastTexts(doc, last.(displayName := last.displayName.(locale := locale)));
      WithLastTexts(doc, last.(description := last.description.(locale := locale)));
      WithLastTexts(doc, last.(inverseName := last.inverseName.(locale := locale)));
    }
  }

  lemma SetTextTexts(doc: Document, text: Option<string>)
    ensures Texts(Sax.SetDisplayText(doc, text)) <= Texts(doc) + Given(text)
    ensures Texts(Sax.SetDescriptionText(doc, text)) <= Texts(doc) + Given(text)
    ensures Texts(Sax.SetInverseText(doc, text)) <= Texts(doc) + Given(text)
  {
    if doc.nodes != [] {
      var last := Sax.Last(doc);
      WithLastTexts(doc, last.(displayName := last.displayName.(text := text)));
      WithLastTexts(doc, last.(description := last.description.(text := text)));
      WithLastTexts(doc, last.(inverseName := last.inverseName.(text := text)));
    }
  }

  lemma RefTexts(readers: Readers, doc: Document, attributes: seq<Attribute>, text: Option<string>)
    ensures Texts(Sax.AddRef(readers, doc, attributes)) <= Texts(doc)
    ensures Texts(Sax.SetTarget(readers, doc, text)) <= Texts(doc)
  {
    if doc.nodes != [] {
      var last := Sax.Last(doc);
      WithLastTexts(doc, last.(refs := [NewRef(readers, doc, attributes)] + last.refs));
      if last.refs != [] {
        WithLastTexts(doc, last.(refs := last.refs[0 := last.refs[0].(target := AliasToId(readers, doc, text))]));
      }
    }
  }

  lemma DefinitionAddedTexts(doc: Document, attributes: seq<Attribute>)
    ensures Texts(Sax.AddDefinition(doc, attributes)) <= Texts(doc)
  {
    if doc.nodes != [] {
      WithLastTexts(doc, Sax.Last(doc).(definition := Some(NewDefinition(attributes))));
    }
  }

  lemma {:induction false} FieldAddedTexts(readers: Readers, doc: Document, attributes: seq<Attribute>)
    ensures Texts(Sax.AddDefinitionField(readers, doc, attributes)) <= Texts(doc) + Given(AttributeValue(attributes, "Name", None))
  {
    if doc.nodes != [] {
      var last := Sax.Last(doc);
      if last.definition.Some? {
        var d := AddField(readers, doc, last.definition.value, attributes);
        FieldNamesAdded(readers, doc, last.definition.value, attributes);
        WithLastTexts(doc, last.(definition := Some(d)));
      }
    }
  }

  lemma {:induction false} FieldNamesAdded(readers: Readers, doc: Document, d: Definition, attributes: seq<Attribute>)
    ensures FieldNames(AddField(readers, doc, d, attributes).fields) <= FieldNames(d.fields) + Given(AttributeValue(attributes, "Name", None))
  {
  }

  lemma {:induction false} AliasAddedTexts(doc: Document, attributes: seq<Attribute>)
    requires AliasFits(doc, attributes)
    ensures Texts(Sax.AddAlias(doc, attributes)) <= Texts(doc) + Given(AttributeValue(attributes, "Alias", None))
  {
  }

  lemma AliasIdTexts(readers: Readers, doc: Document, text: Option<string>)
    ensures Texts(Sax.SetAliasId(readers, doc, text)) <= Texts(doc)
  {
    if doc.aliases != [] {
      var aliases := Sax.SetAliasId(readers, doc, text).aliases;
      forall a | a in aliases
        ensures a.name in AliasNames(doc.aliases)
      {
        var i :| 0 <= i < |aliases| && aliases[i] == a;
        assert doc.aliases[i] in doc.aliases && doc.aliases[i].name == a.name;
      }
    }
  }

  // ----- every step keeps what it adds

  /** Between `kept` and `kept'`, `text` has been kept, and `doc` has become `doc'`. */
  lemma StillKept(doc: Document, doc': Document, text: Option<string>, kept: seq<KeptString>, kept': seq<KeptString>)
    requires Texts(doc') <= Texts(doc) + Given(text) && kept <= kept' && IsKept(text, kept')
    ensures TextsKept(doc, kept) ==> TextsKept(doc', kept')
  {
    KeptMore(kept, kept');
  }

  lemma NodeKept(readers: Readers, doc: Document, c: NodeClass, attributes: seq<Attribute>, kept: seq<KeptString>, kept': seq<KeptString>)
    requires kept <= kept'
    ensures TextsKept(doc, kept) ==> TextsKept(Sax.AddNode(readers, doc, c, attributes), kept')
  {
    AddNodeTexts(readers, doc, c, attributes);
    StillKept(doc, Sax.AddNode(readers, doc, c, attributes), None, kept, kept');
  }

  lemma RefKept(readers: Readers, doc: Document, attributes: seq<Attribute>, kept: seq<KeptString>, kept': seq<KeptString>)
    requires kept <= kept'
    ensures TextsKept(doc, kept) ==> TextsKept(Sax.AddRef(readers, doc, attributes), kept')
  {
    RefTexts(readers, doc, attributes, None);
    StillKept(doc, Sax.AddRef(readers, doc, attributes), None, kept, kept');
  }

  lemma {:induction false} LocaleKept(doc: Document, attributes: seq<Attribute>, kept: seq<KeptString>, kept': seq<KeptString>)
    requires kept <= kept' && IsKept(AttributeValue(attributes, "Locale", None), kept')
    ensures TextsKept(doc, kept) ==>
              && TextsKept(Sax.SetDisplayLocale(doc, attributes), kept')
              && TextsKept(Sax.SetDescriptionLocale(doc, attributes), kept')
              && TextsKept(Sax.SetInverseLocale(doc, attributes), kept')
  {
    var locale := AttributeValue(attributes, "Locale", None);
    SetLocaleTexts(doc, attributes);
    StillKept(doc, Sax.SetDisplayLocale(doc, attributes), locale, kept, kept');
    StillKept(doc, Sax.SetDescriptionLocale(doc, attributes), locale, kept, kept');
    StillKept(doc, Sax.SetInverseLocale(doc, attributes), locale, kept, kept');
  }

  lemma TextKept(doc: Document, text: Option<string>, kept: seq<KeptString>)
    requires TextsKept(doc, kept) && IsKept(text, kept)
    ensures TextsKept(Sax.SetDisplayText(doc, text), kept)
    ensures TextsKept(Sax.SetDescriptionText(doc, text), kept)
    ensures TextsKept(Sax.SetInverseText(doc, text), kept)
  {
    SetTextTexts(doc, text);
  }

  /** Targets, ids of aliases and namespace URIs are not among the texts. */
  lemma OthersKept(readers: Readers, doc: Document, text: Option<string>, kept: seq<KeptString>)
    requires TextsKept(doc, kept)
    ensures TextsKept(Sax.SetTarget(readers, doc, text), kept)
    ensures TextsKept(Sax.SetAliasId(readers, doc, text), kept)
    ensures TextsKept(Sax.AddUri(doc, text), kept)
  {
    RefTexts(readers, doc, [], text);
    AliasIdTexts(readers, doc, text);
    assert Texts(Sax.AddUri(doc, text)) == Texts(doc);
  }

  lemma DefinitionKept(doc: Document, attributes: seq<Attribute>, kept: seq<KeptString>, kept': seq<KeptString>)
    requires kept <= kept'
    ensures TextsKept(doc, kept) ==> TextsKept(Sax.AddDefinition(doc, attributes), kept')
  {
    DefinitionAddedTexts(doc, attributes);
    StillKept(doc, Sax.AddDefinition(doc, attributes), None, kept, kept');
  }

  lemma {:induction false} FieldKept(readers: Readers, doc: Document, attributes: seq<Attribute>, kept: seq<KeptString>, kept': seq<KeptString>)
    requires kept <= kept' && IsKept(AttributeValue(attributes, "Name", None), kept')
    ensures TextsKept(doc, kept) ==> TextsKept(Sax.AddDefinitionField(readers, doc, attributes), kept')
  {
    FieldAddedTexts(readers, doc, attributes);
    StillKept(doc, Sax.AddDefinitionField(readers, doc, attributes), AttributeValue(attributes, "Name", None), kept, kept');
  }

  lemma {:induction false} AliasKept(doc: Document, attributes: seq<Attribute>, kept: seq<KeptString>, kept': seq<KeptString>)
    requires AliasFits(doc, attributes) && kept <= kept' && IsKept(AttributeValue(attributes, "Alias", None), kept')
    ensures TextsKept(doc, kept) ==> TextsKept(Sax.AddAlias(doc, attributes), kept')
  {
    AliasAddedTexts(doc, attributes);
    StillKept(doc, Sax.AddAlias(doc, attributes), AttributeValue(attributes, "Alias", None), kept, kept');
  }

  /** Which strings are kept, spelled out. */
  lemma {:induction false} TextsSpelledOut(doc: Document, kept: seq<KeptString>, n: NodeInfo, text: string)
    requires TextsKept(doc, kept) && n in doc.nodes
    requires || n.displayName.locale == Some(text) || n.displayName.text == Some(text)
             || n.description.locale == Some(text) || n.description.text == Some(text)
             || n.inverseName.locale == Some(text) || n.inverseName.text == Some(text)
             || (n.definition.Some? && exists f :: f in n.definition.value.fields && f.name == Some(text))
    ensures exists k :: k in kept && k.text == text
  {
    if n.definition.Some? && exists f :: f in n.definition.value.fields && f.name == Some(text) {
      var f :| f in n.definition.value.fields && f.name == Some(text);
      assert text in Given(f.name);
      assert text in FieldNames(n.definition.value.fields);
    }
    assert text in NodeTexts(n);
    assert text in Texts(doc);
  }
}
