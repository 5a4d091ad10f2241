/** The parser context and its three event handlers, over a nodeset on the heap and a text
    buffer in the character arena. */
module Parser {
  import opened NodeRecords
  import opened Nodes
  import opened Nodesets
  import opened NodesetXml
  import opened CharArenas
  import opened Loading
  import opened KeptTexts
  import Sax

  /** The text buffer is the arena's last block, holds exactly the text, and has room for the
      terminating zero. This is what makes growing the last block grow the buffer. */
  ghost predicate BufferValid(arena: CharArena, onCharacters: Option<Pointer>, onCharLength: nat)
    reads arena`current, arena`blocks, arena`written, arena`mems, arena`kept, arena`sealed
    reads arena.current`size, arena.current`userPtr, arena.current`userSize, arena.current.mem, arena.mems
  {
    && arena.Valid()
    && (onCharacters == None ==> onCharLength == 0)
    && (onCharacters.Some? ==>
          && arena.blocks != [] && !arena.sealed
          && onCharacters.value == Pointer(arena.current.mem, arena.current.userPtr)
          && onCharLength == |arena.written| < arena.current.userSize
          && NUL !in arena.written)
  }

  ghost function TextAt(arena: CharArena, onCharacters: Option<Pointer>): Option<string>
    reads arena`written
  {
    if onCharacters == None then None else Some(arena.written)
  }

  /** Appends received characters to the text buffer, which is opened with the first ones. All
      other live blocks stay and keep their content. */
  method Receive(arena: CharArena, onCharacters: Option<Pointer>, onCharLength: nat, data: string)
    returns (buffer: Option<Pointer>, length: nat)
    requires BufferValid(arena, onCharacters, onCharLength) && NUL !in data
    modifies arena, arena.current, arena.current.mem
    ensures BufferValid(arena, buffer, length)
    ensures arena.current == old(arena.current) || (fresh(arena.current) && fresh(arena.current.mem))
    ensures arena.kept == old(arena.kept)
    ensures TextAt(arena, buffer) == Join(old(TextAt(arena, onCharacters)), Some(data))
    ensures forall b :: b in old(if onCharacters == None then arena.blocks else arena.Earlier()) ==>
              b in arena.Earlier() && b.InBounds() && b.Content() == old(b.Content())
  {
    var start: Pointer;
    if onCharacters == None {
      start := arena.Malloc(|data| + 1);
      assert arena.written == [];
    } else {
      start := arena.Realloc(|data| + 1);
    }
    ghost var before := arena.written;
    assert arena.blocks[|arena.blocks| - 1] == arena.LastBlock();
    arena.Append(start, onCharLength, data);
    assert arena.written == before + data;
    assert [] + data == data;
    return Some(start), onCharLength + |data|;
  }

  /** The received text as a string that the client keeps, nothing when no characters came. */
  method Received(arena: CharArena, onCharacters: Option<Pointer>, ghost onCharLength: nat) returns (text: Option<string>)
    requires BufferValid(arena, onCharacters, onCharLength)
    modifies arena`kept, arena`sealed
    ensures arena.Valid() && text == TextAt(arena, onCharacters)
    ensures old(arena.kept) <= arena.kept
    ensures IsKept(text, arena.kept)
  {
    if onCharacters == None {
      return None;
    }
    var s := arena.KeepString(onCharacters.value);
    LastIsKept(arena.kept, s);
    return Some(s);
  }

  /** The states between the start and the end of a node. */
  predicate InsideNode(s: Sax.ParserState) {
    !(s == Sax.Init || s == Sax.InAlias || s == Sax.InNamespaceUris || s == Sax.InUri)
  }

  /** Inside a node, `node` is the last one, and in the deeper states its parts are there. */
  ghost predicate NodeFits(nodeset: Nodeset, s: Sax.ParserState, node: Node?, ref: Reference?)
    reads nodeset`allNodes, nodeset.allNodes`refs, nodeset.allNodes`definition
  {
    InsideNode(s) ==>
      && node != null && IsLast(nodeset, node) && node in nodeset.allNodes
      && (s == Sax.InReference ==> ref != null && Owned(nodeset.allNodes, node, ref))
      && (s == Sax.InDefinition || s == Sax.InField ==> node.definition.Some?)
  }

  /** All a parser state relies on but the text buffer. `doc` is what has been put into the
      nodeset so far. */
  ghost predicate StoreFits(nodeset: Nodeset, s: Sax.ParserState, depth: nat, node: Node?, ref: Reference?, doc: Document,
                            made: Made)
    reads nodeset`allNodes, nodeset`sortedNodes, nodeset`waiting, nodeset`aliases, nodeset`namespaceUris
    reads nodeset.allNodes`displayName, nodeset.allNodes`description, nodeset.allNodes`inverseName, nodeset.allNodes`definition,
          nodeset.allNodes`refs, nodeset.allNodes`isDone, RefsOf(Elems(nodeset.allNodes))`target
  {
    && nodeset.Valid() && Holds(nodeset, doc) && !doc.faulty
    && Among(nodeset, made)
    && NodeFits(nodeset, s, node, ref)
    && (s == Sax.InAlias ==> nodeset.aliases != [])
    && (depth > 0 <==> s == Sax.InValue)
  }

  /** The state behind an end tag that finishes nothing; `depth` counts the Value elements
      still open. */
  function StateBehind(s: Sax.ParserState, name: string, depth: nat): (r: Sax.ParserState)
    ensures InsideNode(r) ==> InsideNode(s)
    ensures r != Sax.InReference && r != Sax.InField && r != Sax.InAlias
    ensures r == Sax.InDefinition ==> s == Sax.InField
  {
    if s == Sax.InValue then (if depth == 0 then Sax.InNode else Sax.InValue)
    else if s == Sax.InExtension then (if name == "Extension" then Sax.InExtensions else Sax.InExtension)
    else if s == Sax.InExtensions || s == Sax.InReferences || s == Sax.InDefinition then Sax.InNode
    else if s == Sax.InField then Sax.InDefinition
    else Sax.Init
  }

  /** The state below a start tag that puts nothing into the nodeset; None for an unknown one. */
  function StateBelow(s: Sax.ParserState, name: string): (r: Option<Sax.ParserState>)
    ensures r.Some? && r.value == Sax.InValue <==> s == Sax.InValue
    ensures r.Some? && InsideNode(r.value) ==> InsideNode(s)
    ensures r.Some? ==> r.value != Sax.InReference && r.value != Sax.InField && r.value != Sax.InAlias && r.value != Sax.InDefinition
  {
    if s == Sax.InNamespaceUris && name == "Uri" then Some(Sax.InUri)
    else if s == Sax.InValue then Some(Sax.InValue)
    else if s == Sax.InExtensions && name == "Extension" then Some(Sax.InExtension)
    else if s == Sax.InExtension then Some(Sax.InExtension)
    else None
  }

  lemma StartsAt(readers: Readers, a: Sax.Automaton, name: string, attributes: seq<Attribute>)
    requires a.unknownDepth == 0 && !(a.state == Sax.Init || a.state == Sax.InNode)
    requires !(a.state == Sax.InDefinition && name == "Field") && !(a.state == Sax.InReferences && name == "Reference")
    requires a.valueDepth > 0 <==> a.state == Sax.InValue
    ensures var next := StateBelow(a.state, name);
            var depth := if a.state == Sax.InValue && name == "Value" then a.valueDepth + 1 else a.valueDepth;
            Sax.OnStart(readers, a, name, attributes)
            == if next == None then Sax.Unknown(a) else Sax.Automaton(next.value, 0, depth, None, a.doc)
  {
  }

  lemma EndsAt(readers: Readers, a: Sax.Automaton, name: string)
    requires a.unknownDepth == 0 && (!Sax.IsLeaf(a.state) || a.state == Sax.InField)
    requires a.valueDepth > 0 <==> a.state == Sax.InValue
    ensures var depth := if a.state == Sax.InValue && name == "Value" then a.valueDepth - 1 else a.valueDepth;
            Sax.OnEnd(readers, a, name) == Sax.Automaton(StateBehind(a.state, name, depth), 0, depth, None, a.doc)
  {
  }

  class ParserCtx {
    const nodeset: Nodeset
    const readers: Readers
    var state: Sax.ParserState
    var unknownDepth: nat
    var valueDepth: nat
    var node: Node?
    var ref: Reference?
    /** The text received since the last recognised tag: where it starts and how long it is. */
    var onCharacters: Option<Pointer>
    var onCharLength: nat
    /** What the handlers have put into the nodeset. */
    ghost var doc: Document
    /** Where the import began and what it has made since. */
    ghost var made: Made

    ghost predicate Valid()
      reads this, nodeset, nodeset.charArena, nodeset.charArena.current, nodeset.charArena.current.mem, nodeset.charArena.mems
      reads nodeset.allNodes, RefsOf(Elems(nodeset.allNodes))
    {
      && StoreFits(nodeset, state, valueDepth, node, ref, doc, made) && BufferValid(nodeset.charArena, onCharacters, onCharLength)
      && TextsKept(doc, nodeset.charArena.kept)
    }

    /** The state of the automaton that the handlers implement. */
    ghost function Abs(): Sax.Automaton
      reads this, nodeset.charArena`written
    {
      Sax.Automaton(state, unknownDepth, valueDepth, TextAt(nodeset.charArena, onCharacters), doc)
    }

    constructor (nodeset: Nodeset, readers: Readers, ghost doc: Document)
      requires nodeset.Valid() && nodeset.charArena.Valid() && Holds(nodeset, doc) && !doc.faulty && NoneMarked(nodeset.allNodes)
      requires TextsKept(doc, nodeset.charArena.kept)
      ensures Valid() && this.nodeset == nodeset && this.readers == readers
      ensures Abs() == Sax.Automaton(Sax.Init, 0, 0, None, doc)
      ensures node == null && ref == null
      ensures forall o :: o in made.objects ==> o in nodeset.allNodes || o in RefsOf(Elems(nodeset.allNodes))
      ensures made.waiting == nodeset.waiting && made.first == |nodeset.allNodes|
    {
      this.nodeset := nodeset;
      this.readers := readers;
      state := Sax.Init;
      unknownDepth, valueDepth := 0, 0;
      node, ref := null, null;
      onCharacters := None;
      onCharLength := 0;
      this.doc := doc;
      made := Made((set n: object | n in nodeset.allNodes) + RefsOf(Elems(nodeset.allNodes)), nodeset.waiting, |nodeset.allNodes|);
    }

    /** Puts characters into the text buffer. */
    method Collect(data: string) returns (buffer: Option<Pointer>, length: nat)
      requires Valid() && NUL !in data
      modifies nodeset.charArena, nodeset.charArena.current, nodeset.charArena.current.mem
      ensures StoreFits(nodeset, state, valueDepth, node, ref, doc, made)
      ensures BufferValid(nodeset.charArena, buffer, length)
      ensures nodeset.charArena.current == old(nodeset.charArena.current)
              || (fresh(nodeset.charArena.current) && fresh(nodeset.charArena.current.mem))
      ensures nodeset.charArena.kept == old(nodeset.charArena.kept)
      ensures TextAt(nodeset.charArena, buffer) == Join(old(TextAt(nodeset.charArena, onCharacters)), Some(data))
    {
      buffer, length := Receive(nodeset.charArena, onCharacters, onCharLength, data);
    }

    /** The handler of character data. */
    method OnCharacters(data: string)
      requires Valid() && NUL !in data
      modifies `onCharacters, `onCharLength, nodeset.charArena, nodeset.charArena.current, nodeset.charArena.current.mem
      ensures Valid()
      ensures nodeset.charArena.current == old(nodeset.charArena.current)
              || (fresh(nodeset.charArena.current) && fresh(nodeset.charArena.current.mem))
      ensures old(nodeset.charArena.kept) <= nodeset.charArena.kept
      ensures Abs() == Sax.OnCharacters(old(Abs()), data)
    {
      var buffer, length := Collect(data);
      SetBuffer(buffer, length);
    }

    method SetBuffer(buffer: Option<Pointer>, length: nat)
      requires StoreFits(nodeset, state, valueDepth, node, ref, doc, made) && TextsKept(doc, nodeset.charArena.kept)
      requires BufferValid(nodeset.charArena, buffer, length)
      modifies `onCharacters, `onCharLength
      ensures Valid() && onCharacters == buffer && onCharLength == length
    {
      onCharacters, onCharLength := buffer, length;
    }

    /** Takes on a state, with the text discarded. */
    method Enter(s: Sax.ParserState, depth: nat, ghost d: Document)
      requires StoreFits(nodeset, s, depth, node, ref, d, made) && nodeset.charArena.Valid() && TextsKept(d, nodeset.charArena.kept)
      modifies `state, `valueDepth, `doc, `onCharacters, `onCharLength
      ensures Valid() && Abs() == Sax.Automaton(s, unknownDepth, depth, None, d)
    {
      state, valueDepth, doc := s, depth, d;
      SetBuffer(None, 0);
    }

    method SetCurrent(ghost s: Sax.ParserState, n: Node?, r: Reference?, ghost d: Document, ghost m: Made)
      requires StoreFits(nodeset, s, 0, n, r, d, m) && nodeset.charArena.Valid()
      modifies `node, `ref, `made
      ensures StoreFits(nodeset, s, 0, node, ref, d, made) && nodeset.charArena.Valid()
      ensures node == n && ref == r && made == m
    {
      node, ref, made := n, r, m;
    }

    /** Takes on a state with a new node or a new reference. */
    method EnterNew(s: Sax.ParserState, n: Node?, r: Reference?, ghost d: Document, ghost m: Made)
      requires StoreFits(nodeset, s, 0, n, r, d, m) && nodeset.charArena.Valid() && TextsKept(d, nodeset.charArena.kept)
      modifies `state, `valueDepth, `doc, `onCharacters, `onCharLength, `node, `ref, `made
      ensures Valid() && Abs() == Sax.Automaton(s, unknownDepth, 0, None, d)
      ensures node == n && ref == r && made == m
    {
      SetCurrent(s, n, r, d, m);
      Enter(s, 0, d);
    }

    method Skip()
      requires Valid()
      modifies `unknownDepth
      ensures Valid() && Abs() == Sax.Unknown(old(Abs()))
    {
      unknownDepth := unknownDepth + 1;
    }

    /** Puts a new node into the nodeset. */
    method OpenNode(c: NodeClass, attributes: seq<Attribute>) returns (n: Node)
      requires Valid() && CleanAttributes(attributes)
      modifies nodeset`allNodes, nodeset`waiting
      modifies nodeset.charArena, nodeset.charArena.current, nodeset.charArena.current.mem
      ensures StoreFits(nodeset, Sax.InNode, 0, n, ref, Sax.AddNode(readers, doc, c, attributes), made.With(n)) && nodeset.charArena.Valid()
      ensures nodeset.charArena.current == old(nodeset.charArena.current)
              || (fresh(nodeset.charArena.current) && fresh(nodeset.charArena.current.mem))
      ensures old(nodeset.charArena.kept) <= nodeset.charArena.kept
      ensures fresh(n)
      ensures TextsKept(Sax.AddNode(readers, doc, c, attributes), nodeset.charArena.kept)
    {
      n := NewNode(nodeset, readers, c, attributes, doc, made);
    }

    method StartNode(c: NodeClass, attributes: seq<Attribute>)
      requires Valid() && CleanAttributes(attributes)
      requires state == Sax.Init
      modifies this, nodeset`allNodes, nodeset`waiting, nodeset`aliases, nodeset`namespaceUris
      modifies nodeset.charArena, nodeset.charArena.current, nodeset.charArena.current.mem
      ensures Valid() && Abs() == Sax.Enter(old(Abs()), Sax.InNode, Sax.AddNode(readers, old(doc), c, attributes))
      ensures nodeset.charArena.current == old(nodeset.charArena.current)
              || (fresh(nodeset.charArena.current) && fresh(nodeset.charArena.current.mem))
      ensures old(nodeset.charArena.kept) <= nodeset.charArena.kept
      ensures fresh(node) && ref == old(ref) && made.NewSince(old(made)) && fresh(made.objects - old(made.objects))
    {
      ghost var d := Sax.AddNode(readers, doc, c, attributes);
      var n := OpenNode(c, attributes);
      EnterNew(Sax.InNode, n, ref, d, made.With(n));
    }

    method StartAlias(attributes: seq<Attribute>)
      requires Valid() && CleanAttributes(attributes)
      requires unknownDepth == 0 && state == Sax.Init && !Sax.AddAlias(doc, attributes).faulty
      modifies `state, `valueDepth, `doc, `onCharacters, `onCharLength, `node, `ref, `made, nodeset`aliases
      modifies nodeset.charArena, nodeset.charArena.current, nodeset.charArena.current.mem
      ensures Valid() && Abs() == Sax.Enter(old(Abs()), Sax.InAlias, Sax.AddAlias(old(doc), attributes))
      ensures nodeset.charArena.current == old(nodeset.charArena.current)
              || (fresh(nodeset.charArena.current) && fresh(nodeset.charArena.current.mem))
      ensures old(nodeset.charArena.kept) <= nodeset.charArena.kept
      ensures node == null && ref == old(ref) && made == old(made)
    {
      ghost var d := Sax.AddAlias(doc, attributes);
      NewAlias(nodeset, attributes, doc);
      EnterNew(Sax.InAlias, null, ref, d, made);
    }

    method StartAtTop(name: string, attributes: seq<Attribute>)
      requires Valid() && CleanAttributes(attributes)
      requires unknownDepth == 0 && state == Sax.Init
      requires !Sax.OnStartAtTop(readers, Abs(), name, attributes).doc.faulty
      modifies this, nodeset`allNodes, nodeset`waiting, nodeset`aliases, nodeset`namespaceUris
      modifies nodeset.charArena, nodeset.charArena.current, nodeset.charArena.current.mem
      ensures Valid() && Abs() == Sax.OnStartAtTop(readers, old(Abs()), name, attributes)
      ensures nodeset.charArena.current == old(nodeset.charArena.current)
              || (fresh(nodeset.charArena.current) && fresh(nodeset.charArena.current.mem))
      ensures old(nodeset.charArena.kept) <= nodeset.charArena.kept
      ensures node == old(node) || node == null || fresh(node)
      ensures ref == old(ref) && made.NewSince(old(made)) && fresh(made.objects - old(made.objects))
    {
      var c := ClassOfElement(name);
      if c.Some? {
        StartNode(c.value, attributes);
      } else if name == "NamespaceUris" {
        Enter(Sax.InNamespaceUris, 0, doc);
      } else if name == "Alias" {
        StartAlias(attributes);
      } else if IsWrapper(name) {
        Enter(Sax.Init, 0, doc);
      } else {
        Skip();
      }
    }

    method OpenDisplayName(attributes: seq<Attribute>)
      requires Valid() && CleanAttributes(attributes) && state == Sax.InNode
      modifies node`displayName
      modifies nodeset.charArena, nodeset.charArena.current, nodeset.charArena.current.mem
      ensures StoreFits(nodeset, Sax.InDisplayName, 0, node, ref, Sax.SetDisplayLocale(doc, attributes), made) && nodeset.charArena.Valid()
      ensures nodeset.charArena.current == old(nodeset.charArena.current)
              || (fresh(nodeset.charArena.current) && fresh(nodeset.charArena.current.mem))
      ensures old(nodeset.charArena.kept) <= nodeset.charArena.kept
      ensures TextsKept(Sax.SetDisplayLocale(doc, attributes), nodeset.charArena.kept)
    {
      SetDisplayName(nodeset, node, attributes, doc);
    }

    method StartDisplayName(attributes: seq<Attribute>)
      requires Valid() && CleanAttributes(attributes)
      requires unknownDepth == 0 && state == Sax.InNode
      modifies `state, `valueDepth, `doc, `onCharacters, `onCharLength, node`displayName
      modifies nodeset.charArena, nodeset.charArena.current, nodeset.charArena.current.mem
      ensures Valid() && Abs() == Sax.Enter(old(Abs()), Sax.InDisplayName, Sax.SetDisplayLocale(old(doc), attributes))
      ensures nodeset.charArena.current == old(nodeset.charArena.current)
              || (fresh(nodeset.charArena.current) && fresh(nodeset.charArena.current.mem))
      ensures old(nodeset.charArena.kept) <= nodeset.charArena.kept
      ensures node == old(node) && ref == old(ref)
    {
      ghost var d := Sax.SetDisplayLocale(doc, attributes);
      OpenDisplayName(attributes);
      Enter(Sax.InDisplayName, 0, d);
    }

    method OpenDescription(attributes: seq<Attribute>)
      requires Valid() && CleanAttributes(attributes) && state == Sax.InNode
      modifies node`description
      modifies nodeset.charArena, nodeset.charArena.current, nodeset.charArena.current.mem
      ensures StoreFits(nodeset, Sax.InDescription, 0, node, ref, Sax.SetDescriptionLocale(doc, attributes), made) && nodeset.charArena.Valid()
      ensures nodeset.charArena.current == old(nodeset.charArena.current)
              || (fresh(nodeset.charArena.current) && fresh(nodeset.charArena.current.mem))
      ensures old(nodeset.charArena.kept) <= nodeset.charArena.kept
      ensures TextsKept(Sax.SetDescriptionLocale(doc, attributes), nodeset.charArena.kept)
    {
      SetDescription(nodeset, node, attributes, doc);
    }

    method StartDescription(attributes: seq<Attribute>)
      requires Valid() && CleanAttributes(attributes)
      requires unknownDepth == 0 && state == Sax.InNode
      modifies `state, `valueDepth, `doc, `onCharacters, `onCharLength, node`description
      modifies nodeset.charArena, nodeset.charArena.current, nodeset.charArena.current.mem
      ensures Valid() && Abs() == Sax.Enter(old(Abs()), Sax.InDescription, Sax.SetDescriptionLocale(old(doc), attributes))
      ensures nodeset.charArena.current == old(nodeset.charArena.current)
              || (fresh(nodeset.charArena.current) && fresh(nodeset.charArena.current.mem))
      ensures old(nodeset.charArena.kept) <= nodeset.charArena.kept
      ensures node == old(node) && ref == old(ref)
    {
      ghost var d := Sax.SetDescriptionLocale(doc, attributes);
      OpenDescription(attributes);
      Enter(Sax.InDescription, 0, d);
    }

    method OpenInverseName(attributes: seq<Attribute>)
      requires Valid() && CleanAttributes(attributes) && state == Sax.InNode
      modifies node`inverseName
      modifies nodeset.charArena, nodeset.charArena.current, nodeset.charArena.current.mem
      ensures StoreFits(nodeset, Sax.InInverseName, 0, node, ref, Sax.SetInverseLocale(doc, attributes), made) && nodeset.charArena.Valid()
      ensures nodeset.charArena.current == old(nodeset.charArena.current)
              || (fresh(nodeset.charArena.current) && fresh(nodeset.charArena.current.mem))
      ensures old(nodeset.charArena.kept) <= nodeset.charArena.kept
      ensures TextsKept(Sax.SetInverseLocale(doc, attributes), nodeset.charArena.kept)
    {
      SetInverseName(nodeset, node, attributes, doc);
    }

    method StartInverseName(attributes: seq<Attribute>)
      requires Valid() && CleanAttributes(attributes)
      requires unknownDepth == 0 && state == Sax.InNode
      modifies `state, `valueDepth, `doc, `onCharacters, `onCharLength, node`inverseName
      modifies nodeset.charArena, nodeset.charArena.current, nodeset.charArena.current.mem
      ensures Valid() && Abs() == Sax.Enter(old(Abs()), Sax.InInverseName, Sax.SetInverseLocale(old(doc), attributes))
      ensures nodeset.charArena.current == old(nodeset.charArena.current)
              || (fresh(nodeset.charArena.current) && fresh(nodeset.charArena.current.mem))
      ensures old(nodeset.charArena.kept) <= nodeset.charArena.kept
      ensures node == old(node) && ref == old(ref)
    {
      ghost var d := Sax.SetInverseLocale(doc, attributes);
      OpenInverseName(attributes);
      Enter(Sax.InInverseName, 0, d);
    }

    method OpenDefinition(attributes: seq<Attribute>)
      requires Valid() && CleanAttributes(attributes) && state == Sax.InNode && !Sax.AddDefinition(doc, attributes).faulty
      modifies node`definition
      modifies nodeset.charArena, nodeset.charArena.current, nodeset.charArena.current.mem
      ensures StoreFits(nodeset, Sax.InDefinition, 0, node, ref, Sax.AddDefinition(doc, attributes), made) && nodeset.charArena.Valid()
      ensures nodeset.charArena.current == old(nodeset.charArena.current)
              || (fresh(nodeset.charArena.current) && fresh(nodeset.charArena.current.mem))
      ensures old(nodeset.charArena.kept) <= nodeset.charArena.kept
      ensures TextsKept(Sax.AddDefinition(doc, attributes), nodeset.charArena.kept)
    {
      AddDataTypeDefinition(nodeset, node, attributes, doc);
    }

    method StartDefinition(attributes: seq<Attribute>)
      requires Valid() && CleanAttributes(attributes)
      requires unknownDepth == 0 && state == Sax.InNode
      requires !Sax.AddDefinition(doc, attributes).faulty
      modifies `state, `valueDepth, `doc, `onCharacters, `onCharLength, node`definition
      modifies nodeset.charArena, nodeset.charArena.current, nodeset.charArena.current.mem
      ensures Valid() && Abs() == Sax.Enter(old(Abs()), Sax.InDefinition, Sax.AddDefinition(old(doc), attributes))
      ensures nodeset.charArena.current == old(nodeset.charArena.current)
              || (fresh(nodeset.charArena.current) && fresh(nodeset.charArena.current.mem))
      ensures old(nodeset.charArena.kept) <= nodeset.charArena.kept
      ensures node == old(node) && ref == old(ref)
    {
      ghost var d := Sax.AddDefinition(doc, attributes);
      OpenDefinition(attributes);
      Enter(Sax.InDefinition, 0, d);
    }

    method StartNodeText(name: string, attributes: seq<Attribute>)
      requires Valid() && CleanAttributes(attributes)
      requires unknownDepth == 0 && state == Sax.InNode
      requires name == "DisplayName" || name == "Description" || name == "InverseName"
      modifies `state, `valueDepth, `doc, `onCharacters, `onCharLength, node
      modifies nodeset.charArena, nodeset.charArena.current, nodeset.charArena.current.mem
      ensures Valid() && Abs() == Sax.OnStartInNode(old(Abs()), name, attributes)
      ensures nodeset.charArena.current == old(nodeset.charArena.current)
              || (fresh(nodeset.charArena.current) && fresh(nodeset.charArena.current.mem))
      ensures old(nodeset.charArena.kept) <= nodeset.charArena.kept
    {
      if name == "DisplayName" {
        assert Sax.OnStartInNode(Abs(), name, attributes) == Sax.Enter(Abs(), Sax.InDisplayName, Sax.SetDisplayLocale(doc, attributes));
        StartDisplayName(attributes);
      } else if name == "Description" {
        assert Sax.OnStartInNode(Abs(), name, attributes) == Sax.Enter(Abs(), Sax.InDescription, Sax.SetDescriptionLocale(doc, attributes));
        StartDescription(attributes);
      } else {
        assert Sax.OnStartInNode(Abs(), name, attributes) == Sax.Enter(Abs(), Sax.InInverseName, Sax.SetInverseLocale(doc, attributes));
        StartInverseName(attributes);
      }
    }

    method StartInNode(name: string, attributes: seq<Attribute>)
      requires Valid() && CleanAttributes(attributes)
      requires unknownDepth == 0 && state == Sax.InNode
      requires !Sax.OnStartInNode(Abs(), name, attributes).doc.faulty
      modifies `unknownDepth, `state, `valueDepth, `doc, `onCharacters, `onCharLength, node
      modifies nodeset.charArena, nodeset.charArena.current, nodeset.charArena.current.mem
      ensures Valid() && Abs() == Sax.OnStartInNode(old(Abs()), name, attributes)
      ensures nodeset.charArena.current == old(nodeset.charArena.current)
              || (fresh(nodeset.charArena.current) && fresh(nodeset.charArena.current.mem))
      ensures old(nodeset.charArena.kept) <= nodeset.charArena.kept
    {
      if name == "DisplayName" || name == "Description" || name == "InverseName" {
        StartNodeText(name, attributes);
      } else if name == "Definition" {
        StartDefinition(attributes);
      } else if name == "References" {
        Enter(Sax.InReferences, 0, doc);
      } else if name == "Value" {
        Enter(Sax.InValue, valueDepth + 1, doc);
      } else if name == "Extensions" {
        Enter(Sax.InExtensions, 0, doc);
      } else {
        Skip();
      }
    }

    /** Adds a field to the definition of the current node. */
    method OpenField(attributes: seq<Attribute>)
      requires Valid() && CleanAttributes(attributes) && state == Sax.InDefinition
      modifies node`definition
      modifies nodeset.charArena, nodeset.charArena.current, nodeset.charArena.current.mem
      ensures nodeset.Valid() && Holds(nodeset, Sax.AddDefinitionField(readers, doc, attributes)) && nodeset.charArena.Valid()
      ensures nodeset.charArena.current == old(nodeset.charArena.current)
              || (fresh(nodeset.charArena.current) && fresh(nodeset.charArena.current.mem))
      ensures old(nodeset.charArena.kept) <= nodeset.charArena.kept
      ensures NodeFits(nodeset, Sax.InField, node, ref) && Among(nodeset, made)
      ensures TextsKept(Sax.AddDefinitionField(readers, doc, attributes), nodeset.charArena.kept)
    {
      AddDataTypeField(nodeset, readers, node, attributes, doc);
    }

    method StartField(attributes: seq<Attribute>)
      requires Valid() && CleanAttributes(attributes)
      requires unknownDepth == 0 && state == Sax.InDefinition
      modifies `state, `valueDepth, `doc, `onCharacters, `onCharLength, node`definition
      modifies nodeset.charArena, nodeset.charArena.current, nodeset.charArena.current.mem
      ensures Valid() && Abs() == Sax.Enter(old(Abs()), Sax.InField, Sax.AddDefinitionField(readers, old(doc), attributes))
      ensures nodeset.charArena.current == old(nodeset.charArena.current)
              || (fresh(nodeset.charArena.current) && fresh(nodeset.charArena.current.mem))
      ensures old(nodeset.charArena.kept) <= nodeset.charArena.kept
      ensures node == old(node) && ref == old(ref)
    {
      ghost var d := Sax.AddDefinitionField(readers, doc, attributes);
      OpenField(attributes);
      Enter(Sax.InField, 0, d);
    }

    /** Puts a new reference in front of the list of the current node. */
    method OpenReference(attributes: seq<Attribute>) returns (r: Reference)
      requires Valid() && CleanAttributes(attributes) && state == Sax.InReferences
      modifies node`refs
      modifies nodeset.charArena, nodeset.charArena.current, nodeset.charArena.current.mem
      ensures StoreFits(nodeset, Sax.InReference, 0, node, r, Sax.AddRef(readers, doc, attributes), made.With(r)) && nodeset.charArena.Valid()
      ensures nodeset.charArena.current == old(nodeset.charArena.current)
              || (fresh(nodeset.charArena.current) && fresh(nodeset.charArena.current.mem))
      ensures old(nodeset.charArena.kept) <= nodeset.charArena.kept
      ensures fresh(r)
      ensures TextsKept(Sax.AddRef(readers, doc, attributes), nodeset.charArena.kept)
    {
      r := NewReference(nodeset, readers, node, attributes, doc, made);
    }

    method StartReference(attributes: seq<Attribute>)
      requires Valid() && CleanAttributes(attributes)
      requires unknownDepth == 0 && state == Sax.InReferences
      modifies `state, `valueDepth, `doc, `onCharacters, `onCharLength, `node, `ref, `made, node`refs
      modifies nodeset.charArena, nodeset.charArena.current, nodeset.charArena.current.mem
      ensures Valid() && Abs() == Sax.Enter(old(Abs()), Sax.InReference, Sax.AddRef(readers, old(doc), attributes))
      ensures nodeset.charArena.current == old(nodeset.charArena.current)
              || (fresh(nodeset.charArena.current) && fresh(nodeset.charArena.current.mem))
      ensures old(nodeset.charArena.kept) <= nodeset.charArena.kept
      ensures node == old(node) && ref != null && fresh(ref) && made.NewSince(old(made)) && fresh(made.objects - old(made.objects))
    {
      ghost var d := Sax.AddRef(readers, doc, attributes);
      var r := OpenReference(attributes);
      EnterNew(Sax.InReference, node, r, d, made.With(r));
    }

    /** The start tags that put nothing into the nodeset. */
    method StartStructure(name: string, ghost attributes: seq<Attribute>)
      requires Valid()
      requires unknownDepth == 0 && !(state == Sax.Init || state == Sax.InNode)
      requires !(state == Sax.InDefinition && name == "Field") && !(state == Sax.InReferences && name == "Reference")
      modifies `unknownDepth, `state, `valueDepth, `doc, `onCharacters, `onCharLength
      ensures Valid() && Abs() == Sax.OnStart(readers, old(Abs()), name, attributes)
    {
      var next := StateBelow(state, name);
      StartsAt(readers, Abs(), name, attributes);
      if next == None {
        Skip();
      } else {
        Enter(next.value, if state == Sax.InValue && name == "Value" then valueDepth + 1 else valueDepth, doc);
      }
    }

    /** The start tags of fields and references. */
    method StartPart(name: string, attributes: seq<Attribute>)
      requires Valid() && CleanAttributes(attributes) && unknownDepth == 0
      requires (state == Sax.InDefinition && name == "Field") || (state == Sax.InReferences && name == "Reference")
      modifies `state, `valueDepth, `doc, `onCharacters, `onCharLength, `node, `ref, `made, node
      modifies nodeset.charArena, nodeset.charArena.current, nodeset.charArena.current.mem
      ensures Valid() && Abs() == Sax.OnStart(readers, old(Abs()), name, attributes)
      ensures nodeset.charArena.current == old(nodeset.charArena.current)
              || (fresh(nodeset.charArena.current) && fresh(nodeset.charArena.current.mem))
      ensures old(nodeset.charArena.kept) <= nodeset.charArena.kept
      ensures node == old(node) && (ref == old(ref) || fresh(ref)) && made.NewSince(old(made)) && fresh(made.objects - old(made.objects))
    {
      if state == Sax.InDefinition {
        assert Sax.OnStart(readers, Abs(), name, attributes) == Sax.Enter(Abs(), Sax.InField, Sax.AddDefinitionField(readers, doc, attributes));
        StartField(attributes);
      } else {
        assert Sax.OnStart(readers, Abs(), name, attributes) == Sax.Enter(Abs(), Sax.InReference, Sax.AddRef(readers, doc, attributes));
        StartReference(attributes);
      }
    }

    /** The handler of a start tag. */
    method OnStartElementNs(name: string, attributes: seq<Attribute>)
      requires Valid() && CleanAttributes(attributes)
      requires !Sax.OnStart(readers, Abs(), name, attributes).doc.faulty
      modifies this, nodeset`allNodes, nodeset`waiting, nodeset`aliases, nodeset`namespaceUris
      modifies nodeset.charArena, nodeset.charArena.current, nodeset.charArena.current.mem
      modifies if node == null then {} else {node}
      ensures Valid() && Abs() == Sax.OnStart(readers, old(Abs()), name, attributes)
      ensures nodeset.charArena.current == old(nodeset.charArena.current)
              || (fresh(nodeset.charArena.current) && fresh(nodeset.charArena.current.mem))
      ensures old(nodeset.charArena.kept) <= nodeset.charArena.kept
      ensures node == old(node) || node == null || fresh(node)
      ensures ref == old(ref) || fresh(ref)
      ensures made.NewSince(old(made)) && fresh(made.objects - old(made.objects))
    {
      if unknownDepth > 0 {
        Skip();
      } else if state == Sax.Init {
        StartAtTop(name, attributes);
      } else if state == Sax.InNode {
        StartInNode(name, attributes);
      } else if (state == Sax.InDefinition && name == "Field") || (state == Sax.InReferences && name == "Reference") {
        StartPart(name, attributes);
      } else {
        StartStructure(name, attributes);
      }
    }

    /** The text received since the last recognised tag. */
    method TakeText() returns (text: Option<string>)
      requires Valid()
      modifies nodeset.charArena`kept, nodeset.charArena`sealed
      ensures StoreFits(nodeset, state, valueDepth, node, ref, doc, made) && nodeset.charArena.Valid()
      ensures text == old(Abs().text) && old(nodeset.charArena.kept) <= nodeset.charArena.kept
      ensures TextsKept(doc, nodeset.charArena.kept) && IsKept(text, nodeset.charArena.kept)
    {
      ghost var kept := nodeset.charArena.kept;
      text := Received(nodeset.charArena, onCharacters, onCharLength);
      KeptMore(kept, nodeset.charArena.kept);
    }

    method PutAlias(text: Option<string>)
      requires StoreFits(nodeset, Sax.InAlias, 0, node, ref, doc, made)
      requires nodeset.charArena.Valid() && TextsKept(doc, nodeset.charArena.kept)
      modifies nodeset`aliases
      ensures StoreFits(nodeset, Sax.Init, 0, node, ref, Sax.SetAliasId(readers, doc, text), made)
      ensures nodeset.charArena.Valid() && TextsKept(Sax.SetAliasId(readers, doc, text), nodeset.charArena.kept)
    {
      OthersKept(readers, doc, text, nodeset.charArena.kept);
      FinishAlias(nodeset, readers, text, doc);
    }

    method CloseAlias() returns (ghost text: Option<string>)
      requires Valid() && state == Sax.InAlias
      modifies nodeset`aliases
      modifies nodeset.charArena`kept, nodeset.charArena`sealed
      ensures text == old(Abs().text) && nodeset.charArena.Valid() && old(nodeset.charArena.kept) <= nodeset.charArena.kept
      ensures StoreFits(nodeset, Sax.Init, 0, node, ref, Sax.SetAliasId(readers, doc, text), made)
      ensures TextsKept(Sax.SetAliasId(readers, doc, text), nodeset.charArena.kept)
    {
      var received := TakeText();
      text := received;
      PutAlias(received);
    }

    method PutUri(text: Option<string>)
      requires StoreFits(nodeset, Sax.InUri, 0, node, ref, doc, made)
      requires nodeset.charArena.Valid() && TextsKept(doc, nodeset.charArena.kept)
      modifies nodeset`namespaceUris
      ensures StoreFits(nodeset, Sax.InNamespaceUris, 0, node, ref, Sax.AddUri(doc, text), made)
      ensures nodeset.charArena.Valid() && TextsKept(Sax.AddUri(doc, text), nodeset.charArena.kept)
    {
      OthersKept(readers, doc, text, nodeset.charArena.kept);
      FinishNamespace(nodeset, text, doc);
    }

    method CloseUri() returns (ghost text: Option<string>)
      requires Valid() && state == Sax.InUri
      modifies nodeset`namespaceUris
      modifies nodeset.charArena`kept, nodeset.charArena`sealed
      ensures text == old(Abs().text) && nodeset.charArena.Valid() && old(nodeset.charArena.kept) <= nodeset.charArena.kept
      ensures StoreFits(nodeset, Sax.InNamespaceUris, 0, node, ref, Sax.AddUri(doc, text), made)
      ensures TextsKept(Sax.AddUri(doc, text), nodeset.charArena.kept)
    {
      var received := TakeText();
      text := received;
      PutUri(received);
    }

    method EndAlias()
      requires Valid() && unknownDepth == 0 && state == Sax.InAlias
      modifies `state, `valueDepth, `doc, `onCharacters, `onCharLength, nodeset`aliases
      modifies nodeset.charArena`kept, nodeset.charArena`sealed
      ensures Valid() && Abs() == Sax.Enter(old(Abs()), Sax.Init, Sax.SetAliasId(readers, old(doc), old(Abs().text)))
      ensures old(nodeset.charArena.kept) <= nodeset.charArena.kept
    {
      ghost var before := doc;
      ghost var text := CloseAlias();
      Enter(Sax.Init, 0, Sax.SetAliasId(readers, before, text));
    }

    method EndUri()
      requires Valid() && unknownDepth == 0 && state == Sax.InUri
      modifies `state, `valueDepth, `doc, `onCharacters, `onCharLength, nodeset`namespaceUris
      modifies nodeset.charArena`kept, nodeset.charArena`sealed
      ensures Valid() && Abs() == Sax.Enter(old(Abs()), Sax.InNamespaceUris, Sax.AddUri(old(doc), old(Abs().text)))
      ensures old(nodeset.charArena.kept) <= nodeset.charArena.kept
    {
      ghost var before := doc;
      ghost var text := CloseUri();
      Enter(Sax.InNamespaceUris, 0, Sax.AddUri(before, text));
    }

    method PutDisplayName(text: Option<string>)
      requires StoreFits(nodeset, Sax.InDisplayName, 0, node, ref, doc, made)
      requires nodeset.charArena.Valid() && TextsKept(doc, nodeset.charArena.kept) && IsKept(text, nodeset.charArena.kept)
      modifies node`displayName
      ensures StoreFits(nodeset, Sax.InNode, 0, node, ref, Sax.SetDisplayText(doc, text), made)
      ensures nodeset.charArena.Valid() && TextsKept(Sax.SetDisplayText(doc, text), nodeset.charArena.kept)
    {
      TextKept(doc, text, nodeset.charArena.kept);
      FinishDisplayName(nodeset, node, text, doc);
    }

    method CloseDisplayName() returns (ghost text: Option<string>)
      requires Valid() && state == Sax.InDisplayName
      modifies node`displayName
      modifies nodeset.charArena`kept, nodeset.charArena`sealed
      ensures text == old(Abs().text) && nodeset.charArena.Valid() && old(nodeset.charArena.kept) <= nodeset.charArena.kept
      ensures StoreFits(nodeset, Sax.InNode, 0, node, ref, Sax.SetDisplayText(doc, text), made)
      ensures TextsKept(Sax.SetDisplayText(doc, text), nodeset.charArena.kept)
    {
      var received := TakeText();
      text := received;
      PutDisplayName(received);
    }

    method EndDisplayName()
      requires Valid() && unknownDepth == 0 && state == Sax.InDisplayName
      modifies `state, `valueDepth, `doc, `onCharacters, `onCharLength, node`displayName
      modifies nodeset.charArena`kept, nodeset.charArena`sealed
      ensures Valid() && Abs() == Sax.Enter(old(Abs()), Sax.InNode, Sax.SetDisplayText(old(doc), old(Abs().text)))
      ensures old(nodeset.charArena.kept) <= nodeset.charArena.kept
    {
      ghost var before := doc;
      ghost var text := CloseDisplayName();
      Enter(Sax.InNode, 0, Sax.SetDisplayText(before, text));
    }

    method PutDescription(text: Option<string>)
      requires StoreFits(nodeset, Sax.InDescription, 0, node, ref, doc, made)
      requires nodeset.charArena.Valid() && TextsKept(doc, nodeset.charArena.kept) && IsKept(text, nodeset.charArena.kept)
      modifies node`description
      ensures StoreFits(nodeset, Sax.InNode, 0, node, ref, Sax.SetDescriptionText(doc, text), made)
      ensures nodeset.charArena.Valid() && TextsKept(Sax.SetDescriptionText(doc, text), nodeset.charArena.kept)
    {
      TextKept(doc, text, nodeset.charArena.kept);
      FinishDescription(nodeset, node, text, doc);
    }

    method CloseDescription() returns (ghost text: Option<string>)
      requires Valid() && state == Sax.InDescription
      modifies node`description
      modifies nodeset.charArena`kept, nodeset.charArena`sealed
      ensures text == old(Abs().text) && nodeset.charArena.Valid() && old(nodeset.charArena.kept) <= nodeset.charArena.kept
      ensures StoreFits(nodeset, Sax.InNode, 0, node, ref, Sax.SetDescriptionText(doc, text), made)
      ensures TextsKept(Sax.SetDescriptionText(doc, text), nodeset.charArena.kept)
    {
      var received := TakeText();
      text := received;
      PutDescription(received);
    }

    method EndDescription()
      requires Valid() && unknownDepth == 0 && state == Sax.InDescription
      modifies `state, `valueDepth, `doc, `onCharacters, `onCharLength, node`description
      modifies nodeset.charArena`kept, nodeset.charArena`sealed
      ensures Valid() && Abs() == Sax.Enter(old(Abs()), Sax.InNode, Sax.SetDescriptionText(old(doc), old(Abs().text)))
      ensures old(nodeset.charArena.kept) <= nodeset.charArena.kept
    {
      ghost var before := doc;
      ghost var text := CloseDescription();
      Enter(Sax.InNode, 0, Sax.SetDescriptionText(before, text));
    }

    method PutInverseName(text: Option<string>)
      requires StoreFits(nodeset, Sax.InInverseName, 0, node, ref, doc, made)
      requires nodeset.charArena.Valid() && TextsKept(doc, nodeset.charArena.kept) && IsKept(text, nodeset.charArena.kept)
      modifies node`inverseName
      ensures StoreFits(nodeset, Sax.InNode, 0, node, ref, Sax.SetInverseText(doc, text), made)
      ensures nodeset.charArena.Valid() && TextsKept(Sax.SetInverseText(doc, text), nodeset.charArena.kept)
    {
      TextKept(doc, text, nodeset.charArena.kept);
      FinishInverseName(nodeset, node, text, doc);
    }

    method CloseInverseName() returns (ghost text: Option<string>)
      requires Valid() && state == Sax.InInverseName
      modifies node`inverseName
      modifies nodeset.charArena`kept, nodeset.charArena`sealed
      ensures text == old(Abs().text) && nodeset.charArena.Valid() && old(nodeset.charArena.kept) <= nodeset.charArena.kept
      ensures StoreFits(nodeset, Sax.InNode, 0, node, ref, Sax.SetInverseText(doc, text), made)
      ensures TextsKept(Sax.SetInverseText(doc, text), nodeset.charArena.kept)
    {
      var received := TakeText();
      text := received;
      PutInverseName(received);
    }

    method EndInverseName()
      requires Valid() && unknownDepth == 0 && state == Sax.InInverseName
      modifies `state, `valueDepth, `doc, `onCharacters, `onCharLength, node`inverseName
      modifies nodeset.charArena`kept, nodeset.charArena`sealed
      ensures Valid() && Abs() == Sax.Enter(old(Abs()), Sax.InNode, Sax.SetInverseText(old(doc), old(Abs().text)))
      ensures old(nodeset.charArena.kept) <= nodeset.charArena.kept
    {
      ghost var before := doc;
      ghost var text := CloseInverseName();
      Enter(Sax.InNode, 0, Sax.SetInverseText(before, text));
    }

    method BindTarget(text: Option<string>)
      requires StoreFits(nodeset, Sax.InReference, 0, node, ref, doc, made)
      requires nodeset.charArena.Valid() && TextsKept(doc, nodeset.charArena.kept)
      modifies ref`target
      ensures StoreFits(nodeset, Sax.InReferences, 0, node, ref, Sax.SetTarget(readers, doc, text), made)
      ensures nodeset.charArena.Valid() && TextsKept(Sax.SetTarget(readers, doc, text), nodeset.charArena.kept)
    {
      OthersKept(readers, doc, text, nodeset.charArena.kept);
      FinishReference(nodeset, readers, node, ref, text, doc);
    }

    /** Binds the current reference to the target its text names. */
    method CloseReference() returns (ghost text: Option<string>)
      requires Valid() && state == Sax.InReference
      modifies ref`target
      modifies nodeset.charArena`kept, nodeset.charArena`sealed
      ensures text == old(Abs().text) && nodeset.charArena.Valid() && old(nodeset.charArena.kept) <= nodeset.charArena.kept
      ensures StoreFits(nodeset, Sax.InReferences, 0, node, ref, Sax.SetTarget(readers, doc, text), made)
      ensures TextsKept(Sax.SetTarget(readers, doc, text), nodeset.charArena.kept)
    {
      var received := TakeText();
      text := received;
      BindTarget(received);
    }

    method EndReference()
      requires Valid() && unknownDepth == 0 && state == Sax.InReference
      modifies `state, `valueDepth, `doc, `onCharacters, `onCharLength, ref`target
      modifies nodeset.charArena`kept, nodeset.charArena`sealed
      ensures Valid() && Abs() == Sax.Enter(old(Abs()), Sax.InReferences, Sax.SetTarget(readers, old(doc), old(Abs().text)))
      ensures old(nodeset.charArena.kept) <= nodeset.charArena.kept
    {
      ghost var before := doc;
      ghost var text := CloseReference();
      Enter(Sax.InReferences, 0, Sax.SetTarget(readers, before, text));
    }

    /** The end tags of aliases and namespace URIs. */
    method EndEntry(ghost name: string)
      requires Valid() && unknownDepth == 0 && (state == Sax.InAlias || state == Sax.InUri)
      modifies `state, `valueDepth, `doc, `onCharacters, `onCharLength, nodeset`aliases, nodeset`namespaceUris
      modifies nodeset.charArena`kept, nodeset.charArena`sealed
      ensures Valid() && Abs() == Sax.OnEnd(readers, old(Abs()), name)
      ensures old(nodeset.charArena.kept) <= nodeset.charArena.kept
    {
      ghost var a := Abs();
      if state == Sax.InAlias {
        assert Sax.OnEnd(readers, a, name) == Sax.Enter(a, Sax.Init, Sax.SetAliasId(readers, doc, a.text));
        EndAlias();
      } else {
        assert Sax.OnEnd(readers, a, name) == Sax.Enter(a, Sax.InNamespaceUris, Sax.AddUri(doc, a.text));
        EndUri();
      }
    }

    /** The end tags of the parts of a node that have a text. */
    method EndPart(ghost name: string)
      requires Valid() && unknownDepth == 0
      requires state == Sax.InDisplayName || state == Sax.InReference || state == Sax.InDescription || state == Sax.InInverseName
      modifies `state, `valueDepth, `doc, `onCharacters, `onCharLength, node, if ref == null then {} else {ref}
      modifies nodeset.charArena`kept, nodeset.charArena`sealed
      ensures Valid() && Abs() == Sax.OnEnd(readers, old(Abs()), name)
      ensures old(nodeset.charArena.kept) <= nodeset.charArena.kept
    {
      ghost var a := Abs();
      if state == Sax.InDisplayName {
        assert Sax.OnEnd(readers, a, name) == Sax.Enter(a, Sax.InNode, Sax.SetDisplayText(doc, a.text));
        EndDisplayName();
      } else if state == Sax.InReference {
        assert Sax.OnEnd(readers, a, name) == Sax.Enter(a, Sax.InReferences, Sax.SetTarget(readers, doc, a.text));
        EndReference();
      } else if state == Sax.InDescription {
        assert Sax.OnEnd(readers, a, name) == Sax.Enter(a, Sax.InNode, Sax.SetDescriptionText(doc, a.text));
        EndDescription();
      } else {
        assert Sax.OnEnd(readers, a, name) == Sax.Enter(a, Sax.InNode, Sax.SetInverseText(doc, a.text));
        EndInverseName();
      }
    }

    /** The ends that finish nothing. */
    method EndStructure(name: string)
      requires Valid() && unknownDepth == 0
      requires !Sax.IsLeaf(state) || state == Sax.InField
      modifies `state, `valueDepth, `doc, `onCharacters, `onCharLength
      ensures Valid() && Abs() == Sax.OnEnd(readers, old(Abs()), name)
    {
      var depth := if state == Sax.InValue && name == "Value" then valueDepth - 1 else valueDepth;
      EndsAt(readers, Abs(), name);
      Enter(StateBehind(state, name, depth), depth, doc);
    }

    /** The handler of an end tag. */
    method OnEndElementNs(name: string)
      requires Valid()
      modifies `unknownDepth, `state, `valueDepth, `doc, `onCharacters, `onCharLength, nodeset`aliases, nodeset`namespaceUris
      modifies if node == null then {} else {node}, if ref == null then {} else {ref}
      modifies nodeset.charArena`kept, nodeset.charArena`sealed
      ensures Valid() && Abs() == Sax.OnEnd(readers, old(Abs()), name)
      ensures old(nodeset.charArena.kept) <= nodeset.charArena.kept
    {
      if unknownDepth > 0 {
        unknownDepth := unknownDepth - 1;
      } else if state == Sax.InAlias || state == Sax.InUri {
        EndEntry(name);
      } else if Sax.IsLeaf(state) && state != Sax.InField {
        EndPart(name);
      } else {
        EndStructure(name);
      }
    }

    /** The parser library calling the handlers, event by event. */
    method Feed(events: seq<Sax.Event>)
      requires Valid() && forall e :: e in events ==> CleanEvent(e)
      requires !Sax.Run(readers, Abs(), events).doc.faulty
      modifies this, nodeset`allNodes, nodeset`waiting, nodeset`aliases, nodeset`namespaceUris
      modifies nodeset.charArena, nodeset.charArena.current, nodeset.charArena.current.mem
      modifies if node == null then {} else {node}, if ref == null then {} else {ref}
      ensures Valid() && Abs() == Sax.Run(readers, old(Abs()), events)
      ensures old(nodeset.charArena.kept) <= nodeset.charArena.kept
      ensures made.NewSince(old(made)) && (forall o :: o in made.objects ==> o in old(made.objects) || fresh(o))
    {
      ghost var end := Sax.Run(readers, Abs(), events);
      ghost var region, node0, ref0, made0, kept0 := nodeset.charArena.current, node, ref, made, nodeset.charArena.kept;
      assert events[0..] == events;
      var i := 0;
      while i < |events|
        invariant 0 <= i <= |events|
        invariant Valid() && Sax.Run(readers, Abs(), events[i..]) == end
        invariant nodeset.charArena.current == region
                  || (fresh(nodeset.charArena.current) && fresh(nodeset.charArena.current.mem))
        invariant kept0 <= nodeset.charArena.kept
        invariant node == node0 || node == null || fresh(node)
        invariant ref == ref0 || ref == null || fresh(ref)
        invariant made.NewSince(made0) && (forall o :: o in made.objects ==> o in made0.objects || fresh(o))
      {
        HandleNext(events, i);
        i := i + 1;
      }
    }

    method HandleNext(events: seq<Sax.Event>, i: nat)
      requires i < |events| && Valid() && CleanEvent(events[i])
      requires !Sax.Run(readers, Abs(), events[i..]).doc.faulty
      modifies this, nodeset`allNodes, nodeset`waiting, nodeset`aliases, nodeset`namespaceUris
      modifies nodeset.charArena, nodeset.charArena.current, nodeset.charArena.current.mem
      modifies if node == null then {} else {node}, if ref == null then {} else {ref}
      ensures Valid() && Sax.Run(readers, Abs(), events[i + 1..]) == Sax.Run(readers, old(Abs()), events[i..])
      ensures nodeset.charArena.current == old(nodeset.charArena.current)
              || (fresh(nodeset.charArena.current) && fresh(nodeset.charArena.current.mem))
      ensures old(nodeset.charArena.kept) <= nodeset.charArena.kept
      ensures node == old(node) || node == null || fresh(node)
      ensures ref == old(ref) || ref == null || fresh(ref)
      ensures made.NewSince(old(made)) && (forall o :: o in made.objects ==> o in old(made.objects) || fresh(o))
    {
      NextNotFaulty(readers, Abs(), events[i..]);
      assert events[i..][1..] == events[i + 1..];
      Handle(events[i]);
    }

    method Handle(e: Sax.Event)
      requires Valid() && CleanEvent(e)
      requires !Sax.Step(readers, Abs(), e).doc.faulty
      modifies this, nodeset`allNodes, nodeset`waiting, nodeset`aliases, nodeset`namespaceUris
      modifies nodeset.charArena, nodeset.charArena.current, nodeset.charArena.current.mem
      modifies if node == null then {} else {node}, if ref == null then {} else {ref}
      ensures Valid() && Abs() == Sax.Step(readers, old(Abs()), e)
      ensures nodeset.charArena.current == old(nodeset.charArena.current)
              || (fresh(nodeset.charArena.current) && fresh(nodeset.charArena.current.mem))
      ensures old(nodeset.charArena.kept) <= nodeset.charArena.kept
      ensures node == old(node) || node == null || fresh(node)
      ensures ref == old(ref) || ref == null || fresh(ref)
      ensures made.NewSince(old(made)) && (forall o :: o in made.objects ==> o in old(made.objects) || fresh(o))
    {
      match e {
        case StartElement(name, attributes) => OnStartElementNs(name, attributes);
        case EndElement(name) => OnEndElementNs(name);
        case Characters(data) => OnCharacters(data);
      }
    }
  }

  predicate CleanEvent(e: Sax.Event) {
    match e
    case StartElement(_, attributes) => CleanAttributes(attributes)
    case EndElement(_) => true
    case Characters(data) => NUL !in data
  }

  predicate CleanContent(c: Content) {
    match c
    case Empty => true
    case Text(data, rest) => NUL !in data && CleanContent(rest)
    case Element(_, attributes, children, rest) => CleanAttributes(attributes) && CleanContent(children) && CleanContent(rest)
  }

  lemma {:induction false} CleanEvents(c: Content)
    requires CleanContent(c)
    ensures forall e :: e in Sax.Events(c) ==> CleanEvent(e)
  {
    match c
    case Empty =>
    case Text(_, rest) => CleanEvents(rest);
    case Element(_, _, children, rest) =>
      CleanEvents(children);
      CleanEvents(rest);
  }

  lemma {:induction false} NextNotFaulty(readers: Readers, a: Sax.Automaton, events: seq<Sax.Event>)
    requires events != [] && !Sax.Run(readers, a, events).doc.faulty
    ensures !Sax.Step(readers, a, events[0]).doc.faulty
    ensures Sax.Run(readers, a, events) == Sax.Run(readers, Sax.Step(readers, a, events[0]), events[1..])
  {
    if Sax.Step(readers, a, events[0]).doc.faulty {
      Sax.FaultyStays(readers, Sax.Step(readers, a, events[0]), events[1..]);
    }
  }

  /** Importing a file: what the handlers add to the nodeset is what the automaton collects,
      and with it what the structural reader reads (see Sax.Refinement). */
  method ImportDocument(nodeset: Nodeset, readers: Readers, c: Content, ghost doc: Document) returns (ghost made: Made)
    requires nodeset.Valid() && nodeset.charArena.Valid() && Holds(nodeset, doc) && !doc.faulty && NoneMarked(nodeset.allNodes)
    requires TextsKept(doc, nodeset.charArena.kept)
    requires CleanContent(c) && !Sax.Collected(readers, doc, c).faulty
    modifies nodeset`allNodes, nodeset`waiting, nodeset`aliases, nodeset`namespaceUris
    modifies nodeset.charArena, nodeset.charArena.current, nodeset.charArena.current.mem
    ensures nodeset.Valid() && nodeset.charArena.Valid() && NoneMarked(nodeset.allNodes)
    ensures Holds(nodeset, Sax.Collected(readers, doc, c))
    ensures TextsKept(Sax.Collected(readers, doc, c), nodeset.charArena.kept)
    ensures Among(nodeset, made) && made.waiting == old(nodeset.waiting) && made.first == old(|nodeset.allNodes|)
    ensures forall o :: o in made.objects ==> o in old(nodeset.allNodes) || o in old(RefsOf(Elems(nodeset.allNodes))) || fresh(o)
    ensures old(nodeset.charArena.kept) <= nodeset.charArena.kept
  {
    var parser := new ParserCtx(nodeset, readers, doc);
    CleanEvents(c);
    parser.Feed(Sax.Events(c));
    made := parser.made;
  }
}
