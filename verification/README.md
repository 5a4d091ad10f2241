# A verified model of the OPC UA nodeset loader

The nodeset loader reads an OPC UA nodeset (the UANodeSet format of section F.2 of OPC 10000-6) with a
SAX parser, builds a graph of nodes and references, sorts the nodes so that every node stands behind the
nodes it needs, and hands them one by one to a server. This project models that whole way and proves what
it promises:

- **The dependency sort** (`Sorting`, `SortTheorems`). The methods work on a mutable nodeset of `Node`
  and `Reference` objects as the C code does: binding references by binary search, scanning a class with
  removal by swap, retrying, marking. They are proved against `Dependencies`, a small theory of staged
  least fixpoints over plain sets: what is emitted is the least fixpoint of readiness, stage by stage; it
  does not depend on any order; and a node is left over exactly when a chain of blocking references leads
  from it to a cycle or to a node that waits for a later stage.
  `SortLaws` spells out which references and which classes make a node wait.
- **The SAX automaton** (`NodesetXml`, `Sax`, `XmlLaws`, `Parser`, `Loading`). A document is a tree. `NodesetXml`
  says what a structural reading of the tree collects; `Sax` says what the event handlers do, one event
  at a time, and proves that running them over the events of a document amounts to that reading; `Parser`
  has the handlers as methods of a class over the nodeset and the character arena and proves that they
  are the automaton. `XmlLaws` spells out, name by name, what single elements and attributes come to.
- **The character arena** (`CharArenas`, `KeptTexts`, `Parser.BufferValid`). The bump allocator with its
  "grow the last block" reallocation, the hand-off invariant that makes the parser's use of it right, and
  why every string that the nodeset keeps in the arena is intact when the import is over.
- **The backend** (`Parents`, `DataTypes`, `TypeTheorems`, `Replay`, `Namespaces`, `ArrayDimensions`).
  Parent and type definition lookup and why their targets always come first, which data types end up
  registered, the namespace index table, the array dimension text. `Inheritance` puts the order of the
  sort and the importer together: what a structure inherits along its ancestors in the document.
  `LostTypes` is a document that loses a data type on the way.
- **The whole load** (`Loader`, `Replay.LoadFile`). One theorem from the document to the calls that the
  server sees.

What the proofs show that the code's own wording does not say:

- The result of a sort speaks of ObjectTypes, Objects, Methods and Variables alone. A nodeset can be
  sorted with success although a ReferenceType is missing from the result
  (`SortTheorems.SuccessWithoutReferenceType`). The sort succeeds exactly when no chain of blocking
  references leads from a node of these four classes to a cycle or to a node that waits for a later stage
  (`SortTheorems.SortSucceedsIff`, over ids `SortTheorems.SuccessIff`); after a failure there is such a
  chain among the nodes left over (`SortTheorems.FailureWitness`). A successful sort has emitted
  everything exactly when the four early classes hold no cycle and none of their nodes waits for a later
  stage (`SortTheorems.SuccessIsCompleteIff`).
- A loader is good for one sort. The marks are cleared at the end, so a node that waits for one sorted
  earlier waits in vain. A later sort emits a new node exactly when no chain of blocking references leads
  from it to such a node, to a cycle or to a node that waits for a later stage
  (`SortTheorems.LaterSortIff`, for all new nodes at once `SortTheorems.LaterSortAllIff`; two Objects for
  which it fails are in `SortTheorems.LaterSortStalls`).
- Extension elements are not counted. From any reachable state, the handlers come back to where they
  were exactly when no Extension that they track contains another one (`Sax.BalancedIff`). What they
  collect from any document is what a reader collects that steps outwards once with every end tag
  (`Sax.RefinementOfAll`); so the rest of a node can be lost (`Sax.NestedExtensionLosesTheRest`), and what
  follows inside the Extensions element can be taken for content of the node
  (`Sax.NestedExtensionAddsContent`).
- The types of structure fields are not references, so the sort does not put a field's type before the
  structure that uses it, and a structure that comes too early is not registered. All data types of a run
  are registered exactly when everything that one of them needs is known to the server or is a data type
  that stands before it (`TypeTheorems.AllRegisteredIff`, for a single one `TypeTheorems.RegisteredIff`).
  The scan with removal by swap even turns a good order into a bad one: from nodes of which none waits it
  takes the first of each class and then the others from the last one back (`Loader.ScanOrder`), and a
  document that lists three data types in dependency order (`LostTypes.FieldTypesAreNotSorted`) is loaded
  with success, into a server that accepts everything, without one of them (`LostTypes.LoadThreeTypes`).
- The number of members of a structure is a byte. After a load, a structure has the fields along its whole
  ancestry in the document exactly when there are at most 255 of them (`Inheritance.LoadedFlatteningIff`);
  a structure with 256 fields has none (`Inheritance.AllFieldsLost`). Only the order of the sort makes this
  true of the whole ancestry: in any other order, a parent that stands later is not counted
  (`TypeTheorems.TruncationIff`).
- A sort makes at most n(n+1) readiness checks for n waiting nodes, the joint retry of the last four
  classes included (`Sorting.Sort`, `Sorting.SortBoundIsQuadratic`).
- Index `k` of a nodeset belongs to its `k`-th declared URI, for all of them, exactly when the nodeset does
  not declare the namespace of index 0; otherwise the indices from that URI on are shifted by one
  (`Namespaces.NoShiftIff`, `Namespaces.MappedIs`).

`faulty` marks undefined behaviour of the C code. In a `Document` it stands for a Definition outside a
UADataType, a 301st Alias and an Alias without its Alias attribute; it is set as soon as the input is
seen, which may be before the C code fails, and imports are for documents without it. In a
`DataTypes.TypeServer` it stands for a Field without a Name that is read, and for a structure derived from
a type whose members cannot be copied; it is set exactly when the importer gets there, and
`Replay.LoadFile` says which documents and registries that happens with and promises nothing beyond the
sort for them.

## Model

| member | source | states |
|---|---|---|
| `NodeIds.CompareIsTotal` | src/Nodeset.c:111-117 | The order on NodeIds that the node list is sorted by is antisymmetric and total, and equal only on equal ids |
| `NodeIds.CompareIsTransitive` | src/Nodeset.c:111-117 | The order on NodeIds is transitive, also in its strict part |
| `Nodes.SortById` | src/Nodeset.c:184-187 | Sorting the node list by id gives an ordered permutation |
| `Nodes.RemoveSwapElems` | src/Node.c:37-40 | Removal by moving the last element loses exactly the removed one and keeps the rest distinct |
| `NodeContainers.NodeContainer.constructor` | src/Node.c:10-21 | A new container is empty |
| `NodeContainers.NodeContainer.Add` | src/Node.c:23-35 | Adding appends, whether or not the array has to be doubled |
| `NodeContainers.NodeContainer.Remove` | src/Node.c:37-40 | Removing puts the last node into the gap and changes nothing else |
| `Sorting.FindByNodeId` | src/Nodeset.c:118-135 | The binary search finds a node with the id exactly when a linear search would |
| `Sorting.ResolveReferences` | src/Nodeset.c:189-196 | Every reference is bound to a node with its target's id, to null exactly when there is none |
| `Sorting.NodeRefsReady` | src/Nodeset.c:137-155 | A node is ready exactly when every bound target that is not done belongs to an inverse HasTypeDefinition or to a forward reference of another type |
| `Sorting.TryNode` | src/Nodeset.c:167-175 | A step of the scan moves the node at the position exactly when it is ready, and keeps the invariant of the sort: every node in one container or sorted, the marks on exactly the sorted ones, the order respected |
| `Sorting.PassStep` | src/Nodeset.c:167-175 | After a removal the same position is looked at again, otherwise the next one |
| `Sorting.SortPass` | src/Nodeset.c:165-175 | One pass makes as many readiness checks as there were nodes; if none moved, none of the waiting ones is ready |
| `Sorting.SortNodeClass` | src/Nodeset.c:157-181 | The stage of one class adds the least fixpoint of readiness over its nodes, leaves no ready node behind, returns true exactly when the class is empty, and makes at most the triangle number of readiness checks; when all its nodes are ready, they come out as the first one and then the others from the last one back |
| `Sorting.TriangleIs` | src/Nodeset.c:157-181 | The bound on the checks is n(n+1)/2 |
| `Sorting.ConservedStep` | src/Nodeset.c:171-172 | Moving a node from its class container to the sorted nodes keeps every node in exactly one place |
| `Sorting.OrderedAppend` | src/Nodeset.c:169-171 | Appending a node whose blockers are all sorted keeps the topological order |
| `Sorting.SortRound` | src/Nodeset.c:228-233 | One round over the last four classes; if it moves nothing, none of their nodes is ready |
| `Sorting.SortInstances` | src/Nodeset.c:225-241 | Retrying the last four classes together ends and adds the least fixpoint over all four; the readiness checks of all rounds are bounded by triangle numbers |
| `Sorting.SortEarlyClass` | src/Nodeset.c:197-223 | Each early class is closed once, in its turn |
| `Sorting.ClearMarks` | src/Nodeset.c:243-248 | No node is marked when the sort returns |
| `Sorting.Sort` | src/Nodeset.c:183-250 | The appended nodes are the staged least fixpoint; each stands behind its blockers; the result is true exactly when the last four containers are empty; all marks are clear; the order itself when no node waits for another; a bound on the readiness checks |
| `Sorting.SortBoundIsQuadratic` | src/Nodeset.c:157-250 | The bound on the readiness checks of a whole sort is at most n(n+1) for n waiting nodes |
| `Dependencies.CloseIsLeast` | src/Nodeset.c:157-181 | Saturation is below every set that is closed under readiness |
| `Dependencies.CloseGrounded` | src/Nodeset.c:139-155 | Whatever joined has all its blockers in the result |
| `Dependencies.KnotHasCycle` | src/Nodeset.c:236-240 | A set in which everything is blocked by something in the set holds a finite cycle |
| `Dependencies.CycleIsKnot` | src/Nodeset.c:236-240 | The items of a cycle block each other for ever |
| `Dependencies.KnotNeverEmitted` | src/Nodeset.c:236-240 | Nothing in such a set is ever emitted |
| `Dependencies.EmitsAllIff` | src/Nodeset.c:197-249 | Any disjoint pools are emitted in full exactly when there is no cycle in them and nothing in them waits for anything outside its own and the earlier pools |
| `Dependencies.FirstPoolsIff` | src/Nodeset.c:197-223 | The same for the first pools of a longer run |
| `Dependencies.EmittedIff` | src/Nodeset.c:137-249 | An item is emitted exactly when no chain of blockers leads from it to a cycle or to an item that waits for something outside its own and the earlier pools |
| `Dependencies.LastStageIff` | src/Nodeset.c:225-241 | When the earlier pools were emitted in full, the last one is exactly when it holds no cycle; else what is left of it is knotted |
| `Dependencies.EmitRenamed` | src/Nodeset.c:183-250 | What is emitted commutes with renaming the items |
| `SortTheorems.BlockersFirst` | src/Nodeset.c:139-181 | The target of a blocking reference of the node at index i stands at some index j < i, across all stages and rounds |
| `SortTheorems.OrderIndependence` | src/Nodeset.c:139-249 | With distinct ids, the emitted ids are a function of the set of records: the staged least fixpoint over ids |
| `SortTheorems.EverythingSortedIff` | src/Nodeset.c:197-249 | A first sort emits every node exactly when blocking references have no cycle and no node waits for one of a later stage |
| `SortTheorems.AllIdsEmittedIff` | src/Nodeset.c:197-249 | The same over ids, with cycles as finite chains of references |
| `SortTheorems.FailureMeansCycle` | src/Nodeset.c:225-241 | When the early classes hold no cycle and wait for no later stage, the last four are sorted exactly when they hold no cycle, and on failure what is left of them is knotted |
| `SortTheorems.EarlySortedIff` | src/Nodeset.c:197-223 | The early classes are emitted in full exactly when they hold no cycle and wait for no later stage |
| `SortTheorems.SortSucceedsIff` | src/Nodeset.c:225-249 | All nodes of the last four classes are emitted exactly when no chain of blocking references leads from one of them to a cycle or to a node that waits for a later stage |
| `SortTheorems.FailureWitness` | src/Nodeset.c:225-241 | After any failure, a chain of blocking references among the nodes left over, from a node of the last four classes to a cycle or to a node that waits for a later stage |
| `SortTheorems.SuccessIff` | src/Nodeset.c:225-249 | Over ids, with nothing but distinct ids assumed: the sort reports success exactly when from no id of the last four classes a chain of blocking references leads to a cycle or to an id that waits for a later stage |
| `SortTheorems.SuccessIsCompleteIff` | src/Nodeset.c:197-249 | A sort that reports success has emitted every id exactly when the early classes hold no cycle and wait for no later stage |
| `SortTheorems.SortLoaded` | src/NodesetLoader.c:448-451 | The sort of a loaded nodeset in terms of the nodes' records: ids emitted, blockers first, meaning of the result, and the order when no node waits for another |
| `SortTheorems.LaterSortIff` | src/Nodeset.c:243-249 | A later sort emits a new node exactly when no chain of blocking references leads from it to a cycle or to a new node that waits for one sorted before or for a later stage |
| `SortTheorems.LaterSortAllIff` | src/Nodeset.c:197-249 | A later sort emits all new nodes exactly when they hold no cycle and none waits for one sorted before or for a later stage |
| `SortTheorems.LaterSortStalls` | src/Nodeset.c:243-249 | Two Objects, the second waiting for the first: sorted together both come out, in a later sort the second does not |
| `SortTheorems.SuccessWithoutReferenceType` | src/Nodeset.c:197-229 | A nodeset that sorts with success although its ReferenceType is not emitted |
| `SortLaws.WaitsFor` | src/Nodeset.c:137-155 | An id waits for exactly the ids of the nodeset to which it has a forward HasTypeDefinition or an inverse reference of another type |
| `SortLaws.OtherReferencesDoNotCount` | src/Nodeset.c:137-155 | Removing all other references changes neither what is emitted nor the result |
| `SortLaws.NeededIsEmitted` | src/Nodeset.c:137-181 | What an emitted record needs is emitted |
| `SortLaws.NeededStandsBefore` | src/Nodeset.c:137-181 | In a sorted order, what a record needs stands at a smaller index |
| `SortLaws.TwoEmitted` | src/Nodeset.c:197-241 | For each pair of classes, whether a node of the first can wait for one of the second and be emitted |
| `SortLaws.ResultIs` | src/Nodeset.c:225-249 | The ids that the result speaks of are those of ObjectTypes, Objects, Methods and Variables |
| `SortLaws.ClassesInOrder` | src/Nodeset.c:197-241 | The order of the eight classes when nothing waits |
| `CharArenas.RegionSize` | src/CharAllocator.c:61-69 | A new region holds what was asked for and is no smaller than the first one |
| `CharArenas.CharArena.constructor` | src/CharAllocator.c:48-59 | A new arena has one region of zeros and no block |
| `CharArenas.CharArena.Malloc` | src/CharAllocator.c:71-87 | A new block lies in bounds, apart from all live blocks, and is all zeros; the live blocks keep their content |
| `CharArenas.CharArena.Realloc` | src/CharAllocator.c:89-110 | The last block grows by the size, in place or moved; what was written stays, the rest is zeros, the other blocks stay where they are and keep their content |
| `CharArenas.CharArena.MoveLast` | src/CharAllocator.c:91-106 | Moving the last block to a new region keeps its content |
| `CharArenas.CharArena.Append` | src/NodesetLoader.c:352-353 | Writing behind what was written changes no byte outside the last block; the other live blocks keep their content |
| `CharArenas.CharArena.StringAt` | src/NodesetLoader.c:341-354 | Reading up to the first zero stays in bounds and gives what was written |
| `CharArenas.CharArena.KeepString` | src/NodesetLoader.c:341-354 | The string read joins the kept ones, which no later allocation or write touches |
| `Sax.DriveIsRun` | src/NodesetLoader.c:83-354 | Running the handlers over the event list of a tree is driving them over the tree |
| `Sax.DriveUnknown` | src/NodesetLoader.c:91-95 | An unknown subtree contributes its character data to the text and nothing else |
| `Sax.DriveLeaf` | src/NodesetLoader.c:341-354 | In a text element, the text at its end is all character data of its subtree, that of unknown children included |
| `Sax.DriveValue` | src/NodesetLoader.c:211-214 | A Value, with Values nested in it, contributes nothing and is left at its own end |
| `Sax.DriveUris` | src/NodesetLoader.c:156-166 | A NamespaceUris element contributes the texts of its Uri children, in order |
| `Sax.DriveFields` | src/NodesetLoader.c:200-209 | A Definition contributes its Field children, in order |
| `Sax.DriveRefs` | src/NodesetLoader.c:233-242 | A References element contributes its Reference children, in reverse order |
| `Sax.DriveExtensions` | src/NodesetLoader.c:216-231 | Extensions that do not contain each other contribute nothing |
| `Sax.DriveNode` | src/NodesetLoader.c:167-198 | A node element contributes the record that a structural reading of its children gives |
| `Sax.Refinement` | src/NodesetLoader.c:83-339 | For every document with flat Extensions, the handlers collect what the structural reader reads and end in the initial state |
| `Sax.RefinementOfAll` | src/NodesetLoader.c:83-339 | For every document, whatever its Extensions contain, the handlers collect what a reader collects that steps outwards with every end tag, and end where it ends |
| `Sax.FlatReading` | src/NodesetLoader.c:83-339 | Where no Extension contains another one, that reader is the structural one |
| `Sax.ChunkIndependence` | src/NodesetLoader.c:341-354 | For any document and any state, it does not matter into which pieces character data is cut |
| `Sax.ConsistentRun` | src/NodesetLoader.c:83-339 | Over any run of events, the value depth is positive exactly in the Value state, and a node is there wherever its parts are parsed |
| `Sax.BalancedIff` | src/NodesetLoader.c:91-336 | From any reachable state, complete content restores both depths; it restores the state exactly when no tracked Extension contains another one |
| `Sax.NestedExtensionLosesTheRest` | src/NodesetLoader.c:306-318 | A document whose nested Extension makes the node lose its display name |
| `Sax.NestedExtensionAddsContent` | src/NodesetLoader.c:306-318 | A document whose nested Extension gives the node a display name that it does not have |
| `NodesetXml.AttributeValueIs` | src/Nodeset.c:266-285 | The value of the first attribute of a name, the default if there is none |
| `XmlLaws.NodeElement` | src/NodesetLoader.c:97-155 | Each of the eight node elements adds one record of its class, with the id and browse name of its attributes |
| `XmlLaws.ImportedNode` | src/Nodeset.c:367-376 | The same of the node in the nodeset after an import |
| `XmlLaws.OtherElement` | src/NodesetLoader.c:97-155 | Elements of other names add no node |
| `XmlLaws.WrapperElement` | src/NodesetLoader.c:140-155 | UANodeSet, Aliases and Extensions stand for their content |
| `XmlLaws.ElementByElement` | src/NodesetLoader.c:83-339 | Elements are collected in document order |
| `XmlLaws.AliasElement` | src/Nodeset.c:458-468 | An Alias adds its name and the id of its text; 300 of them are defined |
| `XmlLaws.UriElement` | src/Nodeset.c:470-476 | A Uri adds its text |
| `XmlLaws.TextIs` | src/NodesetLoader.c:341-354 | Text is read as it stands, with that of elements inside in its place |
| `XmlLaws.TextElement` | src/NodesetLoader.c:167-198 | DisplayName, Description and InverseName with their locale and text, the last for ReferenceTypes alone; other parts change none of them |
| `XmlLaws.ReferenceElements` | src/Nodeset.c:378-404 | A Reference is forward unless its IsForward is something else than `true`, has type and target resolved alias first, and stands before the earlier ones |
| `XmlLaws.AliasFirst` | src/Nodeset.c:80-86 | A text is the id of the first alias of that name, else what the server reads from it |
| `XmlLaws.AddFieldIs` | src/Nodeset.c:429-456 | A Field with its defaults BaseDataType, rank -1 and mandatory; with a Value a literal, which makes an enumeration of what is no option set |
| `XmlLaws.DefinitionElement` | src/Nodeset.c:416-456 | A Definition with its two flags and its fields in order |
| `XmlLaws.DefinitionElsewhere` | src/Nodeset.c:416-427 | A Definition is undefined behaviour exactly outside a UADataType |
| `XmlLaws.RepeatedName` | src/Nodeset.c:478-488 | The last DisplayName counts |
| `XmlLaws.RepeatedReferences` | src/Nodeset.c:378-398 | Later References stand before earlier ones |
| `XmlLaws.RepeatedDefinition` | src/Nodeset.c:416-427 | A later Definition replaces an earlier one |
| `Loading.CopyToArena` | src/Nodeset.c:274-279 | A copy of an attribute value in the arena reads back as the value and is kept; all live blocks keep their content |
| `Loading.GetAttributeValue` | src/Nodeset.c:266-285 | The value of the first attribute of the name, the default if there is none; the nodeset is untouched; the value is kept in the arena |
| `Loading.NewNode` | src/Nodeset.c:367-376 | The new node has id and browse name of the attributes, is in the container of its class and at the end of all nodes |
| `Loading.FindAliasId` | src/AliasList.c:48-58 | The first alias of the name, None exactly when there is none |
| `Loading.AliasId` | src/Nodeset.c:80-86 | A name is resolved by alias first, by its text otherwise |
| `Loading.NewReference` | src/Nodeset.c:378-398 | The new reference is put in front of the list of the current node, forward exactly if no attribute is called IsForward or the first such one is `true` |
| `Loading.FinishReference` | src/Nodeset.c:400-404 | The text becomes the target of the newest reference |
| `Loading.AddDataTypeDefinition` | src/Nodeset.c:416-427 | A fresh definition with its two flags replaces the one before |
| `Loading.AddDataTypeField` | src/Nodeset.c:429-456 | A field with a Value is a literal and makes an enumeration, any other is a member |
| `Loading.NewAlias` | src/Nodeset.c:458-463 | A new alias joins the list, its id still null |
| `Loading.FinishAlias` | src/Nodeset.c:465-468 | The text becomes the id of the newest alias |
| `Loading.FinishNamespace` | src/Nodeset.c:470-476 | The text is the next namespace URI |
| `Loading.SetDisplayName` | src/Nodeset.c:478-483 | The locale of the display name of the current node is set |
| `Loading.FinishDisplayName` | src/Nodeset.c:485-488 | The text of the display name of the current node is set |
| `Loading.SetInverseName` | src/Nodeset.c:502-509 | Only a ReferenceType has an inverse name |
| `Parser.Receive` | src/NodesetLoader.c:341-354 | Received characters are appended to the text, and the buffer stays the last block of the arena with room for the final zero; all other live blocks keep their content |
| `Parser.Received` | src/NodesetLoader.c:264-287 | What the end handlers read from the buffer is the text received, and it is kept |
| `Parser.ParserCtx.constructor` | src/NodesetLoader.c:419-435 | A new context is the initial state of the automaton |
| `Parser.ParserCtx.OnStartElementNs` | src/NodesetLoader.c:83-249 | The start handler is the start step of the automaton and keeps the invariant of the parser, the hand-off of the text buffer included |
| `Parser.ParserCtx.OnEndElementNs` | src/NodesetLoader.c:251-339 | The end handler is the end step of the automaton and keeps the invariant |
| `Parser.ParserCtx.OnCharacters` | src/NodesetLoader.c:341-354 | The character handler is the character step of the automaton and keeps the invariant |
| `Parser.ParserCtx.Feed` | src/NodesetLoader.c:356-393 | Over any event list, the handlers are the run of the automaton; every string kept on the way is intact at the end, those of the nodes and aliases among them |
| `Parser.ImportDocument` | src/NodesetLoader.c:395-446 | After an import, the nodeset holds what the automaton collects from the document, on top of what it held; all strings of nodes and aliases are kept in the arena and intact |
| `KeptTexts.LocaleKept` | src/Nodeset.c:478-509 | Setting a locale that is kept leaves every string of the document kept |
| `KeptTexts.TextKept` | src/Nodeset.c:485-509 | The same for the texts of display name, description and inverse name |
| `KeptTexts.FieldKept` | src/Nodeset.c:429-456 | The same for the name of a field |
| `KeptTexts.AliasKept` | src/Nodeset.c:458-463 | The same for the name of an alias |
| `KeptTexts.TextsSpelledOut` | src/Nodeset.c:478-509 | Locale and text of display name, description and inverse name and the names of fields are among the kept strings |
| `Loader.HeldRecords` | src/Nodeset.c:367-376 | The nodes of the nodeset have exactly the records of the document |
| `Loader.SortDescribed` | src/Nodeset.c:183-250 | A sort changes nothing of what is known about the nodes |
| `Loader.ResultOfRecords` | src/Nodeset.c:225-249 | With distinct ids, the result is true exactly when all ids of the last four classes are emitted |
| `Loader.LoadDocument` | src/NodesetLoader.c:395-451 | From a document to sorted nodes: blockers first; with distinct ids, what is emitted and the result depend on the set of records alone; the order itself when no record waits for another; the namespace URIs of the document |
| `Loader.OrderKnown` | src/Nodeset.c:157-249 | When no record waits for another, the records come out class by class, of each class the first one and then the others from the last one back |
| `Parents.First` | backends/open62541/src/import.c:110-136 | The first reference of a kind, None exactly when there is none |
| `Parents.GetParentId` | backends/open62541/src/import.c:110-124 | Target and type of the first inverse reference of a parent type, both null exactly without one |
| `Parents.GetTypeDefId` | backends/open62541/src/import.c:126-136 | The target of the first forward HasTypeDefinition, null without one |
| `DataTypes.PutMember` | backends/open62541/src/DataTypeImporter.c:80-98 | A member lowers the pointer-free flag exactly when it is not plain, and raises the kind exactly when it is optional |
| `DataTypes.CopyMembers` | backends/open62541/src/DataTypeImporter.c:72-100 | The parent's members come first, and the flags say what they are |
| `DataTypes.FillMembers` | backends/open62541/src/DataTypeImporter.c:102-137 | The own members follow, as long as their types are known: name, type and optionality of the fields, arrays exactly where the rank is not negative; every name read on the way is there exactly if the ghost result says so |
| `DataTypes.AddDataTypeMembers` | backends/open62541/src/DataTypeImporter.c:53-140 | All members in order, the count cut to a byte: the parent's first, then one for each field with its name, type and optionality, an array exactly where the rank is not negative; nothing exactly if a member type is missing; defined exactly when the parent's members can be copied and every field read has a name |
| `DataTypes.MembersSpelledOut` | backends/open62541/src/DataTypeImporter.c:53-140 | The same with both flags, over the parent's members and the fields |
| `DataTypes.EnumSpelledOut` | backends/open62541/src/DataTypeImporter.c:157-200 | Kind, literals and flags of enumerations and option sets |
| `DataTypes.StructureSpelledOut` | backends/open62541/src/DataTypeImporter.c:142-155 | When a structure or union can be built, and its kind |
| `DataTypes.SubtypeSpelledOut` | backends/open62541/src/DataTypeImporter.c:202-221 | What a type without fields takes from its parent |
| `DataTypes.DefinedSpelledOut` | backends/open62541/src/DataTypeImporter.c:53-200 | Where building a type is defined |
| `DataTypes.AddedSpelledOut` | backends/open62541/src/DataTypeImporter.c:240-275 | One type joins the registry under its id, nothing else changes |
| `DataTypes.EnumDataTypeInit` | backends/open62541/src/DataTypeImporter.c:157-200 | An enumeration, or an option set of its parent's numeric kind, with its literals in order |
| `DataTypes.StructureDataTypeInit` | backends/open62541/src/DataTypeImporter.c:142-155 | A structure or union starts pointer-free and gets its members |
| `DataTypes.SubtypeOfBaseInit` | backends/open62541/src/DataTypeImporter.c:202-221 | A type without fields is like its parent, which has to be there |
| `DataTypes.TypeServer.AddCustomDataType` | backends/open62541/src/DataTypeImporter.c:223-275 | The type is registered exactly if it can be built; no registered type changes; the mark of undefined behaviour is set exactly when it is met |
| `TypeTheorems.GrowsOnly` | backends/open62541/src/DataTypeImporter.c:261-266 | Over a run, types are neither changed nor removed |
| `TypeTheorems.MembersStayKnown` | backends/open62541/src/DataTypeImporter.c:113-120 | The members of registered types have registered types |
| `TypeTheorems.SoundRun` | backends/open62541/src/DataTypeImporter.c:72-155 | Over a run in which member counts fit, a structure is pointer-free exactly when all its members are plain, and has the optional kind exactly when a member is optional |
| `TypeTheorems.FlagsAlongChain` | backends/open62541/src/DataTypeImporter.c:72-155 | Between any two structures on a chain of structures, pointer-freeness is only lost and optionality only gained downwards, in the registry at the end |
| `TypeTheorems.RegisteredIff` | backends/open62541/src/DataTypeImporter.c:113-120 | A type ends up registered exactly when everything it needs is known to the server before the run or stands before it and is registered itself, in the same sense |
| `TypeTheorems.AllRegisteredIff` | backends/open62541/src/DataTypeImporter.c:113-120 | All data types of a run are registered exactly when everything one of them needs is known to the server or is a data type that stands before it |
| `TypeTheorems.Flattening` | backends/open62541/src/DataTypeImporter.c:53-140 | In a run in any order: a structure has the fields along its chain as far as each parent stands before it, those of the root first, if a byte can count them |
| `TypeTheorems.TruncationIff` | backends/open62541/src/DataTypeImporter.c:59-70 | In a run in any order: a registered structure has the fields along that chain exactly if there are at most 255 of them; a parent that stands later is not counted |
| `Inheritance.ChainIsAncestry` | backends/open62541/src/DataTypeImporter.c:240-251 | In the order of the sort, the chain that the importer follows is the ancestry that the ids in the document give |
| `Inheritance.FlatteningIff` | backends/open62541/src/DataTypeImporter.c:53-140 | In the order of the sort, a structure has the fields along its whole ancestry, those of the root first, exactly if there are at most 255 of them |
| `Inheritance.FlagsOfAncestors` | backends/open62541/src/DataTypeImporter.c:72-155 | From an ancestor down to a structure, pointer-freeness is only lost and optionality only gained |
| `Inheritance.PointerFreeIff` | backends/open62541/src/DataTypeImporter.c:72-137 | A structure is pointer-free exactly when no field along its ancestry is an array, is optional or has a type that is not pointer-free, and the server's members of the root's parent are plain |
| `Inheritance.NotPointerFree` | backends/open62541/src/DataTypeImporter.c:118-134 | One such field along the ancestry is enough |
| `Inheritance.PointerFree` | backends/open62541/src/DataTypeImporter.c:72-137 | Without such a field, it is pointer-free |
| `Inheritance.OptionalIff` | backends/open62541/src/DataTypeImporter.c:96-135 | A structure has the optional kind exactly when a field along its ancestry is optional, or a member of the server's |
| `Inheritance.AncestryOf` | backends/open62541/src/import.c:110-124 | Every record has an ancestry, unless a record has the null id |
| `Inheritance.LoadedFlatteningIff` | backends/open62541/src/import.c:500-542 | The same of the types registered by a load of a document with distinct ids |
| `Inheritance.AllFieldsLost` | backends/open62541/src/DataTypeImporter.c:59-70 | A structure with 256 fields that is registered without members |
| `LostTypes.FieldTypesAreNotSorted` | backends/open62541/src/DataTypeImporter.c:113-120 | A document that lists three data types in dependency order; in that order all are registered, in the order of the sort the third one is lost |
| `LostTypes.LoadThreeTypes` | backends/open62541/src/import.c:500-542 | Loading that document into a server that accepts everything: success, nothing undefined, and the third type is not registered |
| `LostTypes.TypesCollected` | src/NodesetLoader.c:83-339 | What is collected from a nodeset of data types with one field each, subtypes of Structure in a namespace of their own |
| `LostTypes.TypesSorted` | src/Nodeset.c:157-223 | None of these data types waits, and the sort puts the first one first and then the others from the last one back |
| `Replay.AddNodeImpl` | backends/open62541/src/import.c:378-432 | The call for a node has its id and class, as parent and parent reference type the target and type of the first inverse reference of a parent type, and for Objects and Variables the first forward HasTypeDefinition's target |
| `Replay.ForEachNode` | src/Nodeset.c:517-528 | Calls are made in sorted order up to the first refusal; data types are registered in the same order; undefined behaviour is met exactly when one of them is not defined on what was registered before it |
| `Replay.NeededStandFirst` | backends/open62541/src/import.c:110-136 | Parent and type definition, when in the nodeset, are added strictly earlier |
| `Replay.ParentPositioned` | backends/open62541/src/DataTypeImporter.c:240-251 | The parent type of a data type, when in the nodeset, has had its turn before |
| `Replay.LoadFile` | backends/open62541/src/import.c:500-542 | From a file to the calls: undefined behaviour is met exactly when a data type that has its turn is not defined on what was registered before; otherwise nothing is added on failure, every call names id, class, parent, parent reference type and type definition of its node, parents and types come first, the registry is that of the run, with distinct ids success and what is added are functions of the set of records, and the namespace table and mapping are those of the document's URIs |
| `Namespaces.AddNodeContext.constructor` | backends/open62541/src/import.c:52-73 | Taking over the server's namespaces ends, leaves its table alone and maps index 0 only |
| `Namespaces.AddNodeContext.AddNamespace` | backends/open62541/src/import.c:19-50 | One URI: the table grows if it is new, the mapping gets its index unless it is local or the namespace 0 again |
| `Namespaces.AddNodeContext.AddNamespaces` | backends/open62541/src/import.c:434-443 | A list of URIs, one after the other |
| `Namespaces.TableGrows` | backends/open62541/src/import.c:22-26 | The server's table only grows, stays free of duplicates and holds exactly the URIs there were and those declared |
| `Namespaces.MappedIs` | backends/open62541/src/import.c:19-50 | Looking up the mapped indices in the final table gives the declared URIs without that of index 0, in order |
| `Namespaces.NoShiftIff` | backends/open62541/src/import.c:35-39 | Index k belongs to the k-th URI for all k exactly when the namespace of index 0 is not declared |
| `ArrayDimensions.GetArrayDimensions` | backends/open62541/src/import.c:188-210 | The numbers between the commas, modulo 2^32 |
| `ArrayDimensions.AtoiStops` | backends/open62541/src/import.c:196-206 | Reading a number from the rest of the text gives the number of the piece |
| `ArrayDimensions.RoundTrip` | backends/open62541/src/import.c:188-210 | Dimensions written in decimal with commas are read back |
| `ArrayDimensions.SignedReadsBack` | backends/open62541/src/import.c:196-206 | Signs count, and what is no digit ends a number |
| `ArrayDimensions.BlanksDoNotCount` | backends/open62541/src/import.c:196-206 | Leading blanks do not count |
| `ArrayDimensions.NegativeDimension` | backends/open62541/src/import.c:188-210 | A negative number comes out as its 32 bit complement |

## Left out

- Node lists: the loader and the sort hold them as sequences that are reassigned; the array behind a list, its growth and its capacity are modelled apart, in `NodeContainers`, and their use by the sort is not connected in the proofs.
- Reference lists: the linked cells are a sequence in a field of the node; order and identity of the references are kept, the `next` pointers are not.
- Nodes.SortById: the library's `qsort` is represented by its contract, with an insertion sort as its body; how it places nodes with equal ids is not promised.
- The order on NodeIds: a concrete lexicographic order stands in for `UA_NodeId_order`, which is not part of this model; the sort uses only that it is a total order.
- Parsing of NodeIds and QualifiedNames: two functions (`NodesetXml.Readers`) of the text and the namespace URIs seen so far stand for the server library.
- Strings that the nodeset keeps as pointers into the arena: the nodes have them as values; that each of them is in the arena and intact is said of the end of an import (`Parser.ImportDocument`), by value and not by address.
- Sax.DriveValue: the raw bytes of a Value element are not kept.
- Loading.NewNode: the attributes of single node classes (AccessLevel, ValueRank and so on) are not read.
- Loading.FinishNamespace: the URI is put into a list; the server gets the list when the import is over (`Replay.ImportAndSort`), not URI by URI.
- Parser.ImportDocument: a missing handler, a file that cannot be read and malformed XML are not modelled.
- Loader.LoadDocument: imports that fail are not modelled, see `Parser.ImportDocument`.
- Replay.AddNodeImpl: display texts and attribute values of the call are not modelled.
- Extension callbacks, logging, file reading, libxml2, cleanup, failing allocation, overflow of `size_t` and of the C library's `atoi`.
- DataTypes.TypeServer.AddCustomDataType: registering a type description is taken to keep the type as it is, and a type that is known already is not replaced; encoding ids, sizes, padding and overlay flags are not modelled.
- Replay.LoadFile: the two later passes over the nodes (remaining references, finishing) and the attribute values of the calls are not modelled; they change neither order nor status.
- Namespaces: an index is unbounded, the server's is 16 bits wide; URIs are shorter than the buffer of 512 bytes that they pass through, as the code silently assumes.
- The list of reference types that can point to a parent: a parameter; that HasTypeDefinition is not among them is a premise where it is needed.
