# XML node serializers of the MongoDB C# driver, in Dafny

This project models the serializers that write a .NET XML DOM tree into a
BSON writer (`XmlNodeSerializer` and its subclasses), together with the
`XmlSerializationOptions` that steer them, and proves what they write.

- **Writer.** The `BsonWriter` is a sequence of calls (`BsonTrace.Event`):
  `WriteString(name, value)` is `Name(name)` followed by `Str(value)`.
  A thrown exception is an `Err` of `XmlSerializer.Error`.
  A small decoder (`BsonTrace.DecodeDocument`) reads a well-nested call
  sequence back as the BSON document it describes.
- **Tree.** An element holds its attributes and its child nodes
  (`XmlDom.Node`). Character data carries its DOM class (text, CDATA,
  comment, whitespace, significant whitespace), and every other node class
  is `Other`.
- **Options.** `SerializeComments`, `SerializeDocType` and
  `SerializeDtdElements` make up one record. An options argument that is
  null, or of another options class, is `None`.
- **Element walk.** `SerializeXmlElement` and `SerializeXmlElementChildNodes`
  are modelled with their two "already seen" lists, child by child
  (`XmlSerializer.ChildNodesLoop`). They are then proved equal to a
  reference formulation: the distinct keys of the kept children, in order
  of first occurrence, with each key's whole group emitted once
  (`Traversal.TraversalIsFirstOccurrenceGrouping`).
- **What the output means.** For every tree in which no element is empty,
  every member of a same-name group is shortcut-shaped
  (`ElementMeaning.Regular`), and no node below is unsupported (neither
  element nor character data), the walk writes exactly the encoding of a
  BSON document value (`ElementMeaning.ElementValue`), and that encoding
  reads back as the value.
- **Other shapes.** For trees outside that class, `WalkQuirks` gives the
  exact calls written for:
  - an empty element;
  - empty array members;
  - an attributed array member.

  An empty element and an attributed array member do not read back as a
  document. Empty array members read back as an empty array, so the
  members are lost.
- **Failures.** The walk throws exactly when an unsupported node occurs
  below the element, and the message names the class and markup of such a
  node (`Failure`). For a document without a root element,
  `XmlDocumentSerializer` writes the start of a document and then
  dereferences the null root in `SerializeXmlElement`. Output written
  before an exception is not modelled (see "Left out"), so the model
  yields only the null-reference error.
- **Worked example.** The document of the extension-method tests
  serializes to the field order and arrays those tests expect (`Examples`).

Where the code and the repository's tests or documentation comments
disagree, the model follows the code:

- `XmlDocumentTypeSerializer` always throws, although the document-type
  test (`XmlSerializerTests.cs`, `TestXmlDocumentType`) expects a
  `contact` field.
- The direct character-data serializer does not behave as the options'
  documentation says. It checks for `XmlSpace`, which is an enumeration, so
  plain whitespace is written and only significant whitespace is skipped.
  Its comment test is always false. As a result, every node is silenced
  unless the options ask for comments, and absent options are dereferenced.
  A value that is not character data dereferences null whatever the
  options.

## Model

| member | source | states |
|---|---|---|
| XmlOptions.NewOptions | Bson/Serialization/Options/XmlSerializationOptions.cs:55-75 | a fresh options value has all three switches off |
| XmlOptions.DefaultsReadsLastAssignment | Bson/Serialization/Options/XmlSerializationOptions.cs:29-43 | reading `Defaults` returns the value most recently assigned, or the all-false value before any assignment |
| OptionEffects.ElementDependsOnCommentsOnly | Bson/Serialization/Options/XmlSerializationOptions.cs:47-55 | two option arguments that agree on whether comments are asked for give the same element output |
| OptionEffects.DtdSwitchesIgnored | Bson/Serialization/Options/XmlSerializationOptions.cs:57-75 | toggling `SerializeDocType` or `SerializeDtdElements` changes the result of none of the serializers |
| OptionEffects.AbsentOptionsActAsFresh | Bson/Serialization/Serializers/XmlSerializer.cs:339-342 | null options, or options of another class, serialize elements and documents exactly as a fresh options value does |
| OptionEffects.CommentsSwitchMatters | Bson/Serialization/Serializers/XmlSerializer.cs:339-342 | `SerializeComments` does change element output: a comment child is omitted when it is off and written as `#comment` when it is on |
| XmlDom.CharName | BsonUnitTests/BsonExtensionMethodsTests.cs:132-135 | the DOM name of every character-data class is a `#` marker |
| XmlDom.CharNameInjective | Bson/Serialization/Serializers/XmlSerializer.cs:347-353 | distinct character-data classes have distinct names, so grouping by name is grouping by class |
| XmlSerializer.AttributeFields | Bson/Serialization/Serializers/XmlSerializer.cs:302-306 | the attribute loop writes one `@name`/value pair per attribute, in order, and nothing else |
| XmlSerializer.SerializeXmlElement | Bson/Serialization/Serializers/XmlSerializer.cs:277-289 | output starts with the element's name; it ends in a string exactly for the shortcut shape, else in a document end; a document is opened exactly when the element has attributes or children |
| XmlSerializer.SerializeXmlElementChildNodes | Bson/Serialization/Serializers/XmlSerializer.cs:291-306 | nothing is written exactly for an empty element; a shortcut-shaped element writes its bare text; otherwise a document is opened and the attribute fields come first |
| NodeSerializers.ShortcutIsExactlyText | Bson/Serialization/Serializers/XmlSerializer.cs:277-296 | a shortcut-shaped element writes `name: text`, and its bare text as an array member; a lone CDATA child does not trigger the shortcut and gets a nested document |
| NodeSerializers.AttributeFieldsDecode | Bson/Serialization/Serializers/XmlSerializer.cs:298-306 | the attribute part of an element's document reads back as one `@` field per attribute, in document order |
| NodeSerializers.AttributeNodeDecodes | Bson/Serialization/Serializers/XmlSerializer.cs:50-54 | the attribute serializer writes exactly one field, `@name: value` |
| Grouping.Keys | Bson/Serialization/Serializers/XmlSerializer.cs:311-351 | a key is among the children's keys if and only if some child that is not skipped has that key |
| Grouping.Kept | Bson/Serialization/Serializers/XmlSerializer.cs:339-346 | the kept children are exactly the children that are not skipped comments or whitespace |
| Grouping.ElementsNamedMembers | Bson/Serialization/Serializers/XmlSerializer.cs:319-321 | an element is in the group of name `n` if and only if it is an element child named `n` |
| Grouping.CharDataNamed | Bson/Serialization/Serializers/XmlSerializer.cs:352-353 | the character-data group of a name holds the value of every child of that name |
| Grouping.ElementsNamedSubsequence | Bson/Serialization/Serializers/XmlSerializer.cs:319-321 | the same-name element query is the children filtered in document order: one entry per element child of that name, at increasing positions, so its length is the count the `Length > 1` test reads |
| Grouping.CharDataNamedSubsequence | Bson/Serialization/Serializers/XmlSerializer.cs:352-353 | the same-name character-data query is the values of exactly the character-data children of that name, one per child, in document order |
| Grouping.CharDataNamedOnly | Bson/Serialization/Serializers/XmlSerializer.cs:352-353 | every value in the character-data group comes from a child of that name |
| Grouping.SingleElementGroup | Bson/Serialization/Serializers/XmlSerializer.cs:319-335 | an element's group contains at least that element, and a group of one is the element itself |
| Grouping.SingleCharDataGroup | Bson/Serialization/Serializers/XmlSerializer.cs:352-365 | a character-data group of one holds the value of the node that opened it |
| Grouping.FirstOccurrences | Bson/Serialization/Serializers/XmlSerializer.cs:308-318 | the reference list holds each distinct key once, and only keys that occur, in order of first occurrence |
| Grouping.FirstOccurrencesUnique | Bson/Serialization/Serializers/XmlSerializer.cs:308-318 | any duplicate-free list of the same keys in first-occurrence order is the reference list |
| Grouping.UnseenMembers | Bson/Serialization/Serializers/XmlSerializer.cs:314-318 | scanning with a seen set yields exactly the keys not seen before |
| Grouping.UnseenDistinct | Bson/Serialization/Serializers/XmlSerializer.cs:314-318 | scanning with a seen set yields no key twice |
| Grouping.UnseenOrder | Bson/Serialization/Serializers/XmlSerializer.cs:314-318 | scanning with a seen set yields keys in the order of their first occurrence |
| Traversal.LoopEmitsUnseenKeys | Bson/Serialization/Serializers/XmlSerializer.cs:311-371 | the seen-list loop from any position emits the groups of the keys not yet in its seen-lists, each once, in order of first occurrence |
| Traversal.TraversalIsFirstOccurrenceGrouping | Bson/Serialization/Serializers/XmlSerializer.cs:308-371 | the loop over the children equals emitting, for each distinct key in order of first occurrence, that key's whole group |
| Traversal.GroupIsKeyGroup | Bson/Serialization/Serializers/XmlSerializer.cs:319-365 | the group the loop writes for a child depends only on the child's key |
| Filtering.CommentKeyIff | Bson/Serialization/Serializers/XmlSerializer.cs:339-342 | a `#comment` group is written if and only if comments are asked for and some child is a comment |
| Filtering.WhitespaceNeverKeyed | Bson/Serialization/Serializers/XmlSerializer.cs:343-346 | whitespace and significant whitespace never form a group, whatever the options |
| Filtering.DroppedChildrenInvisible | Bson/Serialization/Serializers/XmlSerializer.cs:339-346 | the traversal writes the same calls for the children as for the children with the skipped ones removed |
| Filtering.KeysOfKept | Bson/Serialization/Serializers/XmlSerializer.cs:339-346 | removing skipped children first leaves the keys unchanged |
| ElementMeaning.ElementEncodes | Bson/Serialization/Serializers/XmlSerializer.cs:277-371 | a regular element with no unsupported node below it is written as the field `name: ElementValue(e)`: attributes first, then one field per distinct key in first-occurrence order, an array for groups of two or more, a scalar or document otherwise |
| ElementMeaning.ArrayMembersEncode | Bson/Serialization/Serializers/XmlSerializer.cs:322-331 | the members of an array group, all shortcut-shaped, are written as the array items of their values, in document order |
| ElementMeaning.EmitKeysEncode | Bson/Serialization/Serializers/XmlSerializer.cs:311-366 | the groups of a key list are written as the encoding of their fields, in key order |
| ElementMeaning.StringsEncode | Bson/Serialization/Serializers/XmlSerializer.cs:354-362 | the values of a character-data array are written as its string items, in document order |
| ElementMeaning.DocumentEncodes | Bson/Serialization/Serializers/XmlSerializer.cs:125-131 | for a document whose root is present, regular and has no unsupported node below it, the document serializer wraps the root's field in a top-level document that reads back as that single field |
| Failure.ElementFails | Bson/Serialization/Serializers/XmlSerializer.cs:367-370 | the element walk fails if and only if a node that is neither element nor character data occurs below the element, and then with a `NotImplemented` that carries a message |
| Failure.ArrayMembersFails | Bson/Serialization/Serializers/XmlSerializer.cs:326-329 | an array group fails exactly when one of its members has an unsupported node below it |
| Failure.DocumentFails | Bson/Serialization/Serializers/XmlSerializer.cs:125-131 | the document serializer fails exactly when there is no root element (a null dereference) or the root has an unsupported node below it |
| Failure.FirstChildUnsupported | Bson/Serialization/Serializers/XmlSerializer.cs:367-370 | when the first child is unsupported, the exception's message names that child's run-time class and markup |
| Failure.ElementFailureNamesNode | Bson/Serialization/Serializers/XmlSerializer.cs:367-370 | whenever the element walk fails, at any depth, the message names the run-time class and the markup of an unsupported node below the element |
| NodeSerializers.NotationValue | Bson/Serialization/Serializers/XmlSerializer.cs:413-425 | a notation's value is null exactly when it has neither a system nor a public id |
| NodeSerializers.NotationEncodes | Bson/Serialization/Serializers/XmlSerializer.cs:404-429 | a notation writes `name: {SYSTEM: id}`, else `{PUBLIC: id}`, else null, and is wrapped in a document of its own exactly when the writer is initial; both forms read back as that field |
| NodeSerializers.NotationSystemIdFirst | Bson/Serialization/Serializers/XmlSerializer.cs:413-422 | when a notation has both ids, the system id is written and the public id is not |
| NodeSerializers.CharacterDataAsWritten | Bson/Serialization/Serializers/XmlSerializer.cs:87-100 | a value that is not character data dereferences null whatever the options; significant whitespace writes nothing; otherwise absent options throw, options without comments silence every node, and options with comments write the node, whitespace included |
| NodeSerializers.CharacterDataAgreesWithTraversal | Bson/Serialization/Serializers/XmlSerializer.cs:87-100 | with comments asked for, the direct serializer writes a kept node as the traversal writes it as a lone child |
| NodeSerializers.WhitespaceWrittenDirectlyOnly | Bson/Serialization/Serializers/XmlSerializer.cs:90 | plain whitespace is written by the direct serializer and dropped by the traversal |
| NodeSerializers.TextSerializer | Bson/Serialization/Serializers/XmlSerializer.cs:455-459 | the text serializer succeeds exactly on text nodes, writing the `#text` field, and dereferences null otherwise |
| NodeSerializers.ElementSerializer | Bson/Serialization/Serializers/XmlSerializer.cs:215-219 | the element serializer runs the element walk on elements and dereferences null on anything else |
| NodeSerializers.FixedFailures | Bson/Serialization/Serializers/XmlSerializer.cs:157-379 | whatever their arguments, the document-fragment and document-type serializers throw `NotImplemented` with an empty message (:159, :188), the entity serializer and both `Deserialize` overloads throw `NotImplemented` without one (:247, :259-267), and `GetDocumentId` and `SetDocumentId` throw `NotSupported` (:269-273, :375-379) |
| WalkQuirks.EmptyElementUnbalanced | Bson/Serialization/Serializers/XmlSerializer.cs:286-288 | an empty element writes its name and a document end with no document start, and a document holding it does not read back |
| WalkQuirks.EmptyMembersVanish | Bson/Serialization/Serializers/XmlSerializer.cs:322-331 | two empty same-named children write an empty array: the members leave no trace |
| WalkQuirks.AttributedMemberUnclosed | Bson/Serialization/Serializers/XmlSerializer.cs:326-329 | an attributed array member opens a document that is never closed |
| WalkQuirks.AttributedMemberUnreadable | Bson/Serialization/Serializers/XmlSerializer.cs:326-329 | a document with such a member serializes but does not read back |
| WalkQuirks.TwinGroup | Bson/Serialization/Serializers/XmlSerializer.cs:322-331 | two same-named children are written as one array of their child-node serializations |
| WalkQuirks.TextBesideWhitespace | Bson/Serialization/Serializers/XmlSerializer.cs:280 | a text child beside a whitespace child does not trigger the shortcut, because the shape test counts the whitespace, but the whitespace is then dropped |
| Examples.FixtureSerializes | BsonUnitTests/BsonExtensionMethodsTests.cs:164-170 | the test document serializes without options to a top-level document that reads back as the expected fields: `@outerElem, @innerElem, #cdata-section[3], innerElem[2], #text[2], innerElem2, tommy{#text, #cdata-section}` |
| Examples.OuterKeyOrder | BsonUnitTests/BsonExtensionMethodsTests.cs:41-52 | the groups of `outerElem` come out in the order in which each name first occurs in the test document |
| Examples.OuterValue | BsonUnitTests/BsonExtensionMethodsTests.cs:168 | `outerElem` has the seven fields the test expects, with the arrays and values it expects |

## Left out

- The byte-level BSON writer, JSON rendering and the writer's state checks are not modelled. The writer is the sequence of calls made on it. Of its state, only "still initial", read by the notation serializer, is modelled, as a parameter.
- Output written before an exception is not modelled: a failing call yields only the exception.
- XML parsing (`LoadXml`) is not modelled: the input is an already-built tree. The worked example lists the children as the DOM holds them once the whitespace between tags is discarded on load.
- The singleton `Instance` properties, serializer registration and the `nominalType` argument are left out. None of them affects what is written.
- Thread safety of the static `Defaults` is left out. It is modelled as a value that assignments replace, read by none of the serializers.
- Gathering a document type's entities and notations, and deserialization round trips, are left out. Tests describe them, but no code here implements them: the document-type serializer and `Deserialize` throw.
- Values of the wrong class passed to the attribute, notation and document serializers are left out. Each of these takes the class it casts to, so the null dereference on another class is not modelled. The text, element and character-data serializers do model it. The fragment, document-type and entity serializers never cast their argument and throw for any value, as modelled.
- Exception classes are named by a constructor of `XmlSerializer.Error`. Run-time type names and outer markup are opaque strings.
- ElementMeaning.ElementEncodes: the well-nested reading holds only for regular trees without unsupported nodes. The other shapes are covered case by case by `WalkQuirks` and `Failure`, not by one general statement.
- ElementMeaning.DocumentEncodes: the reading of a whole document likewise holds only when the root is present, regular and has no unsupported node below it; a missing root and unsupported nodes are covered by `Failure.DocumentFails`.
