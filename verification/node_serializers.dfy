/** The `Serialize` overrides that do not walk an element: what each writes,
    read back through the trace decoder, and how the direct character-data
    serializer compares with the traversal. */
module NodeSerializers {
  import opened Wrappers
  import opened XmlDom
  import opened XmlOptions
  import opened BsonTrace
  import opened Grouping
  import opened XmlSerializer
  import opened ElementMeaning

  /** The value of a notation: a one-field document holding its system id
      when it has one, else its public id when it has one, else null. */
  function NotationValue(n: Notation): (v: Value)
    ensures v.NullValue? <==> n.systemId.None? && n.publicId.None?
  {
    if n.systemId.Some? then Doc([Field("SYSTEM", Scalar(n.systemId.value))])
    else if n.publicId.Some? then Doc([Field("PUBLIC", Scalar(n.publicId.value))])
    else NullValue
  }

  /** A notation writes the field `name: NotationValue(n)`; when the writer
      is still initial that field is wrapped in a top-level document, which
      reads back as exactly that one field. */
  lemma NotationEncodes(n: Notation, opts: Option<Options>)
    ensures SerializeNotation(n, false, opts) == EncodeField(Field(n.name, NotationValue(n)))
    ensures SerializeNotation(n, true, opts) == EncodeValue(Doc([Field(n.name, NotationValue(n))]))
    ensures DecodeDocument(SerializeNotation(n, true, opts)) == Some([Field(n.name, NotationValue(n))])
    ensures DecodeFields(SerializeNotation(n, false, opts) + [EndDoc]) == Some(([Field(n.name, NotationValue(n))], []))
  {
    var f := Field(n.name, NotationValue(n));
    if n.systemId.Some? {
      EncodeSingleField(Field("SYSTEM", Scalar(n.systemId.value)));
    } else if n.publicId.Some? {
      EncodeSingleField(Field("PUBLIC", Scalar(n.publicId.value)));
    }
    EncodeSingleField(f);
    DecodeEncodeDocument([f]);
    DecodeEncodeFields([f], []);
    assert SerializeNotation(n, false, opts) + ([EndDoc] + []) == SerializeNotation(n, false, opts) + [EndDoc];
  }

  /** The system id wins over the public id. */
  lemma NotationSystemIdFirst(n: Notation, opts: Option<Options>)
    requires n.systemId.Some? && n.publicId.Some?
    ensures DecodeFields(SerializeNotation(n, false, opts) + [EndDoc])
         == Some(([Field(n.name, Doc([Field("SYSTEM", Scalar(n.systemId.value))]))], []))
  {
    NotationEncodes(n, opts);
  }

  /** A shortcut-shaped element writes `name: text` and, as an array
      member, the bare text; the shape test asks for exactly a text node,
      so an element whose lone child is a CDATA section gets a document. */
  lemma ShortcutIsExactlyText(e: ElementNode, n: string, v: string, opts: Option<Options>)
    requires IsShortcut(e)
    ensures SerializeXmlElement(e, opts) == Ok([Name(e.name), Str(e.children[0].value)])
    ensures SerializeXmlElementChildNodes(e, opts) == Ok([Str(e.children[0].value)])
    ensures SerializeXmlElement(Element(n, [], [CharData(CData, v)]), opts)
         == Ok([Name(n), StartDoc, Name("#cdata-section"), Str(v), EndDoc])
  {
    var c: ElementNode := Element(n, [], [CharData(CData, v)]);
    var out := [Name("#cdata-section"), Str(v)];
    SingleCharDataGroup(c.children, 0);
    assert CharacterDataGroup(c.children, 0) == out;
    assert [] + [CharName(CData)] == [CharName(CData)];
    assert ChildNodesLoop(c, 1, [], [CharName(CData)], opts) == Ok([]);
    assert ChildNodesLoop(c, 0, [], [], opts) == Ok(out + []);
    assert SerializeXmlElementChildNodes(c, opts) == Ok([StartDoc] + [] + (out + []));
    assert [Name(n)] + ([StartDoc] + [] + (out + [])) + [EndDoc] == [Name(n), StartDoc, Name("#cdata-section"), Str(v), EndDoc];
  }

  /** The attribute serializer writes the one field `@name: value`. */
  lemma AttributeNodeDecodes(a: Attribute, opts: Option<Options>)
    ensures DecodeFields(SerializeAttributeNode(a, opts) + [EndDoc])
         == Some(([Field("@" + a.name, Scalar(a.value))], []))
  {
    var f := Field("@" + a.name, Scalar(a.value));
    EncodeSingleField(f);
    DecodeEncodeFields([f], []);
    assert SerializeAttributeNode(a, opts) + ([EndDoc] + []) == SerializeAttributeNode(a, opts) + [EndDoc];
  }

  /** The attribute part of an element's document reads back as one `@`
      field per attribute, in document order. */
  lemma AttributeFieldsDecode(attrs: seq<Attribute>)
    ensures DecodeFields(AttributeFields(attrs) + [EndDoc]) == Some((AttributeFieldList(attrs), []))
  {
    AttributeFieldsEncode(attrs);
    DecodeEncodeFields(AttributeFieldList(attrs), []);
    assert AttributeFields(attrs) + ([EndDoc] + []) == AttributeFields(attrs) + [EndDoc];
  }

  /** The direct character-data serializer as written: a value that is not
      character data dereferences null whatever the options; significant
      whitespace writes nothing; otherwise absent options throw, options
      that do not ask for comments silence every node, not only comments,
      and options that do write the node, whitespace included. */
  lemma CharacterDataAsWritten(c: Node, opts: Option<Options>)
    ensures !c.CharData? ==> SerializeCharacterData(c, opts) == Err(NullReference)
    ensures c.CharData? && c.kind == SignificantWhitespace ==> SerializeCharacterData(c, opts) == Ok([])
    ensures c.CharData? && c.kind != SignificantWhitespace && opts.None?
            ==> SerializeCharacterData(c, opts) == Err(NullReference)
    ensures c.CharData? && opts.Some? && !opts.value.serializeComments ==> SerializeCharacterData(c, opts) == Ok([])
    ensures c.CharData? && c.kind != SignificantWhitespace && CommentsOn(opts)
            ==> SerializeCharacterData(c, opts) == Ok(WriteString(CharName(c.kind), c.value))
  {
  }

  /** With options that ask for comments, the direct serializer writes a
      node of a kind the traversal keeps exactly as the traversal writes it
      as a lone child. */
  lemma CharacterDataAgreesWithTraversal(c: Node, opts: Option<Options>)
    requires c.CharData? && CommentsOn(opts) && c.kind != Whitespace && c.kind != SignificantWhitespace
    ensures SerializeCharacterData(c, opts).Ok?
    ensures ChildNodesLoop(Element("e", [], [c]), 0, [], [], opts) == SerializeCharacterData(c, opts)
  {
    var e: ElementNode := Element("e", [], [c]);
    SingleCharDataGroup([c], 0);
    assert CharacterDataGroup([c], 0) == WriteString(CharName(c.kind), c.value);
    assert [] + [CharName(c.kind)] == [CharName(c.kind)];
    assert ChildNodesLoop(e, 1, [], [CharName(c.kind)], opts) == Ok([]);
    assert ChildNodesLoop(e, 0, [], [], opts) == Ok(CharacterDataGroup([c], 0) + []);
    assert CharacterDataGroup([c], 0) + [] == WriteString(CharName(c.kind), c.value);
  }

  /** Whitespace is where they part: the direct serializer writes it while
      the traversal drops it. */
  lemma WhitespaceWrittenDirectlyOnly(value: string, opts: Option<Options>)
    requires CommentsOn(opts)
    ensures SerializeCharacterData(CharData(Whitespace, value), opts) == Ok([Name("#whitespace"), Str(value)])
    ensures ChildNodesLoop(Element("e", [], [CharData(Whitespace, value)]), 0, [], [], opts) == Ok([])
  {
    var e: ElementNode := Element("e", [], [CharData(Whitespace, value)]);
    assert ChildNodesLoop(e, 1, [], [], opts) == Ok([]);
  }

  /** The text serializer accepts exactly text nodes and writes the
      `#text` field of one. */
  lemma TextSerializer(v: Node, opts: Option<Options>)
    ensures SerializeText(v, opts).Ok? <==> v.CharData? && v.kind == Text
    ensures SerializeText(v, opts).Err? ==> SerializeText(v, opts).error == NullReference
    ensures SerializeText(v, opts).Ok?
            ==> DecodeFields(SerializeText(v, opts).value + [EndDoc]) == Some(([Field("#text", Scalar(v.value))], []))
  {
    if v.CharData? && v.kind == Text {
      var f := Field("#text", Scalar(v.value));
      EncodeSingleField(f);
      DecodeEncodeFields([f], []);
      assert SerializeText(v, opts).value + ([EndDoc] + []) == SerializeText(v, opts).value + [EndDoc];
    }
  }

  /** The element serializer walks elements and dereferences null for
      anything else. */
  lemma ElementSerializer(v: Node, opts: Option<Options>)
    ensures v.Element? ==> SerializeElement(v, opts) == SerializeXmlElement(v, opts)
    ensures !v.Element? ==> SerializeElement(v, opts) == Err(NullReference)
  {
  }

  /** The entry points that always throw, whatever their arguments. */
  lemma FixedFailures(f: DocumentFragment, t: DocumentType, en: Entity, reader: seq<Event>,
                      nominalType: string, actualType: string, document: Node, id: string,
                      opts: Option<Options>)
    ensures SerializeDocumentFragment(f, opts) == Err(NotImplemented(Some("")))
    ensures SerializeDocumentType(t, opts) == Err(NotImplemented(Some("")))
    ensures SerializeEntity(en, opts) == Err(NotImplemented(None))
    ensures Deserialize(reader, nominalType, opts) == Err(NotImplemented(None))
    ensures DeserializeActual(reader, nominalType, actualType, opts) == Err(NotImplemented(None))
    ensures GetDocumentId(document) == Err(NotSupported)
    ensures SetDocumentId(document, id) == Err(NotSupported)
  {
  }
}
