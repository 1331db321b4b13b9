/** The `Serialize` override of each XML node serializer class, and the
    shared element walk `SerializeXmlElement` / `SerializeXmlElementChildNodes`.
    Each returns the calls it makes on the writer, or the exception it
    throws. */
module XmlSerializer {
  import opened Wrappers
  import opened XmlDom
  import opened XmlOptions
  import opened BsonTrace
  import opened Grouping

  /** The exceptions the serializers throw. `NotImplemented(None)` is the
      exception built without a message. */
  datatype Error =
    | NotImplemented(message: Option<string>)
    | NotSupported
    | NullReference

  /** The message of the exception a child of an unsupported class raises. */
  function UnsupportedNodeMessage(typeName: string, outerXml: string): string {
    "XmlNodes of type " + typeName + " cannot be serialized. Element: " + outerXml
  }

  // ---------------------------------------------------------------------
  // XmlAttributeSerializer

  /** One field `@name = value`. */
  function SerializeAttribute(a: Attribute): seq<Event> {
    WriteString("@" + a.name, a.value)
  }

  /** The attribute loop of the element walk: the attributes as `@` fields,
      in order, each written as the attribute serializer writes it. */
  function AttributeFields(attrs: seq<Attribute>): (r: seq<Event>)
    ensures |r| == 2 * |attrs|
    ensures forall i :: 0 <= i < |attrs| ==>
              r[2 * i] == Name("@" + attrs[i].name) && r[2 * i + 1] == Str(attrs[i].value)
    decreases |attrs|
  {
    if |attrs| == 0 then []
    else
      var rest := AttributeFields(attrs[1..]);
      assert forall i :: 1 <= i < |attrs| ==> attrs[i] == attrs[1..][i - 1];
      SerializeAttribute(attrs[0]) + rest
  }

  // ---------------------------------------------------------------------
  // XmlNodeSerializer: the element walk

  /** `SerializeXmlElement`: a field named after the element whose value is
      the element's text (shortcut shape) or a nested document. */
  function SerializeXmlElement(e: ElementNode, opts: Option<Options>): (r: Result<seq<Event>, Error>)
    ensures r.Ok? ==> |r.value| >= 2 && r.value[0] == Name(e.name)
    ensures r.Ok? ==> (r.value[|r.value| - 1].Str? <==> IsShortcut(e))
    ensures r.Ok? && !IsShortcut(e) ==>
              r.value[|r.value| - 1] == EndDoc && (r.value[1] == StartDoc <==> HasContent(e))
    decreases e, 3
  {
    if IsShortcut(e) then
      Ok(WriteString(e.name, e.children[0].value))
    else
      var body :- SerializeXmlElementChildNodes(e, opts);
      Ok([Name(e.name)] + body + [EndDoc])
  }

  /** `SerializeXmlElementChildNodes`: the bare text of a shortcut-shaped
      element; otherwise, when there is anything to write, an opened (and
      not closed) document holding the attributes and then the grouped
      children; otherwise nothing. */
  function SerializeXmlElementChildNodes(e: ElementNode, opts: Option<Options>): (r: Result<seq<Event>, Error>)
    ensures r.Ok? ==> (r.value == [] <==> !HasContent(e))
    ensures r.Ok? && IsShortcut(e) ==> r.value == [Str(e.children[0].value)]
    ensures r.Ok? && HasContent(e) && !IsShortcut(e) ==>
              |r.value| >= 1 + 2 * |e.attrs| &&
              r.value[..1 + 2 * |e.attrs|] == [StartDoc] + AttributeFields(e.attrs)
    decreases e, 2
  {
    if IsShortcut(e) then
      Ok([Str(e.children[0].value)])
    else if |e.attrs| > 0 || |e.children| > 0 then
      var fields :- ChildNodesLoop(e, 0, [], [], opts);
      var r := [StartDoc] + AttributeFields(e.attrs) + fields;
      assert r[..1 + 2 * |e.attrs|] == [StartDoc] + AttributeFields(e.attrs);
      Ok(r)
    else
      Ok([])
  }

  /** The `foreach` over the children from position `i` on, with the two
      seen-lists of element names and character-data names. */
  function ChildNodesLoop(e: ElementNode, i: nat, seenElements: seq<string>, seenCharacterData: seq<string>,
                          opts: Option<Options>): Result<seq<Event>, Error>
    requires i <= |e.children|
    decreases e, 1, |e.children| - i
  {
    if i == |e.children| then Ok([])
    else
      match e.children[i]
      case Element(n, _, _) =>
        if n in seenElements then ChildNodesLoop(e, i + 1, seenElements, seenCharacterData, opts)
        else
          var group :- ElementGroup(e, i, opts);
          var rest :- ChildNodesLoop(e, i + 1, seenElements + [n], seenCharacterData, opts);
          Ok(group + rest)
      case CharData(k, _) =>
        if k == Comment && !CommentsOn(opts) then ChildNodesLoop(e, i + 1, seenElements, seenCharacterData, opts)
        else if k == Whitespace || k == SignificantWhitespace then ChildNodesLoop(e, i + 1, seenElements, seenCharacterData, opts)
        else if CharName(k) in seenCharacterData then ChildNodesLoop(e, i + 1, seenElements, seenCharacterData, opts)
        else
          var rest :- ChildNodesLoop(e, i + 1, seenElements, seenCharacterData + [CharName(k)], opts);
          Ok(CharacterDataGroup(e.children, i) + rest)
      case Other(t, x) =>
        Err(NotImplemented(Some(UnsupportedNodeMessage(t, x))))
  }

  /** The elements named like child `i`: an array of their child-node
      serializations when there are two or more, else the one element
      through the element serializer. */
  function ElementGroup(e: ElementNode, i: nat, opts: Option<Options>): Result<seq<Event>, Error>
    requires i < |e.children| && e.children[i].Element?
    decreases e, 0
  {
    var node := e.children[i];
    var members := ElementsNamed(e.children, node.name);
    ElementsNamedMembers(e.children, node.name);
    if |members| > 1 then
      var items :- ArrayMembers(e, members, opts);
      Ok([Name(node.name), StartArr] + items + [EndArr])
    else
      SerializeElement(node, opts)
  }

  /** The inner `foreach` over same-named elements. */
  function ArrayMembers(e: ElementNode, members: seq<Node>, opts: Option<Options>): Result<seq<Event>, Error>
    requires forall m :: m in members ==> m in e.children && m.Element?
    decreases e, 0, |members|
  {
    if |members| == 0 then Ok([])
    else
      var first :- SerializeXmlElementChildNodes(members[0], opts);
      var rest :- ArrayMembers(e, members[1..], opts);
      Ok(first + rest)
  }

  /** The character data named like child `i`: an array of their values
      when there are two or more, else one field holding child `i`'s value. */
  function CharacterDataGroup(kids: seq<Node>, i: nat): seq<Event>
    requires i < |kids| && kids[i].CharData?
  {
    var node := kids[i];
    var n := CharName(node.kind);
    var values := CharDataNamed(kids, n);
    if |values| > 1 then [Name(n), StartArr] + Strings(values) + [EndArr]
    else WriteString(n, node.value)
  }

  /** One `WriteString(value)` per value. */
  function Strings(values: seq<string>): (r: seq<Event>)
    ensures |r| == |values| && forall j :: 0 <= j < |values| ==> r[j] == Str(values[j])
  {
    seq(|values|, j requires 0 <= j < |values| => Str(values[j]))
  }

  // ---------------------------------------------------------------------
  // The Serialize override of each class

  /** `XmlElementSerializer.Serialize`; `value as XmlElement` is null when
      the value is not an element. */
  function SerializeElement(value: Node, opts: Option<Options>): Result<seq<Event>, Error>
    decreases value, 4
  {
    if value.Element? then SerializeXmlElement(value, opts) else Err(NullReference)
  }

  /** `XmlDocumentSerializer.Serialize`: the root element inside a top-level
      document. A document without a root element dereferences null. */
  function SerializeDocument(d: Document, opts: Option<Options>): Result<seq<Event>, Error> {
    match d.documentElement
    case None => Err(NullReference)
    case Some(root) =>
      var body :- SerializeXmlElement(root, opts);
      Ok([StartDoc] + body + [EndDoc])
  }

  /** `XmlCharacterDataSerializer.Serialize`, as written: the test for
      whitespace names `XmlSpace`, an enumeration no node is, so only
      significant whitespace is skipped. The comment test asks whether the
      node's run-time type object is itself a comment, which it never is,
      so that conjunct is false; what remains skips every node unless the
      options ask for comments, and dereferences absent options. Asking for
      the run-time type comes first, so a value that is not character data
      (`value as XmlCharacterData` is null) dereferences null whatever the
      options. */
  function SerializeCharacterData(value: Node, opts: Option<Options>): Result<seq<Event>, Error> {
    if value.CharData? && value.kind == SignificantWhitespace then Ok([])
    else if !value.CharData? then Err(NullReference)
    else if opts.None? then Err(NullReference)
    else if !opts.value.serializeComments then Ok([])
    else Ok(WriteString(CharName(value.kind), value.value))
  }

  /** `XmlTextSerializer.Serialize`; `value as XmlText` is null unless the
      value is a text node. */
  function SerializeText(value: Node, opts: Option<Options>): Result<seq<Event>, Error> {
    if value.CharData? && value.kind == Text then Ok(WriteString(CharName(Text), value.value))
    else Err(NullReference)
  }

  /** `XmlNotationSerializer.Serialize`. `writerInitial` is whether the
      writer is still in its initial state, in which case the field is
      wrapped in a document of its own. */
  function SerializeNotation(n: Notation, writerInitial: bool, opts: Option<Options>): seq<Event> {
    var value :=
      if n.systemId.Some? then [StartDoc] + WriteString("SYSTEM", n.systemId.value) + [EndDoc]
      else if n.publicId.Some? then [StartDoc] + WriteString("PUBLIC", n.publicId.value) + [EndDoc]
      else [Null];
    var field := [Name(n.name)] + value;
    if writerInitial then [StartDoc] + field + [EndDoc] else field
  }

  /** `XmlAttributeSerializer.Serialize`, with the options it ignores. */
  function SerializeAttributeNode(a: Attribute, opts: Option<Options>): seq<Event> {
    SerializeAttribute(a)
  }

  /** `XmlDocumentFragmentSerializer.Serialize`. */
  function SerializeDocumentFragment(f: DocumentFragment, opts: Option<Options>): Result<seq<Event>, Error> {
    Err(NotImplemented(Some("")))
  }

  /** `XmlDocumentTypeSerializer.Serialize`. */
  function SerializeDocumentType(d: DocumentType, opts: Option<Options>): Result<seq<Event>, Error> {
    Err(NotImplemented(Some("")))
  }

  /** `XmlEntitySerializer.Serialize`. */
  function SerializeEntity(en: Entity, opts: Option<Options>): Result<seq<Event>, Error> {
    Err(NotImplemented(None))
  }

  /** `XmlNodeSerializer.Deserialize(bsonReader, nominalType, options)`;
      the reader is the trace it would read. */
  function Deserialize(reader: seq<Event>, nominalType: string, opts: Option<Options>): Result<Node, Error> {
    Err(NotImplemented(None))
  }

  /** `XmlNodeSerializer.Deserialize(bsonReader, nominalType, actualType, options)`. */
  function DeserializeActual(reader: seq<Event>, nominalType: string, actualType: string,
                             opts: Option<Options>): Result<Node, Error> {
    Err(NotImplemented(None))
  }

  /** `XmlNodeSerializer.GetDocumentId`. */
  function GetDocumentId(document: Node): Result<bool, Error> {
    Err(NotSupported)
  }

  /** `XmlNodeSerializer.SetDocumentId`. */
  function SetDocumentId(document: Node, id: string): Result<(), Error> {
    Err(NotSupported)
  }
}
