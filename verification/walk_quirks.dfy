/** Shapes the element walk writes outside the well-nested case: what an
    empty element, an empty or attributed array member, and a text child
    beside whitespace turn into. Each is why `Regular` asks what it asks. */
module WalkQuirks {
  import opened Wrappers
  import opened XmlDom
  import opened XmlOptions
  import opened BsonTrace
  import opened Grouping
  import opened XmlSerializer
  import opened ElementMeaning
  import opened Traversal

  /** An empty element writes its name and a document end with no document
      start, so no enclosing document reads back. */
  lemma EmptyElementUnbalanced(n: string, opts: Option<Options>)
    ensures SerializeXmlElement(Element(n, [], []), opts) == Ok([Name(n), EndDoc])
    ensures DecodeDocument(SerializeDocument(Document(Some(Element(n, [], []))), opts).value) == None
  {
    var e: ElementNode := Element(n, [], []);
    assert SerializeXmlElementChildNodes(e, opts) == Ok([]);
    assert SerializeXmlElement(e, opts) == Ok([Name(n)] + [] + [EndDoc]);
    assert [Name(n)] + [] + [EndDoc] == [Name(n), EndDoc];
    var doc := [StartDoc] + [Name(n), EndDoc] + [EndDoc];
    assert SerializeDocument(Document(Some(e)), opts) == Ok(doc);
    assert doc == [StartDoc, Name(n), EndDoc, EndDoc];
    assert doc[1..] == [Name(n), EndDoc, EndDoc];
    assert doc[1..][1..] == [EndDoc, EndDoc];
    assert DecodeValue([EndDoc, EndDoc]) == None;
    assert DecodeFields(doc[1..]) == None;
    assert DecodeValue(doc) == None;
  }

  /** Two empty same-named children: each member writes nothing, so the
      group reads back as an empty array. */
  lemma EmptyMembersVanish(n: string, m: string, opts: Option<Options>)
    ensures SerializeXmlElement(Element(n, [], [Element(m, [], []), Element(m, [], [])]), opts)
         == Ok([Name(n), StartDoc, Name(m), StartArr, EndArr, EndDoc])
    ensures DecodeDocument(SerializeDocument(Document(Some(Element(n, [], [Element(m, [], []), Element(m, [], [])]))), opts).value)
         == Some([Field(n, Doc([Field(m, Array([]))]))])
  {
    var c: ElementNode := Element(m, [], []);
    var e: ElementNode := Element(n, [], [c, c]);
    TwinGroup(n, c, c, [], [], opts);
    assert [Name(n), StartDoc] + ([Name(m), StartArr] + [] + [] + [EndArr]) + [EndDoc]
        == [Name(n), StartDoc, Name(m), StartArr, EndArr, EndDoc];
    var g := Field(m, Array([]));
    var f := Field(n, Doc([g]));
    EncodeSingleField(g);
    EncodeSingleField(f);
    assert EncodeField(g) == [Name(m), StartArr, EndArr];
    assert EncodeField(f) == [Name(n), StartDoc, Name(m), StartArr, EndArr, EndDoc];
    assert SerializeDocument(Document(Some(e)), opts).value == EncodeValue(Doc([f]));
    DecodeEncodeDocument([f]);
  }

  /** An attributed member of an array group opens a document it never
      closes, and the next member's text lands inside it. */
  lemma AttributedMemberUnclosed(n: string, m: string, a: Attribute, x: string, opts: Option<Options>)
    ensures SerializeXmlElement(Element(n, [], [Element(m, [a], []), Element(m, [], [CharData(Text, x)])]), opts)
         == Ok([Name(n), StartDoc, Name(m), StartArr, StartDoc, Name("@" + a.name), Str(a.value), Str(x), EndArr, EndDoc])
  {
    var c1: ElementNode := Element(m, [a], []);
    var c2: ElementNode := Element(m, [], [CharData(Text, x)]);
    AttributedMemberTrace(m, a, opts);
    assert SerializeXmlElementChildNodes(c2, opts) == Ok([Str(x)]);
    TwinGroup(n, c1, c2, [StartDoc, Name("@" + a.name), Str(a.value)], [Str(x)], opts);
    UnclosedArrayShape(n, m, StartDoc, Name("@" + a.name), Str(a.value), Str(x));
  }

  /** The calls of the attributed-member group above, flattened into one
      list literal that the unclosed-document lemmas can compare against. */
  lemma UnclosedArrayShape(n: string, m: string, e1: Event, e2: Event, e3: Event, e4: Event)
    ensures [Name(n), StartDoc] + ([Name(m), StartArr] + [e1, e2, e3] + [e4] + [EndArr]) + [EndDoc]
         == [Name(n), StartDoc, Name(m), StartArr, e1, e2, e3, e4, EndArr, EndDoc]
  {
    assert [Name(m), StartArr] + [e1, e2, e3] + [e4] + [EndArr] == [Name(m), StartArr, e1, e2, e3, e4, EndArr];
  }

  /** An element with no attributes whose two children are same-named
      elements writes one array of the two members' child-node calls. */
  lemma TwinGroup(n: string, c1: ElementNode, c2: ElementNode, t1: seq<Event>, t2: seq<Event>, opts: Option<Options>)
    requires c1.name == c2.name
    requires SerializeXmlElementChildNodes(c1, opts) == Ok(t1) && SerializeXmlElementChildNodes(c2, opts) == Ok(t2)
    ensures SerializeXmlElement(Element(n, [], [c1, c2]), opts)
         == Ok([Name(n), StartDoc] + ([Name(c1.name), StartArr] + t1 + t2 + [EndArr]) + [EndDoc])
  {
    var e: ElementNode := Element(n, [], [c1, c2]);
    var g := [Name(c1.name), StartArr] + t1 + t2 + [EndArr];
    TwinElementGroup(n, c1, c2, t1, t2, opts);
    TwinLoop(n, c1, c2, g, opts);
    AttributelessElement(e, g, opts);
  }

  lemma TwinLoop(n: string, c1: ElementNode, c2: ElementNode, g: seq<Event>, opts: Option<Options>)
    requires c1.name == c2.name
    requires ElementGroup(Element(n, [], [c1, c2]), 0, opts) == Ok(g)
    ensures ChildNodesLoop(Element(n, [], [c1, c2]), 0, [], [], opts) == Ok(g)
  {
    var m := c1.name;
    var e: ElementNode := Element(n, [], [c1, c2]);
    assert [] + [m] == [m];
    assert ChildNodesLoop(e, 2, [m], [], opts) == Ok([]);
    assert ChildNodesLoop(e, 1, [m], [], opts) == Ok([]);
    assert ChildNodesLoop(e, 0, [], [], opts) == Ok(g + []);
    assert g + [] == g;
  }

  lemma TwinElementGroup(n: string, c1: ElementNode, c2: ElementNode, t1: seq<Event>, t2: seq<Event>, opts: Option<Options>)
    requires c1.name == c2.name
    requires SerializeXmlElementChildNodes(c1, opts) == Ok(t1) && SerializeXmlElementChildNodes(c2, opts) == Ok(t2)
    ensures ElementGroup(Element(n, [], [c1, c2]), 0, opts) == Ok([Name(c1.name), StartArr] + t1 + t2 + [EndArr])
  {
    var m := c1.name;
    var e: ElementNode := Element(n, [], [c1, c2]);
    TwinsNamed(c1, c2, opts);
    assert e.children[0] == c1;
    TwinMembers(e, c1, c2, t1, t2, opts);
    assert [Name(m), StartArr] + (t1 + t2) + [EndArr] == [Name(m), StartArr] + t1 + t2 + [EndArr];
  }

  /** Two same-named elements form one group of two. */
  lemma TwinsNamed(c1: ElementNode, c2: ElementNode, opts: Option<Options>)
    requires c1.name == c2.name
    ensures ElementsNamed([c1, c2], c1.name) == [c1, c2]
  {
    ChildQueriesCons(c1, [c2], opts, c1.name);
    ChildQueriesCons(c2, [], opts, c1.name);
    assert [c2] + [] == [c2] && [c1] + [c2] == [c1, c2];
  }

  /** Two members of an array group write their child-node calls in turn. */
  lemma TwinMembers(e: ElementNode, c1: ElementNode, c2: ElementNode, t1: seq<Event>, t2: seq<Event>, opts: Option<Options>)
    requires c1 in e.children && c2 in e.children
    requires SerializeXmlElementChildNodes(c1, opts) == Ok(t1) && SerializeXmlElementChildNodes(c2, opts) == Ok(t2)
    ensures ArrayMembers(e, [c1, c2], opts) == Ok(t1 + t2)
  {
    assert [c1, c2][1..] == [c2];
    assert [c2][1..] == [];
    assert ArrayMembers(e, [c2], opts) == Ok(t2 + []);
    assert t2 + [] == t2;
  }

  /** An attributed, childless member opens its document, writes its
      attribute and stops. */
  lemma AttributedMemberTrace(m: string, a: Attribute, opts: Option<Options>)
    ensures SerializeXmlElementChildNodes(Element(m, [a], []), opts) == Ok([StartDoc, Name("@" + a.name), Str(a.value)])
  {
    var c: ElementNode := Element(m, [a], []);
    assert [a][1..] == [];
    assert AttributeFields([a]) == [Name("@" + a.name), Str(a.value)];
    assert ChildNodesLoop(c, 0, [], [], opts) == Ok([]);
    assert SerializeXmlElementChildNodes(c, opts) == Ok([StartDoc] + [Name("@" + a.name), Str(a.value)] + []);
    assert [StartDoc] + [Name("@" + a.name), Str(a.value)] + [] == [StartDoc, Name("@" + a.name), Str(a.value)];
  }

  /** The document holding such an element does not read back. */
  lemma AttributedMemberUnreadable(n: string, m: string, a: Attribute, x: string, opts: Option<Options>)
    ensures var e: ElementNode := Element(n, [], [Element(m, [a], []), Element(m, [], [CharData(Text, x)])]);
            SerializeDocument(Document(Some(e)), opts).Ok?
            && DecodeDocument(SerializeDocument(Document(Some(e)), opts).value) == None
  {
    var e: ElementNode := Element(n, [], [Element(m, [a], []), Element(m, [], [CharData(Text, x)])]);
    var body := [Name(n), StartDoc, Name(m), StartArr, StartDoc, Name("@" + a.name), Str(a.value), Str(x), EndArr, EndDoc];
    AttributedMemberUnclosed(n, m, a, x, opts);
    RootInDocument(e, body, opts);
    UnclosedMemberUndecodable(n, m, "@" + a.name, a.value, x);
  }

  /** The document serializer wraps what the root element writes. */
  lemma RootInDocument(root: ElementNode, body: seq<Event>, opts: Option<Options>)
    requires SerializeXmlElement(root, opts) == Ok(body)
    ensures SerializeDocument(Document(Some(root)), opts) == Ok([StartDoc] + body + [EndDoc])
  {
  }

  lemma UnclosedMemberUndecodable(n: string, m: string, an: string, av: string, x: string)
    ensures DecodeDocument([StartDoc] + [Name(n), StartDoc, Name(m), StartArr, StartDoc, Name(an), Str(av), Str(x),
                            EndArr, EndDoc] + [EndDoc]) == None
  {
    var ts := [StartDoc, Name(n), StartDoc, Name(m), StartArr, StartDoc, Name(an), Str(av), Str(x),
               EndArr, EndDoc, EndDoc];
    assert [StartDoc] + [Name(n), StartDoc, Name(m), StartArr, StartDoc, Name(an), Str(av), Str(x), EndArr, EndDoc]
           + [EndDoc] == ts;
    // the member's document meets the next member's text where a name or
    // its end should be, and the failure propagates outwards
    assert DecodeFields(ts[8..]) == None;
    assert DecodeValue(ts[7..]) == Some((Scalar(av), ts[8..]));
    assert DecodeFields(ts[6..]) == None;
    assert DecodeValue(ts[5..]) == None;
    assert DecodeItems(ts[5..]) == None;
    assert DecodeValue(ts[4..]) == None;
    assert DecodeFields(ts[3..]) == None;
    assert DecodeValue(ts[2..]) == None;
    assert DecodeFields(ts[1..]) == None;
    assert DecodeValue(ts) == None;
  }

  /** Text beside whitespace is not shortcut-shaped (the test counts the
      raw children), so the element becomes a document with a `#text`
      field rather than a bare string. */
  lemma TextBesideWhitespace(n: string, x: string, w: string, opts: Option<Options>)
    ensures SerializeXmlElement(Element(n, [], [CharData(Text, x), CharData(Whitespace, w)]), opts)
         == Ok([Name(n), StartDoc, Name("#text"), Str(x), EndDoc])
  {
    var kids := [CharData(Text, x), CharData(Whitespace, w)];
    var e: ElementNode := ElementOf(n, [], kids);
    var text := [Name("#text"), Str(x)];
    TextGroupBesideWhitespace(x, w, opts);
    assert ChildNodesLoop(e, 2, [], [CharName(Text)], opts) == Ok([]);
    DroppedCharStep(e, 1, [], [CharName(Text)], opts);
    assert [] + [CharName(Text)] == [CharName(Text)];
    KeptCharStep(e, 0, [], [], opts, []);
    assert text + [] == text;
    AttributelessElement(e, text, opts);
    assert [Name(n), StartDoc] + text + [EndDoc] == [Name(n), StartDoc, Name("#text"), Str(x), EndDoc];
  }

  /** The `#text` group beside whitespace holds the one text value. */
  lemma TextGroupBesideWhitespace(x: string, w: string, opts: Option<Options>)
    ensures CharacterDataGroup([CharData(Text, x), CharData(Whitespace, w)], 0) == [Name("#text"), Str(x)]
  {
    var kids := [CharData(Text, x), CharData(Whitespace, w)];
    ChildQueriesCons(kids[0], [kids[1]], opts, "#text");
    ChildQueriesCons(kids[1], [], opts, "#text");
    assert [kids[1]] + [] == [kids[1]] && [kids[0]] + [kids[1]] == kids;
  }
}
