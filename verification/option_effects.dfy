/** What the options change. Of the three switches only `SerializeComments`
    is ever read, and absent options (or options of another class) act like
    a fresh options value everywhere except in the direct character-data
    serializer, which dereferences them. */
module OptionEffects {
  import opened Wrappers
  import opened XmlDom
  import opened XmlOptions
  import opened BsonTrace
  import opened Grouping
  import opened XmlSerializer
  import opened Traversal

  /** Two option arguments the element walk cannot tell apart. */
  predicate SameComments(o1: Option<Options>, o2: Option<Options>) {
    CommentsOn(o1) == CommentsOn(o2)
  }

  /** The element walk depends on the options only through `CommentsOn`. */
  lemma {:induction false} ElementDependsOnCommentsOnly(e: ElementNode, o1: Option<Options>, o2: Option<Options>)
    requires SameComments(o1, o2)
    ensures SerializeXmlElement(e, o1) == SerializeXmlElement(e, o2)
    decreases e, 3
  {
    ChildNodesDependsOnCommentsOnly(e, o1, o2);
  }

  lemma {:induction false} ChildNodesDependsOnCommentsOnly(e: ElementNode, o1: Option<Options>, o2: Option<Options>)
    requires SameComments(o1, o2)
    ensures SerializeXmlElementChildNodes(e, o1) == SerializeXmlElementChildNodes(e, o2)
    decreases e, 2
  {
    if !IsShortcut(e) && HasContent(e) {
      LoopDependsOnCommentsOnly(e, 0, [], [], o1, o2);
    }
  }

  lemma {:induction false} LoopDependsOnCommentsOnly(e: ElementNode, i: nat, seenElements: seq<string>,
                                                     seenCharacterData: seq<string>,
                                                     o1: Option<Options>, o2: Option<Options>)
    requires i <= |e.children| && SameComments(o1, o2)
    ensures ChildNodesLoop(e, i, seenElements, seenCharacterData, o1)
         == ChildNodesLoop(e, i, seenElements, seenCharacterData, o2)
    decreases e, 1, |e.children| - i
  {
    if i < |e.children| {
      match e.children[i]
      case Element(n, _, _) =>
        LoopDependsOnCommentsOnly(e, i + 1, seenElements, seenCharacterData, o1, o2);
        if n !in seenElements {
          GroupDependsOnCommentsOnly(e, i, o1, o2);
          LoopDependsOnCommentsOnly(e, i + 1, seenElements + [n], seenCharacterData, o1, o2);
        }
      case CharData(k, _) =>
        LoopDependsOnCommentsOnly(e, i + 1, seenElements, seenCharacterData, o1, o2);
        LoopDependsOnCommentsOnly(e, i + 1, seenElements, seenCharacterData + [CharName(k)], o1, o2);
      case Other(_, _) =>
    }
  }

  lemma {:induction false} GroupDependsOnCommentsOnly(e: ElementNode, i: nat, o1: Option<Options>, o2: Option<Options>)
    requires i < |e.children| && e.children[i].Element? && SameComments(o1, o2)
    ensures ElementGroup(e, i, o1) == ElementGroup(e, i, o2)
    decreases e, 0, 1
  {
    var node := e.children[i];
    var members := ElementsNamed(e.children, node.name);
    ElementsNamedMembers(e.children, node.name);
    if |members| > 1 {
      MembersDependOnCommentsOnly(e, members, o1, o2);
    } else {
      assert node in e.children;
      ElementDependsOnCommentsOnly(node, o1, o2);
    }
  }

  lemma {:induction false} MembersDependOnCommentsOnly(e: ElementNode, members: seq<Node>,
                                                       o1: Option<Options>, o2: Option<Options>)
    requires forall m :: m in members ==> m in e.children && m.Element?
    requires SameComments(o1, o2)
    ensures ArrayMembers(e, members, o1) == ArrayMembers(e, members, o2)
    decreases e, 0, 0, |members|
  {
    if |members| > 0 {
      assert members[0] in members;
      ChildNodesDependsOnCommentsOnly(members[0], o1, o2);
      MembersDependOnCommentsOnly(e, members[1..], o1, o2);
    }
  }

  /** Absent options, or options of another class, serialize an element or
      a document exactly as a fresh options value does. */
  lemma AbsentOptionsActAsFresh(e: ElementNode, d: Document)
    ensures SerializeXmlElement(e, None) == SerializeXmlElement(e, Some(NewOptions()))
    ensures SerializeDocument(d, None) == SerializeDocument(d, Some(NewOptions()))
  {
    ElementDependsOnCommentsOnly(e, None, Some(NewOptions()));
    if d.documentElement.Some? {
      ElementDependsOnCommentsOnly(d.documentElement.value, None, Some(NewOptions()));
    }
  }

  /** `SerializeDocType` and `SerializeDtdElements` change the output of no
      serializer: every serializer gives the same result for two options
      values that agree on `SerializeComments`. */
  lemma DtdSwitchesIgnored(o1: Options, o2: Options, e: ElementNode, d: Document, v: Node, a: Attribute,
                           n: Notation, writerInitial: bool, f: DocumentFragment, t: DocumentType, en: Entity)
    requires o1.serializeComments == o2.serializeComments
    ensures SerializeXmlElement(e, Some(o1)) == SerializeXmlElement(e, Some(o2))
    ensures SerializeElement(v, Some(o1)) == SerializeElement(v, Some(o2))
    ensures SerializeDocument(d, Some(o1)) == SerializeDocument(d, Some(o2))
    ensures SerializeCharacterData(v, Some(o1)) == SerializeCharacterData(v, Some(o2))
    ensures SerializeText(v, Some(o1)) == SerializeText(v, Some(o2))
    ensures SerializeAttributeNode(a, Some(o1)) == SerializeAttributeNode(a, Some(o2))
    ensures SerializeNotation(n, writerInitial, Some(o1)) == SerializeNotation(n, writerInitial, Some(o2))
    ensures SerializeDocumentFragment(f, Some(o1)) == SerializeDocumentFragment(f, Some(o2))
    ensures SerializeDocumentType(t, Some(o1)) == SerializeDocumentType(t, Some(o2))
    ensures SerializeEntity(en, Some(o1)) == SerializeEntity(en, Some(o2))
  {
    ElementDependsOnCommentsOnly(e, Some(o1), Some(o2));
    if v.Element? {
      ElementDependsOnCommentsOnly(v, Some(o1), Some(o2));
    }
    if d.documentElement.Some? {
      ElementDependsOnCommentsOnly(d.documentElement.value, Some(o1), Some(o2));
    }
  }

  /** `SerializeComments` does change element output: the same element with
      a comment child is written differently under the two settings. */
  lemma CommentsSwitchMatters()
    ensures var e := Element("a", [], [CharData(Text, "x"), CharData(Comment, "c")]);
            && SerializeXmlElement(e, Some(Options(false, false, false)))
               == Ok([Name("a"), StartDoc, Name("#text"), Str("x"), EndDoc])
            && SerializeXmlElement(e, Some(Options(true, false, false)))
               == Ok([Name("a"), StartDoc, Name("#text"), Str("x"), Name("#comment"), Str("c"), EndDoc])
  {
    var kids := [CharData(Text, "x"), CharData(Comment, "c")];
    var e: ElementNode := Element("a", [], kids);
    assert CharacterDataGroup(kids, 0) == [Name("#text"), Str("x")];
    assert CharacterDataGroup(kids, 1) == [Name("#comment"), Str("c")];
    CommentSkipped(e, "x", "c", Some(Options(false, false, false)));
    CommentWritten(e, "x", "c", Some(Options(true, false, false)));
  }

  /** An element of a text child then a comment child, with comments off. */
  lemma CommentSkipped(e: ElementNode, x: string, c: string, off: Option<Options>)
    requires !CommentsOn(off)
    requires |e.attrs| == 0 && |e.children| == 2
    requires e.children[0] == CharData(Text, x) && e.children[1] == CharData(Comment, c)
    requires CharacterDataGroup(e.children, 0) == [Name("#text"), Str(x)]
    ensures SerializeXmlElement(e, off) == Ok([Name(e.name), StartDoc, Name("#text"), Str(x), EndDoc])
  {
    var text := [Name("#text"), Str(x)];
    assert ChildNodesLoop(e, 2, [], [CharName(Text)], off) == Ok([]);
    DroppedCharStep(e, 1, [], [CharName(Text)], off);
    assert [] + [CharName(Text)] == [CharName(Text)];
    KeptCharStep(e, 0, [], [], off, []);
    assert text + [] == text;
    AttributelessElement(e, text, off);
    assert [Name(e.name), StartDoc] + text + [EndDoc] == [Name(e.name), StartDoc, Name("#text"), Str(x), EndDoc];
  }

  /** The same element with comments on. */
  lemma CommentWritten(e: ElementNode, x: string, c: string, on: Option<Options>)
    requires CommentsOn(on)
    requires |e.attrs| == 0 && |e.children| == 2
    requires e.children[0] == CharData(Text, x) && e.children[1] == CharData(Comment, c)
    requires CharacterDataGroup(e.children, 0) == [Name("#text"), Str(x)]
    requires CharacterDataGroup(e.children, 1) == [Name("#comment"), Str(c)]
    ensures SerializeXmlElement(e, on)
         == Ok([Name(e.name), StartDoc, Name("#text"), Str(x), Name("#comment"), Str(c), EndDoc])
  {
    var both := [Name("#text"), Str(x), Name("#comment"), Str(c)];
    var text := CharName(Text);
    assert CharName(Comment) !in [text];
    assert ChildNodesLoop(e, 2, [], [text, CharName(Comment)], on) == Ok([]);
    assert [text] + [CharName(Comment)] == [text, CharName(Comment)];
    KeptCharStep(e, 1, [], [text], on, []);
    assert [] + [CharName(Text)] == [text];
    KeptCharStep(e, 0, [], [], on, [Name("#comment"), Str(c)] + []);
    assert [Name("#text"), Str(x)] + ([Name("#comment"), Str(c)] + []) == both;
    AttributelessElement(e, both, on);
    assert [Name(e.name), StartDoc] + both + [EndDoc]
        == [Name(e.name), StartDoc, Name("#text"), Str(x), Name("#comment"), Str(c), EndDoc];
  }
}
