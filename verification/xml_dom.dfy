/** The read-only XML tree the serializers walk: the part of the .NET
    `System.Xml` DOM they look at. */
module XmlDom {
  import opened Wrappers

  /** An attribute of an element, in document order. */
  datatype Attribute = Attribute(name: string, value: string)

  /** The concrete character-data node classes. Exactly `Text` is the class
      `XmlText`; the other four are sibling subclasses of `XmlCharacterData`. */
  datatype CharKind = Text | CData | Comment | Whitespace | SignificantWhitespace

  /** A child node of an element.
      `Other` stands for every node class that is neither an element nor
      character data (entity references, processing instructions, ...):
      the serializer only looks at its run-time type name and its markup. */
  datatype Node =
    | Element(name: string, attrs: seq<Attribute>, children: seq<Node>)
    | CharData(kind: CharKind, value: string)
    | Other(typeName: string, outerXml: string)

  /** An `XmlElement`. */
  type ElementNode = n: Node | n.Element? witness Element("", [], [])

  /** The element with the given parts (a function of arbitrary parts, so
      that the solver checks the element shape without expanding them). */
  function ElementOf(name: string, attrs: seq<Attribute>, kids: seq<Node>): (e: ElementNode)
    ensures e.name == name && e.attrs == attrs && e.children == kids
  {
    Element(name, attrs, kids)
  }

  /** A notation declared in a document type. */
  datatype Notation = Notation(name: string, systemId: Option<string>, publicId: Option<string>)

  /** An entity declared in a document type. */
  datatype Entity = Entity(name: string, value: string)

  /** A `<!DOCTYPE>` node with the declarations it owns. */
  datatype DocumentType = DocumentType(name: string, entities: seq<Entity>, notations: seq<Notation>)

  /** A document fragment: a parentless list of nodes. */
  datatype DocumentFragment = DocumentFragment(children: seq<Node>)

  /** A document; `documentElement` is `None` when the document has no root. */
  datatype Document = Document(documentElement: Option<ElementNode>)

  /** The DOM's `Name` of a character-data node: a fixed marker per class. */
  function CharName(k: CharKind): (n: string)
    ensures |n| > 0 && n[0] == '#'
  {
    match k
    case Text => "#text"
    case CData => "#cdata-section"
    case Comment => "#comment"
    case Whitespace => "#whitespace"
    case SignificantWhitespace => "#significant-whitespace"
  }

  /** Distinct classes have distinct names, so grouping character data by
      name is grouping it by class. */
  lemma CharNameInjective(k1: CharKind, k2: CharKind)
    ensures CharName(k1) == CharName(k2) <==> k1 == k2
  {
  }

  /** `HasAttributes || HasChildNodes`. */
  predicate HasContent(e: ElementNode) {
    |e.attrs| > 0 || |e.children| > 0
  }

  /** The leaf-element shape the serializer collapses to a scalar: no
      attributes and a single child whose class is exactly `XmlText`. */
  predicate IsShortcut(e: ElementNode) {
    |e.attrs| == 0 && |e.children| == 1 && e.children[0].CharData? && e.children[0].kind == Text
  }

  /** Some node of class `Other` occurs somewhere below `e`. */
  predicate HasUnsupported(e: ElementNode)
    decreases e
  {
    exists c :: c in e.children && (c.Other? || (c.Element? && HasUnsupported(c)))
  }
}
