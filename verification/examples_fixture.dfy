/** A worked example: the document of the extension-method tests, with two
    same-named element children, repeated CDATA and text sections, and a
    nested element holding mixed character data. Its serialization reads
    back as the fields the tests expect, in first-occurrence order. */
module Examples {
  import opened Wrappers
  import opened XmlDom
  import opened XmlOptions
  import opened BsonTrace
  import opened Grouping
  import opened XmlSerializer
  import opened ElementMeaning

  function Inner(): ElementNode {
    Element("innerElem", [], [CharData(Text, "Inner")])
  }

  function Inner2(): ElementNode {
    Element("innerElem2", [], [CharData(Text, "Inner")])
  }

  function Tommy(): ElementNode {
    Element("tommy", [], [CharData(Text, "inner text"), CharData(CData, "cdata")])
  }

  /** Child `j` of `outerElem`, as the DOM holds the children once the
      whitespace between tags is discarded on load. The children are given
      by position, so that the proofs below step through them one at a time
      instead of unfolding one nine-element literal. */
  function OuterChild(j: nat): Node {
    if j == 0 then CharData(CData, "Some CData Stuff")
    else if j == 1 then CharData(CData, "Some Other CData Stuff")
    else if j == 2 then Inner()
    else if j == 3 then CharData(Text, "\r\n\t\tsomeWords")
    else if j == 4 then CharData(CData, "A third line of CData Stuff")
    else if j == 5 then Inner2()
    else if j == 6 then Inner()
    else if j == 7 then CharData(Text, "\r\n\t\tMore Words\r\n\t\t")
    else Tommy()
  }

  /** The children of `outerElem` from position `j` on (there are nine). */
  function OuterFrom(j: nat): seq<Node>
    decreases 9 - j
  {
    if j >= 9 then [] else [OuterChild(j)] + OuterFrom(j + 1)
  }

  function Outer(): ElementNode {
    ElementOf("outerElem", [Attribute("outerElem", "hi"), Attribute("innerElem", "blarg")], OuterFrom(0))
  }

  function Root(): ElementNode {
    Element("rootElement", [], [Outer()])
  }

  function FixtureDocument(): Document {
    Document(Some(Root()))
  }

  /** The value the tests expect for `outerElem`: the two attribute
      fields, then one field per group. */
  function ExpectedOuter(): Value {
    Doc([Field("@outerElem", Scalar("hi")), Field("@innerElem", Scalar("blarg"))]
        + [CDataGroupField(), InnerGroupField(), TextGroupField(), Inner2GroupField(), TommyGroupField()])
  }

  function CDataGroupField(): Field {
    Field("#cdata-section", Array([Scalar("Some CData Stuff"), Scalar("Some Other CData Stuff"),
                                   Scalar("A third line of CData Stuff")]))
  }

  function InnerGroupField(): Field {
    Field("innerElem", Array([Scalar("Inner"), Scalar("Inner")]))
  }

  function TextGroupField(): Field {
    Field("#text", Array([Scalar("\r\n\t\tsomeWords"), Scalar("\r\n\t\tMore Words\r\n\t\t")]))
  }

  function Inner2GroupField(): Field {
    Field("innerElem2", Scalar("Inner"))
  }

  function TommyGroupField(): Field {
    Field("tommy", Doc([Field("#text", Scalar("inner text")), Field("#cdata-section", Scalar("cdata"))]))
  }

  function ExpectedFields(): seq<Field> {
    [Field("rootElement", Doc([Field("outerElem", ExpectedOuter())]))]
  }

  /** The fixture serializes, without options, to a top-level document
      that reads back as the expected fields in the expected order. */
  lemma FixtureSerializes()
    ensures SerializeDocument(FixtureDocument(), None).Ok?
    ensures DecodeDocument(SerializeDocument(FixtureDocument(), None).value) == Some(ExpectedFields())
  {
    FixtureRegular();
    FixtureSupported();
    RootValue();
    DocumentEncodes(FixtureDocument(), None);
  }

  // ---------------------------------------------------------------------
  // The child queries of `outerElem`, position by position

  /** `KeysFrom`, `ElementsFrom` and `CharDataFrom` are the `Grouping`
      queries `Keys`, `ElementsNamed` and `CharDataNamed` on the children
      of `outerElem` from position `j` on (`OuterKeysAt`, `OuterElements`
      and `OuterCharData` prove the agreement). */
  function KeysFrom(j: nat): seq<Key>
    decreases 9 - j
  {
    if j >= 9 then []
    else (if Dropped(OuterChild(j), None) then [] else [KeyOf(OuterChild(j))]) + KeysFrom(j + 1)
  }

  function ElementsFrom(j: nat, n: string): seq<Node>
    decreases 9 - j
  {
    if j >= 9 then []
    else (if OuterChild(j).Element? && OuterChild(j).name == n then [OuterChild(j)] else []) + ElementsFrom(j + 1, n)
  }

  function CharDataFrom(j: nat, n: string): seq<string>
    decreases 9 - j
  {
    if j >= 9 then []
    else (if OuterChild(j).CharData? && CharName(OuterChild(j).kind) == n then [OuterChild(j).value] else [])
         + CharDataFrom(j + 1, n)
  }

  /** No child of `outerElem` is dropped, so each query on a suffix of the
      children is its position-by-position counterpart. */
  lemma {:induction false} OuterKeysAt(j: nat)
    ensures Keys(OuterFrom(j), None) == KeysFrom(j)
    decreases 9 - j
  {
    if j < 9 {
      OuterKeysAt(j + 1);
      ChildQueriesCons(OuterChild(j), OuterFrom(j + 1), None, "");
    }
  }

  lemma {:induction false} OuterElements(j: nat, n: string)
    ensures ElementsNamed(OuterFrom(j), n) == ElementsFrom(j, n)
    decreases 9 - j
  {
    if j < 9 {
      OuterElements(j + 1, n);
      ChildQueriesCons(OuterChild(j), OuterFrom(j + 1), None, n);
    }
  }

  lemma {:induction false} OuterCharData(j: nat, n: string)
    ensures CharDataNamed(OuterFrom(j), n) == CharDataFrom(j, n)
    decreases 9 - j
  {
    if j < 9 {
      OuterCharData(j + 1, n);
      ChildQueriesCons(OuterChild(j), OuterFrom(j + 1), None, n);
    }
  }

  /** Every child of `outerElem` is one of the three leaf elements or
      character data. */
  lemma {:induction false} OuterChildrenShape(j: nat)
    ensures forall c :: c in OuterFrom(j) ==> c.CharData? || c == Inner() || c == Inner2() || c == Tommy()
    decreases 9 - j
  {
    if j < 9 {
      OuterChildrenShape(j + 1);
      assert forall c :: c in OuterFrom(j) <==> c == OuterChild(j) || c in OuterFrom(j + 1);
    }
  }

  /** The groups of `outerElem`'s children, one name at a time. */
  lemma InnerGroup()
    ensures ElementsFrom(0, "innerElem") == [Inner(), Inner()]
  {
  }

  lemma Inner2Group()
    ensures ElementsFrom(0, "innerElem2") == [Inner2()]
  {
  }

  lemma TommyGroup()
    ensures ElementsFrom(0, "tommy") == [Tommy()]
  {
  }

  lemma CDataGroup()
    ensures CharDataFrom(0, "#cdata-section")
         == ["Some CData Stuff", "Some Other CData Stuff", "A third line of CData Stuff"]
  {
  }

  lemma TextGroup()
    ensures CharDataFrom(0, "#text") == ["\r\n\t\tsomeWords", "\r\n\t\tMore Words\r\n\t\t"]
  {
  }

  // ---------------------------------------------------------------------
  // First occurrences of the keys

  /** The `Grouping` scan `Unseen` over the keys of the children of
      `outerElem` from position `j` on. */
  function UnseenFrom(j: nat, seen: set<Key>): seq<Key>
    decreases 9 - j
  {
    if j >= 9 then []
    else if KeyOf(OuterChild(j)) in seen then UnseenFrom(j + 1, seen)
    else [KeyOf(OuterChild(j))] + UnseenFrom(j + 1, seen + {KeyOf(OuterChild(j))})
  }

  lemma {:induction false} UnseenKeysFrom(j: nat, seen: set<Key>)
    ensures Unseen(KeysFrom(j), seen) == UnseenFrom(j, seen)
    decreases 9 - j
  {
    if j < 9 {
      var k := KeyOf(OuterChild(j));
      KeysFromCons(j);
      UnseenCons(k, KeysFrom(j + 1), seen);
      if k in seen {
        UnseenKeysFrom(j + 1, seen);
      } else {
        UnseenKeysFrom(j + 1, seen + {k});
      }
    }
  }

  /** No child of `outerElem` is dropped. */
  lemma KeysFromCons(j: nat)
    requires j < 9
    ensures KeysFrom(j) == [KeyOf(OuterChild(j))] + KeysFrom(j + 1)
  {
    assert !Dropped(OuterChild(j), None);
  }

  /** The keys of `outerElem`, each once, in order of first occurrence. */
  function OuterKeys(): seq<Key> {
    [CharKey("#cdata-section"), ElementKey("innerElem"), CharKey("#text"), ElementKey("innerElem2"), ElementKey("tommy")]
  }

  lemma UnseenFromValue()
    ensures UnseenFrom(0, {}) == OuterKeys()
  {
  }

  /** The groups are emitted in the order cdata, innerElem, text,
      innerElem2, tommy: the order in which each name first occurs. */
  lemma OuterKeyOrder()
    ensures FirstOccurrences(Keys(OuterFrom(0), None)) == OuterKeys()
  {
    OuterKeysAt(0);
    UnseenKeysFrom(0, {});
    UnseenFromValue();
  }

  // ---------------------------------------------------------------------
  // The value of each element

  lemma LeavesRegular()
    ensures Regular(Inner()) && Regular(Inner2()) && Regular(Tommy())
    ensures !HasUnsupported(Inner()) && !HasUnsupported(Inner2()) && !HasUnsupported(Tommy())
  {
  }

  lemma TommyValue()
    ensures ElementValue(Tommy(), None) == Doc([Field("#text", Scalar("inner text")), Field("#cdata-section", Scalar("cdata"))])
  {
    TextThenCData(Tommy(), "inner text", "cdata", None);
  }

  /** An element with no attributes holding a text node and then a CDATA
      section has one scalar field for each, in that order (stated for
      arbitrary parts so that the solver does not expand the fixture). */
  lemma TextThenCData(e: ElementNode, x: string, y: string, opts: Option<Options>)
    requires e.attrs == [] && e.children == [CharData(Text, x), CharData(CData, y)]
    ensures ElementValue(e, opts) == Doc([Field("#text", Scalar(x)), Field("#cdata-section", Scalar(y))])
  {
    var t := CharKey("#text");
    var c := CharKey("#cdata-section");
    TextThenCDataKeys(e.children, x, y, opts);
    TextThenCDataFields(e, x, y, opts);
    KeyFieldsCons(e, c, [], opts);
    KeyFieldsCons(e, t, [c] + [], opts);
    assert [t] + ([c] + []) == [t, c];
    assert !IsShortcut(e) && AttributeFieldList(e.attrs) == [];
    assert KeyFields(e, [t, c], opts) == [Field("#text", Scalar(x))] + ([Field("#cdata-section", Scalar(y))] + []);
  }

  /** The field of each of the two groups of such an element. */
  lemma TextThenCDataFields(e: ElementNode, x: string, y: string, opts: Option<Options>)
    requires e.children == [CharData(Text, x), CharData(CData, y)]
    ensures KeyField(e, CharKey("#text"), opts) == [Field("#text", Scalar(x))]
    ensures KeyField(e, CharKey("#cdata-section"), opts) == [Field("#cdata-section", Scalar(y))]
  {
    TextThenCDataGroups(e.children, x, y, opts);
  }

  lemma TextThenCDataKeys(kids: seq<Node>, x: string, y: string, opts: Option<Options>)
    requires kids == [CharData(Text, x), CharData(CData, y)]
    ensures FirstOccurrences(Keys(kids, opts)) == [CharKey("#text"), CharKey("#cdata-section")]
  {
    var t := CharKey("#text");
    var c := CharKey("#cdata-section");
    ChildQueriesCons(kids[0], [kids[1]], opts, "");
    ChildQueriesCons(kids[1], [], opts, "");
    assert [kids[1]] + [] == [kids[1]] && [kids[0]] + [kids[1]] == kids;
    assert Keys(kids, opts) == [t] + ([c] + []);
    UnseenCons(c, [], {t});
    UnseenCons(t, [c] + [], {});
    assert {} + {t} == {t};
    assert [t] + ([c] + []) == [t, c];
  }

  lemma TextThenCDataGroups(kids: seq<Node>, x: string, y: string, opts: Option<Options>)
    requires kids == [CharData(Text, x), CharData(CData, y)]
    ensures CharDataNamed(kids, "#text") == [x]
    ensures CharDataNamed(kids, "#cdata-section") == [y]
  {
    ChildQueriesCons(kids[0], [kids[1]], opts, "#text");
    ChildQueriesCons(kids[1], [], opts, "#text");
    ChildQueriesCons(kids[0], [kids[1]], opts, "#cdata-section");
    ChildQueriesCons(kids[1], [], opts, "#cdata-section");
    assert [kids[1]] + [] == [kids[1]] && [kids[0]] + [kids[1]] == kids;
  }

  /** The field of each group of `outerElem`. */
  lemma CDataField()
    ensures KeyField(Outer(), CharKey("#cdata-section"), None) == [CDataGroupField()]
  {
    OuterCharData(0, "#cdata-section");
    CDataGroup();
    ThreeScalars("Some CData Stuff", "Some Other CData Stuff", "A third line of CData Stuff");
  }

  lemma TextField()
    ensures KeyField(Outer(), CharKey("#text"), None) == [TextGroupField()]
  {
    OuterCharData(0, "#text");
    TextGroup();
    TwoScalars("\r\n\t\tsomeWords", "\r\n\t\tMore Words\r\n\t\t");
  }

  lemma InnerField()
    ensures KeyField(Outer(), ElementKey("innerElem"), None) == [InnerGroupField()]
  {
    OuterElements(0, "innerElem");
    InnerGroup();
    InnerIsChild();
    RepeatedMemberValues(Outer(), Inner(), None);
  }

  lemma InnerIsChild()
    ensures Inner() in Outer().children
  {
    assert OuterFrom(2)[0] == Inner();
    assert OuterFrom(0)[2] == OuterFrom(2)[0];
  }

  /** The member values of a group listing the same element twice. */
  lemma RepeatedMemberValues(e: ElementNode, m: Node, opts: Option<Options>)
    requires m in e.children && m.Element?
    ensures MemberValues(e, [m, m], opts) == [ElementValue(m, opts), ElementValue(m, opts)]
  {
    assert [m, m][1..] == [m];
    assert [m][1..] == [];
  }

  /** A two-value character-data group read back as scalars. */
  lemma TwoScalars(a: string, b: string)
    ensures Scalars([a, b]) == [Scalar(a), Scalar(b)]
  {
  }

  /** A three-value character-data group read back as scalars. */
  lemma ThreeScalars(a: string, b: string, c: string)
    ensures Scalars([a, b, c]) == [Scalar(a), Scalar(b), Scalar(c)]
  {
  }

  lemma Inner2Field()
    ensures KeyField(Outer(), ElementKey("innerElem2"), None) == [Inner2GroupField()]
  {
    OuterElements(0, "innerElem2");
    Inner2Group();
  }

  lemma TommyField()
    ensures KeyField(Outer(), ElementKey("tommy"), None) == [TommyGroupField()]
  {
    OuterElements(0, "tommy");
    TommyGroup();
    TommyValue();
  }

  /** `KeyFields` over the five distinct keys of `outerElem`, split into
      the field of each key, so that each can be computed on its own. */
  lemma KeyFieldsOfFive(e: ElementNode, k0: Key, k1: Key, k2: Key, k3: Key, k4: Key, opts: Option<Options>)
    ensures KeyFields(e, [k0, k1, k2, k3, k4], opts)
         == KeyField(e, k0, opts) + (KeyField(e, k1, opts) + (KeyField(e, k2, opts)
            + (KeyField(e, k3, opts) + (KeyField(e, k4, opts) + []))))
  {
    assert [k0, k1, k2, k3, k4] == [k0] + ([k1] + ([k2] + ([k3] + ([k4] + []))));
    KeyFieldsCons(e, k4, [], opts);
    KeyFieldsCons(e, k3, [k4] + [], opts);
    KeyFieldsCons(e, k2, [k3] + ([k4] + []), opts);
    KeyFieldsCons(e, k1, [k2] + ([k3] + ([k4] + [])), opts);
    KeyFieldsCons(e, k0, [k1] + ([k2] + ([k3] + ([k4] + []))), opts);
  }

  /** Any element whose groups have the fields of `outerElem`'s groups
      has `outerElem`'s group fields (stated for an arbitrary element so
      that the solver does not expand the fixture). */
  lemma OuterGroupFields(e: ElementNode, opts: Option<Options>)
    requires KeyField(e, CharKey("#cdata-section"), opts) == [CDataGroupField()]
    requires KeyField(e, ElementKey("innerElem"), opts) == [InnerGroupField()]
    requires KeyField(e, CharKey("#text"), opts) == [TextGroupField()]
    requires KeyField(e, ElementKey("innerElem2"), opts) == [Inner2GroupField()]
    requires KeyField(e, ElementKey("tommy"), opts) == [TommyGroupField()]
    ensures KeyFields(e, OuterKeys(), opts)
         == [CDataGroupField(), InnerGroupField(), TextGroupField(), Inner2GroupField(), TommyGroupField()]
  {
    KeyFieldsOfFive(e, CharKey("#cdata-section"), ElementKey("innerElem"), CharKey("#text"),
                    ElementKey("innerElem2"), ElementKey("tommy"), opts);
  }

  /** An element with `outerElem`'s attributes, key order and group
      fields has the expected value (stated for an arbitrary element so
      that the solver does not expand the fixture). */
  lemma OuterValueOf(e: ElementNode, opts: Option<Options>)
    requires e.attrs == [Attribute("outerElem", "hi"), Attribute("innerElem", "blarg")]
    requires FirstOccurrences(Keys(e.children, opts)) == OuterKeys()
    requires KeyFields(e, OuterKeys(), opts)
          == [CDataGroupField(), InnerGroupField(), TextGroupField(), Inner2GroupField(), TommyGroupField()]
    ensures ElementValue(e, opts) == ExpectedOuter()
  {
    TwoAttributes(e.attrs[0], e.attrs[1]);
    assert "@" + "outerElem" == "@outerElem";
    assert "@" + "innerElem" == "@innerElem";
  }

  lemma OuterValue()
    ensures ElementValue(Outer(), None) == ExpectedOuter()
  {
    CDataField();
    InnerField();
    TextField();
    Inner2Field();
    TommyField();
    OuterGroupFields(Outer(), None);
    OuterKeyOrder();
    OuterValueOf(Outer(), None);
  }

  lemma TwoAttributes(a: Attribute, b: Attribute)
    ensures AttributeFieldList([a, b]) == [Field("@" + a.name, Scalar(a.value)), Field("@" + b.name, Scalar(b.value))]
  {
  }

  lemma RootValue()
    ensures ElementValue(Root(), None) == Doc([Field("outerElem", ExpectedOuter())])
  {
    OuterValue();
    LoneChildValue(Root(), Outer(), None);
  }

  /** An element with no attributes whose only child is an element holds
      one field, named after the child, with the child's value. */
  lemma LoneChildValue(r: ElementNode, c: ElementNode, opts: Option<Options>)
    requires r.attrs == [] && r.children == [c]
    ensures ElementValue(r, opts) == Doc([Field(c.name, ElementValue(c, opts))])
  {
    var k := ElementKey(c.name);
    LoneChildKeys(c, opts);
    LoneChildField(r, c, opts);
    KeyFieldsCons(r, k, [], opts);
    assert [k] + [] == [k];
    assert !IsShortcut(r) && AttributeFieldList(r.attrs) == [];
    assert KeyFields(r, [k], opts) == [Field(c.name, ElementValue(c, opts))];
  }

  /** The one key of a lone element child. */
  lemma LoneChildKeys(c: ElementNode, opts: Option<Options>)
    ensures FirstOccurrences(Keys([c], opts)) == [ElementKey(c.name)]
  {
    var k := ElementKey(c.name);
    ChildQueriesCons(c, [], opts, c.name);
    assert [c] + [] == [c];
    assert Keys([c], opts) == [k];
    UnseenCons(k, [], {});
  }

  /** The field of a lone element child. */
  lemma LoneChildField(r: ElementNode, c: ElementNode, opts: Option<Options>)
    requires r.children == [c]
    ensures KeyField(r, ElementKey(c.name), opts) == [Field(c.name, ElementValue(c, opts))]
  {
    ChildQueriesCons(c, [], opts, c.name);
    assert [c] + [] == [c];
    assert ElementsNamed([c], c.name) == [c];
  }

  // ---------------------------------------------------------------------
  // The fixture is within the theorem's hypotheses

  lemma OuterRegular()
    ensures Regular(Outer())
  {
    OuterChildrenShape(0);
    OuterElements(0, "innerElem");
    OuterElements(0, "innerElem2");
    OuterElements(0, "tommy");
    InnerGroup();
    Inner2Group();
    TommyGroup();
    RegularOf(Outer());
  }

  /** An element with content whose element children are the fixture's
      leaves, grouped as in `outerElem`, is regular (stated for an
      arbitrary element so that the solver does not expand the fixture). */
  lemma RegularOf(e: ElementNode)
    requires HasContent(e)
    requires forall c :: c in e.children ==> c.CharData? || c == Inner() || c == Inner2() || c == Tommy()
    requires ElementsNamed(e.children, "innerElem") == [Inner(), Inner()]
    requires ElementsNamed(e.children, "innerElem2") == [Inner2()]
    requires ElementsNamed(e.children, "tommy") == [Tommy()]
    ensures Regular(e)
  {
    LeavesRegular();
  }

  lemma OuterSupported()
    ensures !HasUnsupported(Outer())
  {
    OuterChildrenShape(0);
    LeavesRegular();
  }

  lemma FixtureRegular()
    ensures Regular(Root())
  {
    OuterRegular();
    ChildQueriesCons(Outer(), [], None, "outerElem");
    LoneChildRegular(Root(), Outer());
  }

  /** An element whose only child is a regular element is regular. */
  lemma LoneChildRegular(r: ElementNode, c: ElementNode)
    requires r.children == [c] && Regular(c)
    ensures Regular(r)
  {
    ChildQueriesCons(c, [], None, c.name);
    assert [c] + [] == [c];
  }

  lemma FixtureSupported()
    ensures !HasUnsupported(Root())
  {
    OuterSupported();
  }
}
