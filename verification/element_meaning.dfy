/** The document an element stands for, and when the element walk writes
    exactly that document. */
module ElementMeaning {
  import opened Wrappers
  import opened XmlDom
  import opened XmlOptions
  import opened BsonTrace
  import opened Grouping
  import opened XmlSerializer
  import opened Traversal

  /** The `@` fields of the attributes, in order. */
  function AttributeFieldList(attrs: seq<Attribute>): (r: seq<Field>)
    ensures |r| == |attrs|
    ensures forall i :: 0 <= i < |attrs| ==> r[i] == Field("@" + attrs[i].name, Scalar(attrs[i].value))
  {
    seq(|attrs|, i requires 0 <= i < |attrs| => Field("@" + attrs[i].name, Scalar(attrs[i].value)))
  }

  function Scalars(values: seq<string>): (r: seq<Value>)
    ensures |r| == |values| && forall j :: 0 <= j < |values| ==> r[j] == Scalar(values[j])
  {
    seq(|values|, j requires 0 <= j < |values| => Scalar(values[j]))
  }

  /** The value of an element: its text when it is shortcut-shaped, else a
      document of its attribute fields followed by one field per distinct
      child key, in order of first occurrence. */
  function ElementValue(e: ElementNode, opts: Option<Options>): Value
    decreases e, 1
  {
    if IsShortcut(e) then Scalar(e.children[0].value)
    else Doc(AttributeFieldList(e.attrs) + KeyFields(e, FirstOccurrences(Keys(e.children, opts)), opts))
  }

  function KeyFields(e: ElementNode, ks: seq<Key>, opts: Option<Options>): seq<Field>
    decreases e, 0, |ks|
  {
    if |ks| == 0 then [] else KeyField(e, ks[0], opts) + KeyFields(e, ks[1..], opts)
  }

  lemma KeyFieldsCons(e: ElementNode, k: Key, ks: seq<Key>, opts: Option<Options>)
    ensures KeyFields(e, [k] + ks, opts) == KeyField(e, k, opts) + KeyFields(e, ks, opts)
  {
    assert ([k] + ks)[0] == k;
    assert ([k] + ks)[1..] == ks;
  }

  /** The field of one group: an array when the group has two or more
      members, else the single member's value. */
  function KeyField(e: ElementNode, k: Key, opts: Option<Options>): seq<Field>
    decreases e, 0, 0
  {
    match k
    case ElementKey(n) =>
      var members := ElementsNamed(e.children, n);
      ElementsNamedMembers(e.children, n);
      if |members| > 1 then [Field(n, Array(MemberValues(e, members, opts)))]
      else if |members| == 1 then [Field(n, ElementValue(members[0], opts))]
      else []
    case CharKey(n) =>
      var values := CharDataNamed(e.children, n);
      if |values| > 1 then [Field(n, Array(Scalars(values)))]
      else if |values| == 1 then [Field(n, Scalar(values[0]))]
      else []
    case UnsupportedKey(_, _) => []
  }

  function MemberValues(e: ElementNode, members: seq<Node>, opts: Option<Options>): (r: seq<Value>)
    requires forall m :: m in members ==> m in e.children && m.Element?
    ensures |r| == |members|
    decreases e, 0, 0, |members|
  {
    if |members| == 0 then [] else [ElementValue(members[0], opts)] + MemberValues(e, members[1..], opts)
  }

  /** The trees the element walk writes well-nested calls for: no element is
      empty, and every element with a same-named sibling is shortcut-shaped. */
  predicate Regular(e: ElementNode)
    decreases e
  {
    && HasContent(e)
    && forall c :: c in e.children && c.Element? ==>
         && Regular(c)
         && (|ElementsNamed(e.children, c.name)| > 1 ==> IsShortcut(c))
  }

  lemma AttributeFieldsEncode(attrs: seq<Attribute>)
    ensures AttributeFields(attrs) == EncodeFields(AttributeFieldList(attrs))
    decreases |attrs|
  {
    if |attrs| > 0 {
      AttributeFieldsEncode(attrs[1..]);
      var fl := AttributeFieldList(attrs);
      assert fl[1..] == AttributeFieldList(attrs[1..]);
      assert EncodeField(fl[0]) == SerializeAttribute(attrs[0]);
      assert AttributeFields(attrs) == SerializeAttribute(attrs[0]) + AttributeFields(attrs[1..]);
    }
  }

  lemma StringsEncode(values: seq<string>)
    ensures Strings(values) == EncodeItems(Scalars(values))
    decreases |values|
  {
    if |values| > 0 {
      StringsEncode(values[1..]);
      assert Scalars(values)[1..] == Scalars(values[1..]);
      assert Strings(values) == [Str(values[0])] + Strings(values[1..]);
    }
  }

  lemma EncodeSingleField(f: Field)
    ensures EncodeFields([f]) == EncodeField(f)
  {
    assert [f][1..] == [];
  }

  /** Members of an array group of a regular element are shortcut-shaped,
      so each writes its bare text, which is the encoding of its value. */
  lemma {:induction false} ArrayMembersEncode(e: ElementNode, members: seq<Node>, opts: Option<Options>)
    requires forall m :: m in members ==> m in e.children && m.Element?
    requires forall m :: m in members ==> IsShortcut(m)
    ensures ArrayMembers(e, members, opts) == Ok(EncodeItems(MemberValues(e, members, opts)))
    decreases |members|
  {
    if |members| > 0 {
      assert members[0] in members;
      ArrayMembersEncode(e, members[1..], opts);
      assert MemberValues(e, members, opts)[1..] == MemberValues(e, members[1..], opts);
    }
  }

  /** A regular element with no unsupported node below it is written as the
      field `name: ElementValue(e)`. */
  lemma {:induction false} ElementEncodes(e: ElementNode, opts: Option<Options>)
    requires Regular(e) && !HasUnsupported(e)
    ensures SerializeXmlElement(e, opts) == Ok(EncodeField(Field(e.name, ElementValue(e, opts))))
    decreases e, 2
  {
    if !IsShortcut(e) {
      var ks := FirstOccurrences(Keys(e.children, opts));
      TraversalIsFirstOccurrenceGrouping(e, opts);
      KeysOfSupportedChildren(e, opts);
      EmitKeysEncode(e, ks, opts);
      AttributeFieldsEncode(e.attrs);
      ComposeElement(e, KeyFields(e, ks, opts), opts);
    } else {
      assert ElementValue(e, opts) == Scalar(e.children[0].value);
      assert EncodeField(Field(e.name, Scalar(e.children[0].value))) == WriteString(e.name, e.children[0].value);
    }
  }

  /** Puts the attribute fields and the child fields of a non-shortcut
      element together into the field the element walk writes. */
  lemma ComposeElement(e: ElementNode, childFields: seq<Field>, opts: Option<Options>)
    requires !IsShortcut(e) && HasContent(e)
    requires childFields == KeyFields(e, FirstOccurrences(Keys(e.children, opts)), opts)
    requires ChildNodesLoop(e, 0, [], [], opts) == Ok(EncodeFields(childFields))
    requires AttributeFields(e.attrs) == EncodeFields(AttributeFieldList(e.attrs))
    ensures SerializeXmlElement(e, opts) == Ok(EncodeField(Field(e.name, ElementValue(e, opts))))
  {
    var attrFields := AttributeFieldList(e.attrs);
    var fs := attrFields + childFields;
    WalkShape(e, EncodeFields(childFields), opts);
    EncodeFieldsAppend(attrFields, childFields);
    assert ElementValue(e, opts) == Doc(fs);
    EncodeDocField(e.name, fs);
    Regroup(Name(e.name), StartDoc, EndDoc, AttributeFields(e.attrs), EncodeFields(childFields));
  }

  /** The calls of a field whose value is a document. */
  lemma EncodeDocField(name: string, fs: seq<Field>)
    ensures EncodeField(Field(name, Doc(fs))) == [Name(name)] + ([StartDoc] + EncodeFields(fs) + [EndDoc])
  {
  }

  /** Re-associates an element's calls (name, opened document holding the
      attribute and child calls, closing call) into the shape of an encoded
      document field. */
  lemma Regroup<T>(x: T, y: T, z: T, a: seq<T>, b: seq<T>)
    ensures [x] + ([y] + a + b) + [z] == [x] + ([y] + (a + b) + [z])
  {
    assert [y] + a + b == [y] + (a + b);
  }

  /** The keys of an element with no unsupported child are element and
      character-data keys. */
  lemma KeysOfSupportedChildren(e: ElementNode, opts: Option<Options>)
    requires !HasUnsupported(e)
    ensures forall k :: k in FirstOccurrences(Keys(e.children, opts)) ==> !k.UnsupportedKey?
  {
    forall k | k in FirstOccurrences(Keys(e.children, opts))
      ensures !k.UnsupportedKey?
    {
      assert k in Keys(e.children, opts);
      var j :| 0 <= j < |e.children| && !Dropped(e.children[j], opts) && KeyOf(e.children[j]) == k;
      assert e.children[j] in e.children;
    }
  }

  /** The calls of the element walk around a traversal that succeeded. */
  lemma WalkShape(e: ElementNode, out: seq<Event>, opts: Option<Options>)
    requires !IsShortcut(e) && HasContent(e)
    requires ChildNodesLoop(e, 0, [], [], opts) == Ok(out)
    ensures SerializeXmlElement(e, opts)
         == Ok([Name(e.name)] + ([StartDoc] + AttributeFields(e.attrs) + out) + [EndDoc])
  {
  }

  lemma {:induction false} EmitKeysEncode(e: ElementNode, ks: seq<Key>, opts: Option<Options>)
    requires Regular(e) && !HasUnsupported(e)
    requires forall k :: k in ks ==> !k.UnsupportedKey?
    ensures EmitKeys(e, ks, opts) == Ok(EncodeFields(KeyFields(e, ks, opts)))
    decreases e, 1, |ks|
  {
    if |ks| > 0 {
      assert ks[0] in ks;
      EmitKeyEncode(e, ks[0], opts);
      EmitKeysEncode(e, ks[1..], opts);
      EncodeFieldsAppend(KeyField(e, ks[0], opts), KeyFields(e, ks[1..], opts));
    }
  }

  lemma {:induction false} EmitKeyEncode(e: ElementNode, k: Key, opts: Option<Options>)
    requires Regular(e) && !HasUnsupported(e) && !k.UnsupportedKey?
    ensures EmitKey(e, k, opts) == Ok(EncodeFields(KeyField(e, k, opts)))
    decreases e, 0
  {
    match k
    case ElementKey(n) =>
      ElementKeyEncode(e, n, opts);
    case CharKey(n) =>
      CharKeyEncode(e, n, opts);
  }

  lemma {:induction false} ElementKeyEncode(e: ElementNode, n: string, opts: Option<Options>)
    requires Regular(e) && !HasUnsupported(e)
    ensures EmitKey(e, ElementKey(n), opts) == Ok(EncodeFields(KeyField(e, ElementKey(n), opts)))
    decreases e, 0, 0
  {
    var members := ElementsNamed(e.children, n);
    ElementsNamedMembers(e.children, n);
    if |members| > 1 {
      forall m | m in members
        ensures IsShortcut(m)
      {
      }
      ArrayMembersEncode(e, members, opts);
      var items := EncodeItems(MemberValues(e, members, opts));
      EncodeSingleField(Field(n, Array(MemberValues(e, members, opts))));
      assert [Name(n), StartArr] + items + [EndArr] == [Name(n)] + ([StartArr] + items + [EndArr]);
    } else if |members| == 1 {
      var m := members[0];
      assert m in members;
      ElementEncodes(m, opts);
      EncodeSingleField(Field(n, ElementValue(m, opts)));
    }
  }

  lemma CharKeyEncode(e: ElementNode, n: string, opts: Option<Options>)
    ensures EmitKey(e, CharKey(n), opts) == Ok(EncodeFields(KeyField(e, CharKey(n), opts)))
  {
    var values := CharDataNamed(e.children, n);
    if |values| > 1 {
      StringsEncode(values);
      EncodeSingleField(Field(n, Array(Scalars(values))));
      var items := Strings(values);
      assert [Name(n), StartArr] + items + [EndArr] == [Name(n)] + ([StartArr] + items + [EndArr]);
    } else if |values| == 1 {
      EncodeSingleField(Field(n, Scalar(values[0])));
      assert EncodeField(Field(n, Scalar(values[0]))) == WriteString(n, values[0]);
    }
  }


  /** A document whose root element is regular and holds no unsupported
      node is written as a top-level document that reads back as the single
      field `root: ElementValue(root)`. */
  lemma DocumentEncodes(d: Document, opts: Option<Options>)
    requires d.documentElement.Some?
    requires Regular(d.documentElement.value) && !HasUnsupported(d.documentElement.value)
    ensures var root := d.documentElement.value;
            var fields := [Field(root.name, ElementValue(root, opts))];
            SerializeDocument(d, opts) == Ok(EncodeValue(Doc(fields)))
            && DecodeDocument(SerializeDocument(d, opts).value) == Some(fields)
  {
    var root := d.documentElement.value;
    var fields := [Field(root.name, ElementValue(root, opts))];
    ElementEncodes(root, opts);
    EncodeSingleField(fields[0]);
    DecodeEncodeDocument(fields);
  }
}
