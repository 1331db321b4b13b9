/** When the element walk throws: exactly when some node below the element
    is neither an element nor character data, and then always with a
    `NotImplementedException` that carries a message. */
module Failure {
  import opened Wrappers
  import opened XmlDom
  import opened XmlOptions
  import opened Grouping
  import opened XmlSerializer
  import opened Traversal

  /** The only exception the element walk raises. */
  predicate WalkError(err: Error) {
    err.NotImplemented? && err.message.Some?
  }

  /** A group whose emission throws: the group of an unsupported node, or an
      element group with a member that has an unsupported node below it. */
  predicate KeyFails(e: ElementNode, k: Key) {
    || k.UnsupportedKey?
    || (k.ElementKey? && exists m :: m in e.children && m.Element? && m.name == k.name && HasUnsupported(m))
  }

  /** The element walk fails if and only if an unsupported node occurs
      somewhere below the element, and the failure is `NotImplemented`
      with a message. */
  lemma {:induction false} ElementFails(e: ElementNode, opts: Option<Options>)
    ensures SerializeXmlElement(e, opts).Err? <==> HasUnsupported(e)
    ensures SerializeXmlElement(e, opts).Err? ==> WalkError(SerializeXmlElement(e, opts).error)
    decreases e, 3
  {
    ChildNodesFails(e, opts);
  }

  /** The same for the child-node part, which array members go through. */
  lemma {:induction false} ChildNodesFails(e: ElementNode, opts: Option<Options>)
    ensures SerializeXmlElementChildNodes(e, opts).Err? <==> HasUnsupported(e)
    ensures SerializeXmlElementChildNodes(e, opts).Err? ==> WalkError(SerializeXmlElementChildNodes(e, opts).error)
    decreases e, 2
  {
    if IsShortcut(e) {
      assert e.children == [e.children[0]];
      assert !HasUnsupported(e);
    } else if HasContent(e) {
      var ks := FirstOccurrences(Keys(e.children, opts));
      TraversalIsFirstOccurrenceGrouping(e, opts);
      EmitKeysFails(e, ks, opts);
      SomeKeyFailsIffUnsupported(e, opts);
    } else {
      assert !HasUnsupported(e);
    }
  }

  /** The unsupported nodes below `e` are what make some group of its
      first-occurrence key list fail. */
  lemma SomeKeyFailsIffUnsupported(e: ElementNode, opts: Option<Options>)
    ensures (exists k :: k in FirstOccurrences(Keys(e.children, opts)) && KeyFails(e, k)) <==> HasUnsupported(e)
  {
    if HasUnsupported(e) {
      UnsupportedMakesKeyFail(e, opts);
    }
    if exists k :: k in FirstOccurrences(Keys(e.children, opts)) && KeyFails(e, k) {
      var k :| k in FirstOccurrences(Keys(e.children, opts)) && KeyFails(e, k);
      FailingKeyIsUnsupported(e, k, opts);
    }
  }

  lemma UnsupportedMakesKeyFail(e: ElementNode, opts: Option<Options>)
    requires HasUnsupported(e)
    ensures exists k :: k in FirstOccurrences(Keys(e.children, opts)) && KeyFails(e, k)
  {
    var kids := e.children;
    var c :| c in kids && (c.Other? || (c.Element? && HasUnsupported(c)));
    var j :| 0 <= j < |kids| && kids[j] == c;
    assert !Dropped(kids[j], opts);
    assert KeyOf(c) in Keys(kids, opts);
    assert KeyFails(e, KeyOf(c));
  }

  lemma FailingKeyIsUnsupported(e: ElementNode, k: Key, opts: Option<Options>)
    requires k in FirstOccurrences(Keys(e.children, opts)) && KeyFails(e, k)
    ensures HasUnsupported(e)
  {
    var kids := e.children;
    assert k in Keys(kids, opts);
    var j :| 0 <= j < |kids| && !Dropped(kids[j], opts) && KeyOf(kids[j]) == k;
    assert kids[j] in kids;
    if k.ElementKey? {
      var m :| m in kids && m.Element? && m.name == k.name && HasUnsupported(m);
    } else {
      assert kids[j].Other?;
    }
  }

  /** Emitting a list of groups fails exactly when one of them fails. */
  lemma {:induction false} EmitKeysFails(e: ElementNode, ks: seq<Key>, opts: Option<Options>)
    ensures EmitKeys(e, ks, opts).Err? <==> exists k :: k in ks && KeyFails(e, k)
    ensures EmitKeys(e, ks, opts).Err? ==> WalkError(EmitKeys(e, ks, opts).error)
    decreases e, 1, |ks|
  {
    if |ks| > 0 {
      EmitKeyFails(e, ks[0], opts);
      EmitKeysFails(e, ks[1..], opts);
      assert forall k :: k in ks <==> k == ks[0] || k in ks[1..];
    }
  }

  /** One group fails exactly when `KeyFails` says so. */
  lemma {:induction false} EmitKeyFails(e: ElementNode, k: Key, opts: Option<Options>)
    ensures EmitKey(e, k, opts).Err? <==> KeyFails(e, k)
    ensures EmitKey(e, k, opts).Err? ==> WalkError(EmitKey(e, k, opts).error)
    decreases e, 0, 1
  {
    match k
    case ElementKey(n) =>
      var members := ElementsNamed(e.children, n);
      ElementsNamedMembers(e.children, n);
      if |members| > 1 {
        ArrayMembersFails(e, members, opts);
      } else if |members| == 1 {
        var m := members[0];
        assert m in members;
        ElementFails(m, opts);
        assert forall x :: x in e.children && x.Element? && x.name == n ==> x == m;
      } else {
        assert forall x :: x in e.children && x.Element? && x.name == n ==> x in members;
      }
    case CharKey(_) =>
    case UnsupportedKey(_, _) =>
  }

  /** The members of an array group fail exactly when one of them has an
      unsupported node below it. */
  lemma {:induction false} ArrayMembersFails(e: ElementNode, members: seq<Node>, opts: Option<Options>)
    requires forall m :: m in members ==> m in e.children && m.Element?
    ensures ArrayMembers(e, members, opts).Err? <==> exists m :: m in members && m.Element? && HasUnsupported(m)
    ensures ArrayMembers(e, members, opts).Err? ==> WalkError(ArrayMembers(e, members, opts).error)
    decreases e, 0, 0, |members|
  {
    if |members| > 0 {
      assert members[0] in members;
      ChildNodesFails(members[0], opts);
      ArrayMembersFails(e, members[1..], opts);
      assert forall m :: m in members <==> m == members[0] || m in members[1..];
    }
  }

  /** A document fails exactly when it has no root element (null
      dereference) or its root element has an unsupported node below it. */
  lemma DocumentFails(d: Document, opts: Option<Options>)
    ensures SerializeDocument(d, opts).Err? <==>
              d.documentElement.None? || HasUnsupported(d.documentElement.value)
    ensures d.documentElement.None? ==> SerializeDocument(d, opts) == Err(NullReference)
    ensures d.documentElement.Some? && SerializeDocument(d, opts).Err? ==> WalkError(SerializeDocument(d, opts).error)
  {
    if d.documentElement.Some? {
      ElementFails(d.documentElement.value, opts);
    }
  }

  /** `o` is a node of class `Other` somewhere below `e`. */
  predicate UnsupportedBelow(e: ElementNode, o: Node)
    decreases e
  {
    exists c :: c in e.children && ((c == o && o.Other?) || (c.Element? && UnsupportedBelow(c, o)))
  }

  /** `err` is the exception raised for some unsupported node below `e`:
      its message names that node's run-time class and markup. */
  ghost predicate NamesUnsupportedNode(e: ElementNode, err: Error) {
    exists o :: UnsupportedBelow(e, o) && o.Other? &&
                err == NotImplemented(Some(UnsupportedNodeMessage(o.typeName, o.outerXml)))
  }

  /** Whenever the element walk fails, the message names the run-time class
      and the markup of an unsupported node below the element. */
  lemma {:induction false} ElementFailureNamesNode(e: ElementNode, opts: Option<Options>)
    ensures SerializeXmlElement(e, opts).Err? ==> NamesUnsupportedNode(e, SerializeXmlElement(e, opts).error)
    decreases e, 3
  {
    ChildNodesFailureNamesNode(e, opts);
  }

  lemma {:induction false} ChildNodesFailureNamesNode(e: ElementNode, opts: Option<Options>)
    ensures SerializeXmlElementChildNodes(e, opts).Err? ==> NamesUnsupportedNode(e, SerializeXmlElementChildNodes(e, opts).error)
    decreases e, 2
  {
    if !IsShortcut(e) && HasContent(e) {
      var ks := FirstOccurrences(Keys(e.children, opts));
      TraversalIsFirstOccurrenceGrouping(e, opts);
      EmitKeysFailureNamesNode(e, ks, opts);
    }
  }

  lemma {:induction false} EmitKeysFailureNamesNode(e: ElementNode, ks: seq<Key>, opts: Option<Options>)
    requires forall k :: k in ks ==> k in Keys(e.children, opts)
    ensures EmitKeys(e, ks, opts).Err? ==> NamesUnsupportedNode(e, EmitKeys(e, ks, opts).error)
    decreases e, 1, |ks|
  {
    if |ks| > 0 {
      assert ks[0] in ks;
      EmitKeyFailureNamesNode(e, ks[0], opts);
      EmitKeysFailureNamesNode(e, ks[1..], opts);
    }
  }

  lemma {:induction false} EmitKeyFailureNamesNode(e: ElementNode, k: Key, opts: Option<Options>)
    requires k in Keys(e.children, opts)
    ensures EmitKey(e, k, opts).Err? ==> NamesUnsupportedNode(e, EmitKey(e, k, opts).error)
    decreases e, 0, 1
  {
    var kids := e.children;
    match k
    case ElementKey(n) =>
      var members := ElementsNamed(kids, n);
      ElementsNamedMembers(kids, n);
      if |members| > 1 {
        ArrayMembersFailureNamesNode(e, members, opts);
      } else if |members| == 1 {
        var m := members[0];
        assert m in members;
        ElementFailureNamesNode(m, opts);
        if SerializeXmlElement(m, opts).Err? {
          var o :| UnsupportedBelow(m, o) && o.Other? &&
                   SerializeXmlElement(m, opts).error == NotImplemented(Some(UnsupportedNodeMessage(o.typeName, o.outerXml)));
          assert UnsupportedBelow(e, o);
        }
      }
    case CharKey(_) =>
    case UnsupportedKey(t, x) =>
      var j :| 0 <= j < |kids| && !Dropped(kids[j], opts) && KeyOf(kids[j]) == k;
      assert kids[j] == Other(t, x) && kids[j] in kids;
      assert UnsupportedBelow(e, kids[j]);
  }

  lemma {:induction false} ArrayMembersFailureNamesNode(e: ElementNode, members: seq<Node>, opts: Option<Options>)
    requires forall m :: m in members ==> m in e.children && m.Element?
    ensures ArrayMembers(e, members, opts).Err? ==> NamesUnsupportedNode(e, ArrayMembers(e, members, opts).error)
    decreases e, 0, 0, |members|
  {
    if |members| > 0 {
      var m := members[0];
      assert m in members;
      ChildNodesFailureNamesNode(m, opts);
      ArrayMembersFailureNamesNode(e, members[1..], opts);
      if SerializeXmlElementChildNodes(m, opts).Err? {
        var o :| UnsupportedBelow(m, o) && o.Other? &&
                 SerializeXmlElementChildNodes(m, opts).error == NotImplemented(Some(UnsupportedNodeMessage(o.typeName, o.outerXml)));
        assert UnsupportedBelow(e, o);
      }
    }
  }

  /** The exception's message names the run-time class and the markup of
      the unsupported node the traversal meets: here, the first child. */
  lemma FirstChildUnsupported(e: ElementNode, opts: Option<Options>)
    requires |e.children| > 0 && e.children[0].Other?
    ensures SerializeXmlElement(e, opts)
         == Err(NotImplemented(Some(UnsupportedNodeMessage(e.children[0].typeName, e.children[0].outerXml))))
  {
    var err := NotImplemented(Some(UnsupportedNodeMessage(e.children[0].typeName, e.children[0].outerXml)));
    assert ChildNodesLoop(e, 0, [], [], opts) == Err(err);
    assert SerializeXmlElementChildNodes(e, opts) == Err(err);
  }
}
