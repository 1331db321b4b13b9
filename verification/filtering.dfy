/** The children the traversal skips: comments unless the options ask for
    them, and whitespace of both kinds always. Skipped children leave no
    trace in the traversal's output. */
module Filtering {
  import opened Wrappers
  import opened XmlDom
  import opened XmlOptions
  import opened Grouping
  import opened XmlSerializer
  import opened Traversal

  /** Whether character data of class `k` survives the filter. */
  predicate KindKept(k: CharKind, opts: Option<Options>) {
    !(k == Comment && !CommentsOn(opts)) && k != Whitespace && k != SignificantWhitespace
  }

  /** Some child is a comment. */
  predicate HasComment(kids: seq<Node>) {
    exists j :: 0 <= j < |kids| && kids[j].CharData? && kids[j].kind == Comment
  }

  /** A comment group appears among the keys exactly when comments are
      asked for and some child is a comment. */
  lemma CommentKeyIff(kids: seq<Node>, opts: Option<Options>)
    ensures CharKey(CharName(Comment)) in Keys(kids, opts) <==> CommentsOn(opts) && HasComment(kids)
  {
    if CharKey(CharName(Comment)) in Keys(kids, opts) {
      CommentKeyHasSource(kids, opts);
    }
    if CommentsOn(opts) && HasComment(kids) {
      var j :| 0 <= j < |kids| && kids[j].CharData? && kids[j].kind == Comment;
      assert !Dropped(kids[j], opts) && KeyOf(kids[j]) == CharKey(CharName(Comment));
    }
  }

  lemma CommentKeyHasSource(kids: seq<Node>, opts: Option<Options>)
    requires CharKey(CharName(Comment)) in Keys(kids, opts)
    ensures CommentsOn(opts) && HasComment(kids)
  {
    var j :| 0 <= j < |kids| && !Dropped(kids[j], opts) && KeyOf(kids[j]) == CharKey(CharName(Comment));
    CharNameInjective(kids[j].kind, Comment);
  }

  /** Whitespace of either kind never forms a group, whatever the options. */
  lemma WhitespaceNeverKeyed(kids: seq<Node>, opts: Option<Options>)
    ensures CharKey(CharName(Whitespace)) !in Keys(kids, opts)
    ensures CharKey(CharName(SignificantWhitespace)) !in Keys(kids, opts)
  {
    forall j | 0 <= j < |kids| && !Dropped(kids[j], opts) && kids[j].CharData?
      ensures KeyOf(kids[j]) != CharKey(CharName(Whitespace))
      ensures KeyOf(kids[j]) != CharKey(CharName(SignificantWhitespace))
    {
      CharNameInjective(kids[j].kind, Whitespace);
      CharNameInjective(kids[j].kind, SignificantWhitespace);
    }
  }

  lemma {:induction false} KeysAppend(a: seq<Node>, b: seq<Node>, opts: Option<Options>)
    ensures Keys(a + b, opts) == Keys(a, opts) + Keys(b, opts)
    decreases |a|
  {
    if |a| > 0 {
      assert (a + b)[0] == a[0];
      assert (a + b)[1..] == a[1..] + b;
      KeysAppend(a[1..], b, opts);
    } else {
      assert a + b == b;
    }
  }

  lemma {:induction false} ElementsNamedAppend(a: seq<Node>, b: seq<Node>, n: string)
    ensures ElementsNamed(a + b, n) == ElementsNamed(a, n) + ElementsNamed(b, n)
    decreases |a|
  {
    if |a| > 0 {
      assert (a + b)[0] == a[0];
      assert (a + b)[1..] == a[1..] + b;
      ElementsNamedAppend(a[1..], b, n);
    } else {
      assert a + b == b;
    }
  }

  lemma {:induction false} CharDataNamedAppend(a: seq<Node>, b: seq<Node>, n: string)
    ensures CharDataNamed(a + b, n) == CharDataNamed(a, n) + CharDataNamed(b, n)
    decreases |a|
  {
    if |a| > 0 {
      assert (a + b)[0] == a[0];
      assert (a + b)[1..] == a[1..] + b;
      CharDataNamedAppend(a[1..], b, n);
    } else {
      assert a + b == b;
    }
  }

  /** Skipping the dropped children first leaves the keys as they were. */
  lemma {:induction false} KeysOfKept(kids: seq<Node>, opts: Option<Options>)
    ensures Keys(Kept(kids, opts), opts) == Keys(kids, opts)
    decreases |kids|
  {
    if |kids| > 0 {
      var head := if Dropped(kids[0], opts) then [] else [kids[0]];
      KeysAppend(head, Kept(kids[1..], opts), opts);
      KeysOfKept(kids[1..], opts);
      assert head == [] || head[1..] == [];
    }
  }

  /** Only character data is dropped, so every element group is intact. */
  lemma {:induction false} ElementsNamedOfKept(kids: seq<Node>, n: string, opts: Option<Options>)
    ensures ElementsNamed(Kept(kids, opts), n) == ElementsNamed(kids, n)
    decreases |kids|
  {
    if |kids| > 0 {
      var head := if Dropped(kids[0], opts) then [] else [kids[0]];
      ElementsNamedAppend(head, Kept(kids[1..], opts), n);
      ElementsNamedOfKept(kids[1..], n, opts);
      assert head == [] || head[1..] == [];
    }
  }

  /** A character-data group of a kind that survives the filter is intact. */
  lemma {:induction false} CharDataNamedOfKept(kids: seq<Node>, k: CharKind, opts: Option<Options>)
    requires KindKept(k, opts)
    ensures CharDataNamed(Kept(kids, opts), CharName(k)) == CharDataNamed(kids, CharName(k))
    decreases |kids|
  {
    if |kids| > 0 {
      var head := if Dropped(kids[0], opts) then [] else [kids[0]];
      CharDataNamedAppend(head, Kept(kids[1..], opts), CharName(k));
      CharDataNamedOfKept(kids[1..], k, opts);
      if kids[0].CharData? {
        CharNameInjective(kids[0].kind, k);
      }
      assert head == [] || head[1..] == [];
    }
  }

  /** The calls of an array group do not depend on which element holds the
      members. */
  lemma {:induction false} ArrayMembersAnyHost(e1: ElementNode, e2: ElementNode, members: seq<Node>, opts: Option<Options>)
    requires forall m :: m in members ==> m in e1.children && m in e2.children && m.Element?
    ensures ArrayMembers(e1, members, opts) == ArrayMembers(e2, members, opts)
    decreases |members|
  {
    if |members| > 0 {
      ArrayMembersAnyHost(e1, e2, members[1..], opts);
    }
  }

  /** Each group of the original children is emitted the same way from the
      kept children. */
  lemma EmitKeyOfKept(e: ElementNode, k: Key, opts: Option<Options>)
    requires k in Keys(e.children, opts)
    ensures EmitKey(e, k, opts) == EmitKey(Element(e.name, e.attrs, Kept(e.children, opts)), k, opts)
  {
    var e' := Element(e.name, e.attrs, Kept(e.children, opts));
    match k
    case ElementKey(n) =>
      ElementsNamedOfKept(e.children, n, opts);
      var members := ElementsNamed(e.children, n);
      ElementsNamedMembers(e.children, n);
      ElementsNamedMembers(Kept(e.children, opts), n);
      if |members| > 1 {
        ArrayMembersAnyHost(e, e', members, opts);
      }
    case CharKey(n) =>
      var j :| 0 <= j < |e.children| && !Dropped(e.children[j], opts) && KeyOf(e.children[j]) == k;
      CharDataNamedOfKept(e.children, e.children[j].kind, opts);
    case UnsupportedKey(_, _) =>
  }

  lemma {:induction false} EmitKeysOfKept(e: ElementNode, ks: seq<Key>, opts: Option<Options>)
    requires forall k :: k in ks ==> k in Keys(e.children, opts)
    ensures EmitKeys(e, ks, opts) == EmitKeys(Element(e.name, e.attrs, Kept(e.children, opts)), ks, opts)
    decreases |ks|
  {
    if |ks| > 0 {
      assert ks[0] in ks;
      EmitKeyOfKept(e, ks[0], opts);
      EmitKeysOfKept(e, ks[1..], opts);
    }
  }

  /** Dropped children are invisible: the traversal writes the same calls
      for the children as for the children with the dropped ones removed. */
  lemma DroppedChildrenInvisible(e: ElementNode, opts: Option<Options>)
    ensures ChildNodesLoop(e, 0, [], [], opts)
         == ChildNodesLoop(Element(e.name, e.attrs, Kept(e.children, opts)), 0, [], [], opts)
  {
    var e' := Element(e.name, e.attrs, Kept(e.children, opts));
    var ks := FirstOccurrences(Keys(e.children, opts));
    TraversalIsFirstOccurrenceGrouping(e, opts);
    TraversalIsFirstOccurrenceGrouping(e', opts);
    KeysOfKept(e.children, opts);
    EmitKeysOfKept(e, ks, opts);
  }
}
