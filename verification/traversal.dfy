/** The child traversal of the element walk, restated without seen-lists:
    every distinct key among the kept children is emitted once, at its
    first occurrence, with its whole group. */
module Traversal {
  import opened Wrappers
  import opened XmlDom
  import opened XmlOptions
  import opened BsonTrace
  import opened Grouping
  import opened XmlSerializer

  /** The calls made for one whole group. */
  function EmitKey(e: ElementNode, k: Key, opts: Option<Options>): Result<seq<Event>, Error> {
    match k
    case ElementKey(n) =>
      var members := ElementsNamed(e.children, n);
      ElementsNamedMembers(e.children, n);
      if |members| > 1 then
        var items :- ArrayMembers(e, members, opts);
        Ok([Name(n), StartArr] + items + [EndArr])
      else if |members| == 1 then SerializeElement(members[0], opts)
      else Ok([])
    case CharKey(n) =>
      var values := CharDataNamed(e.children, n);
      if |values| > 1 then Ok([Name(n), StartArr] + Strings(values) + [EndArr])
      else if |values| == 1 then Ok(WriteString(n, values[0]))
      else Ok([])
    case UnsupportedKey(t, x) =>
      Err(NotImplemented(Some(UnsupportedNodeMessage(t, x))))
  }

  /** The groups of `ks` in turn, stopping at the first failure. */
  function EmitKeys(e: ElementNode, ks: seq<Key>, opts: Option<Options>): Result<seq<Event>, Error>
    decreases |ks|
  {
    if |ks| == 0 then Ok([])
    else
      var first :- EmitKey(e, ks[0], opts);
      var rest :- EmitKeys(e, ks[1..], opts);
      Ok(first + rest)
  }

  /** The keys recorded by the two seen-lists. */
  function SeenKeys(seenElements: seq<string>, seenCharacterData: seq<string>): set<Key> {
    (set n | n in seenElements :: ElementKey(n)) + (set n | n in seenCharacterData :: CharKey(n))
  }

  lemma SeenKeysAdd(seenElements: seq<string>, seenCharacterData: seq<string>, n: string)
    ensures SeenKeys(seenElements + [n], seenCharacterData) == SeenKeys(seenElements, seenCharacterData) + {ElementKey(n)}
    ensures SeenKeys(seenElements, seenCharacterData + [n]) == SeenKeys(seenElements, seenCharacterData) + {CharKey(n)}
  {
    var s := SeenKeys(seenElements, seenCharacterData);
    assert SeenKeys(seenElements + [n], seenCharacterData) == s + {ElementKey(n)} by {
      forall k | k in SeenKeys(seenElements + [n], seenCharacterData)
        ensures k in s + {ElementKey(n)}
      {
      }
      forall k | k in s + {ElementKey(n)}
        ensures k in SeenKeys(seenElements + [n], seenCharacterData)
      {
        if k == ElementKey(n) {
          assert n in seenElements + [n];
        } else if k.ElementKey? {
          assert k.name in seenElements + [n];
        } else {
          assert k.name in seenCharacterData;
        }
      }
    }
    assert SeenKeys(seenElements, seenCharacterData + [n]) == s + {CharKey(n)} by {
      forall k | k in SeenKeys(seenElements, seenCharacterData + [n])
        ensures k in s + {CharKey(n)}
      {
      }
      forall k | k in s + {CharKey(n)}
        ensures k in SeenKeys(seenElements, seenCharacterData + [n])
      {
        if k == CharKey(n) {
          assert n in seenCharacterData + [n];
        } else if k.CharKey? {
          assert k.name in seenCharacterData + [n];
        } else {
          assert k.name in seenElements;
        }
      }
    }
  }

  /** Keys of a suffix: the first child's key, unless dropped, then the rest. */
  lemma KeysStep(kids: seq<Node>, i: nat, opts: Option<Options>)
    requires i < |kids|
    ensures Keys(kids[i..], opts)
         == (if Dropped(kids[i], opts) then [] else [KeyOf(kids[i])]) + Keys(kids[i + 1..], opts)
  {
    assert kids[i..][0] == kids[i];
    assert kids[i..][1..] == kids[i + 1..];
  }

  /** Emitting a key list that starts with one key. */
  lemma EmitKeysCons(e: ElementNode, k: Key, ks: seq<Key>, opts: Option<Options>)
    ensures EmitKeys(e, [k] + ks, opts)
         == (match EmitKey(e, k, opts)
             case Err(err) => Err(err)
             case Ok(first) =>
               (match EmitKeys(e, ks, opts)
                case Err(err) => Err(err)
                case Ok(rest) => Ok(first + rest)))
  {
    assert ([k] + ks)[0] == k;
    assert ([k] + ks)[1..] == ks;
  }

  /** The group the loop emits for child `i` is the group of its key. */
  lemma GroupIsKeyGroup(e: ElementNode, i: nat, opts: Option<Options>)
    requires i < |e.children| && !e.children[i].Other?
    ensures e.children[i].Element? ==> ElementGroup(e, i, opts) == EmitKey(e, KeyOf(e.children[i]), opts)
    ensures e.children[i].CharData? ==> Ok(CharacterDataGroup(e.children, i)) == EmitKey(e, KeyOf(e.children[i]), opts)
  {
    if e.children[i].Element? {
      SingleElementGroup(e.children, i);
    } else {
      SingleCharDataGroup(e.children, i);
    }
  }

  /** The seen-list loop from position `i` emits exactly the keys of the
      remaining kept children that neither seen-list holds, each once, in
      order of first occurrence. */
  lemma {:induction false} LoopEmitsUnseenKeys(e: ElementNode, i: nat, seenElements: seq<string>,
                                               seenCharacterData: seq<string>, opts: Option<Options>)
    requires i <= |e.children|
    ensures ChildNodesLoop(e, i, seenElements, seenCharacterData, opts)
         == EmitKeys(e, Unseen(Keys(e.children[i..], opts), SeenKeys(seenElements, seenCharacterData)), opts)
    decreases |e.children| - i
  {
    var kids := e.children;
    var seen := SeenKeys(seenElements, seenCharacterData);
    if i == |kids| {
      assert kids[i..] == [];
    } else {
      var c := kids[i];
      KeysStep(kids, i, opts);
      var rest := Keys(kids[i + 1..], opts);
      match c
      case Element(n, _, _) =>
        assert ElementKey(n) in seen <==> n in seenElements;
        UnseenCons(ElementKey(n), rest, seen);
        if n in seenElements {
          LoopEmitsUnseenKeys(e, i + 1, seenElements, seenCharacterData, opts);
        } else {
          SeenKeysAdd(seenElements, seenCharacterData, n);
          LoopEmitsUnseenKeys(e, i + 1, seenElements + [n], seenCharacterData, opts);
          GroupIsKeyGroup(e, i, opts);
          EmitKeysCons(e, ElementKey(n), Unseen(rest, seen + {ElementKey(n)}), opts);
        }
      case CharData(k, _) =>
        if Dropped(c, opts) {
          assert [] + rest == rest;
          LoopEmitsUnseenKeys(e, i + 1, seenElements, seenCharacterData, opts);
        } else {
          var n := CharName(k);
          assert CharKey(n) in seen <==> n in seenCharacterData;
          UnseenCons(CharKey(n), rest, seen);
          if n in seenCharacterData {
            LoopEmitsUnseenKeys(e, i + 1, seenElements, seenCharacterData, opts);
          } else {
            SeenKeysAdd(seenElements, seenCharacterData, n);
            LoopEmitsUnseenKeys(e, i + 1, seenElements, seenCharacterData + [n], opts);
            GroupIsKeyGroup(e, i, opts);
            EmitKeysCons(e, CharKey(n), Unseen(rest, seen + {CharKey(n)}), opts);
          }
        }
      case Other(t, x) =>
        var k := UnsupportedKey(t, x);
        assert k !in seen;
        UnseenCons(k, rest, seen);
        EmitKeysCons(e, k, Unseen(rest, seen + {k}), opts);
    }
  }

  /** The traversal of `SerializeXmlElementChildNodes`, run from the start
      with empty seen-lists, emits each distinct key of the kept children
      once, in order of first occurrence, with its whole group. */
  lemma TraversalIsFirstOccurrenceGrouping(e: ElementNode, opts: Option<Options>)
    ensures ChildNodesLoop(e, 0, [], [], opts) == EmitKeys(e, FirstOccurrences(Keys(e.children, opts)), opts)
  {
    LoopEmitsUnseenKeys(e, 0, [], [], opts);
    assert e.children[0..] == e.children;
    assert SeenKeys([], []) == {};
  }

  // ---------------------------------------------------------------------
  // Single steps of the loop, for tracing it on small elements

  /** One step of the loop over a character-data child that is kept and
      whose class has not been seen yet. */
  lemma KeptCharStep(e: ElementNode, i: nat, seenElements: seq<string>, seenCharacterData: seq<string>,
                     opts: Option<Options>, rest: seq<Event>)
    requires i < |e.children| && e.children[i].CharData?
    requires !(e.children[i].kind == Comment && !CommentsOn(opts))
    requires e.children[i].kind != Whitespace && e.children[i].kind != SignificantWhitespace
    requires CharName(e.children[i].kind) !in seenCharacterData
    requires ChildNodesLoop(e, i + 1, seenElements, seenCharacterData + [CharName(e.children[i].kind)], opts) == Ok(rest)
    ensures ChildNodesLoop(e, i, seenElements, seenCharacterData, opts) == Ok(CharacterDataGroup(e.children, i) + rest)
  {
  }

  /** One step of the loop over a character-data child that is skipped. */
  lemma DroppedCharStep(e: ElementNode, i: nat, seenElements: seq<string>, seenCharacterData: seq<string>,
                        opts: Option<Options>)
    requires i < |e.children| && Dropped(e.children[i], opts)
    ensures ChildNodesLoop(e, i, seenElements, seenCharacterData, opts)
         == ChildNodesLoop(e, i + 1, seenElements, seenCharacterData, opts)
  {
  }

  /** An element without attributes that is not shortcut-shaped but has
      children is a document holding what the loop writes. */
  lemma AttributelessElement(e: ElementNode, body: seq<Event>, opts: Option<Options>)
    requires |e.attrs| == 0 && |e.children| > 0 && !IsShortcut(e)
    requires ChildNodesLoop(e, 0, [], [], opts) == Ok(body)
    ensures SerializeXmlElement(e, opts) == Ok([Name(e.name), StartDoc] + body + [EndDoc])
  {
    assert AttributeFields(e.attrs) == [];
    assert SerializeXmlElementChildNodes(e, opts) == Ok([StartDoc] + [] + body);
    assert [Name(e.name)] + ([StartDoc] + [] + body) + [EndDoc] == [Name(e.name), StartDoc] + body + [EndDoc];
  }
}
