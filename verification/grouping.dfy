/** Which children of an element take part in the traversal, the key each
    is grouped under, and the reference formulation of the traversal's
    "already seen" bookkeeping: the distinct keys in order of first
    occurrence. */
module Grouping {
  import opened Wrappers
  import opened XmlDom
  import opened XmlOptions

  /** The group a child belongs to. Elements and character data are kept in
      separate seen-lists, so an element and a character-data node never
      share a key even when their names agree. Unsupported nodes are never
      grouped: the traversal fails on the first one it meets. */
  datatype Key =
    | ElementKey(name: string)
    | CharKey(name: string)
    | UnsupportedKey(typeName: string, outerXml: string)

  /** Character data the traversal skips before grouping: comments unless
      options ask for them, and all whitespace. */
  predicate Dropped(c: Node, opts: Option<Options>) {
    c.CharData? &&
    ((c.kind == Comment && !CommentsOn(opts)) || c.kind == Whitespace || c.kind == SignificantWhitespace)
  }

  function KeyOf(c: Node): Key {
    match c
    case Element(n, _, _) => ElementKey(n)
    case CharData(k, _) => CharKey(CharName(k))
    case Other(t, x) => UnsupportedKey(t, x)
  }

  /** The keys of the children that are not dropped, in document order. */
  function Keys(kids: seq<Node>, opts: Option<Options>): (r: seq<Key>)
    ensures |r| <= |kids|
    ensures forall k :: k in r <==> exists j :: 0 <= j < |kids| && !Dropped(kids[j], opts) && KeyOf(kids[j]) == k
    decreases |kids|
  {
    if |kids| == 0 then []
    else
      var rest := Keys(kids[1..], opts);
      assert forall j :: 1 <= j < |kids| ==> kids[j] == kids[1..][j - 1];
      (if Dropped(kids[0], opts) then [] else [KeyOf(kids[0])]) + rest
  }

  /** The children that are not dropped, in document order. */
  function Kept(kids: seq<Node>, opts: Option<Options>): (r: seq<Node>)
    ensures forall c :: c in r <==> c in kids && !Dropped(c, opts)
    decreases |kids|
  {
    if |kids| == 0 then []
    else
      var rest := Kept(kids[1..], opts);
      assert forall c :: c in kids <==> c == kids[0] || c in kids[1..];
      (if Dropped(kids[0], opts) then [] else [kids[0]]) + rest
  }

  /** The elements named `n`, in document order (the LINQ query over
      `ChildNodes.OfType<XmlElement>()`). */
  function ElementsNamed(kids: seq<Node>, n: string): seq<Node>
    decreases |kids|
  {
    if |kids| == 0 then []
    else (if kids[0].Element? && kids[0].name == n then [kids[0]] else []) + ElementsNamed(kids[1..], n)
  }

  /** The elements named `n` are exactly the element children so named. */
  lemma {:induction false} ElementsNamedMembers(kids: seq<Node>, n: string)
    ensures forall m :: m in ElementsNamed(kids, n) <==> m in kids && m.Element? && m.name == n
    decreases |kids|
  {
    if |kids| > 0 {
      ElementsNamedMembers(kids[1..], n);
      assert forall c :: c in kids <==> c == kids[0] || c in kids[1..];
    }
  }

  /** The values of the character data named `n`, in document order (the
      LINQ query over `ChildNodes.OfType<XmlCharacterData>()`). */
  function CharDataNamed(kids: seq<Node>, n: string): (r: seq<string>)
    ensures |r| <= |kids|
    ensures forall j :: 0 <= j < |kids| && kids[j].CharData? && CharName(kids[j].kind) == n ==> kids[j].value in r
    decreases |kids|
  {
    if |kids| == 0 then []
    else
      var rest := CharDataNamed(kids[1..], n);
      assert forall j :: 1 <= j < |kids| ==> kids[j] == kids[1..][j - 1];
      (if kids[0].CharData? && CharName(kids[0].kind) == n then [kids[0].value] else []) + rest
  }

  /** `idx` lists positions below `len` in strictly increasing order. */
  predicate Ascending(idx: seq<nat>, len: nat) {
    (forall p :: 0 <= p < |idx| ==> idx[p] < len) &&
    (forall p, q :: 0 <= p < q < |idx| ==> idx[p] < idx[q])
  }

  /** The positions in `idx`, each moved one place to the right. */
  function Shifted(idx: seq<nat>): (r: seq<nat>)
    ensures |r| == |idx| && forall p :: 0 <= p < |idx| ==> r[p] == idx[p] + 1
  {
    seq(|idx|, p requires 0 <= p < |idx| => idx[p] + 1)
  }

  /** The positions of a list's tail, read in the whole list: shifted by
      one, optionally preceded by the head's position 0. */
  lemma ShiftedPositions(tail: seq<nat>, len: nat, head: bool) returns (idx: seq<nat>)
    requires Ascending(tail, len)
    ensures idx == (if head then [0] else []) + Shifted(tail)
    ensures Ascending(idx, len + 1)
    ensures 0 in idx <==> head
    ensures forall j :: 1 <= j <= len ==> (j in idx <==> j - 1 in tail)
  {
    var shifted := Shifted(tail);
    idx := (if head then [0] else []) + shifted;
    ShiftedAscending(tail, len, head);
    forall j | 1 <= j <= len
      ensures j in idx <==> j - 1 in tail
    {
      ShiftedMember(tail, head, j);
    }
  }

  lemma ShiftedAscending(tail: seq<nat>, len: nat, head: bool)
    requires Ascending(tail, len)
    ensures Ascending((if head then [0] else []) + Shifted(tail), len + 1)
    ensures 0 in (if head then [0] else []) + Shifted(tail) <==> head
  {
    var shifted := Shifted(tail);
    assert Ascending(shifted, len + 1);
    assert 0 !in shifted;
    if head {
      var idx := [0] + shifted;
      assert forall p :: 0 < p < |idx| ==> idx[p] == shifted[p - 1];
    }
  }

  lemma ShiftedMember(tail: seq<nat>, head: bool, j: nat)
    requires j >= 1
    ensures j in (if head then [0] else []) + Shifted(tail) <==> j - 1 in tail
  {
    var shifted := Shifted(tail);
    var front: seq<nat> := if head then [0] else [];
    assert j !in front;
    assert j in front + shifted <==> j in shifted;
    if j in shifted {
      var p :| 0 <= p < |shifted| && shifted[p] == j;
      assert tail[p] == j - 1;
    }
    if j - 1 in tail {
      var p :| 0 <= p < |tail| && tail[p] == j - 1;
      assert shifted[p] == j;
    }
  }

  /** The query for the elements named `n` is the subsequence of the
      children it filters for: there is an increasing list of exactly the
      positions of the element children named `n`, and the query's result
      is the children at those positions, so it has one entry per such
      child, in document order. */
  lemma {:induction false} ElementsNamedSubsequence(kids: seq<Node>, n: string) returns (idx: seq<nat>)
    ensures Ascending(idx, |kids|)
    ensures forall j :: 0 <= j < |kids| ==> (j in idx <==> kids[j].Element? && kids[j].name == n)
    ensures |ElementsNamed(kids, n)| == |idx|
    ensures forall p :: 0 <= p < |idx| ==> ElementsNamed(kids, n)[p] == kids[idx[p]]
    decreases |kids|
  {
    if |kids| == 0 {
      idx := [];
    } else {
      var head := kids[0].Element? && kids[0].name == n;
      var tail := ElementsNamedSubsequence(kids[1..], n);
      idx := ShiftedPositions(tail, |kids| - 1, head);
      forall j | 1 <= j < |kids|
        ensures j in idx <==> kids[j].Element? && kids[j].name == n
      {
        assert kids[j] == kids[1..][j - 1];
      }
      ElementsNamedRead(kids, n, tail, idx);
    }
  }

  /** The step of `ElementsNamedSubsequence` that reads the query's result
      at the shifted positions. */
  lemma ElementsNamedRead(kids: seq<Node>, n: string, tail: seq<nat>, idx: seq<nat>)
    requires |kids| > 0
    requires |ElementsNamed(kids[1..], n)| == |tail|
    requires forall p :: 0 <= p < |tail| ==> tail[p] < |kids| - 1 && ElementsNamed(kids[1..], n)[p] == kids[1..][tail[p]]
    requires idx == (if kids[0].Element? && kids[0].name == n then [0] else []) + Shifted(tail)
    ensures |ElementsNamed(kids, n)| == |idx|
    ensures forall p :: 0 <= p < |idx| ==> idx[p] < |kids| && ElementsNamed(kids, n)[p] == kids[idx[p]]
  {
    var front := if kids[0].Element? && kids[0].name == n then [kids[0]] else [];
    var r := ElementsNamed(kids, n);
    var rest := ElementsNamed(kids[1..], n);
    assert r == front + rest;
    forall p | 0 <= p < |idx|
      ensures idx[p] < |kids| && r[p] == kids[idx[p]]
    {
      if p >= |front| {
        assert r[p] == rest[p - |front|];
        assert idx[p] == tail[p - |front|] + 1;
      }
    }
  }

  /** The query for the character data named `n` is the subsequence of the
      children it filters for, read through their values: there is an
      increasing list of exactly the positions of the character data named
      `n`, and the query's result is their values, one per such child, in
      document order. */
  lemma {:induction false} CharDataNamedSubsequence(kids: seq<Node>, n: string) returns (idx: seq<nat>)
    ensures Ascending(idx, |kids|)
    ensures forall j :: 0 <= j < |kids| ==> (j in idx <==> kids[j].CharData? && CharName(kids[j].kind) == n)
    ensures |CharDataNamed(kids, n)| == |idx|
    ensures forall p :: 0 <= p < |idx| ==> CharDataNamed(kids, n)[p] == kids[idx[p]].value
    decreases |kids|
  {
    if |kids| == 0 {
      idx := [];
    } else {
      var head := kids[0].CharData? && CharName(kids[0].kind) == n;
      var tail := CharDataNamedSubsequence(kids[1..], n);
      idx := ShiftedPositions(tail, |kids| - 1, head);
      forall j | 1 <= j < |kids|
        ensures j in idx <==> kids[j].CharData? && CharName(kids[j].kind) == n
      {
        assert kids[j] == kids[1..][j - 1];
      }
      assert forall p :: 0 <= p < |tail| ==> tail[p] in tail;
      CharDataNamedRead(kids, n, tail, idx, CharDataNamed(kids, n), CharDataNamed(kids[1..], n));
    }
  }

  /** The step of `CharDataNamedSubsequence` that reads the query's result
      `r` at the shifted positions, given the result `rest` on the tail. */
  lemma CharDataNamedRead(kids: seq<Node>, n: string, tail: seq<nat>, idx: seq<nat>, r: seq<string>, rest: seq<string>)
    requires |kids| > 0
    requires |rest| == |tail|
    requires forall p :: 0 <= p < |tail| ==>
               tail[p] < |kids| - 1 && kids[1..][tail[p]].CharData? && rest[p] == kids[1..][tail[p]].value
    requires idx == (if kids[0].CharData? && CharName(kids[0].kind) == n then [0] else []) + Shifted(tail)
    requires r == (if kids[0].CharData? && CharName(kids[0].kind) == n then [kids[0].value] else []) + rest
    ensures |r| == |idx|
    ensures forall p :: 0 <= p < |idx| ==> idx[p] < |kids| && kids[idx[p]].CharData? && r[p] == kids[idx[p]].value
  {
    var front := if kids[0].CharData? && CharName(kids[0].kind) == n then [kids[0].value] else [];
    forall p | 0 <= p < |idx|
      ensures idx[p] < |kids| && kids[idx[p]].CharData? && r[p] == kids[idx[p]].value
    {
      if p >= |front| {
        assert r[p] == rest[p - |front|];
        assert idx[p] == tail[p - |front|] + 1;
      }
    }
  }

  /** Every value of the character-data query comes from a child of that
      name: together with `CharDataNamed`'s own contract, the values are
      exactly those of the children so named. */
  lemma CharDataNamedOnly(kids: seq<Node>, n: string)
    ensures forall v :: v in CharDataNamed(kids, n) ==>
              exists j :: 0 <= j < |kids| && kids[j].CharData? && CharName(kids[j].kind) == n && kids[j].value == v
  {
    var idx := CharDataNamedSubsequence(kids, n);
    forall v | v in CharDataNamed(kids, n)
      ensures exists j :: 0 <= j < |kids| && kids[j].CharData? && CharName(kids[j].kind) == n && kids[j].value == v
    {
      var p :| 0 <= p < |CharDataNamed(kids, n)| && CharDataNamed(kids, n)[p] == v;
      assert idx[p] in idx;
    }
  }

  /** One step of each child query on a list with a known head. */
  lemma ChildQueriesCons(c: Node, kids: seq<Node>, opts: Option<Options>, n: string)
    ensures Keys([c] + kids, opts) == (if Dropped(c, opts) then [] else [KeyOf(c)]) + Keys(kids, opts)
    ensures ElementsNamed([c] + kids, n) == (if c.Element? && c.name == n then [c] else []) + ElementsNamed(kids, n)
    ensures CharDataNamed([c] + kids, n)
         == (if c.CharData? && CharName(c.kind) == n then [c.value] else []) + CharDataNamed(kids, n)
  {
    assert ([c] + kids)[0] == c;
    assert ([c] + kids)[1..] == kids;
  }

  /** A group of one is the node that opened it. */
  lemma {:induction false} SingleElementGroup(kids: seq<Node>, i: nat)
    requires i < |kids| && kids[i].Element?
    ensures |ElementsNamed(kids, kids[i].name)| >= 1
    ensures |ElementsNamed(kids, kids[i].name)| == 1 ==> ElementsNamed(kids, kids[i].name)[0] == kids[i]
  {
    var r := ElementsNamed(kids, kids[i].name);
    ElementsNamedMembers(kids, kids[i].name);
    assert kids[i] in kids;
    assert kids[i] in r;
  }

  /** A character-data group of one holds the value of the node that opened it. */
  lemma {:induction false} SingleCharDataGroup(kids: seq<Node>, i: nat)
    requires i < |kids| && kids[i].CharData?
    ensures |CharDataNamed(kids, CharName(kids[i].kind))| >= 1
    ensures |CharDataNamed(kids, CharName(kids[i].kind))| == 1
            ==> CharDataNamed(kids, CharName(kids[i].kind))[0] == kids[i].value
  {
    var r := CharDataNamed(kids, CharName(kids[i].kind));
    assert kids[i].value in r;
  }

  /** No element of `s` occurs twice. */
  predicate NoDuplicates<K(==)>(s: seq<K>) {
    forall p, q :: 0 <= p < q < |s| ==> s[p] != s[q]
  }

  /** The position of the first occurrence of `y` in `xs`. */
  function FirstIndex<K(==)>(xs: seq<K>, y: K): (i: nat)
    requires y in xs
    ensures i < |xs| && xs[i] == y
    ensures forall j :: 0 <= j < i ==> xs[j] != y
    decreases |xs|
  {
    if xs[0] == y then 0
    else
      var i := 1 + FirstIndex(xs[1..], y);
      assert forall j :: 1 <= j < |xs| ==> xs[j] == xs[1..][j - 1];
      i
  }

  /** `s` lists its elements in the order in which they first occur in `xs`. */
  predicate InFirstOccurrenceOrder<K(==)>(xs: seq<K>, s: seq<K>)
    requires forall y :: y in s ==> y in xs
  {
    forall p, q :: 0 <= p < q < |s| ==> FirstIndex(xs, s[p]) < FirstIndex(xs, s[q])
  }

  /** The elements of `xs` not in `seen`, each once, scanning from the
      front and adding every element kept to `seen`. */
  function Unseen<K(==)>(xs: seq<K>, seen: set<K>): seq<K>
    decreases |xs|
  {
    if |xs| == 0 then []
    else if xs[0] in seen then Unseen(xs[1..], seen)
    else [xs[0]] + Unseen(xs[1..], seen + {xs[0]})
  }

  lemma {:induction false} UnseenMembers<K>(xs: seq<K>, seen: set<K>)
    ensures forall y :: y in Unseen(xs, seen) <==> y in xs && y !in seen
    decreases |xs|
  {
    if |xs| > 0 {
      assert forall y :: y in xs <==> y == xs[0] || y in xs[1..];
      if xs[0] in seen {
        UnseenMembers(xs[1..], seen);
      } else {
        UnseenMembers(xs[1..], seen + {xs[0]});
      }
    }
  }

  lemma {:induction false} UnseenDistinct<K>(xs: seq<K>, seen: set<K>)
    ensures NoDuplicates(Unseen(xs, seen))
    decreases |xs|
  {
    if |xs| > 0 {
      if xs[0] in seen {
        UnseenDistinct(xs[1..], seen);
      } else {
        var rest := Unseen(xs[1..], seen + {xs[0]});
        UnseenDistinct(xs[1..], seen + {xs[0]});
        UnseenMembers(xs[1..], seen + {xs[0]});
        assert xs[0] !in rest;
        var u := [xs[0]] + rest;
        forall p, q | 0 <= p < q < |u|
          ensures u[p] != u[q]
        {
          if p == 0 {
            assert u[q] == rest[q - 1];
          } else {
            assert u[p] == rest[p - 1] && u[q] == rest[q - 1];
          }
        }
      }
    }
  }

  lemma {:induction false} UnseenOrder<K>(xs: seq<K>, seen: set<K>)
    ensures forall y :: y in Unseen(xs, seen) ==> y in xs
    ensures InFirstOccurrenceOrder(xs, Unseen(xs, seen))
    decreases |xs|
  {
    UnseenMembers(xs, seen);
    if |xs| > 0 {
      var u := Unseen(xs, seen);
      var seen' := if xs[0] in seen then seen else seen + {xs[0]};
      var rest := Unseen(xs[1..], seen');
      UnseenMembers(xs[1..], seen');
      UnseenOrder(xs[1..], seen');
      // every element of `rest` differs from xs[0], so its first index in xs
      // is one more than its first index in xs[1..]
      forall y | y in rest
        ensures FirstIndex(xs, y) == 1 + FirstIndex(xs[1..], y)
      {
        FirstIndexTail(xs, y);
      }
      if xs[0] in seen {
        assert u == rest;
      } else {
        assert u == [xs[0]] + rest;
        forall p, q | 0 <= p < q < |u|
          ensures FirstIndex(xs, u[p]) < FirstIndex(xs, u[q])
        {
          assert u[q] == rest[q - 1];
          if p > 0 {
            assert u[p] == rest[p - 1];
          }
        }
      }
    }
  }

  lemma FirstIndexTail<K>(xs: seq<K>, y: K)
    requires |xs| > 0 && y in xs[1..] && y != xs[0]
    ensures y in xs && FirstIndex(xs, y) == 1 + FirstIndex(xs[1..], y)
  {
  }

  /** One step of `Unseen` on a list with a known head. */
  lemma UnseenCons<K>(x: K, xs: seq<K>, seen: set<K>)
    ensures Unseen([x] + xs, seen) == if x in seen then Unseen(xs, seen) else [x] + Unseen(xs, seen + {x})
  {
    assert ([x] + xs)[0] == x;
    assert ([x] + xs)[1..] == xs;
  }

  /** Each distinct element of `xs`, once, in the order of its first
      occurrence: what the traversal's seen-lists produce. */
  function FirstOccurrences<K(==,!new)>(xs: seq<K>): (r: seq<K>)
    ensures forall y :: y in r <==> y in xs
    ensures NoDuplicates(r)
    ensures InFirstOccurrenceOrder(xs, r)
  {
    UnseenMembers(xs, {});
    UnseenDistinct(xs, {});
    UnseenOrder(xs, {});
    Unseen(xs, {})
  }

  /** The three properties determine the result: any duplicate-free listing
      of the elements of `xs` in first-occurrence order is
      `FirstOccurrences(xs)`. */
  lemma FirstOccurrencesUnique<K(!new)>(xs: seq<K>, s: seq<K>)
    requires forall y :: y in s <==> y in xs
    requires NoDuplicates(s)
    requires InFirstOccurrenceOrder(xs, s)
    ensures s == FirstOccurrences(xs)
  {
    SameOrderedSetEqual(xs, s, FirstOccurrences(xs));
  }

  lemma {:induction false} SameOrderedSetEqual<K>(xs: seq<K>, a: seq<K>, b: seq<K>)
    requires forall y :: y in a ==> y in xs
    requires forall y :: y in a <==> y in b
    requires NoDuplicates(a) && NoDuplicates(b)
    requires InFirstOccurrenceOrder(xs, a) && InFirstOccurrenceOrder(xs, b)
    ensures a == b
    decreases |a|
  {
    assert |a| == 0 || a[0] in a;
    assert |b| == 0 || b[0] in b;
    if |a| > 0 {
      // both heads are the element of least first index, so they agree
      OrderedHeadIsLeast(xs, a);
      OrderedHeadIsLeast(xs, b);
      assert FirstIndex(xs, a[0]) == FirstIndex(xs, b[0]);
      assert a[0] == b[0];
      TailsAgree(xs, a, b);
      SameOrderedSetEqual(xs, a[1..], b[1..]);
      assert a == [a[0]] + a[1..] && b == [b[0]] + b[1..];
    }
  }

  /** Dropping the common head keeps the hypotheses of `SameOrderedSetEqual`. */
  lemma TailsAgree<K>(xs: seq<K>, a: seq<K>, b: seq<K>)
    requires forall y :: y in a ==> y in xs
    requires forall y :: y in a <==> y in b
    requires NoDuplicates(a) && NoDuplicates(b)
    requires InFirstOccurrenceOrder(xs, a) && InFirstOccurrenceOrder(xs, b)
    requires |a| > 0 && |b| > 0 && a[0] == b[0]
    ensures forall y :: y in a[1..] ==> y in xs
    ensures forall y :: y in a[1..] <==> y in b[1..]
    ensures NoDuplicates(a[1..]) && NoDuplicates(b[1..])
    ensures InFirstOccurrenceOrder(xs, a[1..]) && InFirstOccurrenceOrder(xs, b[1..])
  {
    var a', b' := a[1..], b[1..];
    forall y
      ensures y in a' <==> y in b'
    {
      if y in a' {
        var p :| 0 <= p < |a'| && a'[p] == y;
        assert a[p + 1] == y && y != a[0];
        assert y in b;
        var q :| 0 <= q < |b| && b[q] == y;
        assert q != 0;
        assert b'[q - 1] == y;
      }
      if y in b' {
        var q :| 0 <= q < |b'| && b'[q] == y;
        assert b[q + 1] == y && y != b[0];
        assert y in a;
        var p :| 0 <= p < |a| && a[p] == y;
        assert p != 0;
        assert a'[p - 1] == y;
      }
    }
    assert forall p :: 0 <= p < |a'| ==> a'[p] == a[p + 1];
    assert forall p :: 0 <= p < |b'| ==> b'[p] == b[p + 1];
  }

  /** In a first-occurrence-ordered sequence the head occurs first. */
  lemma OrderedHeadIsLeast<K>(xs: seq<K>, s: seq<K>)
    requires |s| > 0 && forall y :: y in s ==> y in xs
    requires InFirstOccurrenceOrder(xs, s)
    ensures forall y :: y in s ==> FirstIndex(xs, s[0]) <= FirstIndex(xs, y)
  {
    forall y | y in s
      ensures FirstIndex(xs, s[0]) <= FirstIndex(xs, y)
    {
      var p :| 0 <= p < |s| && s[p] == y;
      assert p == 0 || FirstIndex(xs, s[0]) < FirstIndex(xs, s[p]);
    }
  }
}
