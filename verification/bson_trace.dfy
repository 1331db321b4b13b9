/** The `BsonWriter` the serializers write into, as the sequence of calls
    they make on it, and the document those calls describe when they are
    well nested. */
module BsonTrace {
  import opened Wrappers

  /** One call on the writer. `WriteString(name, value)` is the two calls
      `Name(name)` and `Str(value)`. */
  datatype Event =
    | StartDoc
    | EndDoc
    | Name(name: string)
    | Str(value: string)
    | StartArr
    | EndArr
    | Null

  /** `WriteString(name, value)`. */
  function WriteString(name: string, value: string): seq<Event> {
    [Name(name), Str(value)]
  }

  /** The document model: an ordered list of named fields whose values are
      strings, arrays, nested documents or null. */
  datatype Value =
    | Scalar(s: string)
    | Array(items: seq<Value>)
    | Doc(fields: seq<Field>)
    | NullValue

  datatype Field = Field(name: string, value: Value)

  /** The calls that write a value. */
  function EncodeValue(v: Value): seq<Event>
    decreases v, 1
  {
    match v
    case Scalar(s) => [Str(s)]
    case NullValue => [Null]
    case Doc(fs) => [StartDoc] + EncodeFields(fs) + [EndDoc]
    case Array(items) => [StartArr] + EncodeItems(items) + [EndArr]
  }

  /** The calls that write one named field. */
  function EncodeField(f: Field): seq<Event>
    decreases f, 2
  {
    [Name(f.name)] + EncodeValue(f.value)
  }

  function EncodeFields(fs: seq<Field>): seq<Event>
    decreases fs, 0
  {
    if |fs| == 0 then [] else EncodeField(fs[0]) + EncodeFields(fs[1..])
  }

  function EncodeItems(items: seq<Value>): seq<Event>
    decreases items, 0
  {
    if |items| == 0 then [] else EncodeValue(items[0]) + EncodeItems(items[1..])
  }

  /** Reads one value off the front of a trace; returns it with the rest. */
  function DecodeValue(ts: seq<Event>): (r: Option<(Value, seq<Event>)>)
    ensures r.Some? ==> |r.value.1| < |ts|
    decreases |ts|, 0
  {
    if |ts| == 0 then None
    else match ts[0]
      case Str(s) => Some((Scalar(s), ts[1..]))
      case Null => Some((NullValue, ts[1..]))
      case StartDoc =>
        (match DecodeFields(ts[1..])
         case None => None
         case Some((fs, rest)) => Some((Doc(fs), rest)))
      case StartArr =>
        (match DecodeItems(ts[1..])
         case None => None
         case Some((items, rest)) => Some((Array(items), rest)))
      case _ => None
  }

  /** Reads named fields up to and including the `EndDoc` that closes them. */
  function DecodeFields(ts: seq<Event>): (r: Option<(seq<Field>, seq<Event>)>)
    ensures r.Some? ==> |r.value.1| < |ts|
    decreases |ts|, 1
  {
    if |ts| == 0 then None
    else match ts[0]
      case EndDoc => Some(([], ts[1..]))
      case Name(n) =>
        (match DecodeValue(ts[1..])
         case None => None
         case Some((v, rest)) =>
           (match DecodeFields(rest)
            case None => None
            case Some((fs, rest')) => Some(([Field(n, v)] + fs, rest'))))
      case _ => None
  }

  /** Reads array items up to and including the `EndArr` that closes them. */
  function DecodeItems(ts: seq<Event>): (r: Option<(seq<Value>, seq<Event>)>)
    ensures r.Some? ==> |r.value.1| < |ts|
    decreases |ts|, 1
  {
    if |ts| == 0 then None
    else if ts[0] == EndArr then Some(([], ts[1..]))
    else match DecodeValue(ts)
      case None => None
      case Some((v, rest)) =>
        (match DecodeItems(rest)
         case None => None
         case Some((items, rest')) => Some(([v] + items, rest')))
  }

  /** A complete top-level document: exactly one `StartDoc ... EndDoc`. */
  function DecodeDocument(ts: seq<Event>): Option<seq<Field>> {
    match DecodeValue(ts)
    case Some((Doc(fs), rest)) => if |rest| == 0 then Some(fs) else None
    case _ => None
  }

  lemma EncodeFieldsAppend(a: seq<Field>, b: seq<Field>)
    ensures EncodeFields(a + b) == EncodeFields(a) + EncodeFields(b)
    decreases |a|
  {
    if |a| > 0 {
      assert (a + b)[0] == a[0];
      assert (a + b)[1..] == a[1..] + b;
      EncodeFieldsAppend(a[1..], b);
    } else {
      assert a + b == b;
    }
  }

  /** Writing a value and reading it back, whatever follows, gives the value
      and leaves what follows. */
  lemma {:induction false} DecodeEncodeValue(v: Value, rest: seq<Event>)
    ensures DecodeValue(EncodeValue(v) + rest) == Some((v, rest))
    decreases v, 1
  {
    match v
    case Scalar(s) =>
      assert (EncodeValue(v) + rest)[1..] == rest;
    case NullValue =>
      assert (EncodeValue(v) + rest)[1..] == rest;
    case Doc(fs) =>
      assert (EncodeValue(v) + rest)[1..] == EncodeFields(fs) + ([EndDoc] + rest);
      DecodeEncodeFields(fs, rest);
    case Array(items) =>
      assert (EncodeValue(v) + rest)[1..] == EncodeItems(items) + ([EndArr] + rest);
      DecodeEncodeItems(items, rest);
  }

  lemma {:induction false} DecodeEncodeFields(fs: seq<Field>, rest: seq<Event>)
    ensures DecodeFields(EncodeFields(fs) + ([EndDoc] + rest)) == Some((fs, rest))
    decreases fs, 0
  {
    if |fs| == 0 {
      assert EncodeFields(fs) + ([EndDoc] + rest) == [EndDoc] + rest;
      assert ([EndDoc] + rest)[1..] == rest;
    } else {
      var tail := EncodeFields(fs[1..]) + ([EndDoc] + rest);
      DecodeEncodeValue(fs[0].value, tail);
      DecodeEncodeFields(fs[1..], rest);
      DecodeFieldsCons(fs, tail, rest);
    }
  }

  /** One step of reading fields, given what the first value and the
      remaining fields read back as. */
  lemma DecodeFieldsCons(fs: seq<Field>, tail: seq<Event>, rest: seq<Event>)
    requires |fs| > 0 && tail == EncodeFields(fs[1..]) + ([EndDoc] + rest)
    requires DecodeValue(EncodeValue(fs[0].value) + tail) == Some((fs[0].value, tail))
    requires DecodeFields(tail) == Some((fs[1..], rest))
    ensures DecodeFields(EncodeFields(fs) + ([EndDoc] + rest)) == Some((fs, rest))
  {
    var f := fs[0];
    var enc := EncodeValue(f.value);
    EncodeFieldsHead(fs);
    ConsRegroup(Name(f.name), enc, EncodeFields(fs[1..]), [EndDoc] + rest);
    DecodeNamedField(f.name, enc + tail, f.value, tail, fs[1..], rest);
    assert [f] + fs[1..] == fs;
  }

  /** The first field's calls open the calls of a field list. */
  lemma EncodeFieldsHead(fs: seq<Field>)
    requires |fs| > 0
    ensures EncodeFields(fs) == [Name(fs[0].name)] + EncodeValue(fs[0].value) + EncodeFields(fs[1..])
  {
  }

  /** Re-associates a call list opened by one call, so that the decoding
      lemmas can split it after the first call and after the value. */
  lemma ConsRegroup<T>(x: T, a: seq<T>, b: seq<T>, c: seq<T>)
    ensures [x] + a + b + c == [x] + (a + (b + c))
  {
  }

  /** Re-associates three call lists, so that an encoded item can be split
      off the front of the items that follow it. */
  lemma AppendRegroup<T>(a: seq<T>, b: seq<T>, c: seq<T>)
    ensures a + b + c == a + (b + c)
  {
  }

  /** Reading a field list that starts with a name: the value after it,
      then the remaining fields. */
  lemma DecodeNamedField(n: string, ts: seq<Event>, v: Value, tail: seq<Event>, fs: seq<Field>, rest: seq<Event>)
    requires DecodeValue(ts) == Some((v, tail))
    requires DecodeFields(tail) == Some((fs, rest))
    ensures DecodeFields([Name(n)] + ts) == Some(([Field(n, v)] + fs, rest))
  {
    assert ([Name(n)] + ts)[0] == Name(n);
    assert ([Name(n)] + ts)[1..] == ts;
  }

  lemma {:induction false} DecodeEncodeItems(items: seq<Value>, rest: seq<Event>)
    ensures DecodeItems(EncodeItems(items) + ([EndArr] + rest)) == Some((items, rest))
    decreases items, 0
  {
    if |items| == 0 {
      assert EncodeItems(items) + ([EndArr] + rest) == [EndArr] + rest;
      assert ([EndArr] + rest)[1..] == rest;
    } else {
      var tail := EncodeItems(items[1..]) + ([EndArr] + rest);
      DecodeEncodeValue(items[0], tail);
      DecodeEncodeItems(items[1..], rest);
      DecodeItemsCons(items[0], items[1..], tail, rest);
      AppendRegroup(EncodeValue(items[0]), EncodeItems(items[1..]), [EndArr] + rest);
      assert [items[0]] + items[1..] == items;
    }
  }

  /** One step of reading array items. */
  lemma DecodeItemsCons(v: Value, items: seq<Value>, tail: seq<Event>, rest: seq<Event>)
    requires DecodeValue(EncodeValue(v) + tail) == Some((v, tail))
    requires DecodeItems(tail) == Some((items, rest))
    ensures DecodeItems(EncodeValue(v) + tail) == Some(([v] + items, rest))
  {
    EncodeValueStart(v);
    assert (EncodeValue(v) + tail)[0] == EncodeValue(v)[0];
  }

  /** No value's encoding begins with the event that closes an array. */
  lemma EncodeValueStart(v: Value)
    ensures |EncodeValue(v)| > 0 && EncodeValue(v)[0] != EndArr && !EncodeValue(v)[0].Name?
  {
  }

  /** A top-level document reads back as the fields it was written from. */
  lemma DecodeEncodeDocument(fs: seq<Field>)
    ensures DecodeDocument(EncodeValue(Doc(fs))) == Some(fs)
  {
    DecodeEncodeValue(Doc(fs), []);
    assert EncodeValue(Doc(fs)) + [] == EncodeValue(Doc(fs));
  }
}
