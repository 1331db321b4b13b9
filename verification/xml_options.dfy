/** `XmlSerializationOptions` and its process-wide `Defaults` holder. */
module XmlOptions {
  import opened Wrappers

  /** The three switches of an options value. */
  datatype Options = Options(serializeComments: bool, serializeDocType: bool, serializeDtdElements: bool)

  /** `new XmlSerializationOptions()`: every auto-property starts at `false`. */
  function NewOptions(): (o: Options)
    ensures !o.serializeComments && !o.serializeDocType && !o.serializeDtdElements
  {
    Options(false, false, false)
  }

  /** The test the child traversal makes before keeping a comment: options
      were passed as an `XmlSerializationOptions` (`Some`) and ask for them.
      `None` stands for a null reference or for options of another class,
      which the `as` cast turns into null. */
  predicate CommentsOn(opts: Option<Options>) {
    opts.Some? && opts.value.serializeComments
  }

  /** The static `defaults` field, as a value that assignments replace. */
  datatype DefaultsHolder = DefaultsHolder(current: Options)

  /** The field's value when the class is first used. */
  function InitialDefaults(): DefaultsHolder {
    DefaultsHolder(NewOptions())
  }

  /** The `Defaults` getter. */
  function GetDefaults(h: DefaultsHolder): Options {
    h.current
  }

  /** The `Defaults` setter. */
  function SetDefaults(h: DefaultsHolder, v: Options): DefaultsHolder {
    DefaultsHolder(v)
  }

  /** The holder after a run of assignments to `Defaults`, in order. */
  function AfterAssignments(h: DefaultsHolder, values: seq<Options>): DefaultsHolder
    decreases |values|
  {
    if |values| == 0 then h else AfterAssignments(SetDefaults(h, values[0]), values[1..])
  }

  /** Reading `Defaults` returns the value most recently assigned, or the
      all-false value when nothing has been assigned. */
  lemma {:induction false} DefaultsReadsLastAssignment(values: seq<Options>)
    ensures GetDefaults(AfterAssignments(InitialDefaults(), values))
         == (if |values| == 0 then NewOptions() else values[|values| - 1])
  {
    LastAssignmentWins(InitialDefaults(), values);
  }

  lemma {:induction false} LastAssignmentWins(h: DefaultsHolder, values: seq<Options>)
    ensures GetDefaults(AfterAssignments(h, values))
         == (if |values| == 0 then GetDefaults(h) else values[|values| - 1])
    decreases |values|
  {
    if |values| > 0 {
      LastAssignmentWins(SetDefaults(h, values[0]), values[1..]);
    }
  }
}
