/** Commands outside the verb table. Such a command keeps its verb, upper-cased
    in ASCII, and its raw argument bytes. */
module UnknownCommand {

  import opened Wrappers
  import opened Bytes

  datatype Unknown = Unknown(verb: Bytes, args: Bytes)

  /** `Unknown::try_from`: the same first-space split as the command parser.
      The verb must be well-formed UTF-8 (it becomes a Rust `String`); it is
      stored upper-cased, the arguments verbatim. */
  function ParseUnknown(line: Bytes): (r: Result<Unknown>)
    ensures r.Ok? <==> ValidUtf8(SplitAtSpace(line).0)
    ensures r.Ok? ==> r.value.verb == ToAsciiUpper(SplitAtSpace(line).0)
    ensures r.Ok? ==> r.value.args == SplitAtSpace(line).1
    ensures r.Ok? ==> ValidUtf8(r.value.verb) && SP !in r.value.verb
  {
    var (verb, args) := SplitAtSpace(line);
    if !ValidUtf8(verb) then Err
    else
      ValidUtf8Upper(verb);
      Ok(Unknown(ToAsciiUpper(verb), args))
  }

  /** `Unknown::verb`. */
  function UnknownVerb(u: Unknown): (v: Bytes) {
    u.verb
  }

  /** The verb of a parsed unknown command is the line's verb upper-cased:
      space-free UTF-8 that upper-casing leaves as it is. */
  lemma ParsedUnknownVerb(line: Bytes)
    requires ParseUnknown(line).Ok?
    ensures var v := UnknownVerb(ParseUnknown(line).value);
            && v == ToAsciiUpper(SplitAtSpace(line).0)
            && ValidUtf8(v) && SP !in v
            && ToAsciiUpper(v) == v
  {
    ToAsciiUpperIdempotent(SplitAtSpace(line).0);
  }
}
