/** SMTP replies: the three-digit reply code of section 4.2 of RFC 5321 (the
    first digit the reply type, the second its category, the third a
    gradation, as listed in section 4.2.1), single reply lines with their
    `-` continuation marker, and multi-line replies whose code is the code of
    their first line. */
module Replies {

  import opened Wrappers
  import opened Bytes

  // ---------------------------------------------------------------------------
  // First digit: reply type

  datatype ReplyType =
    | PositiveCompletion
    | PositiveIntermediate
    | TransientNegativeCompletion
    | PermanentNegativeCompletion

  /** `is_positive`: the 2yz and 3yz classes. */
  predicate IsPositive(t: ReplyType) {
    t.PositiveCompletion? || t.PositiveIntermediate?
  }

  /** The positive types are exactly those displayed below `4`. */
  lemma PositiveBelowFour(t: ReplyType)
    ensures IsPositive(t) <==> ReplyTypeDigit(t) < Ch('4')
  {
  }

  /** The digit a reply type is displayed as. */
  function ReplyTypeDigit(t: ReplyType): (d: byte)
    ensures Ch('2') <= d <= Ch('5')
  {
    match t
    case PositiveCompletion => Ch('2')
    case PositiveIntermediate => Ch('3')
    case TransientNegativeCompletion => Ch('4')
    case PermanentNegativeCompletion => Ch('5')
  }

  /** Reply type of the first code digit: exactly `2`..`5` are accepted, and
      the two positive types are exactly the digits `2` and `3`. */
  function ParseReplyType(octet: byte): (r: Result<ReplyType>)
    ensures r.Ok? <==> Ch('2') <= octet <= Ch('5')
    ensures r.Ok? ==> ReplyTypeDigit(r.value) == octet
    ensures r.Ok? ==> (IsPositive(r.value) <==> octet == Ch('2') || octet == Ch('3'))
  {
    if octet == Ch('2') then Ok(PositiveCompletion)
    else if octet == Ch('3') then Ok(PositiveIntermediate)
    else if octet == Ch('4') then Ok(TransientNegativeCompletion)
    else if octet == Ch('5') then Ok(PermanentNegativeCompletion)
    else Err
  }

  // ---------------------------------------------------------------------------
  // Second digit: category

  datatype ReplyCategory = Syntax | Information | Connections | X3Z | X4Z | MailSystem

  function ReplyCategoryDigit(c: ReplyCategory): (d: byte)
    ensures Ch('0') <= d <= Ch('5')
  {
    match c
    case Syntax => Ch('0')
    case Information => Ch('1')
    case Connections => Ch('2')
    case X3Z => Ch('3')
    case X4Z => Ch('4')
    case MailSystem => Ch('5')
  }

  /** Category of the second code digit: exactly `0`..`5` are accepted. */
  function ParseReplyCategory(octet: byte): (r: Result<ReplyCategory>)
    ensures r.Ok? <==> Ch('0') <= octet <= Ch('5')
    ensures r.Ok? ==> ReplyCategoryDigit(r.value) == octet
  {
    if octet == Ch('0') then Ok(Syntax)
    else if octet == Ch('1') then Ok(Information)
    else if octet == Ch('2') then Ok(Connections)
    else if octet == Ch('3') then Ok(X3Z)
    else if octet == Ch('4') then Ok(X4Z)
    else if octet == Ch('5') then Ok(MailSystem)
    else Err
  }

  // ---------------------------------------------------------------------------
  // Third digit: gradation

  type Digit = d: int | 0 <= d <= 9

  datatype ReplyGradation = ReplyGradation(value: Digit)

  function ReplyGradationDigit(g: ReplyGradation): (d: byte)
    ensures Ch('0') <= d <= Ch('9')
  {
    Ch('0') + g.value as byte
  }

  /** Gradation of the third code digit: exactly `0`..`9` are accepted, with
      the value of the decimal digit. */
  function ParseReplyGradation(octet: byte): (r: Result<ReplyGradation>)
    ensures r.Ok? <==> Ch('0') <= octet <= Ch('9')
    ensures r.Ok? ==> r.value.value == octet as int - '0' as int
    ensures r.Ok? ==> ReplyGradationDigit(r.value) == octet
  {
    if Ch('0') <= octet <= Ch('9') then Ok(ReplyGradation((octet - Ch('0')) as int)) else Err
  }

  // ---------------------------------------------------------------------------
  // Reply codes

  datatype ReplyCode = ReplyCode(x: ReplyType, y: ReplyCategory, z: ReplyGradation)

  /** The three bytes are a reply code RFC 5321 allows. */
  predicate IsReplyCodeText(b: Bytes) {
    && |b| == 3
    && Ch('2') <= b[0] <= Ch('5')
    && Ch('0') <= b[1] <= Ch('5')
    && Ch('0') <= b[2] <= Ch('9')
  }

  /** The display form of a reply code: its three digits. */
  function FormatReplyCode(c: ReplyCode): (b: Bytes)
    ensures IsReplyCodeText(b)
  {
    [ReplyTypeDigit(c.x), ReplyCategoryDigit(c.y), ReplyGradationDigit(c.z)]
  }

  /** `ReplyCode::try_from`: fails unless the input is exactly three bytes,
      each a valid digit for its position. */
  function ParseReplyCode(b: Bytes): (r: Result<ReplyCode>)
    ensures r.Ok? <==> IsReplyCodeText(b)
    ensures r.Ok? ==> (IsPositive(r.value.x) <==> b[0] == Ch('2') || b[0] == Ch('3'))
  {
    if |b| != 3 then Err
    else
      var x :- ParseReplyType(b[0]);
      var y :- ParseReplyCategory(b[1]);
      var z :- ParseReplyGradation(b[2]);
      Ok(ReplyCode(x, y, z))
  }

  /** Displaying a code and parsing the result gives the code back. */
  lemma {:induction false} ParseFormatReplyCode(c: ReplyCode)
    ensures ParseReplyCode(FormatReplyCode(c)) == Ok(c)
  {
    var b := FormatReplyCode(c);
    match c.x {
      case PositiveCompletion =>
      case PositiveIntermediate =>
      case TransientNegativeCompletion =>
      case PermanentNegativeCompletion =>
    }
    match c.y {
      case Syntax =>
      case Information =>
      case Connections =>
      case X3Z =>
      case X4Z =>
      case MailSystem =>
    }
    assert ParseReplyGradation(b[2]) == Ok(c.z);
  }

  /** Parsing a code and displaying it gives the original three bytes back. */
  lemma {:induction false} FormatParseReplyCode(b: Bytes)
    requires ParseReplyCode(b).Ok?
    ensures FormatReplyCode(ParseReplyCode(b).value) == b
  {
    var c := ParseReplyCode(b).value;
    assert ParseReplyType(b[0]) == Ok(c.x);
    assert ParseReplyCategory(b[1]) == Ok(c.y);
    assert ParseReplyGradation(b[2]) == Ok(c.z);
  }

  // ---------------------------------------------------------------------------
  // Reply lines

  /** One line of a reply: its code, whether it is the last line of the
      reply, and its free text. */
  datatype ReplyLine = ReplyLine(code: ReplyCode, last: bool, text: Bytes)

  const HYPHEN: byte := Ch('-')

  /** `ReplyLine::try_from`. A line shorter than three bytes or with an
      invalid code is an error; the fourth byte, when present, must be a
      space (last line) or a hyphen (more lines follow); the text is
      everything after the fourth byte.

      A line of exactly three bytes is a last line with empty text. This is
      the intent of the source's match arm for an absent separator; the
      source as written panics on such a line instead (see
      `ParseReplyLineAsWritten`). */
  function ParseReplyLine(line: Bytes): (r: Result<ReplyLine>)
    ensures r.Ok? <==> |line| >= 3 && IsReplyCodeText(line[..3]) && (|line| == 3 || line[3] == SP || line[3] == HYPHEN)
    ensures r.Ok? ==> ParseReplyCode(line[..3]) == Ok(r.value.code)
    ensures r.Ok? ==> (r.value.last <==> |line| == 3 || line[3] == SP)
    ensures r.Ok? && |line| > 3 ==> line == line[..3] + [line[3]] + r.value.text
    ensures r.Ok? && |line| == 3 ==> r.value.text == []
  {
    if |line| < 3 then Err
    else
      var code :- ParseReplyCode(line[..3]);
      if |line| == 3 then Ok(ReplyLine(code, true, []))
      else if line[3] == SP then Ok(ReplyLine(code, true, line[4..]))
      else if line[3] == HYPHEN then Ok(ReplyLine(code, false, line[4..]))
      else Err
  }

  /** The wire form of a reply line, with an explicit separator. */
  function FormatReplyLine(l: ReplyLine): (b: Bytes)
    ensures |b| == 4 + |l.text|
  {
    FormatReplyCode(l.code) + [if l.last then SP else HYPHEN] + l.text
  }

  /** Formatting a reply line and parsing it gives the line back. */
  lemma {:induction false} ParseFormatReplyLine(l: ReplyLine)
    ensures ParseReplyLine(FormatReplyLine(l)) == Ok(l)
  {
    var b := FormatReplyLine(l);
    assert b[..3] == FormatReplyCode(l.code);
    ParseFormatReplyCode(l.code);
    assert b[4..] == l.text;
  }

  /** A parsed reply line with a separator formats back to its input. */
  lemma {:induction false} FormatParseReplyLine(line: Bytes)
    requires ParseReplyLine(line).Ok? && |line| > 3
    ensures FormatReplyLine(ParseReplyLine(line).value) == line
  {
    var l := ParseReplyLine(line).value;
    FormatParseReplyCode(line[..3]);
  }

  // ---------------------------------------------------------------------------
  // The source as written, for the three-byte line

  /** What a call can do besides returning: a Rust panic. */
  datatype Outcome<+T> = Returned(result: Result<T>) | Panicked

  /** `ReplyLine::try_from` exactly as written: after the code has been
      drained, `drain(0..1)` is called on what is left, which panics when
      nothing is left. */
  function ParseReplyLineAsWritten(line: Bytes): (r: Outcome<ReplyLine>)
    ensures r.Panicked? <==> |line| == 3 && IsReplyCodeText(line)
  {
    if |line| < 3 then Returned(Err)
    else match ParseReplyCode(line[..3])
      case Err => Returned(Err)
      case Ok(code) =>
        var rest := line[3..];
        if |rest| < 1 then Panicked
        else if rest[0] == SP then Returned(Ok(ReplyLine(code, true, rest[1..])))
        else if rest[0] == HYPHEN then Returned(Ok(ReplyLine(code, false, rest[1..])))
        else Returned(Err)
  }

  /** The reply line `250` (a valid code and nothing else) panics as written,
      while the separator match it never reaches would take it as a last
      line. */
  lemma BareCodeLinePanics()
    ensures ParseReplyLineAsWritten([Ch('2'), Ch('5'), Ch('0')]) == Panicked
    ensures ParseReplyLine([Ch('2'), Ch('5'), Ch('0')])
            == Ok(ReplyLine(ReplyCode(PositiveCompletion, MailSystem, ReplyGradation(0)), true, []))
  {
    var line := [Ch('2'), Ch('5'), Ch('0')];
    assert line[..3] == line;
    assert ParseReplyType(line[0]) == Ok(PositiveCompletion);
    assert ParseReplyCategory(line[1]) == Ok(MailSystem);
    assert ParseReplyGradation(line[2]) == Ok(ReplyGradation(0));
  }

  /** On every other input the source as written and the model agree. */
  lemma {:induction false} AsWrittenAgreesElsewhere(line: Bytes)
    requires !(|line| == 3 && IsReplyCodeText(line))
    ensures ParseReplyLineAsWritten(line) == Returned(ParseReplyLine(line))
  {
    if |line| > 3 {
      assert line[3..][1..] == line[4..];
    }
  }

  // ---------------------------------------------------------------------------
  // Multi-line replies

  /** A reply: one or more lines. Keeping the first line apart makes the
      at-least-one-line invariant structural, so the code of a reply is
      always the code of a line it holds. */
  datatype Reply = Reply(first: ReplyLine, rest: seq<ReplyLine>)

  function Lines(r: Reply): (ls: seq<ReplyLine>)
    ensures |ls| >= 1 && ls[0] == r.first
  {
    [r.first] + r.rest
  }

  /** `Reply::new`: a reply of one line. */
  function NewReply(l: ReplyLine): (r: Reply)
    ensures Lines(r) == [l]
  {
    Reply(l, [])
  }

  /** `Reply::append`: the new line goes at the end, the lines before it and
      the code of the reply stay. */
  function Append(r: Reply, l: ReplyLine): (r': Reply)
    ensures Lines(r') == Lines(r) + [l]
    ensures Code(r') == Code(r)
  {
    Reply(r.first, r.rest + [l])
  }

  /** `Reply::code`: the code of the first line. */
  function Code(r: Reply): (c: ReplyCode)
    ensures c == Lines(r)[0].code
  {
    r.first.code
  }
}
