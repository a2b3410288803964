# SMTP session observer, modelled in Dafny

This project models the core of `envoy-smtp-filter`: the SMTP session that
watches the byte stream between a mail client (downstream) and a mail
server (upstream) and rebuilds protocol meaning from it. The model covers:

- the line reader `next_line`, which splits a buffer at its first `<CR><LF>`;
- the command parser `Command::try_from`, the argument constructors of the
  twelve verbs (HELO, EHLO, MAIL, RCPT, DATA, RSET, VRFY, EXPN, HELP, NOOP,
  QUIT, STARTTLS) and the parser of unknown commands;
- the reply parser: reply codes with their three digits (section 4.2 of
  RFC 5321), reply lines with the `-` continuation marker, and multi-line
  replies whose code is the code of their first line;
- the session state machine: `on_new_conection`, `on_downstream_data`,
  `on_upstream_data`, `next_body`, `next_reply`, `handle_reply`, `fallback`
  and the per-command reply effects.

The session is a value. Every operation is a pure function that returns the
new session and a status. `Failed` means a notification-sink failure handed
back to the host. The notification sink is an external capability. It is
modelled as a function `sink(history, event)` saying whether a call
succeeds. Every call the session makes is recorded, in order, in the
session's `events`, whether or not it succeeds. This makes "what was
reported" a checkable property of the model.

Each drain loop is split into a single turn (`DownstreamStep`,
`UpstreamStep`) and a recursion over it (`DrainDownstream`,
`DrainUpstream`) that terminates because the buffer shrinks on every turn
that goes on.

Files:

- `wrappers.dfy`: `Option` and `Result`.
- `bytes.dfy`: bytes, ASCII upper-casing, the first-space split, and UTF-8
  well-formedness (section 4 of RFC 3629).
- `line_reader.dfy`: the line reader.
- `verbs.dfy`, `unknown.dfy`, `commands.dfy`: the command parser.
- `replies.dfy`: the reply parser.
- `session.dfy`: the state machine.
- `session_props.dfy`: properties that relate several calls. These are:
  - FIFO correlation of replies;
  - `PassThrough` is absorbing;
  - body framing;
  - independence from how the stream is cut into chunks;
  - fallback on malformed input and on sink failures;
  - the session invariant;
  - reading a reply back from the wire.
- `scenarios.dfy`: whole exchanges, from the greeting through a complete
  mail transaction, STARTTLS, a rejected command and a malformed verb.

## Behaviour worth noting

- A new connection notifies the sink first and queues the greeting only
  when that call succeeds (session.rs:109-113).
- Falling back sets `PassThrough` only after the parse-error notification
  succeeds; when that call fails, the failure is handed back and the mode
  is left as it was (session.rs:192-193).
- A sink failure while reporting a reply is not handed back to the host:
  the upstream loop turns it into a fallback (session.rs:170-173).
- A command is queued only after its notification succeeds; a refused
  notification is handed back with the command consumed and not queued
  (session.rs:128-129).
- When the commit notification fails, the transaction has already been
  queued and removed from `active`, and the mode stays `Data`
  (session.rs:139-147).
- A `.` line ends a body only when the body already holds something
  (session.rs:208). A `.` sent right after the 354 reply is the first body
  line, not a terminator. The terminator line is kept at the end of the
  committed body.

## Model

| member | source | states |
|---|---|---|
| LineReader.FindCrLf | src/smtp/agent/session.rs:274 | finds nothing exactly when the buffer holds no `<CR><LF>`; otherwise the index of the first one |
| LineReader.NextLine | src/smtp/agent/session.rs:273-282 | nothing exactly when there is no terminator; otherwise the buffer is the line, `<CR><LF>` and the rest, and the line holds no terminator |
| LineReader.NextLineOfFramed | src/smtp/agent/session.rs:273-282 | a terminator-free line followed by `<CR><LF>` is read back exactly, whatever follows (framing round trip) |
| LineReader.NextLineExtend | src/smtp/agent/session.rs:273-282 | bytes arriving after a complete line do not change the line read, only the rest |
| Bytes.ToAsciiUpper | src/smtp/agent/command.rs:74 | same length; lower-case ASCII letters are raised by 0x20, every other byte (non-ASCII included) is unchanged, no lower-case letter is left |
| Bytes.ToAsciiUpperIdempotent | src/smtp/agent/command.rs:74 | upper-casing twice is upper-casing once |
| Bytes.SplitAtSpace | src/smtp/agent/command.rs:68-71 | the verb holds no space; with a space, the line is verb, space and arguments; without one, it is all verb and the arguments are empty |
| Bytes.SplitAtSpaceOfJoin | src/smtp/agent/command.rs:68-71 | a space-free verb joined to any arguments by a space splits back into exactly that verb and those arguments |
| Bytes.AsciiIsUtf8 | src/smtp/agent/command.rs:73 | every ASCII verb passes the UTF-8 check |
| Bytes.ValidUtf8Upper | src/smtp/agent/command.rs:73-74 | upper-casing neither creates nor destroys UTF-8 well-formedness |
| UnknownCommand.ParseUnknown | src/smtp/spec/unknown.rs:35-49 | succeeds exactly when the verb is UTF-8; keeps the upper-cased verb and the raw arguments; the verb is space-free UTF-8 |
| UnknownCommand.ParsedUnknownVerb | src/smtp/spec/unknown.rs:35-55 | the verb an unknown command reports is the line's verb upper-cased: space-free UTF-8 that upper-casing leaves unchanged |
| Verbs.ParseHelo | src/smtp/spec/core/helo.rs:30-34 | never fails; the domain is the whole argument |
| Verbs.ParseEhlo | src/smtp/spec/core/ehlo.rs:30-34 | never fails; the domain is the whole argument |
| Verbs.ParseMail | src/smtp/spec/core/mail.rs:32-37 | never fails; the reverse path is the whole argument and no parameters are split off |
| Verbs.ParseRcpt | src/smtp/spec/core/rcpt.rs:34-39 | never fails; the forward path is the whole argument and no parameters are split off |
| Verbs.ParseVrfy | src/smtp/spec/core/vrfy.rs:30-34 | never fails; keeps the whole argument |
| Verbs.ParseExpn | src/smtp/spec/core/expn.rs:32-36 | never fails; keeps the whole argument |
| Verbs.ParseHelp | src/smtp/spec/core/help.rs:30-38 | never fails; no command name exactly when the argument is empty, otherwise the whole argument |
| Verbs.ParseNoop | src/smtp/spec/core/noop.rs:32-40 | never fails; no comment exactly when the argument is empty, otherwise the whole argument |
| Commands.Verb | src/smtp/agent/command.rs:45-61 | a known command's verb is in the verb table |
| Commands.ParseCommand | src/smtp/agent/command.rs:67-91 | fails exactly when the verb is not UTF-8; the result is an unknown command exactly when the upper-cased verb is outside the table |
| Commands.Dispatch | src/smtp/agent/command.rs:76-90 | a table verb gives its own variant, reporting that verb and keeping the arguments; any other verb succeeds exactly when the unknown-command parser does and gives its result |
| Commands.ParsedVerbAndArgs | src/smtp/agent/command.rs:67-91 | the reported verb of a parsed command is the upper-cased verb of its line, and a command that keeps arguments keeps exactly the bytes after the first space |
| Commands.ParseIgnoresVerbCase | src/smtp/agent/command.rs:73-76 | lines whose verbs agree after upper-casing and whose arguments agree parse identically |
| Commands.ArgumentlessDropArgs | src/smtp/agent/command.rs:81-88 | DATA, RSET, QUIT and STARTTLS parse the same with or without trailing arguments |
| Commands.RenderSplits | src/smtp/agent/command.rs:68-71 | a well-formed command's line splits back into its verb and its arguments |
| Commands.RenderedVerbAccepted | src/smtp/agent/command.rs:73-74 | the verb of a well-formed command passes the UTF-8 check and is its own upper-casing |
| Commands.DispatchOwnVerb | src/smtp/agent/command.rs:76-90 | the verb table sends every well-formed command's verb and arguments back to that same command |
| Commands.ParseRender | src/smtp/agent/command.rs:64-91 | parsing is a left inverse of rendering for every well-formed command, all twelve verbs and unknown commands |
| Commands.ParsedIsWellFormed | src/smtp/agent/command.rs:67-91 | every parsed command is well formed, so rendering and re-parsing it is stable |
| Replies.ReplyTypeDigit | src/smtp/spec/core/reply.rs:68-79 | a reply type displays as a digit `2` to `5` |
| Replies.ParseReplyType | src/smtp/spec/core/reply.rs:81-94 | accepts exactly `2` to `5`; displays back to the same digit; positive exactly for `2` and `3` |
| Replies.PositiveBelowFour | src/smtp/spec/core/reply.rs:58-66 | the 2yz and 3yz reply types, the positive ones, are exactly those displayed below `4` |
| Replies.ReplyCategoryDigit | src/smtp/spec/core/reply.rs:107-120 | a category displays as a digit `0` to `5` |
| Replies.ParseReplyCategory | src/smtp/spec/core/reply.rs:122-137 | accepts exactly `0` to `5`; displays back to the same digit |
| Replies.ReplyGradationDigit | src/smtp/spec/core/reply.rs:143-147 | a gradation displays as a digit `0` to `9` |
| Replies.ParseReplyGradation | src/smtp/spec/core/reply.rs:149-158 | accepts exactly `0` to `9`, with the digit's decimal value, and displays back to the same digit |
| Replies.FormatReplyCode | src/smtp/spec/core/reply.rs:174-178 | a displayed code is three valid digits |
| Replies.ParseReplyCode | src/smtp/spec/core/reply.rs:180-199 | succeeds exactly on three bytes that are valid digits for their positions; positive exactly when the first is `2` or `3` |
| Replies.ParseFormatReplyCode | src/smtp/spec/core/reply.rs:174-199 | parsing a displayed code gives the code back |
| Replies.FormatParseReplyCode | src/smtp/spec/core/reply.rs:174-199 | displaying a parsed code gives the three input bytes back |
| Replies.ParseReplyLine | src/smtp/spec/core/reply.rs:212-236 | succeeds exactly on a valid code followed by nothing, a space or a hyphen; last exactly for nothing or a space; the text is everything after the fourth byte |
| Replies.ParseFormatReplyLine | src/smtp/spec/core/reply.rs:212-236 | parsing a formatted reply line gives the line back |
| Replies.FormatParseReplyLine | src/smtp/spec/core/reply.rs:212-236 | a parsed line with a separator formats back to its input |
| Replies.ParseReplyLineAsWritten | src/smtp/spec/core/reply.rs:212-236 | the source as written panics exactly on a valid three-byte code with nothing after it |
| Replies.BareCodeLinePanics | src/smtp/spec/core/reply.rs:219-222 | the line `250` panics as written, while the intended separator match takes it as a last line with empty text |
| Replies.AsWrittenAgreesElsewhere | src/smtp/spec/core/reply.rs:212-236 | on every other line the source as written and the model agree |
| Replies.Lines | src/smtp/spec/core/reply.rs:24-26 | a reply has at least one line, its first line first |
| Replies.NewReply | src/smtp/spec/core/reply.rs:29-31 | a new reply holds exactly its one line |
| Replies.Append | src/smtp/spec/core/reply.rs:33-35 | appending adds the line at the end and keeps the code |
| Replies.Code | src/smtp/spec/core/reply.rs:37-46 | the code of a reply is the code of its first line |
| SmtpSession.OnNewConnection | src/smtp/agent/session.rs:109-113 | one connect report; succeeds exactly when the sink accepts it; the greeting is queued on success only; nothing else changes |
| SmtpSession.Fallback | src/smtp/agent/session.rs:187-195 | one parse-error report; succeeds exactly when the sink accepts it; `PassThrough` on success, mode unchanged on failure; nothing else changes |
| SmtpSession.NextBody | src/smtp/agent/session.rs:204-219 | no byte is lost or duplicated (old body and buffer are new body and buffer); a complete body ends in `.<CR><LF>`, is longer than that line and empties the accumulator; an unfinished one leaves no complete line behind |
| SmtpSession.GetOrCreate | src/smtp/agent/session.rs:139-141 | the active transaction when there is one, otherwise the default transaction: no sender, no recipients, empty body |
| SmtpSession.CommitBody | src/smtp/agent/session.rs:138-148 | the transaction (the active one, or a default one) gets the body and joins the queue after everything pending; `active` becomes empty; one commit report; the loop goes on in `Command` exactly when the sink accepts that report, and otherwise stops with `Failed` in the same mode; nothing else changes |
| SmtpSession.BodyTurn | src/smtp/agent/session.rs:136-151 | a turn in `Data` that goes on shrinks the buffer and returns to `Command`; a stop keeps the mode and, unless it failed, leaves no complete line; a failure is one refused report |
| SmtpSession.CommandTurn | src/smtp/agent/session.rs:126-134 | a line that does not parse falls back, and only such a line does; a parsed command is reported by its verb, and is queued with the turn going on exactly when the sink accepts that report; a refused report stops with `Failed`, the command consumed and not queued; nothing else changes |
| SmtpSession.LineTurn | src/smtp/agent/session.rs:125-135 | a complete line that does not parse is consumed and the session falls back; a stop that neither fails nor falls back changes nothing and leaves no complete line; a mode change is only the fallback, with its one parse-error report; a failure is one refused report; a turn that goes on shrinks the buffer and keeps the mode |
| SmtpSession.DownstreamStep | src/smtp/agent/session.rs:122-155 | a turn that goes on shrinks the buffer; no turn touches the upstream side or removes a report or a queued entry; a stop without failure while interpreting leaves no complete line; a complete command line that does not parse is consumed and the session falls back, and that is the only way the turn leaves interpretation; a failure is one refused sink call, with the mode unchanged |
| SmtpSession.DrainDownstream | src/smtp/agent/session.rs:122-155 | the upstream side is untouched; reports and queued entries are only added; a run that ends without failure while interpreting leaves no complete line |
| SmtpSession.OnDownstreamData | src/smtp/agent/session.rs:115-156 | in `PassThrough` nothing changes, not even the buffer; bytes that complete no line are only buffered; the upstream side is untouched; reports and queued entries are only added at the end; the body stays at a line boundary; a call that ends without failure while interpreting leaves no complete line |
| SmtpSession.Extend | src/smtp/agent/session.rs:228-232 | the reply being assembled gains the line at the end and keeps its code |
| SmtpSession.NextReply | src/smtp/agent/session.rs:221-240 | a complete reply is complete, starts with the lines already assembled and keeps their code, and leaves nothing being assembled; nothing complete leaves no complete line behind; an open partial reply stays open; a complete line that does not parse is consumed and reported as an error, with the reply being assembled kept |
| SmtpSession.ApplyCommandReply | src/smtp/agent/session.rs:288-437 | only the mode and the active transaction change, and only on a positive reply; HELO, EHLO and RSET drop the transaction; MAIL sets the sender; RCPT appends a recipient; DATA empties the body and enters `Data`; a positive reply to STARTTLS or to an unknown command enters `PassThrough` and keeps the transaction; only DATA, STARTTLS and unknown commands change the mode |
| SmtpSession.HandleReply | src/smtp/agent/session.rs:242-270 | with nothing pending it fails and changes nothing; otherwise it pops the front, reports the reply against it, succeeds exactly when the sink accepts, and applies the effect for that entry: an accepted greeting reply only enters `Command`, a command reply has the command's effect, a commit reply changes neither the mode nor the transaction |
| SmtpSession.ReplyEvent | src/smtp/agent/session.rs:247-262 | the report kind matches the pending entry (greeting, command, commit), carries the reply's code, and a command's report names that command's verb |
| SmtpSession.UpstreamStep | src/smtp/agent/session.rs:165-180 | a turn that goes on shrinks the buffer; no turn touches the downstream side; queued entries leave only from the front; an open partial reply stays open; a malformed reply line falls back; a complete reply lets the loop go on exactly when something is pending and its report is accepted, and otherwise falls back; a failure is only ever a refused parse-error report, with the mode unchanged |
| SmtpSession.DrainUpstream | src/smtp/agent/session.rs:165-180 | the downstream side is untouched; a prefix of the queue is removed; a run that ends without failure while interpreting leaves no complete line |
| SmtpSession.OnUpstreamData | src/smtp/agent/session.rs:158-181 | in `PassThrough` nothing changes; bytes that complete no line are only buffered; the downstream side is untouched; reports are only added at the end and queued entries leave only from the front; an open partial reply stays open; a call that ends without failure while interpreting leaves no complete line |
| SessionProperties.UpstreamFifo | src/smtp/agent/session.rs:242-270 | the reply reports made while draining answer exactly the removed prefix of the queue, one for one and in order |
| SessionProperties.FifoStops | src/smtp/agent/session.rs:165-180 | when the loop stops at its first turn, it has made at most one reply report, and that report answers the front of the queue |
| SessionProperties.FallbackReportsNoReply | src/smtp/agent/session.rs:187-195 | falling back makes no reply report and leaves the queue alone |
| SessionProperties.ReplyWithNothingPending | src/smtp/agent/session.rs:265-268 | a complete reply with nothing pending gives one parse-error report and no reply report, and ends interpretation exactly when that report succeeds |
| SessionProperties.PassThroughAbsorbing | src/smtp/agent/session.rs:115-181 | once in `PassThrough` a session stays there, and data in either direction changes nothing |
| SessionProperties.DotEndsNonEmptyBody | src/smtp/agent/session.rs:204-219 | a `.` line ends a non-empty body, is kept at its end, and empties the accumulator |
| SessionProperties.DotDoesNotEndEmptyBody | src/smtp/agent/session.rs:208 | a `.` line at the start of a body joins it and does not end it |
| SessionProperties.OtherLineJoinsBody | src/smtp/agent/session.rs:206-214 | any other line joins the body with its terminator |
| SessionProperties.CommitCarriesBody | src/smtp/agent/session.rs:136-149 | a complete body queues the active transaction, holding that body, after whatever was pending, and the commit is the first report |
| SessionProperties.NextBodyExtend | src/smtp/agent/session.rs:204-219 | reading a body from a longer buffer resumes where the shorter one stopped, or gives the same body with the extra bytes left over |
| SessionProperties.NextReplyExtend | src/smtp/agent/session.rs:221-240 | reading replies from a longer buffer resumes where the shorter one stopped, or gives the same outcome with the extra bytes left over |
| SessionProperties.DownstreamStepExtend | src/smtp/agent/session.rs:122-155 | one downstream turn on a longer buffer goes on, fails, stops or resumes exactly as on the shorter one; a failing turn keeps the extra bytes buffered |
| SessionProperties.DrainDownstreamChunks | src/smtp/agent/session.rs:115-156 | draining and then receiving more equals draining everything at once, except for bytes dropped after interpretation ended; a drain that fails fails the same way on the longer buffer, with the extra bytes kept |
| SessionProperties.DownstreamChunking | src/smtp/agent/session.rs:115-156 | client bytes delivered in two chunks give the same session and status as one delivery, at any cut point, except for bytes dropped after interpretation ended; when the first chunk fails, one delivery fails the same way with the second chunk left buffered |
| SessionProperties.UpstreamStepExtend | src/smtp/agent/session.rs:165-180 | one upstream turn on a longer buffer goes on, fails, stops or resumes exactly as on the shorter one; a failing turn keeps the extra bytes buffered |
| SessionProperties.DrainUpstreamChunks | src/smtp/agent/session.rs:158-181 | draining server bytes and then receiving more equals draining everything at once, except for bytes dropped after interpretation ended; a failing drain fails the same way, with the extra bytes kept |
| SessionProperties.UpstreamChunking | src/smtp/agent/session.rs:158-181 | server bytes delivered in two chunks give the same session and status as one delivery, at any cut point, except for bytes dropped after interpretation ended; when the first chunk fails, one delivery fails the same way with the second chunk left buffered |
| SessionProperties.RunKeepsValid | src/smtp/agent/session.rs:109-181 | any sequence of host calls from a valid session keeps it valid |
| SessionProperties.ReachableIsValid | src/smtp/agent/session.rs:92-103 | every session reachable from a new one has an open partial reply and a body ending at a line boundary |
| SessionProperties.ReadWireLine | src/smtp/agent/session.rs:221-240 | one formatted line is added to the reply being assembled, and completes it when it is a last line |
| SessionProperties.ExtendAllLines | src/smtp/spec/core/reply.rs:29-35 | extending line by line appends the lines in order |
| SessionProperties.ExtendAllCode | src/smtp/spec/core/reply.rs:29-46 | a reply assembled line by line keeps the code of its first line, whatever later lines say |
| SessionProperties.ReadWireLines | src/smtp/agent/session.rs:221-240 | the reader takes a wire reply line by line and stops right after its last line |
| SessionProperties.ReadWireReply | src/smtp/agent/session.rs:221-240 | reading a reply from the wire inverts writing it: the reply comes back complete with the lines sent, and nothing after it is consumed |
| SessionProperties.BadCommandFallsBack | src/smtp/agent/session.rs:126-133 | a complete command line that does not parse is consumed and the session falls back, whatever follows it; the loop ends there |
| SessionProperties.CommandRefused | src/smtp/agent/session.rs:126-129 | a parsed command whose report the sink refuses is consumed and reported but not queued; the failure is handed back and the rest of the buffer is kept |
| SessionProperties.CommitRefused | src/smtp/agent/session.rs:136-146 | a complete body whose commit report the sink refuses is still committed and queued, `active` emptied; the failure is handed back and the session stays in `Data` |
| SessionProperties.BadReplyLineFallsBack | src/smtp/agent/session.rs:165-176 | a complete reply line that does not parse is consumed and the session falls back, keeping the reply being assembled; the loop ends there |
| SessionProperties.BadLineAfterContinuations | src/smtp/agent/session.rs:221-240 | after any number of continuation lines, a line that does not parse is consumed and reported as an error, and the reply being assembled holds exactly the continuation lines read |
| SessionProperties.RefusedReplyFallsBack | src/smtp/agent/session.rs:168-173 | a complete reply whose report the sink refuses is reported, its pending entry consumed, then the parse error is reported; interpretation ends, and the call succeeds, exactly when that second report is accepted |
| Scenarios.SendCommand | src/smtp/agent/session.rs:125-132 | a command line arriving alone is reported by its verb and queued, and nothing else changes |
| Scenarios.CommandLineStep | src/smtp/agent/session.rs:126-130 | one complete, parsable, successfully reported line is consumed and its command queued |
| Scenarios.DownstreamIdle | src/smtp/agent/session.rs:132 | with no complete line buffered while commands are expected, the downstream loop stops at once and nothing changes |
| Scenarios.ReceiveReply | src/smtp/agent/session.rs:165-176 | a reply of any number of lines arriving alone is handled as that one reply, and nothing stays buffered |
| Scenarios.OneLineReply | src/smtp/agent/session.rs:165-176 | a one-line reply arriving alone, with something pending and the sink accepting, is handled as exactly that reply |
| Scenarios.CommandReply | src/smtp/agent/session.rs:252-257 | the one-line reply to the only pending command is reported with that command's verb, empties the queue and has the command's reply effect |
| Scenarios.UpstreamIdle | src/smtp/agent/session.rs:174 | with nothing buffered the upstream loop stops at once |
| Scenarios.Greeting | src/smtp/agent/session.rs:247-251 | a new connection and its 220 greeting give two reports and switch to commands |
| Scenarios.CommandThenReply | src/smtp/agent/session.rs:252-257 | a command and its one-line reply give two reports and the command's reply effect |
| Scenarios.AcceptedMail | src/smtp/agent/session.rs:329-340 | MAIL accepted with 250 records the sender |
| Scenarios.AcceptedRcpt | src/smtp/agent/session.rs:342-354 | RCPT accepted with 250 appends the recipient |
| Scenarios.AcceptedData | src/smtp/agent/session.rs:356-368 | DATA accepted with 354 empties the body and switches to `Data` |
| Scenarios.OpenTransaction | src/smtp/agent/session.rs:329-368 | MAIL, RCPT and DATA, each accepted, leave a transaction holding the sender and the recipient, in `Data`, with six reports in order |
| Scenarios.OneLineBody | src/smtp/agent/session.rs:204-219 | one body line and the terminator line form a complete body that uses up the buffer |
| Scenarios.BodyCommits | src/smtp/agent/session.rs:136-149 | that body commits the transaction, queues it, reports the commit and returns to commands |
| Scenarios.SendBody | src/smtp/agent/session.rs:258-262 | the 250 reply to the commit is reported and empties the queue, with nothing else changing |
| Scenarios.StartTlsEndsInspection | src/smtp/agent/session.rs:415-423 | STARTTLS accepted with 220 ends interpretation, and later bytes either way change nothing |
| Scenarios.RejectedMailChangesNothing | src/smtp/agent/session.rs:329-340 | MAIL rejected with 550 leaves everything but the reports as it was |
| Scenarios.InvalidVerbFallsBack | src/smtp/agent/session.rs:126-133 | for any line whose verb is not UTF-8 and any sink: the line is consumed, nothing is queued, one parse-error report is made, and interpretation ends exactly when the sink accepts that report, which is also exactly when the call succeeds |

## Left out

- The statistics sink (`src/stats.rs`, `src/smtp/agent/stats.rs`) is replaced by the abstract `sink` function. Its counters, metric names and the "detailed stats" switch are not modelled.
- The Envoy filter, the factory, the configuration parser and the WebAssembly entry point are host glue. They only forward calls to the session.
- Logging (`log::debug!`, `log::error!`) and the text of error messages are left out. An error carries no message.
- `Session::mode` is a plain field read and has no separate member.
- `reset` (session.rs:183-185) is inlined into `ApplyCommandReply`.
- The default code `Reply::code` returns for a reply without lines cannot occur in the model. A `Reply` holds its first line structurally, and the source never builds an empty one.
- Integer widths: `ReplyGradation` is a Rust `u8` but is only ever built from a decimal digit, so it is modelled as 0..9. Buffer lengths are unbounded.
- The verb constants of DATA, RSET, QUIT and STARTTLS live in files that are not part of this model. They are taken to be the verbs `DATA`, `RSET` and `QUIT` of section 4.1.1 of RFC 5321 and `STARTTLS` of section 4 of RFC 3207.
- Dot-unstuffing of body lines is not done by the source and is not modelled.
- `Mail` and `Rcpt` parameters are never split off by the source. The model keeps the field, always empty.
- A Rust panic on out-of-memory is not modelled. The panic on a three-byte reply line is modelled separately, as a finding.
- SessionProperties.UpstreamFifo: covers one drain, not a whole run. The reports of later calls are chained through `Run` by the caller.

## Findings

| source | as written | input that shows it | evidently intended | confidence | as-written member | corrected member |
|---|---|---|---|---|---|---|
| src/smtp/spec/core/reply.rs:219-222 | after the three code bytes are drained, `drain(0..1)` is called on the now empty vector, which panics because its range ends past the vector's length | the server sends the reply line `250<CR><LF>`: a valid code with no separator and no text | the match arm for an absent separator: a three-byte line is a last line with empty text | not executed; high (the arm for an empty separator is otherwise unreachable) | Replies.ParseReplyLineAsWritten (shown by Replies.BareCodeLinePanics) | Replies.ParseReplyLine (proved by Replies.ParseFormatReplyLine and Replies.AsWrittenAgreesElsewhere); the session uses it |
